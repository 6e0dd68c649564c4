# Prompt Monitor — a Dafny model of its core

Prompt Monitor is a browser extension. It watches the prompts a user sends to
ChatGPT and finds the email addresses in them. Before a request leaves the
page, it replaces each email with the placeholder `[EMAIL_ADDRESS]`. It keeps a
history of detections, and a 24-hour list of suppressed ("dismissed") emails
that stop being flagged.

This project models the core of the extension in Dafny and proves properties
of that model:

- **The email detector** (`email_pattern.dfy`, `email_detector.dfy`).
  - The regular expression `/[a-zA-Z0-9._%+-]+@[a-zA-Z0-9.-]+\.[a-zA-Z]{2,}/g` is
    modelled with JavaScript's global-match semantics. Matches are found left
    to right, do not overlap, and each is the longest one that backtracking
    finds at its start.
  - On top of the regex: case-insensitive de-duplication, anonymisation,
    prompt previews, issue creation and the suppression filter.
- **Suppressions as values** (`dismissals.dfy`): pruning expired entries,
  finding an entry, and the list that dismissing an email produces. The stored
  list and the popup's copy are both updated this way.
- **Persistent storage** (`storage.dfy`): a `Store` class with the two storage
  keys.
- **The background worker** (`background.dfy`): a `Coordinator` class that owns
  the store and the in-memory recent issues, and dispatches messages.
- **The in-page fetch interceptor** (`main_world.dfy`): the decision whether a
  request is rewritten, the rewritten body, and the detection event.
- **The popup's reducers** (`issues_slice.dfy`, `ui_slice.dfy`): classes whose
  methods update the popup state in place.
- **Display helpers** (`utils.dfy`): truncation, email masking, remaining time
  and relative time.
- Shared helpers: `wrappers.dfy` (`Option`), `lists.dfy` (filter, subsequence,
  key-based de-duplication), `strings.dfy` (ASCII lowercasing, `split`/`join`,
  literal occurrence, decimal numerals), and `types.dfy` (records and
  constants).

Modelling conventions:
- Clock readings are a parameter `now`.
- Fresh issue identifiers come from a counter `nextId`.
- Storage reads and writes are field reads and writes.
- The popup notification is an out-parameter.
- The interceptor has no consent step and no cancel path: a chat request
  whose prompt has emails is always rewritten. It does not consult the
  suppression list. It de-duplicates emails exactly, without ignoring case.

## Model

| member | source | states |
|---|---|---|
| EmailPattern.MatchAt | src/shared/constants.ts:6 | a match that starts at `i` ends inside the text (the backtracking end is `MatchAtIsLongest`) |
| EmailPattern.MatchAtSound | src/shared/constants.ts:6 | the span `MatchAt` returns matches the pattern |
| EmailPattern.MatchAtComplete | src/shared/constants.ts:6 | every pattern match starting at `i` ends no later than `MatchAt`'s end |
| EmailPattern.MatchAtIsLongest | src/shared/constants.ts:6 | `MatchAt` is empty iff no match starts at `i`; otherwise it is the longest match there, which is what backtracking returns |
| EmailPattern.MatchChars | src/shared/constants.ts:6 | a match uses only pattern characters, contains `@` and starts with a local-part character |
| EmailPattern.NoMatchAround | src/shared/constants.ts:6-9 | text without matches on both sides of an inert string (like the placeholder) has no match |
| EmailPattern.Scan | src/shared/emailDetector.ts:19-22 | the spans of a global match are ordered, non-overlapping and inside the text |
| EmailPattern.ScanIsLeftmostLongest | src/shared/emailDetector.ts:19-22 | the scan takes the leftmost start and then the longest match there, with no match in any gap |
| EmailPattern.LeftmostLongestUnique | src/shared/emailDetector.ts:19-22 | only one span sequence meets the leftmost-longest rule |
| EmailPattern.ScanCharacterised | src/shared/emailDetector.ts:19-22 | a span sequence is leftmost-longest iff it equals the scan |
| EmailPattern.NoMatchScanEmpty | src/shared/emailDetector.ts:19-22 | text without a match yields no spans |
| EmailPattern.ScanEmptyNoMatch | src/shared/emailDetector.ts:19-22 | no spans means the text has no match |
| EmailPattern.ReplaceLeavesNoMatch | src/shared/emailDetector.ts:44-46 | replacing every leftmost-longest match by an inert string leaves no match |
| EmailDetector.DetectEmails | src/shared/emailDetector.ts:19-22 | one text per match, each matching the pattern; empty iff the text has no match (`?? []`) |
| EmailDetector.LeftmostLongestMatches | src/shared/emailDetector.ts:19-22 | every span of a leftmost-longest sequence is a pattern match |
| EmailDetector.DetectEmailsSpec | src/shared/emailDetector.ts:19-22 | the detected emails are the texts of the unique leftmost-longest spans |
| EmailDetector.PlaceholderInert | src/shared/constants.ts:9 | the placeholder holds no pattern character that could join a match |
| EmailDetector.AnonymizeReplacesEachEmail | src/shared/emailDetector.ts:44-46 | the text between emails is kept, and each detected email is replaced by the placeholder |
| EmailDetector.AnonymizeEmails | src/shared/emailDetector.ts:44-46 | each match of the global scan becomes the placeholder; no contract of its own, `AnonymizeReplacesEachEmail`, `AnonymizeLeavesNoEmail`, `NoEmailIff` and `AnonymizeIdempotent` state what it does |
| EmailDetector.AnonymizeLeavesNoEmail | src/shared/emailDetector.ts:44-46 | anonymised text has no match, and detecting on it finds nothing |
| EmailDetector.NoEmailIff | src/shared/emailDetector.ts:19-46 | nothing is detected iff the text has no match iff anonymising leaves the text unchanged |
| EmailDetector.AnonymizeIdempotent | src/shared/emailDetector.ts:44-46 | anonymising twice is anonymising once |
| EmailDetector.GetUniqueEmails | src/shared/emailDetector.ts:29-37 | the filter loop with its `seen` set returns the first email of each lowercase key, in order |
| EmailDetector.UniqueEmails | src/shared/emailDetector.ts:29-37 | de-duplication by lowercase form; no contract of its own, `GetUniqueEmails` is proved to compute it and `UniqueEmailsProperties` states what it keeps |
| EmailDetector.UniqueEmailsProperties | src/shared/emailDetector.ts:29-37 | the result is a subsequence with distinct lowercase keys; every input email is represented ignoring case; it is idempotent |
| EmailDetector.UniqueEmailsKeepFirstCasing | src/shared/emailDetector.ts:29-37 | the casing kept is that of the first occurrence |
| EmailDetector.DetectAndAnonymize | src/shared/emailDetector.ts:53-63 | the anonymised text has no match; it equals the input iff nothing was found; unique emails are empty iff found emails are; every found email is represented among the unique ones |
| EmailDetector.PromptPreview | src/shared/emailDetector.ts:78-79 | a prompt of at most 100 characters is kept; a longer one gives its first 100 characters followed by `...` |
| EmailDetector.CreateIssuesFromEmails | src/shared/emailDetector.ts:72-88 | one issue per unique email, in order, sharing `now`, the URL and the preview, with consecutive fresh ids |
| EmailDetector.CreatedIssuesDistinct | src/shared/emailDetector.ts:81-87 | the created issues carry exactly the unique emails, so no two share a lowercase email |
| EmailDetector.FilterDismissedEmails | src/shared/emailDetector.ts:96-101 | keeps exactly the emails whose lowercase form is not in the set, with multiplicities and order |
| Dismissals.Active | src/shared/storage.ts:37-39 | keeps exactly the entries with `expiresAt > now`, in order; same length means nothing was dropped |
| Dismissals.ActiveOfLive | src/shared/storage.ts:39-44 | pruning a list in which nothing has expired returns it unchanged |
| Dismissals.ActiveProperties | src/shared/storage.ts:37-44 | pruning keeps a list well-formed, and pruning twice is pruning once |
| Dismissals.SubseqWellFormed | src/shared/storage.ts:72-75 | a selection of a well-formed suppression list is well-formed |
| Dismissals.FindDismissal | src/shared/storage.ts:60 | the index of the first entry whose email matches ignoring case, or none iff no entry matches |
| Dismissals.NewDismissal | src/shared/storage.ts:66-70 | a new suppression is lowercase, is made at `now` and lasts exactly 24 hours |
| Dismissals.PrependDismissal | src/shared/storage.ts:72-75 | the new entry comes first, followed by the entries for other emails in order, each as often as it was stored |
| Dismissals.PrependWellFormed | src/shared/storage.ts:66-75 | prepending keeps the list well-formed: lowercase, one entry per email, expiry after creation |
| Dismissals.DismissEffect | src/shared/storage.ts:55-79 | after dismissing, the email is suppressed; entries for other emails survive; only the new entry is added |
| Dismissals.DismissStored | src/shared/storage.ts:55-79 | dismissing against the live entries of a stored list suppresses the email, changes nothing iff it was already suppressed, and keeps a well-formed list well-formed |
| Dismissals.DismissWellFormed | src/shared/storage.ts:55-79 | dismissing keeps the suppressions well-formed |
| Dismissals.DismissIdempotent | src/shared/storage.ts:55-79 | dismissing an email twice at the same time is dismissing it once |
| Dismissals.DismissNoOpIff | src/shared/storage.ts:59-63 | over live entries, dismissing changes nothing iff the email is already suppressed |
| Storage.Store.GetIssues | src/shared/storage.ts:9-12 | the stored history, or `[]` when the key was never written |
| Storage.Store.SaveIssues | src/shared/storage.ts:15-17 | the history is overwritten; the suppressions stay |
| Storage.Store.AddIssues | src/shared/storage.ts:20-25 | the new issues are placed in front of the stored history, and that list is returned |
| Storage.Store.ClearIssues | src/shared/storage.ts:28-30 | the history becomes empty; the suppressions stay |
| Storage.Store.SaveDismissedEmails | src/shared/storage.ts:50-52 | the suppressions are overwritten; the history stays |
| Storage.Store.GetDismissedEmails | src/shared/storage.ts:33-47 | returns the live entries; writes them back only when something expired; keeps well-formedness |
| Storage.Store.DismissEmail | src/shared/storage.ts:55-79 | stores and returns the dismissal result over the live entries; the email is then suppressed; the list is unchanged iff it already was suppressed |
| Storage.Store.IsEmailDismissed | src/shared/storage.ts:82-88 | true iff a live entry matches the email ignoring case; the read prunes expired entries |
| Storage.Store.GetAllStorage | src/shared/storage.ts:91-97 | the stored history and the live suppressions |
| Background.SuppressedKeys | src/background/index.ts:82 | the set of lowercase emails of the given suppressions |
| Background.IssueUrl | src/background/index.ts:95 | the payload URL unless it is empty, then the tab URL |
| Background.ActiveEmails | src/background/index.ts:81-84 | exactly the unique emails with no live suppression |
| Background.RecordKeepsInvariant | src/background/index.ts:95-99 | recording freshly numbered issues keeps every id below the counter, with the new issues heading the history |
| Background.ScanBlocksIff | src/background/index.ts:70-108 | a scan blocks iff some detected email has no live suppression |
| Background.Coordinator.constructor | src/background/index.ts:22 | the worker starts with no recent issues, and its invariant holds |
| Background.Coordinator.HandleGetState | src/background/index.ts:126-137 | the history, the live suppressions and the recent issues; the invariant is kept |
| Background.Coordinator.NotifyPopup | src/background/index.ts:139-152 | the update carries the history and the live suppressions |
| Background.Coordinator.RecordIssues | src/background/index.ts:97-101 | the new issues head the history and become the recent issues; the counter advances past them |
| Background.Coordinator.HandleScanPayload | src/background/index.ts:59-109 | the three outcomes: nothing found; every email suppressed, so nothing is recorded; or issues for the unsuppressed emails are recorded, the id counter advances by their number, and the scan blocks |
| Background.Coordinator.HandleDismissEmail | src/background/index.ts:111-117 | stores the dismissal result, the email becomes suppressed, the history stays, and the answer is a success |
| Background.Coordinator.HandleClearHistory | src/background/index.ts:119-124 | the history and the recent issues become empty; the suppressions are only pruned; the id counter stays |
| Background.Coordinator.OnMessage | src/background/index.ts:24-57 | for a message whose handled type name is never carried by `Other` (`Canonical`): a message without a type, or with an empty one, gets `undefined`; an unknown type gets `null`; both change nothing; each handled type has its handler's answer and effect on the history, the suppressions, the recent issues and the id counter |
| MainWorld.ExtractEmails | src/content/main-world.ts:17-20 | the detected emails without exact repeats, an earlier one occurring before every occurrence of a later one; empty iff there is no match |
| MainWorld.PlaceholderFencedAgainst | src/content/main-world.ts:29 | a detected email cannot overlap the placeholder that replaces it |
| MainWorld.ReplaceStep | src/content/main-world.ts:28-30 | one split-and-join step removes its email and brings back none already removed |
| MainWorld.ReplaceEmails | src/content/main-world.ts:27-30 | the loop replaces each email in turn, and no email occurs in the result |
| MainWorld.ReplaceEach | src/content/main-world.ts:27-30 | the split-and-join fold over the emails in order; no contract of its own, `ReplaceEmails` is proved to compute it and `ReplaceStep` states each step |
| MainWorld.AnonymizeEmails | src/content/main-world.ts:22-32 | the extracted emails, and the text with no literal occurrence of any of them; text without a match is unchanged (a match of the pattern can remain: see Findings) |
| MainWorld.AnonymizeAsWrittenLeaks | src/content/main-world.ts:22-32 | on `a@b.cc qa@b.ccz@d.ee` the extracted emails are `a@b.cc` and `qa@b.ccz`, the replacements give `[EMAIL_ADDRESS] q[EMAIL_ADDRESS]z@d.ee`, which still contains a match; the corrected anonymisation leaves none |
| MainWorld.AnonymizeAllEmails | src/content/main-world.ts:22-32 | the intended anonymisation: no match of the pattern and no extracted email is left, and the text is unchanged iff it has no match |
| MainWorld.IsChatRequest | src/content/main-world.ts:34-39 | true iff the URL ends with one of the two conversation paths |
| MainWorld.RequestUrl | src/content/main-world.ts:46-51 | the string itself, a URL's `href`, or a Request's `url`; no contract of its own |
| MainWorld.ChatEndpointsIntercepted | src/shared/constants.ts:21-24 | both configured chat endpoints are intercepted |
| MainWorld.FindPrompt | src/content/main-world.ts:61-67 | the first message with a parts array, after only messages without one; it throws iff a `null` message comes first, after only messages without parts |
| MainWorld.PromptOf | src/content/main-world.ts:57-68 | reading the prompt throws exactly for a `null` body or when a `null` message comes before the first message with parts; a non-empty prompt comes from a message with parts |
| MainWorld.RewriteFirst | src/content/main-world.ts:79-86 | only the first message with parts is changed, and its parts become the single anonymised text |
| MainWorld.FindPromptAfterRewrite | src/content/main-world.ts:79-86 | after the rewrite, the search finds the same message |
| MainWorld.RewrittenPrompt | src/content/main-world.ts:76-86 | reading the prompt of the rewritten body gives the anonymised text |
| MainWorld.Intercept | src/content/main-world.ts:42-116 | the original request goes out unless it is a chat request with a string body whose prompt has emails; then the rewritten body, with the prompt anonymised as the code does it (`ReplaceEach`, see Findings), goes out and one event carries the original prompt, the emails, the URL and `now` |
| MainWorld.PassThrough | src/content/main-world.ts:53-115 | the conditions under which the original request goes out; no contract of its own, `Intercept` forwards unchanged exactly when it holds |
| IssuesSlice.WithoutEmail | src/store/issuesSlice.ts:112-114 | the issues for other emails, compared ignoring case, in order, each as often as it occurred |
| IssuesSlice.WithoutEmailIdempotent | src/store/issuesSlice.ts:112-114 | removing the same email's issues twice is removing them once |
| IssuesSlice.PopupDismissAgreesWithStore | src/store/issuesSlice.ts:100-109 | for an email not yet suppressed, the popup's list equals the stored one; either way the email ends up suppressed |
| IssuesSlice.IssuesState.constructor | src/store/issuesSlice.ts:17-23 | empty lists, not loading, no error |
| IssuesSlice.IssuesState.UpdateFromBackground | src/store/issuesSlice.ts:63-69 | only the history and the suppressions change |
| IssuesSlice.IssuesState.SetRecentIssues | src/store/issuesSlice.ts:72-74 | only the recent issues change |
| IssuesSlice.IssuesState.ClearError | src/store/issuesSlice.ts:77-79 | only the error is cleared |
| IssuesSlice.IssuesState.FetchPending | src/store/issuesSlice.ts:84-87 | loading, with no error; the lists stay |
| IssuesSlice.IssuesState.FetchFulfilled | src/store/issuesSlice.ts:88-93 | not loading; the three lists come from the response; the error stays |
| IssuesSlice.IssuesState.FetchRejected | src/store/issuesSlice.ts:94-97 | not loading; the error is the failure's message, or `Failed to fetch state` |
| IssuesSlice.IssuesState.DismissFulfilled | src/store/issuesSlice.ts:100-115 | a fresh suppression goes in front of the entries for other emails (no early return); the recent issues for the email go; the history stays; well-formedness is kept |
| IssuesSlice.IssuesState.ClearHistoryFulfilled | src/store/issuesSlice.ts:118-121 | the history and the recent issues become empty; the rest stays |
| UiSlice.UiState.constructor | src/store/uiSlice.ts:12-15 | the issues tab is shown, with the modal open |
| UiSlice.UiState.SetActiveTab | src/store/uiSlice.ts:21-23 | only the tab changes |
| UiSlice.UiState.ToggleModal | src/store/uiSlice.ts:25-27 | the modal flag is negated, so toggling twice restores it; the tab stays |
| UiSlice.UiState.OpenModal | src/store/uiSlice.ts:29-31 | the modal is open whatever it was, so opening is idempotent; the tab stays |
| UiSlice.UiState.CloseModal | src/store/uiSlice.ts:33-35 | the modal is closed whatever it was, so closing is idempotent; the tab stays |
| Utils.SliceEnd | src/lib/utils.ts:47 | the end index `slice` uses: within the string, and the argument itself when it is already in range |
| Utils.Truncate | src/lib/utils.ts:45-48 | a string within the limit is unchanged; a longer one ends in `...`; with a limit of at least 3 it is exactly the limit long, keeps the prefix, and is unchanged iff within the limit; below 3 it exceeds the limit |
| Utils.Repeat | src/lib/utils.ts:56 | `n` copies of the string: length `n` times its length, starting with it and repeating with its length as period |
| Utils.RepeatOne | src/lib/utils.ts:56 | repeating a single character gives nothing but that character |
| Utils.MaskLocal | src/lib/utils.ts:55-57 | a local part of at most 2 characters is kept; a longer one keeps its first and last characters, with `min(len - 2, 5)` masks between |
| Utils.MaskEmailWithoutAt | src/lib/utils.ts:52-53 | an email without `@` is returned unchanged |
| Utils.MaskEmailCases | src/lib/utils.ts:51-60 | an empty domain returns the input; otherwise the result is the masked local part, `@` and the text up to any second `@` |
| Utils.MaskEmailWith | src/lib/utils.ts:51-60 | `maskEmail` for a given mask string; no contract of its own, `MaskEmailWithoutAt` and `MaskEmailCases` state every case |
| Utils.MaskEmailAsWritten | src/lib/utils.ts:51-60 | `maskEmail` with the mask literal as written; `MaskAsWrittenGarbles` states what it produces |
| Utils.MaskEmail | src/lib/utils.ts:51-60 | `maskEmail` with a bullet as the mask; `MaskEmailKeepsShape` states what it produces |
| Utils.MaskAsWrittenGarbles | src/lib/utils.ts:56 | as written, masking lengthens the email and puts a euro sign after its first character |
| Utils.MaskEmailKeepsShape | src/lib/utils.ts:51-60 | with a bullet, masking keeps the domain and the first character; every masked character is a bullet; short local parts keep their length |
| Utils.FormatTimeRemaining | src/lib/utils.ts:31-35 | `expired` iff the expiry has been reached |
| Utils.TimeRemainingMeaning | src/lib/utils.ts:37-41 | the text names hours and minutes below 60, which give the time left rounded down to the minute; hours appear iff there is at least one |
| Utils.FloorTwice | src/lib/utils.ts:17-20 | flooring by `b` and then by `c` is flooring by `b * c` |
| Utils.DivUnique | src/lib/utils.ts:17-20 | the floor quotient is the unique quotient with a remainder in range |
| Utils.FormatRelativeTime | src/lib/utils.ts:13-28 | `just now` iff under a minute; then whole minutes, hours or days under their bounds; the locale date iff a week or more |
| Strings.Lower | src/shared/emailDetector.ts:32 | lowercasing keeps the length and maps each character |
| Strings.LowerIsLowerCase | src/shared/storage.ts:67 | a lowercased string is lowercase, so lowercasing is idempotent |
| Strings.Split | src/content/main-world.ts:29 | the pieces contain no separator, joined with it give back the text, and each cut is at the leftmost occurrence in the rest of the text (no occurrence starts inside a piece but the last) |
| Strings.SplitFromAt | src/content/main-world.ts:29 | the text before the first occurrence of the separator is the first piece, and splitting goes on after that occurrence |
| Strings.Join | src/content/main-world.ts:64 | the pieces with the separator between neighbours; no contract of its own, its partner is `Split`, whose contract is the round trip |
| Strings.ReplaceAll | src/content/main-world.ts:29 | split then join; no contract of its own, `ReplaceAllNoOccurrence`, `ReplaceAllRemoves` and `ReplaceAllKeepsAbsent` state what it does |
| Strings.ReplaceAllNoOccurrence | src/content/main-world.ts:29 | split-and-join of text without the pattern returns the text |
| Strings.ReplaceAllRemoves | src/content/main-world.ts:29 | after split-and-join with a fenced replacement, the pattern no longer occurs |
| Strings.ReplaceAllKeepsAbsent | src/content/main-world.ts:28-30 | a pattern absent before a split-and-join with a fenced replacement stays absent |
| Strings.SplitFromAtChar | src/lib/utils.ts:52 | splitting on a character puts the text before its first occurrence in the first piece |
| Strings.EndsWith | src/content/main-world.ts:36-37 | true iff the string is some string followed by the suffix |
| Strings.DecimalRoundTrip | src/lib/utils.ts:23-41 | a rendered number is a digit string without leading zero that reads back as the number |
| Strings.DecimalInjective | src/lib/utils.ts:23-41 | different numbers render differently |
| Lists.Filter | src/shared/storage.ts:39 | keeps exactly the elements that pass, and is never longer than its input |
| Lists.FilterCount | src/shared/storage.ts:39 | every passing element is kept as often as it occurs, every other one not at all |
| Lists.FilterSubseq | src/shared/storage.ts:39 | the filtered list is a subsequence of the input |
| Lists.FilterSameLength | src/shared/storage.ts:42 | a filter that drops nothing returns its input, which justifies the length test before writing back |
| Lists.DedupeDistinct | src/shared/emailDetector.ts:29-37 | de-duplication leaves distinct keys |
| Lists.DedupeIdempotent | src/shared/emailDetector.ts:29-37 | de-duplicating twice is de-duplicating once |
| Lists.DedupeFirstSeenOrder | src/content/main-world.ts:19 | de-duplication lists the kept elements in the order their keys first occur in the input |

## Left out

- Browser I/O is not modelled: `browser.storage.local`, `runtime.sendMessage` and `onMessage`. Storage is a `Store` object. The popup notification is returned instead of sent. Its failure ("popup not open") is ignored in the source as well.
- `Date.now()` is not modelled. Each handler takes one `now`, although the source reads the clock several times within one handler.
- `generateIssueId` is not modelled. Its format (time, dash, random base-36) is replaced by a counter of fresh numeric ids.
- Concurrency between handlers is not modelled, including the write-on-read in `getDismissedEmails` and the `Promise.all` in `handleGetState`. Handlers run one after another.
- `JSON.parse`/`JSON.stringify` are not modelled. The body arrives parsed, and a parse that throws is `None`. The forwarded body is a value.
- The `fetch` plumbing (`originalFetch.apply`, spreading `init`) is not modelled. The outcome is a `Forward` decision.
- Message parts that are not strings are not modelled. Parts are strings, so `join("\n")` is `Strings.Join`.
- A parsed body that is not an object is not modelled separately. Such values behave like `Body(None)`.
- Lowercasing covers ASCII only. `toLowerCase` on other scripts is not modelled.
- Characters are Unicode scalar values, not UTF-16 code units. `local[0]` and `slice(-1)` differ from JavaScript only outside the Basic Multilingual Plane.
- The `toLocaleDateString` branch of `formatRelativeTime` is not rendered. It is locale-dependent and stays as `LocaleDate(timestamp)`.
- `cn` is not modelled. It calls into class-merging libraries.
- The async thunk bodies are not modelled. They only send messages; their reducers are modelled.
- The debug logging of the interceptor and the worker is not modelled.
- `src/content/index.ts` is not part of this model. It is a DOM alert and a relay.
- `src/hooks/useExtension.ts` and the React components are not part of this model.
- MainWorld.AnonymizeEmails: it is proved to leave no literal occurrence of any extracted email. A match of the pattern can remain afterwards, as the second row of "## Findings" shows.

## Findings

| source | as written | input that shows it | evidently intended | confidence | as-written member | corrected member |
|---|---|---|---|---|---|---|
| src/lib/utils.ts:56 | the mask literal is the three characters U+00E2 U+20AC U+00A2, the UTF-8 bytes of a bullet decoded as Windows-1252 | `alice@example.com` is masked to `a` + three copies of `â€¢` + `e@example.com`: 23 characters instead of 17, with a euro sign after `a` | one bullet U+2022 per masked character, so `a•••e@example.com` has the email's length | high, not executed | Utils.MaskEmailAsWritten, Utils.MaskAsWrittenGarbles | Utils.MaskEmail, Utils.MaskEmailKeepsShape |
| src/content/main-world.ts:27-30 | each extracted email is replaced literally, one after another, so replacing one email can break a later one and expose a new match | `a@b.cc qa@b.ccz@d.ee` yields the matches `a@b.cc` and `qa@b.ccz`; replacing `a@b.cc` everywhere rewrites the copy inside `qa@b.ccz`, and the forwarded prompt is `[EMAIL_ADDRESS] q[EMAIL_ADDRESS]z@d.ee`, which still contains the email `z@d.ee` | no email is left in the forwarded prompt, as `text.replace(EMAIL_REGEX, "[EMAIL_ADDRESS]")` gives | high, not executed | MainWorld.AnonymizeEmails, MainWorld.AnonymizeAsWrittenLeaks | MainWorld.AnonymizeAllEmails |
