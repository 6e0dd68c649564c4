/**
 * The detector shared by the background worker: finding the emails of a
 * prompt, removing case-insensitive duplicates, replacing every email by
 * the placeholder, building issues and dropping suppressed emails.
 */
module EmailDetector {
  import opened Lists
  import opened Strings
  import opened Types
  import opened EmailPattern

  /** The text of each span, in order. */
  function SpanTexts(s: string, sp: seq<Span>): (r: seq<string>)
    requires Ordered(sp, 0, |s|)
    ensures |r| == |sp|
  {
    seq(|sp|, k requires 0 <= k < |sp| => s[sp[k].start..sp[k].end])
  }

  /** Every span of a leftmost-longest sequence is a match. */
  lemma {:induction false} LeftmostLongestMatches(s: string, i: nat, sp: seq<Span>)
    requires LeftmostLongest(s, i, sp)
    ensures forall k :: 0 <= k < |sp| ==> sp[k].start < sp[k].end <= |s| && MatchesPattern(s[sp[k].start..sp[k].end])
    decreases |sp|
  {
    if sp != [] {
      LeftmostLongestMatches(s, sp[0].end, sp[1..]);
      forall k | 0 < k < |sp| ensures sp[k] == sp[1..][k - 1] { }
    }
  }

  /**
   * `text.match(EMAIL_REGEX) ?? []`: the texts of the leftmost-longest,
   * non-overlapping matches, in text order, duplicates kept.
   */
  function DetectEmails(text: string): (r: seq<string>)
    ensures |r| == |Scan(text, 0)|
    ensures forall k :: 0 <= k < |r| ==> MatchesPattern(r[k])
    ensures r == [] <==> NoMatch(text)
  {
    var sp := Scan(text, 0);
    ScanIsLeftmostLongest(text, 0);
    LeftmostLongestMatches(text, 0, sp);
    if sp == [] then
      ScanEmptyNoMatch(text);
      []
    else
      assert !NoMatch(text) by {
        var q, e := sp[0].start, sp[0].end;
        assert MatchesPattern(text[q..e]);
      }
      SpanTexts(text, sp)
  }

  /** What the detected emails are: exactly the leftmost-longest matches. */
  lemma DetectEmailsSpec(text: string, sp: seq<Span>)
    requires LeftmostLongest(text, 0, sp)
    ensures Ordered(sp, 0, |text|) && DetectEmails(text) == SpanTexts(text, sp)
  {
    ScanCharacterised(text, 0, sp);
  }

  /** `text.replace(EMAIL_REGEX, EMAIL_PLACEHOLDER)`. */
  function AnonymizeEmails(text: string): string {
    ReplaceSpans(text, 0, Scan(text, 0), EMAIL_PLACEHOLDER)
  }

  lemma PlaceholderInert()
    ensures Inert(EMAIL_PLACEHOLDER)
  {
    assert forall k :: 0 <= k < |EMAIL_PLACEHOLDER| ==> EMAIL_PLACEHOLDER[k] != '@';
  }

  /** The text between the spans: before the first, between neighbours, after the last. */
  function Gaps(s: string, i: nat, sp: seq<Span>): (r: seq<string>)
    requires i <= |s| && Ordered(sp, i, |s|)
    ensures |r| == |sp| + 1
    decreases |sp|
  {
    if sp == [] then [s[i..]]
    else
      OrderedTail(sp, i, |s|);
      [s[i..sp[0].start]] + Gaps(s, sp[0].end, sp[1..])
  }

  /** The gaps with the fillers between them. */
  function Weave(gaps: seq<string>, fill: seq<string>): string
    requires |gaps| == |fill| + 1
    decreases |fill|
  {
    if fill == [] then gaps[0] else gaps[0] + fill[0] + Weave(gaps[1..], fill[1..])
  }

  lemma {:induction false} WeaveRestores(s: string, i: nat, sp: seq<Span>)
    requires i <= |s| && Ordered(sp, i, |s|)
    ensures Weave(Gaps(s, i, sp), SpanTexts(s, sp)) == s[i..]
    decreases |sp|
  {
    if sp != [] {
      OrderedTail(sp, i, |s|);
      var a, e := sp[0].start, sp[0].end;
      var tail := sp[1..];
      WeaveRestores(s, e, tail);
      assert SpanTexts(s, sp)[1..] == SpanTexts(s, tail);
      assert s[i..] == s[i..a] + s[a..e] + s[e..];
    }
  }

  lemma {:induction false} WeaveReplaces(s: string, i: nat, sp: seq<Span>, rep: string)
    requires i <= |s| && Ordered(sp, i, |s|)
    ensures Weave(Gaps(s, i, sp), seq(|sp|, _ => rep)) == ReplaceSpans(s, i, sp, rep)
    decreases |sp|
  {
    if sp != [] {
      OrderedTail(sp, i, |s|);
      WeaveReplaces(s, sp[0].end, sp[1..], rep);
      assert seq(|sp|, _ => rep)[1..] == seq(|sp| - 1, _ => rep);
    }
  }

  /**
   * Anonymisation keeps the text between the emails and puts the
   * placeholder where each detected email was: weaving the same gaps with
   * the detected emails gives back the original text.
   */
  lemma AnonymizeReplacesEachEmail(text: string)
    ensures
      var gaps := Gaps(text, 0, Scan(text, 0));
      && Weave(gaps, DetectEmails(text)) == text
      && Weave(gaps, seq(|DetectEmails(text)|, _ => EMAIL_PLACEHOLDER)) == AnonymizeEmails(text)
  {
    var sp := Scan(text, 0);
    WeaveRestores(text, 0, sp);
    WeaveReplaces(text, 0, sp, EMAIL_PLACEHOLDER);
    assert text[0..] == text;
    if sp == [] {
      ScanIsLeftmostLongest(text, 0);
      ScanEmptyNoMatch(text);
    }
  }

  /** The anonymised text contains no email at all. */
  lemma AnonymizeLeavesNoEmail(text: string)
    ensures NoMatch(AnonymizeEmails(text))
    ensures DetectEmails(AnonymizeEmails(text)) == []
  {
    ScanIsLeftmostLongest(text, 0);
    PlaceholderInert();
    ReplaceLeavesNoMatch(text, 0, Scan(text, 0), EMAIL_PLACEHOLDER);
  }

  /**
   * No email is detected exactly when the pattern matches nowhere, and
   * exactly when anonymisation returns the text unchanged.
   */
  lemma NoEmailIff(text: string)
    ensures DetectEmails(text) == [] <==> NoMatch(text)
    ensures NoMatch(text) <==> AnonymizeEmails(text) == text
  {
    AnonymizeLeavesNoEmail(text);
    if NoMatch(text) {
      NoMatchScanEmpty(text, 0);
      assert text[0..] == text;
    }
  }

  /** Anonymising twice is anonymising once. */
  lemma AnonymizeIdempotent(text: string)
    ensures AnonymizeEmails(AnonymizeEmails(text)) == AnonymizeEmails(text)
  {
    AnonymizeLeavesNoEmail(text);
    NoEmailIff(AnonymizeEmails(text));
  }

  /** `getUniqueEmails`, as a specification: the first email of each lowercase form, in order. */
  function UniqueEmails(emails: seq<string>): seq<string> {
    DedupeBy(emails, Lower)
  }

  /**
   * `getUniqueEmails`: filter the emails through a set of the lowercase
   * forms seen so far.
   */
  method GetUniqueEmails(emails: seq<string>) returns (r: seq<string>)
    ensures r == UniqueEmails(emails)
  {
    var seen: set<string> := {};
    r := [];
    for i := 0 to |emails|
      invariant r == DedupeBy(emails[..i], Lower)
      invariant seen == Keys(emails[..i], Lower)
    {
      var email := emails[i];
      var lower := Lower(email);
      assert emails[..i + 1][..i] == emails[..i] && emails[..i + 1][i] == email;
      assert Keys(emails[..i + 1], Lower) == seen + {lower};
      if lower !in seen {
        seen := seen + {lower};
        r := r + [email];
      }
    }
    assert emails[..|emails|] == emails;
  }

  /**
   * The unique emails are an order-preserving selection of the input, no
   * two equal ignoring case; every input email has its lowercase form among
   * them; applying the operation again changes nothing.
   */
  lemma UniqueEmailsProperties(emails: seq<string>)
    ensures Subseq(UniqueEmails(emails), emails)
    ensures DistinctKeys(UniqueEmails(emails), Lower)
    ensures forall e :: e in emails ==> exists u :: u in UniqueEmails(emails) && Lower(u) == Lower(e)
    ensures UniqueEmails(UniqueEmails(emails)) == UniqueEmails(emails)
  {
    DedupeSubseq(emails, Lower);
    DedupeDistinct(emails, Lower);
    DedupeKeys(emails, Lower);
    DedupeIdempotent(emails, Lower);
    forall e | e in emails ensures exists u :: u in UniqueEmails(emails) && Lower(u) == Lower(e) {
      assert Lower(e) in Keys(emails, Lower);
    }
  }

  /** The casing kept for an email is that of its first occurrence. */
  lemma UniqueEmailsKeepFirstCasing(emails: seq<string>, u: string, i: nat)
    requires u in UniqueEmails(emails)
    requires i < |emails| && Lower(emails[i]) == Lower(u)
    requires forall j :: 0 <= j < i ==> Lower(emails[j]) != Lower(u)
    ensures u == emails[i]
  {
    assert Lower(emails[i]) !in Keys(emails[..i], Lower);
    DedupeFirstSeen(emails, Lower, u, i);
  }

  /** What `detectAndAnonymize` returns. */
  datatype DetectionResult = DetectionResult(foundEmails: seq<string>, anonymizedText: string, uniqueEmails: seq<string>)

  /** `detectAndAnonymize`: detection, case-insensitive deduplication and anonymisation of one text. */
  function DetectAndAnonymize(text: string): (r: DetectionResult)
    ensures NoMatch(r.anonymizedText)
    ensures r.foundEmails == [] <==> r.anonymizedText == text
    ensures r.uniqueEmails == [] <==> r.foundEmails == []
    ensures forall e :: e in r.foundEmails ==> MatchesPattern(e) && exists u :: u in r.uniqueEmails && Lower(u) == Lower(e)
    ensures Subseq(r.uniqueEmails, r.foundEmails) && DistinctKeys(r.uniqueEmails, Lower)
  {
    var found := DetectEmails(text);
    var unique := UniqueEmails(found);
    AnonymizeLeavesNoEmail(text);
    NoEmailIff(text);
    UniqueEmailsProperties(found);
    assert found != [] ==> found[0] in found;
    DetectionResult(found, AnonymizeEmails(text), unique)
  }

  /** `promptText.substring(0, 100)`, followed by `...` when something was cut. */
  function PromptPreview(prompt: string): (r: string)
    ensures |prompt| <= MAX_PROMPT_PREVIEW_LENGTH ==> r == prompt
    ensures |prompt| > MAX_PROMPT_PREVIEW_LENGTH ==>
      |r| == MAX_PROMPT_PREVIEW_LENGTH + 3 && r[..MAX_PROMPT_PREVIEW_LENGTH] == prompt[..MAX_PROMPT_PREVIEW_LENGTH] && r[MAX_PROMPT_PREVIEW_LENGTH..] == "..."
  {
    var cut := if |prompt| < MAX_PROMPT_PREVIEW_LENGTH then |prompt| else MAX_PROMPT_PREVIEW_LENGTH;
    prompt[..cut] + (if |prompt| > MAX_PROMPT_PREVIEW_LENGTH then "..." else "")
  }

  /**
   * `createIssuesFromEmails`: one issue per case-insensitively unique email.
   * `now` stands for the clock reading and `firstId` for the first of the
   * fresh identifiers, which are handed out consecutively.
   */
  function CreateIssuesFromEmails(emails: seq<string>, url: string, prompt: string, now: int, firstId: nat): (r: seq<EmailIssue>)
    ensures |r| == |UniqueEmails(emails)|
    ensures forall k :: 0 <= k < |r| ==>
      r[k].email == UniqueEmails(emails)[k] && r[k].detectedAt == now && r[k].url == url
      && r[k].promptPreview == PromptPreview(prompt) && r[k].id == firstId + k
  {
    var unique := UniqueEmails(emails);
    seq(|unique|, k requires 0 <= k < |unique| => EmailIssue(firstId + k, unique[k], now, url, PromptPreview(prompt)))
  }

  /** The emails of a sequence of issues, in order. */
  function IssueEmails(issues: seq<EmailIssue>): (r: seq<string>)
    ensures |r| == |issues|
  {
    seq(|issues|, k requires 0 <= k < |issues| => issues[k].email)
  }

  /** The issues created carry exactly the unique emails, and so no two of them the same email ignoring case. */
  lemma CreatedIssuesDistinct(emails: seq<string>, url: string, prompt: string, now: int, firstId: nat)
    ensures IssueEmails(CreateIssuesFromEmails(emails, url, prompt, now, firstId)) == UniqueEmails(emails)
    ensures DistinctKeys(IssueEmails(CreateIssuesFromEmails(emails, url, prompt, now, firstId)), Lower)
  {
    UniqueEmailsProperties(emails);
  }

  /** `filterDismissedEmails`: the emails whose lowercase form is not among the suppressed ones, in order. */
  function FilterDismissedEmails(emails: seq<string>, dismissed: set<string>): (r: seq<string>)
    ensures forall e :: e in r <==> e in emails && Lower(e) !in dismissed
    ensures forall e :: multiset(r)[e] == if Lower(e) in dismissed then 0 else multiset(emails)[e]
    ensures Subseq(r, emails)
  {
    FilterSubseq(emails, e => Lower(e) !in dismissed);
    FilterCount(emails, e => Lower(e) !in dismissed);
    Filter(emails, e => Lower(e) !in dismissed)
  }
}
