/**
 * The fetch interceptor that runs in the page: for a request to a chat
 * endpoint carrying a string body, it takes the prompt from the first
 * message with a `content.parts` array, and when that prompt contains
 * emails it forwards a rewritten body with the emails replaced and reports
 * the detection; in every other case the original request goes out.
 *
 * The body is taken already parsed (`JSON.parse`, with `None` for a parse
 * that throws), and the request that goes out is returned as a decision.
 */
module MainWorld {
  import opened Wrappers
  import opened Lists
  import opened Strings
  import opened Types
  import opened EmailPattern
  import opened EmailDetector

  /** The identity, the key under which `new Set(matches)` compares emails. */
  function Same(s: string): string {
    s
  }

  /**
   * `[...new Set(text.match(EMAIL_REGEX) ?? [])]`: the matches without exact
   * repeats, in first-occurrence order (an earlier element occurs before
   * every occurrence of a later one).
   */
  function ExtractEmails(text: string): (r: seq<string>)
    ensures forall e :: e in r <==> e in DetectEmails(text)
    ensures DistinctKeys(r, Same) && Subseq(r, DetectEmails(text))
    ensures r == [] <==> NoMatch(text)
    ensures forall a, b, j :: 0 <= a < b < |r| && 0 <= j < |DetectEmails(text)| && DetectEmails(text)[j] == r[b] ==>
      r[a] in DetectEmails(text)[..j]
  {
    var found := DetectEmails(text);
    DedupeKeys(found, Same);
    DedupeDistinct(found, Same);
    DedupeSubseq(found, Same);
    DedupeFirstSeenOrder(found, Same);
    var r := DedupeBy(found, Same);
    assert forall e :: e in r <==> Same(e) in Keys(r, Same);
    assert forall e :: e in found <==> Same(e) in Keys(found, Same);
    assert found != [] ==> found[0] in r;
    r
  }

  /** The placeholder cannot take part in an occurrence of a detected email. */
  lemma PlaceholderFencedAgainst(e: string)
    requires MatchesPattern(e)
    ensures |e| > 0 && Fenced(EMAIL_PLACEHOLDER, e)
  {
    MatchChars(e);
    PlaceholderInert();
    assert '[' !in e && ']' !in e by {
      forall k | 0 <= k < |e| ensures e[k] != '[' && e[k] != ']' {
        assert IsPatternChar(e[k]);
      }
    }
  }

  /** The text after replacing each email in turn, every literal occurrence of it becoming the placeholder. */
  function ReplaceEach(text: string, emails: seq<string>): string
    requires forall e :: e in emails ==> |e| > 0
    decreases |emails|
  {
    if emails == [] then text
    else ReplaceAll(ReplaceEach(text, emails[..|emails| - 1]), emails[|emails| - 1], EMAIL_PLACEHOLDER)
  }

  /** Replacing one more email extends the fold by one step. */
  lemma ReplaceEachSnoc(text: string, done: seq<string>, email: string)
    requires forall e :: e in done ==> |e| > 0
    requires |email| > 0
    ensures ReplaceEach(text, done + [email]) == ReplaceAll(ReplaceEach(text, done), email, EMAIL_PLACEHOLDER)
  {
    assert (done + [email])[..|done|] == done;
  }

  /** Every extracted email and the placeholder is fenced against it. */
  lemma ExtractedFenced(text: string)
    ensures forall e :: e in ExtractEmails(text) ==> |e| > 0 && Fenced(EMAIL_PLACEHOLDER, e)
  {
    var found := DetectEmails(text);
    forall e | e in ExtractEmails(text) ensures |e| > 0 && Fenced(EMAIL_PLACEHOLDER, e) {
      var k :| 0 <= k < |found| && found[k] == e;
      PlaceholderFencedAgainst(e);
    }
  }

  /** One replacement step removes its email and brings back none of those already removed. */
  lemma ReplaceStep(before: string, done: seq<string>, email: string)
    requires |email| > 0 && Fenced(EMAIL_PLACEHOLDER, email)
    requires forall e :: e in done ==> |e| > 0 && Fenced(EMAIL_PLACEHOLDER, e) && !Occurs(e, before)
    ensures forall e :: e in done + [email] ==> !Occurs(e, ReplaceAll(before, email, EMAIL_PLACEHOLDER))
  {
    ReplaceAllRemoves(before, email, EMAIL_PLACEHOLDER);
    forall e | e in done ensures !Occurs(e, ReplaceAll(before, email, EMAIL_PLACEHOLDER)) {
      ReplaceAllKeepsAbsent(before, email, EMAIL_PLACEHOLDER, e);
    }
  }

  /**
   * The loop of `anonymizeEmails`: each email in turn is replaced everywhere
   * with split and join; no email already replaced comes back.
   */
  method ReplaceEmails(text: string, emails: seq<string>) returns (anonymized: string)
    requires forall e :: e in emails ==> |e| > 0 && Fenced(EMAIL_PLACEHOLDER, e)
    ensures anonymized == ReplaceEach(text, emails)
    ensures forall e :: e in emails ==> !Occurs(e, anonymized)
  {
    anonymized := text;
    for i := 0 to |emails|
      invariant forall e :: e in emails[..i] ==> e in emails
      invariant anonymized == ReplaceEach(text, emails[..i])
      invariant forall e :: e in emails[..i] ==> !Occurs(e, anonymized)
    {
      var email := emails[i];
      assert emails[..i + 1] == emails[..i] + [email];
      ReplaceEachSnoc(text, emails[..i], email);
      ReplaceStep(anonymized, emails[..i], email);
      anonymized := ReplaceAll(anonymized, email, EMAIL_PLACEHOLDER);
    }
    assert emails[..|emails|] == emails;
  }

  /**
   * `anonymizeEmails` of the interceptor: the distinct matches, and the text
   * with every literal occurrence of each replaced by the placeholder.
   */
  method AnonymizeEmails(text: string) returns (anonymized: string, emails: seq<string>)
    ensures emails == ExtractEmails(text)
    ensures forall e :: e in emails ==> |e| > 0
    ensures anonymized == ReplaceEach(text, emails)
    ensures forall e :: e in emails ==> !Occurs(e, anonymized)
    ensures NoMatch(text) ==> anonymized == text
  {
    emails := ExtractEmails(text);
    ExtractedFenced(text);
    anonymized := ReplaceEmails(text, emails);
  }

  /**
   * The anonymisation `anonymizeEmails` evidently intends: every match of
   * the pattern replaced, as `text.replace(EMAIL_REGEX, ...)` does, so that
   * no email and no literal occurrence of an extracted email is left.
   */
  function AnonymizeAllEmails(text: string): (r: string)
    ensures NoMatch(r)
    ensures forall e :: e in ExtractEmails(text) ==> !Occurs(e, r)
    ensures NoMatch(text) <==> r == text
  {
    var r := EmailDetector.AnonymizeEmails(text);
    AnonymizeLeavesNoEmail(text);
    NoEmailIff(text);
    forall e | e in ExtractEmails(text) ensures !Occurs(e, r) {
      assert MatchesPattern(e) by {
        var k :| 0 <= k < |DetectEmails(text)| && DetectEmails(text)[k] == e;
      }
      assert |e| > 0 by {
        var at: nat, dot: nat :| IsSplit(e, at, dot);
      }
      forall k: nat | k + |e| <= |r| ensures !OccursAt(e, r, k) {
        assert !MatchesPattern(r[k..k + |e|]);
      }
    }
    r
  }

  /** `isChatRequest`: the URL ends with one of the two conversation paths. */
  function IsChatRequest(url: string): (r: bool)
    ensures r <==> exists pre :: url == pre + "/backend-api/conversation" || url == pre + "/backend-api/f/conversation"
  {
    EndsWith(url, "/backend-api/conversation") || EndsWith(url, "/backend-api/f/conversation")
  }

  /** Both chat endpoints are intercepted. */
  lemma ChatEndpointsIntercepted()
    ensures forall u :: u in CHATGPT_API_PATTERNS ==> IsChatRequest(u)
  {
    assert IsChatRequest("https://chatgpt.com" + CONVERSATION_PATH);
    assert IsChatRequest("https://chat.openai.com" + CONVERSATION_PATH);
  }

  /** The first argument of `fetch`. */
  datatype RequestInput = UrlString(s: string) | UrlObject(href: string) | RequestObject(url: string)

  /** The URL of a request: the string itself, `href` of a URL, `url` of a Request. */
  function RequestUrl(input: RequestInput): string {
    match input
    case UrlString(s) => s
    case UrlObject(href) => href
    case RequestObject(url) => url
  }

  /** An element of `messages`: `null`, or a message whose `content.parts` is an array or not. */
  datatype ChatMessage = NullEntry | Entry(parts: Option<seq<string>>)

  /** A parsed body: `null`, or a value whose `messages` is an array or not. */
  datatype ParsedBody = NullBody | Body(messages: Option<seq<ChatMessage>>)

  /** `init.body`: absent, not a string, or a string with the outcome of parsing it as JSON. */
  datatype InitBody = NoBody | NonStringBody | StringBody(text: string, parsed: Option<ParsedBody>)

  /** The request that goes out. */
  datatype Forward = Original | Rewritten(body: ParsedBody)

  /** The `promptMonitorDetection` event. */
  datatype DetectionEvent = DetectionEvent(prompt: string, emails: seq<string>, url: string, timestamp: int)

  /** The outcome of looking for the prompt from position `i` on. */
  datatype Search = Throws | FoundAt(index: nat) | NotFound

  /**
   * Walking `messages` from `i`: reading `content` of a `null` entry throws;
   * the first message with a `parts` array is the one.
   */
  function FindPrompt(msgs: seq<ChatMessage>, i: nat): (r: Search)
    requires i <= |msgs|
    ensures r.FoundAt? ==> i <= r.index < |msgs| && msgs[r.index].Entry? && msgs[r.index].parts.Some?
    ensures r.FoundAt? || r.NotFound? ==>
      forall j :: i <= j < |msgs| && (r.NotFound? || j < r.index) ==> msgs[j] == Entry(None)
    ensures r.Throws? ==>
      exists j :: i <= j < |msgs| && msgs[j] == NullEntry && forall j' :: i <= j' < j ==> msgs[j'] == Entry(None)
    decreases |msgs| - i
  {
    if i == |msgs| then NotFound
    else match msgs[i]
      case NullEntry => Throws
      case Entry(parts) => if parts.Some? then FoundAt(i) else FindPrompt(msgs, i + 1)
  }

  /**
   * The prompt of a parsed body, `None` when reading it throws; a non-empty
   * prompt always comes from a message with a parts array.
   */
  function PromptOf(body: ParsedBody): (r: Option<string>)
    ensures r.None? <==> body.NullBody? || (body.messages.Some? && FindPrompt(body.messages.value, 0).Throws?)
    ensures r.Some? && r.value != "" ==> body.messages.Some? && FindPrompt(body.messages.value, 0).FoundAt?
  {
    match body
    case NullBody => None
    case Body(None) => Some("")
    case Body(Some(msgs)) =>
      match FindPrompt(msgs, 0)
      case Throws => None
      case NotFound => Some("")
      case FoundAt(i) => Some(Join(msgs[i].parts.value, "\n"))
  }

  /** The body with the parts of the first message that has them replaced by `[text]`. */
  function RewriteFirst(body: ParsedBody, text: string): (r: ParsedBody)
    ensures body.Body? && body.messages.Some? && FindPrompt(body.messages.value, 0).FoundAt? ==>
      var msgs, i := body.messages.value, FindPrompt(body.messages.value, 0).index;
      && r.Body? && r.messages.Some? && |r.messages.value| == |msgs|
      && r.messages.value[i] == Entry(Some([text]))
      && forall j :: 0 <= j < |msgs| && j != i ==> r.messages.value[j] == msgs[j]
  {
    if body.Body? && body.messages.Some? && FindPrompt(body.messages.value, 0).FoundAt? then
      var msgs, i := body.messages.value, FindPrompt(body.messages.value, 0).index;
      Body(Some(msgs[i := Entry(Some([text]))]))
    else
      body
  }

  lemma {:induction false} FindPromptAfterRewrite(msgs: seq<ChatMessage>, i: nat, k: nat, text: string)
    requires i <= |msgs| && FindPrompt(msgs, i) == FoundAt(k)
    ensures FindPrompt(msgs[k := Entry(Some([text]))], i) == FoundAt(k)
    decreases |msgs| - i
  {
    if i < k {
      FindPromptAfterRewrite(msgs, i + 1, k, text);
    }
  }

  /** Reading the prompt of the rewritten body gives the text written into it. */
  lemma RewrittenPrompt(body: ParsedBody, text: string)
    requires PromptOf(body).Some? && body.Body? && body.messages.Some? && FindPrompt(body.messages.value, 0).FoundAt?
    ensures PromptOf(RewriteFirst(body, text)) == Some(text)
  {
    FindPromptAfterRewrite(body.messages.value, 0, FindPrompt(body.messages.value, 0).index, text);
  }

  /** A prompt containing an email comes from a message with a parts array. */
  lemma PromptWithEmailIsFound(body: ParsedBody)
    requires PromptOf(body).Some? && !NoMatch(PromptOf(body).value)
    ensures body.Body? && body.messages.Some? && FindPrompt(body.messages.value, 0).FoundAt?
  {
  }

  /** The request is forwarded unchanged: the conditions under which nothing is rewritten. */
  predicate PassThrough(url: string, init: InitBody) {
    || !IsChatRequest(url)
    || !init.StringBody? || init.text == ""
    || init.parsed.None?
    || PromptOf(init.parsed.value).None?
    || ExtractEmails(PromptOf(init.parsed.value).value) == []
  }

  /**
   * The `window.fetch` override: pass the request through unless it is a
   * chat request whose prompt contains emails; then forward the body with
   * the prompt anonymised and emit one detection event carrying the
   * original prompt.
   */
  method Intercept(input: RequestInput, init: InitBody, now: int) returns (forward: Forward, event: Option<DetectionEvent>)
    ensures PassThrough(RequestUrl(input), init) ==> forward == Original && event == None
    ensures !PassThrough(RequestUrl(input), init) ==>
      var prompt := PromptOf(init.parsed.value).value;
      var emails := ExtractEmails(prompt);
      && forward == Rewritten(RewriteFirst(init.parsed.value, ReplaceEach(prompt, emails)))
      && event == Some(DetectionEvent(prompt, emails, RequestUrl(input), now))
  {
    forward, event := Original, None;
    var url := RequestUrl(input);
    if !(IsChatRequest(url) && init.StringBody? && init.text != "") {
      return;
    }
    if init.parsed.None? {
      return;
    }
    var bodyObj := init.parsed.value;
    if bodyObj.NullBody? {
      return;
    }
    var prompt := "";
    if bodyObj.messages.Some? {
      var msgs := bodyObj.messages.value;
      var i := 0;
      while i < |msgs|
        invariant 0 <= i <= |msgs|
        invariant FindPrompt(msgs, i) == FindPrompt(msgs, 0)
      {
        if msgs[i].NullEntry? {
          return;
        }
        if msgs[i].parts.Some? {
          prompt := Join(msgs[i].parts.value, "\n");
          break;
        }
        i := i + 1;
      }
    }
    assert PromptOf(bodyObj) == Some(prompt);
    var emails := ExtractEmails(prompt);
    if |emails| > 0 {
      var anonymized, _ := AnonymizeEmails(prompt);
      PromptWithEmailIsFound(bodyObj);
      var msgs := bodyObj.messages.value;
      var i := 0;
      while i < |msgs|
        invariant 0 <= i <= |msgs|
        invariant FindPrompt(msgs, i) == FindPrompt(msgs, 0)
      {
        if msgs[i].Entry? && msgs[i].parts.Some? {
          msgs := msgs[i := Entry(Some([anonymized]))];
          break;
        }
        i := i + 1;
      }
      assert msgs == bodyObj.messages.value[FindPrompt(bodyObj.messages.value, 0).index := Entry(Some([anonymized]))];
      forward := Rewritten(Body(Some(msgs)));
      event := Some(DetectionEvent(prompt, emails, url, now));
    }
  }

  /*
   * The literal replacements of `anonymizeEmails` can leave an email behind.
   * In "a@b.cc qa@b.ccz@d.ee" the pattern finds "a@b.cc" and "qa@b.ccz"; the
   * second match stops at the second '@'. Replacing "a@b.cc" everywhere also
   * rewrites the copy inside "qa@b.ccz", so the second email no longer
   * occurs, and the text that is left ends in the email "z@d.ee".
   */

  const LeakText: string := "a@b.cc qa@b.ccz@d.ee"
  const LeakFirst: string := "a@b.cc"
  const LeakSecond: string := "qa@b.ccz"
  const LeakResult: string := EMAIL_PLACEHOLDER + " q" + EMAIL_PLACEHOLDER + "z@d.ee"

  lemma LeakFirstMatch()
    ensures MatchAt(LeakText, 0) == Some(6)
  {
    var t := LeakText;
    assert t[0] == 'a' && t[1] == '@' && t[2] == 'b' && t[3] == '.' && t[4] == 'c' && t[5] == 'c' && t[6] == ' ';
    RunStops(t, 0, 1, Local);
    RunStops(t, 2, 6, Domain);
    RunStops(t, 4, 6, Alpha);
    assert TldDotAt(t, 3) && !TldDotAt(t, 5) && !TldDotAt(t, 4);
    assert LastTldDot(t, 3, 6) == Some(3);
  }

  lemma LeakSecondMatch()
    ensures MatchAt(LeakText, 6) == None && MatchAt(LeakText, 7) == Some(15)
  {
    var t := LeakText;
    assert t[6] == ' ' && t[7] == 'q' && t[8] == 'a' && t[9] == '@' && t[10] == 'b' && t[11] == '.';
    assert t[12] == 'c' && t[13] == 'c' && t[14] == 'z' && t[15] == '@';
    RunStops(t, 6, 6, Local);
    RunStops(t, 7, 9, Local);
    RunStops(t, 10, 15, Domain);
    RunStops(t, 12, 15, Alpha);
    assert TldDotAt(t, 11) && !TldDotAt(t, 14) && !TldDotAt(t, 13) && !TldDotAt(t, 12);
    assert LastTldDot(t, 11, 15) == Some(11);
  }

  /** From the second '@' on, no match starts: the local run there reaches the end of the text. */
  lemma LeakScanTail()
    ensures Scan(LeakText, 15) == []
  {
    var t := LeakText;
    assert t[15] == '@' && t[16] == 'd' && t[17] == '.' && t[18] == 'e' && t[19] == 'e';
    RunStops(t, 15, 15, Local);
    forall i | 16 <= i <= 19 ensures RunEnd(t, i, Local) == 20 {
      RunCovers(t, i, 20, Local);
    }
    assert Scan(t, 19) == [];
    assert Scan(t, 18) == [];
    assert Scan(t, 17) == [];
    assert Scan(t, 16) == [];
  }

  lemma LeakScan()
    ensures Scan(LeakText, 0) == [Span(0, 6), Span(7, 15)]
  {
    LeakFirstMatch();
    LeakSecondMatch();
    LeakScanTail();
  }

  lemma DetectViaScan(t: string)
    requires Scan(t, 0) != []
    ensures DetectEmails(t) == SpanTexts(t, Scan(t, 0))
  {
  }

  lemma LeakSpanTexts(sp: seq<Span>)
    requires sp == [Span(0, 6), Span(7, 15)]
    ensures SpanTexts(LeakText, sp) == [LeakFirst, LeakSecond]
  {
    assert LeakText[0..6] == LeakFirst && LeakText[7..15] == LeakSecond;
  }

  lemma LeakExtract()
    ensures ExtractEmails(LeakText) == [LeakFirst, LeakSecond]
  {
    LeakScan();
    DetectViaScan(LeakText);
    LeakSpanTexts(Scan(LeakText, 0));
    assert LeakFirst != LeakSecond by { assert |LeakFirst| != |LeakSecond|; }
    DedupeOfDistinct([LeakFirst, LeakSecond], Same);
  }

  lemma LeakSplit()
    ensures Split(LeakText, LeakFirst) == ["", " q", "z@d.ee"]
  {
    var mid := " q" + LeakFirst + "z@d.ee";
    assert LeakText == "" + LeakFirst + mid;
    SplitFromAt("", LeakFirst, mid, "");
    assert !OccursAt(LeakFirst, mid, 0) by { assert mid[0..6][0] == ' '; }
    assert !OccursAt(LeakFirst, mid, 1) by { assert mid[1..7][0] == 'q'; }
    SplitFromAt(" q", LeakFirst, "z@d.ee", "");
    assert "" + " q" == " q";
    assert LeakFirst[0] != "z@d.ee"[0];
    OccursSameLength(LeakFirst, "z@d.ee");
    SplitFromNoOccurrence("z@d.ee", LeakFirst, "");
    assert "" + "z@d.ee" == "z@d.ee";
  }

  lemma LeakFirstReplace()
    ensures ReplaceAll(LeakText, LeakFirst, EMAIL_PLACEHOLDER) == LeakResult
  {
    LeakSplit();
    var parts := Split(LeakText, LeakFirst);
    assert parts[1..] == [" q", "z@d.ee"] && parts[2..] == ["z@d.ee"];
  }

  /** The second email has its '@' where the text left has none. */
  lemma LeakSecondAbsent(a: string)
    requires '@' !in a && |a| == 32
    ensures !Occurs(LeakSecond, a + "z@d.ee")
  {
    var r := a + "z@d.ee";
    forall k: nat | k + |LeakSecond| <= |r| ensures !OccursAt(LeakSecond, r, k) {
      assert r[k..k + |LeakSecond|][2] == r[k + 2] && LeakSecond[2] == '@';
      if k + 2 < |a| {
        assert r[k + 2] == a[k + 2];
      } else {
        assert r[k + 2] == 'z';
      }
    }
  }

  lemma LeakSecondReplace()
    ensures ReplaceAll(LeakResult, LeakSecond, EMAIL_PLACEHOLDER) == LeakResult
  {
    var a := EMAIL_PLACEHOLDER + " q" + EMAIL_PLACEHOLDER;
    PlaceholderInert();
    assert '@' !in a;
    LeakSecondAbsent(a);
    ReplaceAllNoOccurrence(a + "z@d.ee", LeakSecond, EMAIL_PLACEHOLDER);
  }

  lemma ReplaceEachTwo(t: string, e1: string, e2: string)
    requires |e1| > 0 && |e2| > 0
    ensures ReplaceEach(t, [e1, e2]) == ReplaceAll(ReplaceAll(t, e1, EMAIL_PLACEHOLDER), e2, EMAIL_PLACEHOLDER)
  {
    ReplaceEachSnoc(t, [], e1);
    ReplaceEachSnoc(t, [e1], e2);
    assert [] + [e1] == [e1] && [e1] + [e2] == [e1, e2];
  }

  lemma LeakResultMatches(r: string)
    requires r == LeakResult
    ensures MatchesPattern(r[32..38])
  {
    assert r[32..38] == "z@d.ee";
    assert IsSplit(r[32..38], 1, 3);
  }

  /**
   * `anonymizeEmails` as written leaves an email in the text it forwards:
   * on `LeakText` its result still matches the pattern, while the
   * corrected `AnonymizeAllEmails` leaves none.
   */
  lemma AnonymizeAsWrittenLeaks()
    ensures ExtractEmails(LeakText) == [LeakFirst, LeakSecond]
    ensures ReplaceEach(LeakText, ExtractEmails(LeakText)) == LeakResult
    ensures !NoMatch(ReplaceEach(LeakText, ExtractEmails(LeakText)))
    ensures NoMatch(AnonymizeAllEmails(LeakText))
  {
    LeakExtract();
    ReplaceEachTwo(LeakText, LeakFirst, LeakSecond);
    LeakFirstReplace();
    LeakSecondReplace();
    LeakResultMatches(ReplaceEach(LeakText, ExtractEmails(LeakText)));
  }
}
