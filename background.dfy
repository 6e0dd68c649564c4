/**
 * The background worker: it receives messages from the page and the popup,
 * runs the detector over scanned prompts, records issues and suppressions
 * in storage and keeps the issues of the latest scan in memory.
 *
 * Handlers run one after another. The clock reading `now` and the first
 * fresh issue identifier are supplied by the coordinator rather than drawn
 * from the environment.
 */
module Background {
  import opened Wrappers
  import opened Lists
  import opened Strings
  import opened Types
  import opened Dismissals
  import opened EmailDetector
  import opened Storage

  /**
   * A message as received: `Untyped` when it has no `type` field, `Other`
   * for any other type name the dispatcher does not handle (the empty name
   * included, which the listener treats as missing). A message with a
   * handled type name is always one of the four named constructors, never
   * `Other` (see `Canonical`).
   */
  datatype Message =
    | Untyped
    | ScanPayload(body: string, url: string)
    | DismissEmail(email: string)
    | ClearHistory
    | GetState
    | Other(typeName: string)

  /** The four type names the dispatcher's switch handles. */
  const HandledTypes: set<string> := {"SCAN_PAYLOAD", "DISMISS_EMAIL", "CLEAR_HISTORY", "GET_STATE"}

  /** `Other` carries only type names the switch does not handle. */
  predicate Canonical(msg: Message) {
    msg.Other? ==> msg.typeName !in HandledTypes
  }

  /** What the listener answers. */
  datatype Response =
    | Undefined
    | Null
    | ScanResult(foundEmails: seq<string>, anonymizedBody: string, shouldBlock: bool, newIssues: seq<EmailIssue>)
    | Success(success: bool)
    | State(issues: seq<EmailIssue>, dismissedEmails: seq<DismissedEmail>, recentIssues: seq<EmailIssue>)

  /** The `ISSUES_UPDATED` message sent to the popup. */
  datatype Notification = IssuesUpdated(issues: seq<EmailIssue>, dismissedEmails: seq<DismissedEmail>)

  /** The lowercase emails of the suppressions given. */
  function SuppressedKeys(list: seq<DismissedEmail>): (r: set<string>)
    ensures forall k :: k in r <==> exists d :: d in list && EmailKey(d) == k
  {
    set d | d in list :: EmailKey(d)
  }

  /** `url || tabUrl`: the payload URL unless it is empty. */
  function IssueUrl(url: string, tabUrl: string): (r: string)
    ensures url != "" ==> r == url
    ensures url == "" ==> r == tabUrl
  {
    if url != "" then url else tabUrl
  }

  /** Every identifier in `list` is below `n`. */
  ghost predicate IdsBelow(list: seq<EmailIssue>, n: nat) {
    forall k :: 0 <= k < |list| ==> list[k].id < n
  }

  /** `xs` is a prefix of `ys`. */
  ghost predicate IsPrefix<T>(xs: seq<T>, ys: seq<T>) {
    |xs| <= |ys| && ys[..|xs|] == xs
  }

  /** Among the unique emails, those whose suppression is not in force at `now`. */
  function ActiveEmails(unique: seq<string>, stored: seq<DismissedEmail>, now: int): (r: seq<string>)
    ensures forall e :: e in r <==> e in unique && !IsDismissedIn(stored, e, now)
  {
    var active := Active(stored, now);
    var r := FilterDismissedEmails(unique, SuppressedKeys(active));
    assert forall e :: IsDismissedIn(stored, e, now) <==> Lower(e) in SuppressedKeys(active);
    r
  }

  /** The unique emails of a scanned body that no suppression in force covers. */
  function UnsuppressedEmails(body: string, stored: seq<DismissedEmail>, now: int): seq<string> {
    ActiveEmails(DetectAndAnonymize(body).uniqueEmails, stored, now)
  }

  class Coordinator {
    /** The storage area the worker writes. */
    const store: Store
    /** The issues of the most recent scan that produced any. */
    var recentIssues: seq<EmailIssue>
    /** The next fresh issue identifier. */
    var nextId: nat

    /**
     * Suppressions are well-formed, every identifier in use is below
     * `nextId`, and the latest issues head the stored history.
     */
    ghost predicate Valid()
      reads this, store
    {
      && WellFormed(store.Suppressions())
      && IdsBelow(store.History(), nextId)
      && IsPrefix(recentIssues, store.History())
    }

    /** A worker starting with no recent issues over an existing storage area. */
    constructor (s: Store, firstId: nat)
      requires WellFormed(s.Suppressions()) && IdsBelow(s.History(), firstId)
      ensures store == s && recentIssues == [] && nextId == firstId
      ensures Valid()
    {
      store := s;
      recentIssues := [];
      nextId := firstId;
    }

    /** `handleGetState`: stored history, suppressions in force, and the recent issues. */
    method HandleGetState(now: int) returns (r: Response)
      requires Valid()
      modifies store
      ensures Valid()
      ensures r == State(old(store.History()), Active(old(store.Suppressions()), now), recentIssues)
      ensures store.issues == old(store.issues) && store.Suppressions() == Active(old(store.Suppressions()), now)
    {
      var issues, dismissed := store.GetAllStorage(now);
      ActiveProperties(old(store.Suppressions()), now);
      r := State(issues, dismissed, recentIssues);
    }

    /** `notifyPopup`: the current history and suppressions in force, sent to the popup. */
    method NotifyPopup(now: int) returns (n: Notification)
      requires Valid()
      modifies store
      ensures Valid()
      ensures n == IssuesUpdated(old(store.History()), Active(old(store.Suppressions()), now))
      ensures store.issues == old(store.issues) && store.Suppressions() == Active(old(store.Suppressions()), now)
    {
      var state := HandleGetState(now);
      n := IssuesUpdated(state.issues, state.dismissedEmails);
    }

    /**
     * The recording step of a scan that found unsuppressed emails: the new
     * issues go in front of the history and replace the recent issues, and
     * the popup is notified.
     */
    method RecordIssues(newIssues: seq<EmailIssue>, now: int) returns (n: Notification)
      requires Valid()
      requires forall k :: 0 <= k < |newIssues| ==> newIssues[k].id == nextId + k
      modifies this, store
      ensures Valid()
      ensures store.History() == newIssues + old(store.History())
      ensures store.Suppressions() == Active(old(store.Suppressions()), now)
      ensures recentIssues == newIssues && nextId == old(nextId) + |newIssues|
      ensures n == IssuesUpdated(store.History(), store.Suppressions())
    {
      ghost var h0 := store.History();
      RecordKeepsInvariant(newIssues, h0, nextId);
      ActiveProperties(store.Suppressions(), now);
      var _ := store.AddIssues(newIssues);
      nextId := nextId + |newIssues|;
      recentIssues := newIssues;
      n := NotifyPopup(now);
    }

    /**
     * `handleScanPayload`: detect the emails of `body`; report nothing when
     * there is none; when every email is suppressed, report them with the
     * anonymised body but record nothing; otherwise record one issue per
     * unsuppressed email, in front of the history and as the recent issues.
     */
    method HandleScanPayload(body: string, url: string, tabUrl: string, now: int)
      returns (r: Response, notice: Option<Notification>)
      requires Valid()
      modifies this, store
      ensures Valid()
      ensures DetectAndAnonymize(body).uniqueEmails == [] ==>
        && r == ScanResult([], body, false, [])
        && notice == None
        && store.issues == old(store.issues) && store.dismissedEmails == old(store.dismissedEmails)
        && recentIssues == old(recentIssues) && nextId == old(nextId)
      ensures DetectAndAnonymize(body).uniqueEmails != [] && UnsuppressedEmails(body, old(store.Suppressions()), now) == [] ==>
        && r == ScanResult(DetectAndAnonymize(body).uniqueEmails, DetectAndAnonymize(body).anonymizedText, false, [])
        && notice == None
        && store.History() == old(store.History()) && store.Suppressions() == Active(old(store.Suppressions()), now)
        && recentIssues == old(recentIssues) && nextId == old(nextId)
      ensures DetectAndAnonymize(body).uniqueEmails != [] && UnsuppressedEmails(body, old(store.Suppressions()), now) != [] ==>
        var created := CreateIssuesFromEmails(UnsuppressedEmails(body, old(store.Suppressions()), now), IssueUrl(url, tabUrl), body, now, old(nextId));
        && r == ScanResult(DetectAndAnonymize(body).uniqueEmails, DetectAndAnonymize(body).anonymizedText, true, created)
        && store.History() == created + old(store.History())
        && store.Suppressions() == Active(old(store.Suppressions()), now)
        && recentIssues == created && nextId == old(nextId) + |created|
        && notice == Some(IssuesUpdated(store.History(), store.Suppressions()))
    {
      var d := DetectAndAnonymize(body);
      if |d.uniqueEmails| == 0 {
        return ScanResult([], body, false, []), None;
      }
      var dismissed := store.GetDismissedEmails(now);
      var dismissedSet := SuppressedKeys(dismissed);
      var activeEmails := FilterDismissedEmails(d.uniqueEmails, dismissedSet);
      assert activeEmails == UnsuppressedEmails(body, old(store.Suppressions()), now);
      if |activeEmails| == 0 {
        return ScanResult(d.uniqueEmails, d.anonymizedText, false, []), None;
      }
      var newIssues := CreateIssuesFromEmails(activeEmails, IssueUrl(url, tabUrl), body, now, nextId);
      assert newIssues == CreateIssuesFromEmails(UnsuppressedEmails(body, old(store.Suppressions()), now), IssueUrl(url, tabUrl), body, now, old(nextId));
      ActiveProperties(old(store.Suppressions()), now);
      var n := RecordIssues(newIssues, now);
      notice := Some(n);
      r := ScanResult(d.uniqueEmails, d.anonymizedText, true, newIssues);
    }

    /** `handleDismissEmail`: suppress the email for 24 hours; always a success. */
    method HandleDismissEmail(email: string, now: int) returns (r: Response, notice: Notification)
      requires Valid()
      modifies store
      ensures Valid()
      ensures r == Success(true)
      ensures store.Suppressions() == DismissResult(Active(old(store.Suppressions()), now), email, now)
      ensures IsDismissedIn(store.Suppressions(), email, now)
      ensures store.History() == old(store.History())
      ensures notice == IssuesUpdated(store.History(), store.Suppressions())
    {
      var updated := store.DismissEmail(email, now);
      DismissEffect(Active(old(store.Suppressions()), now), email, now);
      ActiveOfLive(updated, now);
      notice := NotifyPopup(now);
      r := Success(true);
    }

    /** `handleClearHistory`: empty the history and the recent issues; suppressions stay. */
    method HandleClearHistory(now: int) returns (r: Response, notice: Notification)
      requires Valid()
      modifies this, store
      ensures Valid()
      ensures r == Success(true)
      ensures store.issues == Some([]) && recentIssues == [] && nextId == old(nextId)
      ensures store.Suppressions() == Active(old(store.Suppressions()), now)
      ensures notice == IssuesUpdated([], store.Suppressions())
    {
      store.ClearIssues();
      recentIssues := [];
      notice := NotifyPopup(now);
      ActiveProperties(old(store.Suppressions()), now);
      r := Success(true);
    }

    /**
     * The message listener: a message without a type, or with an empty one,
     * is answered with `undefined`; an unknown type with `null`; the rest
     * by their handlers, whose effects it has. `tabUrl` is the sending
     * tab's URL, when there is one.
     */
    method OnMessage(msg: Message, tabUrl: Option<string>, now: int) returns (r: Response, notice: Option<Notification>)
      requires Valid() && Canonical(msg)
      modifies this, store
      ensures Valid()
      ensures msg.Untyped? || (msg.Other? && msg.typeName == "") ==> r == Undefined && notice == None
      ensures msg.Other? && msg.typeName != "" ==> r == Null && notice == None
      ensures (msg.Untyped? || msg.Other?) ==> unchanged(this) && unchanged(store)
      ensures msg.GetState? ==>
        && r == State(old(store.History()), Active(old(store.Suppressions()), now), recentIssues) && notice == None
        && store.issues == old(store.issues) && store.Suppressions() == Active(old(store.Suppressions()), now)
        && recentIssues == old(recentIssues) && nextId == old(nextId)
      ensures msg.DismissEmail? ==>
        && r == Success(true)
        && store.Suppressions() == DismissResult(Active(old(store.Suppressions()), now), msg.email, now)
        && store.History() == old(store.History()) && recentIssues == old(recentIssues) && nextId == old(nextId)
        && notice == Some(IssuesUpdated(store.History(), store.Suppressions()))
      ensures msg.ClearHistory? ==>
        && r == Success(true)
        && store.issues == Some([]) && recentIssues == [] && nextId == old(nextId)
        && store.Suppressions() == Active(old(store.Suppressions()), now)
        && notice == Some(IssuesUpdated([], store.Suppressions()))
      ensures msg.ScanPayload? && DetectAndAnonymize(msg.body).uniqueEmails == [] ==>
        && r == ScanResult([], msg.body, false, []) && notice == None
        && store.issues == old(store.issues) && store.dismissedEmails == old(store.dismissedEmails)
        && recentIssues == old(recentIssues) && nextId == old(nextId)
      ensures (msg.ScanPayload? && DetectAndAnonymize(msg.body).uniqueEmails != [] &&
               UnsuppressedEmails(msg.body, old(store.Suppressions()), now) == []) ==>
        var d := DetectAndAnonymize(msg.body);
        && r == ScanResult(d.uniqueEmails, d.anonymizedText, false, []) && notice == None
        && store.History() == old(store.History()) && store.Suppressions() == Active(old(store.Suppressions()), now)
        && recentIssues == old(recentIssues) && nextId == old(nextId)
      ensures (msg.ScanPayload? && DetectAndAnonymize(msg.body).uniqueEmails != [] &&
               UnsuppressedEmails(msg.body, old(store.Suppressions()), now) != []) ==>
        var d := DetectAndAnonymize(msg.body);
        var created := CreateIssuesFromEmails(UnsuppressedEmails(msg.body, old(store.Suppressions()), now),
          IssueUrl(msg.url, tabUrl.GetOr("")), msg.body, now, old(nextId));
        && r == ScanResult(d.uniqueEmails, d.anonymizedText, true, created)
        && store.History() == created + old(store.History())
        && store.Suppressions() == Active(old(store.Suppressions()), now)
        && recentIssues == created && nextId == old(nextId) + |created|
        && notice == Some(IssuesUpdated(store.History(), store.Suppressions()))
    {
      match msg
      case Untyped =>
        r, notice := Undefined, None;
      case ScanPayload(body, url) =>
        r, notice := HandleScanPayload(body, url, tabUrl.GetOr(""), now);
      case DismissEmail(email) =>
        var n;
        r, n := HandleDismissEmail(email, now);
        notice := Some(n);
      case ClearHistory =>
        var n;
        r, n := HandleClearHistory(now);
        notice := Some(n);
      case GetState =>
        r := HandleGetState(now);
        notice := None;
      case Other(name) =>
        r := if name == "" then Undefined else Null;
        notice := None;
    }
  }

  /** Recording freshly numbered issues in front of the history keeps identifiers below the counter and the new issues at the head. */
  lemma RecordKeepsInvariant(created: seq<EmailIssue>, history: seq<EmailIssue>, n: nat)
    requires IdsBelow(history, n)
    requires forall k :: 0 <= k < |created| ==> created[k].id == n + k
    ensures IdsBelow(created + history, n + |created|)
    ensures IsPrefix(created, created + history)
  {
    var all := created + history;
    assert all[..|created|] == created;
    forall k | 0 <= k < |all| ensures all[k].id < n + |created| {
      if k >= |created| {
        assert all[k] == history[k - |created|];
      }
    }
  }

  /**
   * The scan blocks exactly when some detected email has no suppression in
   * force; it never blocks a prompt without emails.
   */
  lemma ScanBlocksIff(body: string, stored: seq<DismissedEmail>, now: int)
    ensures
      var d := DetectAndAnonymize(body);
      (d.uniqueEmails != [] && ActiveEmails(d.uniqueEmails, stored, now) != [])
      <==> exists e :: e in DetectEmails(body) && !IsDismissedIn(stored, e, now)
  {
    var d := DetectAndAnonymize(body);
    var active := ActiveEmails(d.uniqueEmails, stored, now);
    UniqueEmailsProperties(d.foundEmails);
    if exists e :: e in DetectEmails(body) && !IsDismissedIn(stored, e, now) {
      var e :| e in DetectEmails(body) && !IsDismissedIn(stored, e, now);
      var u :| u in d.uniqueEmails && Lower(u) == Lower(e);
      assert u in active;
    }
    if active != [] {
      assert active[0] in active;
      SubseqIn(d.uniqueEmails, d.foundEmails, active[0]);
    }
  }
}
