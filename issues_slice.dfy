/**
 * The popup's copy of the extension state and the reducers that update it:
 * the history, the recent issues, the suppressions, and the loading and
 * error flags of the last fetch. The reducers run when the background
 * pushes an update or when one of the popup's requests settles.
 */
module IssuesSlice {
  import opened Wrappers
  import opened Lists
  import opened Strings
  import opened Types
  import opened Dismissals

  /** The message kept when a fetch fails without one of its own. */
  const FETCH_FAILED: string := "Failed to fetch state"

  /** `issues.filter(issue => issue.email.toLowerCase() !== email)`: the issues for other emails, in order. */
  function WithoutEmail(issues: seq<EmailIssue>, email: string): (r: seq<EmailIssue>)
    ensures forall i :: i in r <==> i in issues && Lower(i.email) != Lower(email)
    ensures Subseq(r, issues)
    ensures forall i :: multiset(r)[i] == if Lower(i.email) != Lower(email) then multiset(issues)[i] else 0
  {
    FilterSubseq(issues, (i: EmailIssue) => Lower(i.email) != Lower(email));
    FilterCount(issues, (i: EmailIssue) => Lower(i.email) != Lower(email));
    Filter(issues, (i: EmailIssue) => Lower(i.email) != Lower(email))
  }

  /** Removing the issues for an email a second time changes nothing. */
  lemma WithoutEmailIdempotent(issues: seq<EmailIssue>, email: string)
    ensures WithoutEmail(WithoutEmail(issues, email), email) == WithoutEmail(issues, email)
  {
    var once := WithoutEmail(issues, email);
    var keep := (i: EmailIssue) => Lower(i.email) != Lower(email);
    FilterCount(once, keep);
    assert forall i :: multiset(Filter(once, keep))[i] == multiset(once)[i] by {
      forall i ensures multiset(Filter(once, keep))[i] == multiset(once)[i] {
        if !keep(i) {
          assert i !in once;
        }
      }
    }
    assert multiset(Filter(once, keep)) == multiset(once);
    assert |Filter(once, keep)| == |once|;
    FilterSameLength(once, keep);
  }

  /**
   * The popup prepends a fresh 24-hour suppression even when the email is
   * already suppressed, where the stored list keeps the entry in force. For
   * an email that is not suppressed the two agree; in either case the email
   * ends up suppressed.
   */
  lemma PopupDismissAgreesWithStore(list: seq<DismissedEmail>, email: string, now: int)
    ensures !IsDismissedIn(list, email, now) ==> PrependDismissal(list, email, now) == DismissResult(list, email, now)
    ensures IsDismissedIn(PrependDismissal(list, email, now), email, now)
  {
    var p := PrependDismissal(list, email, now);
    assert p[0] in p;
    if !IsDismissedIn(list, email, now) {
      match FindDismissal(list, email)
      case Some(k) =>
        assert list[k] in list;
      case None =>
    }
  }

  class IssuesState {
    var issues: seq<EmailIssue>
    var recentIssues: seq<EmailIssue>
    var dismissedEmails: seq<DismissedEmail>
    var loading: bool
    /** `null` is `None`. */
    var error: Option<string>

    /** The initial state: all lists empty, not loading, no error. */
    constructor ()
      ensures issues == [] && recentIssues == [] && dismissedEmails == []
      ensures !loading && error == None
    {
      issues, recentIssues, dismissedEmails := [], [], [];
      loading, error := false, None;
    }

    /** `updateFromBackground`: take the pushed history and suppressions; nothing else changes. */
    method UpdateFromBackground(newIssues: seq<EmailIssue>, newDismissed: seq<DismissedEmail>)
      modifies this
      ensures issues == newIssues && dismissedEmails == newDismissed
      ensures recentIssues == old(recentIssues) && loading == old(loading) && error == old(error)
    {
      issues := newIssues;
      dismissedEmails := newDismissed;
    }

    /** `setRecentIssues`: replace the recent issues only. */
    method SetRecentIssues(list: seq<EmailIssue>)
      modifies this
      ensures recentIssues == list
      ensures issues == old(issues) && dismissedEmails == old(dismissedEmails)
      ensures loading == old(loading) && error == old(error)
    {
      recentIssues := list;
    }

    /** `clearError`: forget the error only. */
    method ClearError()
      modifies this
      ensures error == None
      ensures issues == old(issues) && recentIssues == old(recentIssues) && dismissedEmails == old(dismissedEmails)
      ensures loading == old(loading)
    {
      error := None;
    }

    /** `fetchState.pending`: loading, and no error; the lists stay. */
    method FetchPending()
      modifies this
      ensures loading && error == None
      ensures issues == old(issues) && recentIssues == old(recentIssues) && dismissedEmails == old(dismissedEmails)
    {
      loading := true;
      error := None;
    }

    /** `fetchState.fulfilled`: the three lists of the state response replace the popup's; the error stays. */
    method FetchFulfilled(newIssues: seq<EmailIssue>, newDismissed: seq<DismissedEmail>, newRecent: seq<EmailIssue>)
      modifies this
      ensures !loading && error == old(error)
      ensures issues == newIssues && dismissedEmails == newDismissed && recentIssues == newRecent
    {
      loading := false;
      issues := newIssues;
      dismissedEmails := newDismissed;
      recentIssues := newRecent;
    }

    /**
     * `fetchState.rejected`: not loading, and the error is the failure's
     * message, or the fixed text when it has none; the lists stay.
     */
    method FetchRejected(message: Option<string>)
      modifies this
      ensures !loading && error.Some?
      ensures message.Some? ==> error == message
      ensures message.None? ==> error == Some(FETCH_FAILED)
      ensures issues == old(issues) && recentIssues == old(recentIssues) && dismissedEmails == old(dismissedEmails)
    {
      loading := false;
      error := Some(message.GetOr(FETCH_FAILED));
    }

    /**
     * `dismissEmailAsync.fulfilled`: a fresh lowercase 24-hour suppression
     * goes in front of the entries for other emails, and the recent issues
     * for the email, compared ignoring case, go away. The history, the
     * loading flag and the error stay.
     */
    method DismissFulfilled(email: string, now: int)
      modifies this
      ensures dismissedEmails == PrependDismissal(old(dismissedEmails), email, now)
      ensures recentIssues == WithoutEmail(old(recentIssues), email)
      ensures IsDismissedIn(dismissedEmails, email, now)
      ensures forall i :: i in recentIssues ==> Lower(i.email) != Lower(email)
      ensures WellFormed(old(dismissedEmails)) ==> WellFormed(dismissedEmails)
      ensures issues == old(issues) && loading == old(loading) && error == old(error)
    {
      var key := Lower(email);
      LowerIsLowerCase(email);
      dismissedEmails := PrependDismissal(dismissedEmails, key, now);
      recentIssues := WithoutEmail(recentIssues, key);
      PopupDismissAgreesWithStore(old(dismissedEmails), email, now);
      if WellFormed(old(dismissedEmails)) {
        PrependWellFormed(old(dismissedEmails), email, now);
      }
    }

    /** `clearHistoryAsync.fulfilled`: the history and the recent issues become empty; the rest stays. */
    method ClearHistoryFulfilled()
      modifies this
      ensures issues == [] && recentIssues == []
      ensures dismissedEmails == old(dismissedEmails) && loading == old(loading) && error == old(error)
    {
      issues := [];
      recentIssues := [];
    }
  }
}
