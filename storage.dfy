/**
 * The extension's persistent storage: two keys, `issues` and
 * `dismissedEmails`. A key that was never written reads as the empty list.
 * The clock reading is passed in as `now`.
 */
module Storage {
  import opened Wrappers
  import opened Types
  import opened Strings
  import opened Dismissals

  class Store {
    /** The `issues` key: `None` until first written. */
    var issues: Option<seq<EmailIssue>>
    /** The `dismissedEmails` key: `None` until first written. */
    var dismissedEmails: Option<seq<DismissedEmail>>

    /** An empty storage area. */
    constructor ()
      ensures issues == None && dismissedEmails == None
    {
      issues := None;
      dismissedEmails := None;
    }

    /** The stored history, `[]` when never written. */
    function History(): seq<EmailIssue>
      reads this
    {
      issues.GetOr([])
    }

    /** The stored suppressions, `[]` when never written, expired ones included. */
    function Suppressions(): seq<DismissedEmail>
      reads this
    {
      dismissedEmails.GetOr([])
    }

    /** `getIssues`: the stored history, or `[]` when nothing is stored. */
    method GetIssues() returns (r: seq<EmailIssue>)
      ensures issues.None? ==> r == []
      ensures issues.Some? ==> r == issues.value
    {
      r := issues.GetOr([]);
    }

    /** `saveIssues`: overwrite the history. */
    method SaveIssues(list: seq<EmailIssue>)
      modifies this
      ensures issues == Some(list) && dismissedEmails == old(dismissedEmails)
    {
      issues := Some(list);
    }

    /** `addIssues`: the new issues go in front of the stored ones (most recent first). */
    method AddIssues(newIssues: seq<EmailIssue>) returns (updated: seq<EmailIssue>)
      modifies this
      ensures updated == newIssues + old(History())
      ensures issues == Some(updated) && dismissedEmails == old(dismissedEmails)
    {
      var existing := GetIssues();
      updated := newIssues + existing;
      SaveIssues(updated);
    }

    /** `clearIssues`: the history becomes empty; suppressions stay. */
    method ClearIssues()
      modifies this
      ensures issues == Some([]) && dismissedEmails == old(dismissedEmails)
    {
      issues := Some([]);
    }

    /** `saveDismissedEmails`: overwrite the suppressions. */
    method SaveDismissedEmails(list: seq<DismissedEmail>)
      modifies this
      ensures dismissedEmails == Some(list) && issues == old(issues)
    {
      dismissedEmails := Some(list);
    }

    /**
     * `getDismissedEmails`: the suppressions with `expiresAt > now`, in stored
     * order; the pruned list is written back only when something expired.
     */
    method GetDismissedEmails(now: int) returns (active: seq<DismissedEmail>)
      modifies this
      ensures active == Active(old(Suppressions()), now)
      ensures |active| == |old(Suppressions())| ==> dismissedEmails == old(dismissedEmails)
      ensures |active| != |old(Suppressions())| ==> dismissedEmails == Some(active)
      ensures Suppressions() == active && issues == old(issues)
      ensures WellFormed(old(Suppressions())) ==> WellFormed(Suppressions())
    {
      var dismissed := dismissedEmails.GetOr([]);
      active := Active(dismissed, now);
      ActiveProperties(dismissed, now);
      if |active| != |dismissed| {
        SaveDismissedEmails(active);
      }
    }

    /**
     * `dismissEmail`: read the suppressions in force; if the first entry for
     * the email has not expired, return them as they are, else store and
     * return them with a new 24-hour suppression in front.
     */
    method DismissEmail(email: string, now: int) returns (updated: seq<DismissedEmail>)
      modifies this
      ensures updated == DismissResult(Active(old(Suppressions()), now), email, now)
      ensures Suppressions() == updated && issues == old(issues)
      ensures IsDismissedIn(updated, email, now)
      ensures updated == Active(old(Suppressions()), now) <==> IsDismissedIn(old(Suppressions()), email, now)
      ensures WellFormed(old(Suppressions())) ==> WellFormed(Suppressions())
    {
      var dismissed := GetDismissedEmails(now);
      var existing := FindDismissal(dismissed, email);
      if existing.Some? && dismissed[existing.value].expiresAt > now {
        updated := dismissed;
      } else {
        updated := PrependDismissal(dismissed, email, now);
        SaveDismissedEmails(updated);
      }
      assert updated == DismissResult(dismissed, email, now);
      DismissStored(old(Suppressions()), email, now);
    }

    /**
     * `isEmailDismissed`: whether a stored suppression for the email,
     * compared ignoring case, is still in force. Reading prunes expired
     * entries as `getDismissedEmails` does.
     */
    method IsEmailDismissed(email: string, now: int) returns (b: bool)
      modifies this
      ensures b <==> IsDismissedIn(old(Suppressions()), email, now)
      ensures Suppressions() == Active(old(Suppressions()), now) && issues == old(issues)
    {
      var dismissed := GetDismissedEmails(now);
      b := exists d :: d in dismissed && EmailKey(d) == Lower(email) && d.expiresAt > now;
    }

    /** `getAllStorage`: the history and the suppressions in force. */
    method GetAllStorage(now: int) returns (history: seq<EmailIssue>, dismissed: seq<DismissedEmail>)
      modifies this
      ensures history == old(History())
      ensures dismissed == Active(old(Suppressions()), now)
      ensures Suppressions() == dismissed && issues == old(issues)
    {
      history := GetIssues();
      dismissed := GetDismissedEmails(now);
    }
  }
}
