/**
 * Suppressions ("dismissed emails") as values: which are still active,
 * finding one for an email, and the list that dismissing an email yields.
 * Both the stored list and the popup's copy are updated this way.
 */
module Dismissals {
  import opened Wrappers
  import opened Lists
  import opened Strings
  import opened Types

  /** The key under which suppressions are compared: the lowercase email. */
  function EmailKey(d: DismissedEmail): string {
    Lower(d.email)
  }

  /**
   * What every list of suppressions written by the extension satisfies:
   * emails stored in lowercase, at most one entry per lowercase email, and
   * each entry expiring strictly after it was made.
   */
  ghost predicate WellFormed(list: seq<DismissedEmail>) {
    && (forall k :: 0 <= k < |list| ==> IsLowerCase(list[k].email) && list[k].dismissedAt < list[k].expiresAt)
    && DistinctKeys(list, EmailKey)
  }

  /** A selection of a well-formed list is well-formed. */
  lemma SubseqWellFormed(xs: seq<DismissedEmail>, ys: seq<DismissedEmail>)
    requires Subseq(xs, ys) && WellFormed(ys)
    ensures WellFormed(xs)
  {
    SubseqDistinct(xs, ys, EmailKey);
    forall k | 0 <= k < |xs| ensures IsLowerCase(xs[k].email) && xs[k].dismissedAt < xs[k].expiresAt {
      SubseqIn(xs, ys, xs[k]);
    }
  }

  /** `dismissed.filter((d: DismissedEmail) => d.expiresAt > now)`: the suppressions still in force, in stored order. */
  function Active(list: seq<DismissedEmail>, now: int): (r: seq<DismissedEmail>)
    ensures forall d :: d in r <==> d in list && d.expiresAt > now
    ensures forall d :: multiset(r)[d] == if d.expiresAt > now then multiset(list)[d] else 0
    ensures Subseq(r, list)
    ensures |r| == |list| ==> r == list
  {
    FilterSubseq(list, (d: DismissedEmail) => d.expiresAt > now);
    FilterCount(list, (d: DismissedEmail) => d.expiresAt > now);
    var r := Filter(list, (d: DismissedEmail) => d.expiresAt > now);
    assert |r| == |list| ==> r == list by {
      if |r| == |list| {
        FilterSameLength(list, (d: DismissedEmail) => d.expiresAt > now);
      }
    }
    r
  }

  /** Pruning a list in which nothing has expired changes nothing. */
  lemma ActiveOfLive(list: seq<DismissedEmail>, now: int)
    requires forall d :: d in list ==> d.expiresAt > now
    ensures Active(list, now) == list
  {
    var a := Active(list, now);
    forall d: DismissedEmail ensures multiset(a)[d] == multiset(list)[d] {
      if d.expiresAt <= now {
        assert d !in list;
      }
    }
    assert multiset(a) == multiset(list);
    assert |a| == |multiset(a)| == |multiset(list)| == |list|;
  }

  /** Pruning expired entries keeps a list well-formed, and pruning again changes nothing. */
  lemma ActiveProperties(list: seq<DismissedEmail>, now: int)
    ensures WellFormed(list) ==> WellFormed(Active(list, now))
    ensures Active(Active(list, now), now) == Active(list, now)
  {
    if WellFormed(list) {
      SubseqWellFormed(Active(list, now), list);
    }
    ActiveOfLive(Active(list, now), now);
  }

  /** `dismissed.find(d => d.email.toLowerCase() === email.toLowerCase())`, as the index found. */
  function FindDismissal(list: seq<DismissedEmail>, email: string): (r: Option<nat>)
    ensures r.Some? ==> r.value < |list| && EmailKey(list[r.value]) == Lower(email)
    ensures r.Some? ==> forall j :: 0 <= j < r.value ==> EmailKey(list[j]) != Lower(email)
    ensures r.None? <==> forall j :: 0 <= j < |list| ==> EmailKey(list[j]) != Lower(email)
    decreases |list|
  {
    if list == [] then None
    else if EmailKey(list[0]) == Lower(email) then Some(0)
    else
      match FindDismissal(list[1..], email)
      case None => None
      case Some(k) => Some(k + 1)
  }

  /**
   * `dismissed.some(d => d.email.toLowerCase() === email.toLowerCase() && d.expiresAt > now)`.
   */
  predicate IsDismissedIn(list: seq<DismissedEmail>, email: string, now: int) {
    exists d :: d in list && EmailKey(d) == Lower(email) && d.expiresAt > now
  }

  /** The suppression a dismissal at `now` creates: lowercase, made at `now`, lasting 24 hours. */
  function NewDismissal(email: string, now: int): (d: DismissedEmail)
    ensures IsLowerCase(d.email) && EmailKey(d) == Lower(email)
    ensures d.dismissedAt == now && d.expiresAt - d.dismissedAt == DISMISS_DURATION_MS
  {
    LowerIsLowerCase(email);
    DismissedEmail(Lower(email), now, now + DISMISS_DURATION_MS)
  }

  /**
   * The new suppression first, followed by the entries for other emails,
   * in their order.
   */
  function PrependDismissal(list: seq<DismissedEmail>, email: string, now: int): (r: seq<DismissedEmail>)
    ensures |r| > 0 && r[0] == NewDismissal(email, now)
    ensures forall d :: d in r[1..] <==> d in list && EmailKey(d) != Lower(email)
    ensures Subseq(r[1..], list)
    ensures forall d :: multiset(r[1..])[d] == if EmailKey(d) != Lower(email) then multiset(list)[d] else 0
  {
    var rest := Filter(list, (d: DismissedEmail) => EmailKey(d) != Lower(email));
    FilterSubseq(list, (d: DismissedEmail) => EmailKey(d) != Lower(email));
    FilterCount(list, (d: DismissedEmail) => EmailKey(d) != Lower(email));
    assert ([NewDismissal(email, now)] + rest)[1..] == rest;
    [NewDismissal(email, now)] + rest
  }

  /** Prepending a new suppression keeps a list well-formed. */
  lemma PrependWellFormed(list: seq<DismissedEmail>, email: string, now: int)
    requires WellFormed(list)
    ensures WellFormed(PrependDismissal(list, email, now))
  {
    var r := PrependDismissal(list, email, now);
    var rest := r[1..];
    SubseqWellFormed(rest, list);
    forall i, j | 0 <= i < j < |r| ensures EmailKey(r[i]) != EmailKey(r[j]) {
      if i == 0 {
        assert r[j] == rest[j - 1] && r[j] in rest;
      } else {
        assert r[i] == rest[i - 1] && r[j] == rest[j - 1];
      }
    }
    forall k | 0 < k < |r| ensures IsLowerCase(r[k].email) && r[k].dismissedAt < r[k].expiresAt {
      assert r[k] == rest[k - 1];
    }
  }

  /**
   * The list `dismissEmail` returns, given the suppressions in force: unchanged
   * when the first entry for the email has not expired, else with a new
   * suppression in front.
   */
  function DismissResult(list: seq<DismissedEmail>, email: string, now: int): seq<DismissedEmail> {
    match FindDismissal(list, email)
    case Some(k) => if list[k].expiresAt > now then list else PrependDismissal(list, email, now)
    case None => PrependDismissal(list, email, now)
  }

  /**
   * After a dismissal the email is suppressed; every entry for another email
   * survives, and no entry appears but the new one.
   */
  lemma DismissEffect(list: seq<DismissedEmail>, email: string, now: int)
    ensures IsDismissedIn(DismissResult(list, email, now), email, now)
    ensures forall d :: d in list && EmailKey(d) != Lower(email) ==> d in DismissResult(list, email, now)
    ensures forall d :: d in DismissResult(list, email, now) ==> d in list || d == NewDismissal(email, now)
  {
    var r := DismissResult(list, email, now);
    if r == list {
      var k := FindDismissal(list, email).value;
      assert list[k] in list;
    } else {
      var p := PrependDismissal(list, email, now);
      assert p[0] in p;
      forall d | d in p ensures d in list || d == NewDismissal(email, now) {
        if d != p[0] {
          var k :| 0 <= k < |p| && p[k] == d;
          assert p[1..][k - 1] == d;
        }
      }
      forall d | d in list && EmailKey(d) != Lower(email) ensures d in p {
        assert d in p[1..];
      }
    }
  }

  /** Dismissing keeps the suppressions well-formed. */
  lemma DismissWellFormed(list: seq<DismissedEmail>, email: string, now: int)
    requires WellFormed(list)
    ensures WellFormed(DismissResult(list, email, now))
  {
    PrependWellFormed(list, email, now);
  }

  /**
   * Dismissing against the entries of a stored list that are still in force:
   * the email ends up suppressed, nothing changes exactly when it already was,
   * and a well-formed list stays well-formed.
   */
  lemma DismissStored(stored: seq<DismissedEmail>, email: string, now: int)
    ensures var r := DismissResult(Active(stored, now), email, now);
      && IsDismissedIn(r, email, now)
      && (r == Active(stored, now) <==> IsDismissedIn(stored, email, now))
      && (WellFormed(stored) ==> WellFormed(r))
  {
    var live := Active(stored, now);
    DismissEffect(live, email, now);
    DismissNoOpIff(live, email, now);
    assert IsDismissedIn(live, email, now) <==> IsDismissedIn(stored, email, now);
    if WellFormed(stored) {
      ActiveProperties(stored, now);
      DismissWellFormed(live, email, now);
    }
  }

  /** Dismissing the same email twice at the same time is dismissing it once. */
  lemma DismissIdempotent(list: seq<DismissedEmail>, email: string, now: int)
    ensures DismissResult(DismissResult(list, email, now), email, now) == DismissResult(list, email, now)
  {
    var r := DismissResult(list, email, now);
    if r != list {
      var p := PrependDismissal(list, email, now);
      assert FindDismissal(p, email) == Some(0);
    }
  }

  /**
   * Over the suppressions in force, dismissing changes nothing exactly when
   * the email is already suppressed.
   */
  lemma DismissNoOpIff(list: seq<DismissedEmail>, email: string, now: int)
    requires forall d :: d in list ==> d.expiresAt > now
    ensures DismissResult(list, email, now) == list <==> IsDismissedIn(list, email, now)
  {
    match FindDismissal(list, email)
    case Some(k) =>
      assert list[k] in list;
    case None =>
      var p := PrependDismissal(list, email, now);
      assert p[0] in p;
  }
}
