/**
 * The email pattern `[a-zA-Z0-9._%+-]+@[a-zA-Z0-9.-]+\.[a-zA-Z]{2,}` and the
 * way a global (`/g`) regular expression finds it: `String.prototype.match`
 * and `String.prototype.replace` scan for the leftmost match, take the one
 * the backtracking engine settles on, and resume right after it.
 */
module EmailPattern {
  import opened Wrappers

  /** The three character classes of the pattern. */
  datatype CharClass = Local | Domain | Alpha

  predicate IsAsciiLetter(c: char) {
    'a' <= c <= 'z' || 'A' <= c <= 'Z'
  }

  predicate InClass(c: char, cls: CharClass) {
    match cls
    case Local => IsAsciiLetter(c) || '0' <= c <= '9' || c == '.' || c == '_' || c == '%' || c == '+' || c == '-'
    case Domain => IsAsciiLetter(c) || '0' <= c <= '9' || c == '.' || c == '-'
    case Alpha => IsAsciiLetter(c)
  }

  predicate AllIn(s: string, cls: CharClass) {
    forall k :: 0 <= k < |s| ==> InClass(s[k], cls)
  }

  /**
   * `m` as a whole is local part, '@' at `at`, domain, '.' at `dot`, and a
   * top-level label of at least two letters.
   */
  predicate IsSplit(m: string, at: nat, dot: nat) {
    && 0 < at && at + 1 < dot && dot + 2 < |m|
    && m[at] == '@' && m[dot] == '.'
    && AllIn(m[..at], Local) && AllIn(m[at + 1..dot], Domain) && AllIn(m[dot + 1..], Alpha)
  }

  /** The language of the pattern. */
  ghost predicate MatchesPattern(m: string) {
    exists at: nat, dot: nat :: IsSplit(m, at, dot)
  }

  /** Some match of the pattern starts at position `i` of `s`. */
  ghost predicate StartsMatch(s: string, i: nat) {
    exists e: nat :: i < e <= |s| && MatchesPattern(s[i..e])
  }

  /** No substring of `t` matches the pattern. */
  ghost predicate NoMatch(t: string) {
    forall q: nat, e: nat :: q < e <= |t| ==> !MatchesPattern(t[q..e])
  }

  /** Where a greedy `cls+` started at `i` stops: the end of the maximal run of `cls` characters. */
  function RunEnd(s: string, i: nat, cls: CharClass): (j: nat)
    requires i <= |s|
    ensures i <= j <= |s|
    ensures AllIn(s[i..j], cls)
    ensures j < |s| ==> !InClass(s[j], cls)
    decreases |s| - i
  {
    if i < |s| && InClass(s[i], cls) then
      var j := RunEnd(s, i + 1, cls);
      assert s[i..j] == [s[i]] + s[i + 1..j];
      j
    else i
  }

  /** Position `p` holds a '.' followed by at least two letters. */
  predicate TldDotAt(s: string, p: nat) {
    p + 2 < |s| && s[p] == '.' && IsAsciiLetter(s[p + 1]) && IsAsciiLetter(s[p + 2])
  }

  /**
   * The dot `\.[a-zA-Z]{2,}` settles on when `[a-zA-Z0-9.-]+` gives back
   * characters one at a time: the last suitable one in `[lo, hi)`.
   */
  function LastTldDot(s: string, lo: nat, hi: nat): (r: Option<nat>)
    ensures r.Some? ==> lo <= r.value < hi && TldDotAt(s, r.value)
    ensures r.Some? ==> forall q: nat :: r.value < q < hi ==> !TldDotAt(s, q)
    ensures r.None? ==> forall q: nat :: lo <= q < hi ==> !TldDotAt(s, q)
    decreases hi
  {
    if hi <= lo then None
    else if TldDotAt(s, hi - 1) then Some(hi - 1)
    else LastTldDot(s, lo, hi - 1)
  }

  /**
   * The end of the match the backtracking engine finds when it tries the
   * pattern at position `i`, or `None` when the attempt fails.
   */
  function MatchAt(s: string, i: nat): (r: Option<nat>)
    requires i <= |s|
    ensures r.Some? ==> i < r.value <= |s|
  {
    var j := RunEnd(s, i, Local);
    if j == i || j == |s| || s[j] != '@' then None
    else
      var k := RunEnd(s, j + 1, Domain);
      match LastTldDot(s, j + 2, k)
      case None => None
      case Some(p) => Some(RunEnd(s, p + 1, Alpha))
  }

  /** A greedy run started at `i` reaches at least `hi` when every character before `hi` is in the class. */
  lemma RunCovers(s: string, i: nat, hi: nat, cls: CharClass)
    requires i <= hi <= |s|
    requires forall q :: i <= q < hi ==> InClass(s[q], cls)
    ensures RunEnd(s, i, cls) >= hi
  {
  }

  /** A greedy run stops exactly at the first character outside the class. */
  lemma RunStops(s: string, i: nat, hi: nat, cls: CharClass)
    requires i <= hi < |s| && !InClass(s[hi], cls)
    requires forall q :: i <= q < hi ==> InClass(s[q], cls)
    ensures RunEnd(s, i, cls) == hi
  {
  }

  /** The pieces of a match `s[i..e]`, stated position by position in `s`. */
  lemma SplitChars(s: string, i: nat, e: nat, at: nat, dot: nat)
    requires i < e <= |s| && IsSplit(s[i..e], at, dot)
    ensures i + dot + 2 < e && s[i + at] == '@' && s[i + dot] == '.'
    ensures forall q :: i <= q < i + at ==> InClass(s[q], Local)
    ensures forall q :: i + at + 1 <= q < i + dot ==> InClass(s[q], Domain)
    ensures forall q :: i + dot + 1 <= q < e ==> InClass(s[q], Alpha)
  {
    var m := s[i..e];
    forall q | i <= q < i + at ensures InClass(s[q], Local) {
      assert s[q] == m[..at][q - i];
    }
    forall q | i + at + 1 <= q < i + dot ensures InClass(s[q], Domain) {
      assert s[q] == m[at + 1..dot][q - i - at - 1];
    }
    forall q | i + dot + 1 <= q < e ensures InClass(s[q], Alpha) {
      assert s[q] == m[dot + 1..][q - i - dot - 1];
    }
    assert s[i + at] == m[at] && s[i + dot] == m[dot];
  }

  /** Runs of the three classes around an '@' and a '.' make a match of the pattern. */
  lemma JoinRuns(s: string, i: nat, j: nat, p: nat, v: nat)
    requires i < j && j + 1 < p && p + 2 < v <= |s|
    requires s[j] == '@' && s[p] == '.'
    requires AllIn(s[i..j], Local) && AllIn(s[j + 1..p], Domain) && AllIn(s[p + 1..v], Alpha)
    ensures MatchesPattern(s[i..v])
  {
    var m := s[i..v];
    SliceOfSlice(s, i, v, 0, j - i);
    SliceOfSlice(s, i, v, j - i + 1, p - i);
    SliceOfSlice(s, i, v, p - i + 1, v - i);
    assert m[..j - i] == m[0..j - i] && m[p - i + 1..] == m[p - i + 1..v - i];
    assert m[j - i] == s[j] && m[p - i] == s[p];
    assert IsSplit(m, j - i, p - i);
  }

  /** A slice of a slice is a slice of the whole. */
  lemma SliceOfSlice(s: string, a: nat, b: nat, c: nat, d: nat)
    requires a <= b <= |s| && c <= d <= b - a
    ensures s[a..b][c..d] == s[a + c..a + d]
  {
    forall x | 0 <= x < d - c ensures s[a..b][c..d][x] == s[a + c..a + d][x] {
      assert s[a..b][c..d][x] == s[a + c + x];
    }
  }

  /** A run of a class contains every shorter run from the same start. */
  lemma RunPrefix(s: string, lo: nat, mid: nat, hi: nat, cls: CharClass)
    requires lo <= mid <= hi <= |s| && AllIn(s[lo..hi], cls)
    ensures AllIn(s[lo..mid], cls)
  {
    forall q | 0 <= q < mid - lo ensures InClass(s[lo..mid][q], cls) {
      assert s[lo..mid][q] == s[lo..hi][q];
    }
  }

  /** What the engine finds is a match of the pattern. */
  lemma MatchAtSound(s: string, i: nat)
    requires i <= |s| && MatchAt(s, i).Some?
    ensures MatchesPattern(s[i..MatchAt(s, i).value])
  {
    var j := RunEnd(s, i, Local);
    assert i < j < |s| && s[j] == '@';
    var k := RunEnd(s, j + 1, Domain);
    var p := LastTldDot(s, j + 2, k).value;
    var v := RunEnd(s, p + 1, Alpha);
    assert MatchAt(s, i).value == v;
    RunCovers(s, p + 1, p + 3, Alpha);
    RunPrefix(s, j + 1, p, k, Domain);
    JoinRuns(s, i, j, p, v);
  }

  /**
   * Whenever some match of the pattern starts at `i`, the engine finds one,
   * and one at least as long.
   */
  lemma MatchAtComplete(s: string, i: nat, e: nat)
    requires i < e <= |s| && MatchesPattern(s[i..e])
    ensures MatchAt(s, i).Some? && e <= MatchAt(s, i).value
  {
    var at: nat, dot: nat :| IsSplit(s[i..e], at, dot);
    SplitChars(s, i, e, at, dot);
    // The local part is forced: the run of local characters stops at the '@'.
    RunStops(s, i, i + at, Local);
    var j := i + at;
    // Everything after the '@' up to the end of the top-level label is a domain character.
    RunCovers(s, j + 1, i + dot + 3, Domain);
    var k := RunEnd(s, j + 1, Domain);
    assert TldDotAt(s, i + dot);
    var p := LastTldDot(s, j + 2, k).value;
    if p == i + dot {
      RunCovers(s, p + 1, e, Alpha);
    }
  }

  /**
   * The engine's choice at `i` is the longest match of the pattern starting
   * there, and it fails exactly when no match starts there.
   */
  lemma MatchAtIsLongest(s: string, i: nat)
    requires i <= |s|
    ensures MatchAt(s, i).None? <==> !StartsMatch(s, i)
    ensures MatchAt(s, i).Some? ==>
      && MatchesPattern(s[i..MatchAt(s, i).value])
      && forall e: nat :: MatchAt(s, i).value < e <= |s| ==> !MatchesPattern(s[i..e])
  {
    if MatchAt(s, i).Some? {
      MatchAtSound(s, i);
      forall e: nat | MatchAt(s, i).value < e <= |s| ensures !MatchesPattern(s[i..e]) {
        if MatchesPattern(s[i..e]) {
          MatchAtComplete(s, i, e);
        }
      }
    } else {
      forall e: nat | i < e <= |s| ensures !MatchesPattern(s[i..e]) {
        if MatchesPattern(s[i..e]) {
          MatchAtComplete(s, i, e);
        }
      }
    }
  }

  /** Every character of a match is a local character or the '@'; a match contains an '@' and starts with a local character. */
  predicate IsPatternChar(c: char) {
    InClass(c, Local) || c == '@'
  }

  lemma MatchChars(m: string)
    requires MatchesPattern(m)
    ensures forall k :: 0 <= k < |m| ==> IsPatternChar(m[k])
    ensures '@' in m && InClass(m[0], Local)
  {
    var at: nat, dot: nat :| IsSplit(m, at, dot);
    forall k | 0 <= k < |m| ensures IsPatternChar(m[k]) {
      if k < at {
        assert m[k] == m[..at][k];
      } else if at < k < dot {
        assert m[k] == m[at + 1..dot][k - at - 1];
      } else if dot < k {
        assert m[k] == m[dot + 1..][k - dot - 1];
      }
    }
    assert m[0] == m[..at][0];
  }

  /** A replacement text that can take part in no match: it contains no '@' and is fenced by non-pattern characters. */
  predicate Inert(rep: string) {
    |rep| > 0 && !IsPatternChar(rep[0]) && !IsPatternChar(rep[|rep| - 1]) && '@' !in rep
  }

  /** A substring containing a non-pattern character is no match. */
  lemma NoMatchAcross(t: string, q: nat, e: nat, x: nat)
    requires q <= x < e <= |t| && !IsPatternChar(t[x])
    ensures !MatchesPattern(t[q..e])
  {
    if MatchesPattern(t[q..e]) {
      MatchChars(t[q..e]);
    }
  }

  /** A text without an '@' is no match. */
  lemma NoMatchWithoutAt(m: string)
    requires '@' !in m
    ensures !MatchesPattern(m)
  {
    if MatchesPattern(m) {
      MatchChars(m);
    }
  }

  /** Gluing match-free texts around an inert replacement creates no match. */
  lemma NoMatchAround(a: string, rep: string, b: string)
    requires NoMatch(a) && NoMatch(b) && Inert(rep)
    ensures NoMatch(a + rep + b)
  {
    var t := a + rep + b;
    var la, lr := |a|, |rep|;
    forall q: nat, e: nat | q < e <= |t| ensures !MatchesPattern(t[q..e]) {
      if q <= la < e {
        assert t[la] == rep[0];
        NoMatchAcross(t, q, e, la);
      } else if q <= la + lr - 1 < e {
        assert t[la + lr - 1] == rep[lr - 1];
        NoMatchAcross(t, q, e, la + lr - 1);
      } else if e <= la {
        assert t[q..e] == a[q..e];
      } else if la + lr <= q {
        assert t[q..e] == b[q - la - lr..e - la - lr];
      } else {
        assert t[q..e] == rep[q - la..e - la];
        assert '@' !in rep[q - la..e - la];
        NoMatchWithoutAt(t[q..e]);
      }
    }
  }

  /** Matches found by a scan: positions in `[lo, hi)`, in increasing order, not overlapping. */
  datatype Span = Span(start: nat, end: nat)

  predicate Ordered(sp: seq<Span>, lo: nat, hi: nat) {
    && (forall t :: 0 <= t < |sp| ==> lo <= sp[t].start < sp[t].end <= hi)
    && (forall t, u :: 0 <= t < u < |sp| ==> sp[t].end <= sp[u].start)
  }

  /**
   * The matches a global scan from position `i` reports: try the pattern at
   * each position in turn, and after a match resume where it ended.
   */
  function Scan(s: string, i: nat): (sp: seq<Span>)
    requires i <= |s|
    ensures Ordered(sp, i, |s|)
    decreases |s| - i
  {
    if i == |s| then []
    else
      match MatchAt(s, i)
      case Some(e) => [Span(i, e)] + Scan(s, e)
      case None => Scan(s, i + 1)
  }

  /** No match starts anywhere in `[lo, hi)`. */
  ghost predicate NoMatchFrom(s: string, lo: nat, hi: nat) {
    forall q: nat :: lo <= q < hi ==> !StartsMatch(s, q)
  }

  /**
   * `sp` lists, from position `i` on, the leftmost match, taken as long as
   * possible, then the leftmost longest match after it, and so on.
   */
  ghost predicate LeftmostLongest(s: string, i: nat, sp: seq<Span>)
    decreases |sp|
  {
    if sp == [] then i <= |s| && NoMatchFrom(s, i, |s|)
    else
      var a, e := sp[0].start, sp[0].end;
      && i <= a < e <= |s|
      && NoMatchFrom(s, i, a)
      && MatchesPattern(s[a..e])
      && (forall e': nat :: e < e' <= |s| ==> !MatchesPattern(s[a..e']))
      && LeftmostLongest(s, e, sp[1..])
  }

  /** A position where no match starts can be added in front of a leftmost-longest sequence. */
  lemma GapExtend(s: string, i: nat, sp: seq<Span>)
    requires i < |s| && !StartsMatch(s, i) && LeftmostLongest(s, i + 1, sp)
    ensures LeftmostLongest(s, i, sp)
  {
  }

  lemma {:induction false} ScanIsLeftmostLongest(s: string, i: nat)
    requires i <= |s|
    ensures LeftmostLongest(s, i, Scan(s, i))
    decreases |s| - i
  {
    if i < |s| {
      MatchAtIsLongest(s, i);
      match MatchAt(s, i)
      case Some(e) =>
        var rest := Scan(s, e);
        var sp := [Span(i, e)] + rest;
        ScanIsLeftmostLongest(s, e);
        assert sp[0] == Span(i, e) && sp[1..] == rest;
        assert Scan(s, i) == sp;
      case None =>
        ScanIsLeftmostLongest(s, i + 1);
        GapExtend(s, i, Scan(s, i + 1));
    }
  }

  /** A match from `a` to `e` means a match starts at `a`. */
  lemma StartsAt(s: string, a: nat, e: nat)
    requires a < e <= |s| && MatchesPattern(s[a..e])
    ensures StartsMatch(s, a)
  {
  }

  /** At most one sequence of spans is leftmost-longest. */
  lemma {:induction false} LeftmostLongestUnique(s: string, i: nat, sp1: seq<Span>, sp2: seq<Span>)
    requires LeftmostLongest(s, i, sp1) && LeftmostLongest(s, i, sp2)
    ensures sp1 == sp2
    decreases |sp1|
  {
    if sp1 != [] {
      StartsAt(s, sp1[0].start, sp1[0].end);
    }
    if sp2 != [] {
      StartsAt(s, sp2[0].start, sp2[0].end);
    }
    if sp1 != [] && sp2 != [] {
      var a1, e1, a2, e2 := sp1[0].start, sp1[0].end, sp2[0].start, sp2[0].end;
      if a1 == a2 && e1 == e2 {
        LeftmostLongestUnique(s, e1, sp1[1..], sp2[1..]);
        assert sp1 == [sp1[0]] + sp1[1..] && sp2 == [sp2[0]] + sp2[1..];
      }
    }
  }

  /** The global scan is exactly the leftmost-longest sequence of matches. */
  lemma ScanCharacterised(s: string, i: nat, sp: seq<Span>)
    requires i <= |s|
    ensures LeftmostLongest(s, i, sp) <==> sp == Scan(s, i)
  {
    ScanIsLeftmostLongest(s, i);
    if LeftmostLongest(s, i, sp) {
      LeftmostLongestUnique(s, i, sp, Scan(s, i));
    }
  }

  /** A text in which the pattern matches nowhere yields no spans. */
  lemma {:induction false} NoMatchScanEmpty(t: string, i: nat)
    requires i <= |t| && NoMatch(t)
    ensures Scan(t, i) == []
    decreases |t| - i
  {
    if i < |t| {
      if MatchAt(t, i).Some? {
        MatchAtSound(t, i);
      }
      NoMatchScanEmpty(t, i + 1);
    }
  }

  /** A text whose scan from 0 is empty has no match anywhere. */
  lemma ScanEmptyNoMatch(t: string)
    requires Scan(t, 0) == []
    ensures NoMatch(t)
  {
    ScanIsLeftmostLongest(t, 0);
    forall q: nat, e: nat | q < e <= |t| ensures !MatchesPattern(t[q..e]) {
      assert !StartsMatch(t, q);
    }
  }

  /** `s` from `i` on with every span replaced by `rep`: what `replace` with a global pattern returns. */
  function ReplaceSpans(s: string, i: nat, sp: seq<Span>, rep: string): string
    requires i <= |s| && Ordered(sp, i, |s|)
    decreases |sp|
  {
    if sp == [] then s[i..]
    else s[i..sp[0].start] + rep + ReplaceSpans(s, sp[0].end, sp[1..], rep)
  }

  /** A stretch with no match starting in it has no match inside it. */
  lemma GapNoMatch(s: string, i: nat, a: nat)
    requires i <= a <= |s| && NoMatchFrom(s, i, a)
    ensures NoMatch(s[i..a])
  {
    var g := s[i..a];
    forall q: nat, e: nat | q < e <= |g| ensures !MatchesPattern(g[q..e]) {
      forall k | 0 <= k < e - q ensures g[q..e][k] == s[i + q..i + e][k] {
        assert g[q..e][k] == g[q + k] == s[i + q + k];
      }
      assert g[q..e] == s[i + q..i + e];
      assert !StartsMatch(s, i + q);
    }
  }

  /** The tail of an ordered sequence of spans is ordered from where the head ends. */
  lemma OrderedTail(sp: seq<Span>, lo: nat, hi: nat)
    requires sp != [] && Ordered(sp, lo, hi)
    ensures Ordered(sp[1..], sp[0].end, hi)
  {
    forall t | 0 <= t < |sp| - 1 ensures sp[0].end <= sp[1..][t].start {
      assert sp[1..][t] == sp[t + 1];
    }
  }

  /** Replacing the leftmost-longest matches by an inert text leaves no match at all. */
  lemma {:induction false} ReplaceLeavesNoMatch(s: string, i: nat, sp: seq<Span>, rep: string)
    requires Ordered(sp, i, |s|) && LeftmostLongest(s, i, sp) && Inert(rep)
    ensures NoMatch(ReplaceSpans(s, i, sp, rep))
    decreases |sp|
  {
    if sp == [] {
      GapNoMatch(s, i, |s|);
      assert s[i..] == s[i..|s|];
    } else {
      var a, e := sp[0].start, sp[0].end;
      OrderedTail(sp, i, |s|);
      GapNoMatch(s, i, a);
      ReplaceLeavesNoMatch(s, e, sp[1..], rep);
      var rest := ReplaceSpans(s, e, sp[1..], rep);
      NoMatchAround(s[i..a], rep, rest);
      assert ReplaceSpans(s, i, sp, rep) == s[i..a] + rep + rest;
    }
  }
}
