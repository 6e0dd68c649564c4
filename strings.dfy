/**
 * The JavaScript string built-ins the source relies on: ASCII
 * `toLowerCase`, `split`/`join`, `endsWith`, and the decimal rendering of a
 * non-negative integer inside a template literal.
 */
module Strings {

  /** `toLowerCase` on one character, restricted to ASCII. */
  function LowerChar(c: char): char {
    if 'A' <= c <= 'Z' then (c as int + 32) as char else c
  }

  /** `s.toLowerCase()`, restricted to ASCII. */
  function Lower(s: string): (r: string)
    ensures |r| == |s|
    ensures forall k :: 0 <= k < |s| ==> r[k] == LowerChar(s[k])
  {
    seq(|s|, k requires 0 <= k < |s| => LowerChar(s[k]))
  }

  predicate IsLowerCase(s: string) {
    Lower(s) == s
  }

  lemma LowerIsLowerCase(s: string)
    ensures IsLowerCase(Lower(s))
  {
    var l := Lower(s);
    assert forall k :: 0 <= k < |l| ==> Lower(l)[k] == l[k];
  }

  /** `parts.join(sep)`. */
  function Join(parts: seq<string>, sep: string): string
    decreases |parts|
  {
    if parts == [] then ""
    else if |parts| == 1 then parts[0]
    else parts[0] + sep + Join(parts[1..], sep)
  }

  /** `pat` occurs literally in `s` at position `k`. */
  predicate OccursAt(pat: string, s: string, k: nat) {
    k + |pat| <= |s| && s[k..k + |pat|] == pat
  }

  /** `pat` occurs literally in `s`. */
  ghost predicate Occurs(pat: string, s: string) {
    exists k: nat :: OccursAt(pat, s, k)
  }

  /**
   * The pieces of `s` around the leftmost non-overlapping occurrences of
   * `sep`, the first piece starting with `cur`.
   */
  function SplitFrom(s: string, sep: string, cur: string): (parts: seq<string>)
    requires |sep| > 0
    ensures |parts| > 0
    decreases |s|
  {
    if |s| < |sep| then [cur + s]
    else if s[..|sep|] == sep then [cur] + SplitFrom(s[|sep|..], sep, "")
    else SplitFrom(s[1..], sep, cur + [s[0]])
  }

  /**
   * `s.split(sep)` for a non-empty separator: pieces free of the separator
   * that give back `s` when joined with it, each cut made at the leftmost
   * occurrence of the separator in what remains of the text.
   */
  function Split(s: string, sep: string): (r: seq<string>)
    requires |sep| > 0
    ensures |r| > 0 && Join(r, sep) == s
    ensures forall p :: p in r ==> !Occurs(sep, p)
    ensures forall k, q :: 0 <= k < |r| - 1 && 0 <= q < |r[k]| ==> !OccursAt(sep, Join(r[k..], sep), q)
  {
    JoinSplitFrom(s, sep, "");
    SplitFromPiecesFree(s, sep, "");
    SplitFromLeftmost(s, sep, "");
    SplitFrom(s, sep, "")
  }

  /** `s.split(pat).join(rep)`: every literal occurrence of `pat`, taken left to right, becomes `rep`. */
  function ReplaceAll(s: string, pat: string, rep: string): string
    requires |pat| > 0
  {
    Join(Split(s, pat), rep)
  }

  lemma {:induction false} JoinSplitFrom(s: string, sep: string, cur: string)
    requires |sep| > 0
    ensures Join(SplitFrom(s, sep, cur), sep) == cur + s
    decreases |s|
  {
    if |s| < |sep| {
    } else if s[..|sep|] == sep {
      var rest := SplitFrom(s[|sep|..], sep, "");
      JoinSplitFrom(s[|sep|..], sep, "");
      assert ([cur] + rest)[1..] == rest;
      assert s == sep + s[|sep|..];
    } else {
      JoinSplitFrom(s[1..], sep, cur + [s[0]]);
      assert cur + [s[0]] + s[1..] == cur + s;
    }
  }

  lemma {:induction false} SplitFromNoOccurrence(s: string, sep: string, cur: string)
    requires |sep| > 0 && !Occurs(sep, s)
    ensures SplitFrom(s, sep, cur) == [cur + s]
    decreases |s|
  {
    if |s| >= |sep| {
      assert !OccursAt(sep, s, 0);
      forall k: nat | OccursAt(sep, s[1..], k) ensures OccursAt(sep, s, k + 1) {
        assert s[1..][k..k + |sep|] == s[k + 1..k + 1 + |sep|];
      }
      SplitFromNoOccurrence(s[1..], sep, cur + [s[0]]);
      assert cur + [s[0]] + s[1..] == cur + s;
    }
  }

  /** The text up to the first occurrence of the separator is the first piece. */
  lemma {:induction false} SplitFromAt(l: string, sep: string, rest: string, cur: string)
    requires |sep| > 0
    requires forall k: nat :: k < |l| ==> !OccursAt(sep, l + sep + rest, k)
    ensures SplitFrom(l + sep + rest, sep, cur) == [cur + l] + SplitFrom(rest, sep, "")
    decreases |l|
  {
    var s := l + sep + rest;
    if l == [] {
      assert s[..|sep|] == sep && s[|sep|..] == rest && cur + l == cur;
    } else {
      assert !OccursAt(sep, s, 0);
      assert s[0] == l[0] && s[1..] == l[1..] + sep + rest;
      forall k: nat | k < |l[1..]| ensures !OccursAt(sep, l[1..] + sep + rest, k) {
        assert !OccursAt(sep, s, k + 1);
        assert s[k + 1..k + 1 + |sep|] == (l[1..] + sep + rest)[k..k + |sep|];
      }
      SplitFromAt(l[1..], sep, rest, cur + [l[0]]);
      assert cur + [l[0]] + l[1..] == cur + l;
    }
  }

  /** A pattern occurs in a text of its own length only if it is that text. */
  lemma OccursSameLength(pat: string, s: string)
    requires |pat| == |s| && pat != s
    ensures !Occurs(pat, s)
  {
    forall k: nat | k + |pat| <= |s| ensures !OccursAt(pat, s, k) {
      assert k == 0 && s[0..|s|] == s;
    }
  }

  /** Splitting on one character: the text up to its first occurrence is the first piece. */
  lemma {:induction false} SplitFromAtChar(l: string, c: char, rest: string, cur: string)
    requires c !in l
    ensures SplitFrom(l + [c] + rest, [c], cur) == [cur + l] + SplitFrom(rest, [c], "")
    decreases |l|
  {
    var s := l + [c] + rest;
    if l == [] {
      assert s[..1] == [c] && s[1..] == rest && cur + l == cur;
    } else {
      assert s[0] == l[0] && s[..1] != [c];
      assert s[1..] == l[1..] + [c] + rest;
      SplitFromAtChar(l[1..], c, rest, cur + [l[0]]);
      assert cur + [l[0]] + l[1..] == cur + l;
    }
  }

  /** A character that does not appear does not occur as a one-character pattern. */
  lemma NoCharOccurs(s: string, c: char)
    requires c !in s
    ensures !Occurs([c], s)
  {
    forall k: nat | OccursAt([c], s, k) ensures false {
      WindowChar([c], s, k, k);
    }
  }

  /** Text without an occurrence of the pattern is returned unchanged. */
  lemma ReplaceAllNoOccurrence(s: string, pat: string, rep: string)
    requires |pat| > 0 && !Occurs(pat, s)
    ensures ReplaceAll(s, pat, rep) == s
  {
    SplitFromNoOccurrence(s, pat, "");
  }

  /** The characters of an occurrence are characters of the pattern. */
  lemma WindowChar(pat: string, t: string, k: nat, x: nat)
    requires OccursAt(pat, t, k) && k <= x < k + |pat|
    ensures t[x] in pat
  {
    assert t[x] == t[k..k + |pat|][x - k];
  }

  /** An occurrence lying inside `t[a..b]` is an occurrence in that slice. */
  lemma WindowSlice(pat: string, t: string, k: nat, a: nat, b: nat)
    requires OccursAt(pat, t, k) && a <= k && k + |pat| <= b <= |t|
    ensures OccursAt(pat, t[a..b], k - a)
  {
    forall x | 0 <= x < |pat| ensures t[a..b][k - a..k - a + |pat|][x] == pat[x] {
      assert t[k..k + |pat|][x] == t[k + x];
    }
  }

  /** An occurrence in `u` is an occurrence in `u + v`. */
  lemma OccursInPrefix(pat: string, u: string, v: string, k: nat)
    requires OccursAt(pat, u, k)
    ensures OccursAt(pat, u + v, k)
  {
    forall x | 0 <= x < |pat| ensures (u + v)[k..k + |pat|][x] == pat[x] {
      assert u[k..k + |pat|][x] == u[k + x];
    }
  }

  /** A slice of a text without `pat` has no `pat`. */
  lemma NoOccurSlice(pat: string, t: string, a: nat, b: nat)
    requires a <= b <= |t| && !Occurs(pat, t)
    ensures !Occurs(pat, t[a..b])
  {
    forall k: nat | OccursAt(pat, t[a..b], k) ensures OccursAt(pat, t, a + k) {
      forall x | 0 <= x < |pat| ensures t[a + k..a + k + |pat|][x] == pat[x] {
        assert t[a..b][k..k + |pat|][x] == t[a + k + x];
      }
    }
  }

  /**
   * A replacement that cannot take part in an occurrence of `pat`: its first
   * and last characters are not in `pat`, and `pat` does not occur in it.
   */
  ghost predicate Fenced(rep: string, pat: string) {
    |rep| > 0 && rep[0] !in pat && rep[|rep| - 1] !in pat && !Occurs(pat, rep)
  }

  /** Joining pieces without `pat` by a fenced separator creates no `pat`. */
  lemma {:induction false} NoOccurJoin(parts: seq<string>, rep: string, pat: string)
    requires |pat| > 0 && Fenced(rep, pat)
    requires forall k :: 0 <= k < |parts| ==> !Occurs(pat, parts[k])
    ensures !Occurs(pat, Join(parts, rep))
    decreases |parts|
  {
    if |parts| >= 2 {
      var p0, rest := parts[0], Join(parts[1..], rep);
      NoOccurJoin(parts[1..], rep, pat);
      var t := p0 + rep + rest;
      var a, b := |p0|, |p0| + |rep|;
      var c: nat := b - 1;
      assert t[0..a] == p0 && t[a..b] == rep && t[b..|t|] == rest;
      assert t[a] == rep[0] && t[c] == rep[|rep| - 1];
      forall k: nat | OccursAt(pat, t, k) ensures false {
        if k + |pat| <= a {
          WindowSlice(pat, t, k, 0, a);
        } else if k < a {
          WindowChar(pat, t, k, a);
        } else if k + |pat| <= b {
          WindowSlice(pat, t, k, a, b);
        } else if k < b {
          WindowChar(pat, t, k, c);
        } else {
          WindowSlice(pat, t, k, b, |t|);
        }
      }
    }
  }

  /** No piece of a split contains the separator. */
  lemma {:induction false} SplitFromPiecesFree(s: string, sep: string, cur: string)
    requires |sep| > 0
    requires forall k: nat :: k < |cur| ==> !OccursAt(sep, cur + s, k)
    ensures forall p :: p in SplitFrom(s, sep, cur) ==> !Occurs(sep, p)
    decreases |s|
  {
    var t := cur + s;
    if |s| < |sep| {
      forall k: nat | OccursAt(sep, t, k) ensures false {
      }
    } else if s[..|sep|] == sep {
      forall k: nat | OccursAt(sep, cur, k) ensures false {
        OccursInPrefix(sep, cur, s, k);
      }
      SplitFromPiecesFree(s[|sep|..], sep, "");
    } else {
      var c := cur + [s[0]];
      assert c + s[1..] == t;
      assert !OccursAt(sep, t, |cur|) by {
        assert t[|cur|..|cur| + |sep|] == s[..|sep|];
      }
      SplitFromPiecesFree(s[1..], sep, c);
    }
  }

  /** No occurrence of `sep` starts inside a piece, in the text from that piece on, except the last. */
  predicate CutsLeftmost(r: seq<string>, sep: string) {
    forall k, q :: 0 <= k < |r| - 1 && 0 <= q < |r[k]| ==> !OccursAt(sep, Join(r[k..], sep), q)
  }

  /**
   * Every cut of a split is at the leftmost occurrence: no occurrence of the
   * separator starts inside a piece in the text that piece begins.
   */
  lemma {:induction false} SplitFromLeftmost(s: string, sep: string, cur: string)
    requires |sep| > 0
    requires forall k: nat :: k < |cur| ==> !OccursAt(sep, cur + s, k)
    ensures CutsLeftmost(SplitFrom(s, sep, cur), sep)
    decreases |s|
  {
    var r := SplitFrom(s, sep, cur);
    if |s| < |sep| {
    } else if s[..|sep|] == sep {
      var rest := SplitFrom(s[|sep|..], sep, "");
      SplitFromLeftmost(s[|sep|..], sep, "");
      JoinSplitFrom(s[|sep|..], sep, "");
      assert r == [cur] + rest;
      assert Join(r[0..], sep) == cur + s by {
        assert r[0..] == r && r[1..] == rest;
        assert s == sep + s[|sep|..];
      }
      forall k, q | 0 <= k < |r| - 1 && 0 <= q < |r[k]| ensures !OccursAt(sep, Join(r[k..], sep), q) {
        if k > 0 {
          assert r[k] == rest[k - 1] && r[k..] == rest[k - 1..];
        }
      }
    } else {
      var c := cur + [s[0]];
      assert c + s[1..] == cur + s;
      assert !OccursAt(sep, cur + s, |cur|) by {
        assert (cur + s)[|cur|..|cur| + |sep|] == s[..|sep|];
      }
      SplitFromLeftmost(s[1..], sep, c);
      var r' := SplitFrom(s[1..], sep, c);
      assert r == r';
    }
  }

  /** The pieces of a split are slices of the text: a pattern absent from it is absent from them. */
  lemma {:induction false} SplitFromPiecesAvoid(s: string, sep: string, cur: string, pat: string)
    requires |sep| > 0 && !Occurs(pat, cur + s)
    ensures forall p :: p in SplitFrom(s, sep, cur) ==> !Occurs(pat, p)
    decreases |s|
  {
    var t := cur + s;
    if |s| < |sep| {
    } else if s[..|sep|] == sep {
      NoOccurSlice(pat, t, 0, |cur|);
      assert t[0..|cur|] == cur;
      NoOccurSlice(pat, t, |cur| + |sep|, |t|);
      assert t[|cur| + |sep|..|t|] == "" + s[|sep|..];
      SplitFromPiecesAvoid(s[|sep|..], sep, "", pat);
    } else {
      assert cur + [s[0]] + s[1..] == t;
      SplitFromPiecesAvoid(s[1..], sep, cur + [s[0]], pat);
    }
  }

  /** After replacing `pat` by a fenced text, `pat` no longer occurs. */
  lemma ReplaceAllRemoves(s: string, pat: string, rep: string)
    requires |pat| > 0 && Fenced(rep, pat)
    ensures !Occurs(pat, ReplaceAll(s, pat, rep))
  {
    SplitFromPiecesFree(s, pat, "");
    var parts := Split(s, pat);
    assert forall k :: 0 <= k < |parts| ==> parts[k] in parts;
    NoOccurJoin(parts, rep, pat);
  }

  /** Replacing another pattern by a text fenced against `q` creates no occurrence of `q`. */
  lemma ReplaceAllKeepsAbsent(s: string, pat: string, rep: string, q: string)
    requires |pat| > 0 && |q| > 0 && Fenced(rep, q) && !Occurs(q, s)
    ensures !Occurs(q, ReplaceAll(s, pat, rep))
  {
    assert "" + s == s;
    SplitFromPiecesAvoid(s, pat, "", q);
    var parts := Split(s, pat);
    assert forall k :: 0 <= k < |parts| ==> parts[k] in parts;
    NoOccurJoin(parts, rep, q);
  }

  /** `s.endsWith(suffix)`: `s` is some string followed by `suffix`. */
  function EndsWith(s: string, suffix: string): (r: bool)
    ensures r <==> exists pre :: s == pre + suffix
  {
    EndsWithWitness(s, suffix);
    |suffix| <= |s| && s[|s| - |suffix|..] == suffix
  }

  /** Both directions of `EndsWith`'s contract, with the prefix as witness. */
  lemma EndsWithWitness(s: string, suffix: string)
    ensures (|suffix| <= |s| && s[|s| - |suffix|..] == suffix) <==> exists pre :: s == pre + suffix
  {
    if |suffix| <= |s| && s[|s| - |suffix|..] == suffix {
      var pre := s[..|s| - |suffix|];
      assert s == pre + suffix;
    }
    forall pre | s == pre + suffix ensures |pre| == |s| - |suffix| && s[|pre|..] == suffix {
      assert s[|pre|..] == (pre + suffix)[|pre|..];
    }
  }

  predicate IsDigit(c: char) {
    '0' <= c <= '9'
  }

  function DigitChar(d: nat): (c: char)
    requires d < 10
    ensures IsDigit(c) && c as int - '0' as int == d
  {
    (d + '0' as int) as char
  }

  /** The decimal numeral of `n`, as a template literal renders a non-negative integer. */
  function Decimal(n: nat): (r: string)
    ensures |r| > 0
    decreases n
  {
    if n < 10 then [DigitChar(n)] else Decimal(n / 10) + [DigitChar(n % 10)]
  }

  function DigitValue(c: char): nat
    requires IsDigit(c)
  {
    c as int - '0' as int
  }

  /** The value of a string of decimal digits. */
  function DecimalValue(s: string): nat
    requires forall k :: 0 <= k < |s| ==> IsDigit(s[k])
    decreases |s|
  {
    if s == [] then 0
    else DecimalValue(s[..|s| - 1]) * 10 + DigitValue(s[|s| - 1])
  }

  /** Decimal numerals are digit strings without a leading zero that read back as the number. */
  lemma {:induction false} DecimalRoundTrip(n: nat)
    ensures forall k :: 0 <= k < |Decimal(n)| ==> IsDigit(Decimal(n)[k])
    ensures n > 0 ==> Decimal(n)[0] != '0'
    ensures DecimalValue(Decimal(n)) == n
    decreases n
  {
    if n >= 10 {
      DecimalRoundTrip(n / 10);
      var d := Decimal(n / 10);
      var r := d + [DigitChar(n % 10)];
      assert r[..|r| - 1] == d;
    }
  }

  /** Distinct numbers have distinct numerals. */
  lemma DecimalInjective(m: nat, n: nat)
    requires Decimal(m) == Decimal(n)
    ensures m == n
  {
    DecimalRoundTrip(m);
    DecimalRoundTrip(n);
  }
}
