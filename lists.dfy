/**
 * Sequence helpers behind `Array.prototype.filter` and the two ways the
 * source removes duplicates (through a `Set` of keys).
 */
module Lists {

  /** `xs` is `ys` with some elements left out, the rest kept in order. */
  ghost predicate Subseq<T>(xs: seq<T>, ys: seq<T>)
    decreases |ys|
  {
    if xs == [] then true
    else if ys == [] then false
    else (xs[|xs| - 1] == ys[|ys| - 1] && Subseq(xs[..|xs| - 1], ys[..|ys| - 1]))
         || Subseq(xs, ys[..|ys| - 1])
  }

  lemma {:induction false} SubseqRefl<T>(xs: seq<T>)
    ensures Subseq(xs, xs)
    decreases |xs|
  {
    if xs != [] {
      SubseqRefl(xs[..|xs| - 1]);
    }
  }

  /** Every element of a subsequence is an element of the whole. */
  lemma {:induction false} SubseqIn<T>(xs: seq<T>, ys: seq<T>, x: T)
    requires Subseq(xs, ys) && x in xs
    ensures x in ys
    decreases |ys|
  {
    var n := |xs|;
    if xs[n - 1] == ys[|ys| - 1] && Subseq(xs[..n - 1], ys[..|ys| - 1]) {
      if x != xs[n - 1] {
        assert xs == xs[..n - 1] + [xs[n - 1]];
        SubseqIn(xs[..n - 1], ys[..|ys| - 1], x);
      }
    } else {
      SubseqIn(xs, ys[..|ys| - 1], x);
    }
  }

  /** Distinct keys: no two positions of `xs` carry the same key. */
  ghost predicate DistinctKeys<T>(xs: seq<T>, key: T -> string) {
    forall i, j :: 0 <= i < j < |xs| ==> key(xs[i]) != key(xs[j])
  }

  /** A subsequence of a sequence with distinct keys has distinct keys. */
  lemma {:induction false} SubseqDistinct<T>(xs: seq<T>, ys: seq<T>, key: T -> string)
    requires Subseq(xs, ys) && DistinctKeys(ys, key)
    ensures DistinctKeys(xs, key)
    decreases |ys|
  {
    if xs != [] {
      var n, m := |xs|, |ys|;
      var ys' := ys[..m - 1];
      assert DistinctKeys(ys', key);
      if xs[n - 1] == ys[m - 1] && Subseq(xs[..n - 1], ys') {
        SubseqDistinct(xs[..n - 1], ys', key);
        forall i, j | 0 <= i < j < n ensures key(xs[i]) != key(xs[j]) {
          if j == n - 1 {
            SubseqIn(xs[..n - 1], ys', xs[i]);
            var k :| 0 <= k < m - 1 && ys'[k] == xs[i];
            assert key(ys[k]) != key(ys[m - 1]);
          } else {
            assert xs[i] == xs[..n - 1][i] && xs[j] == xs[..n - 1][j];
          }
        }
      } else {
        SubseqDistinct(xs, ys', key);
      }
    }
  }

  /** `xs.filter(keep)`: the elements that pass, in their order. */
  function Filter<T(!new)>(xs: seq<T>, keep: T -> bool): (r: seq<T>)
    ensures |r| <= |xs|
    ensures forall x :: x in r <==> x in xs && keep(x)
    decreases |xs|
  {
    if xs == [] then []
    else
      var init, last := xs[..|xs| - 1], xs[|xs| - 1];
      assert xs == init + [last];
      Filter(init, keep) + (if keep(last) then [last] else [])
  }

  /** The filter keeps every passing element as often as it occurs, and no other. */
  lemma {:induction false} FilterCount<T(!new)>(xs: seq<T>, keep: T -> bool)
    ensures forall x :: multiset(Filter(xs, keep))[x] == if keep(x) then multiset(xs)[x] else 0
    decreases |xs|
  {
    if xs != [] {
      var init, last := xs[..|xs| - 1], xs[|xs| - 1];
      assert xs == init + [last];
      assert multiset(xs) == multiset(init) + multiset{last};
      FilterCount(init, keep);
    }
  }

  lemma {:induction false} FilterSubseq<T(!new)>(xs: seq<T>, keep: T -> bool)
    ensures Subseq(Filter(xs, keep), xs)
    decreases |xs|
  {
    if xs != [] {
      var init, last := xs[..|xs| - 1], xs[|xs| - 1];
      var r := Filter(init, keep);
      FilterSubseq(init, keep);
      if keep(last) {
        assert (r + [last])[..|r|] == r;
      } else {
        assert r + [] == r;
      }
    }
  }

  /** A filter that drops nothing returns its input: the length test of the source detects pruning. */
  lemma {:induction false} FilterSameLength<T(!new)>(xs: seq<T>, keep: T -> bool)
    requires |Filter(xs, keep)| == |xs|
    ensures Filter(xs, keep) == xs
    decreases |xs|
  {
    if xs != [] {
      var init, last := xs[..|xs| - 1], xs[|xs| - 1];
      assert |Filter(init, keep)| <= |init|;
      FilterSameLength(init, keep);
      assert xs == init + [last];
    }
  }

  /** The set of keys of the elements of `xs`. */
  ghost function Keys<T>(xs: seq<T>, key: T -> string): set<string> {
    set x | x in xs :: key(x)
  }

  /**
   * `xs.filter(x => !seen.has(key(x)) && seen.add(key(x)))`: an element is
   * kept exactly when no earlier element has the same key.
   */
  function DedupeBy(xs: seq<string>, key: string -> string): (r: seq<string>)
    decreases |xs|
  {
    if xs == [] then []
    else
      var init, last := xs[..|xs| - 1], xs[|xs| - 1];
      DedupeBy(init, key) + (if key(last) in (set x | x in init :: key(x)) then [] else [last])
  }

  lemma {:induction false} DedupeKeys(xs: seq<string>, key: string -> string)
    ensures Keys(DedupeBy(xs, key), key) == Keys(xs, key)
    decreases |xs|
  {
    if xs != [] {
      var init, last := xs[..|xs| - 1], xs[|xs| - 1];
      DedupeKeys(init, key);
      assert xs == init + [last];
      assert Keys(xs, key) == Keys(init, key) + {key(last)};
      var r := DedupeBy(init, key);
      if key(last) in Keys(init, key) {
        assert r + [] == r;
      } else {
        assert Keys(r + [last], key) == Keys(r, key) + {key(last)};
      }
    }
  }

  lemma {:induction false} DedupeDistinct(xs: seq<string>, key: string -> string)
    ensures DistinctKeys(DedupeBy(xs, key), key)
    decreases |xs|
  {
    if xs != [] {
      var init, last := xs[..|xs| - 1], xs[|xs| - 1];
      var r := DedupeBy(init, key);
      DedupeDistinct(init, key);
      if key(last) !in Keys(init, key) {
        DedupeKeys(init, key);
        var r' := r + [last];
        forall i, j | 0 <= i < j < |r'| ensures key(r'[i]) != key(r'[j]) {
          if j == |r| {
            assert r[i] in r;
          } else {
            assert r'[i] == r[i] && r'[j] == r[j];
          }
        }
      } else {
        assert r + [] == r;
      }
    }
  }

  lemma {:induction false} DedupeSubseq(xs: seq<string>, key: string -> string)
    ensures Subseq(DedupeBy(xs, key), xs)
    decreases |xs|
  {
    if xs != [] {
      var init, last := xs[..|xs| - 1], xs[|xs| - 1];
      var r := DedupeBy(init, key);
      DedupeSubseq(init, key);
      if key(last) in Keys(init, key) {
        assert r + [] == r;
      } else {
        assert (r + [last])[..|r|] == r;
      }
    }
  }

  /** The last element of a sequence with distinct keys has a key no earlier element has. */
  lemma DistinctLast(xs: seq<string>, key: string -> string)
    requires xs != [] && DistinctKeys(xs, key)
    ensures DistinctKeys(xs[..|xs| - 1], key)
    ensures key(xs[|xs| - 1]) !in Keys(xs[..|xs| - 1], key)
  {
    var init, last := xs[..|xs| - 1], xs[|xs| - 1];
    forall x | x in init ensures key(x) != key(last) {
      var k :| 0 <= k < |init| && init[k] == x;
      assert xs[k] == x && k < |xs| - 1;
    }
  }

  /** Deduplicating a sequence whose keys are already distinct changes nothing. */
  lemma {:induction false} DedupeOfDistinct(xs: seq<string>, key: string -> string)
    requires DistinctKeys(xs, key)
    ensures DedupeBy(xs, key) == xs
    decreases |xs|
  {
    if xs != [] {
      var init, last := xs[..|xs| - 1], xs[|xs| - 1];
      DistinctLast(xs, key);
      DedupeOfDistinct(init, key);
      assert DedupeBy(xs, key) == DedupeBy(init, key) + [last];
      assert xs == init + [last];
    }
  }

  /**
   * `r` lists its elements in the order their keys first appear in `xs`:
   * wherever the key of a later element occurs in `xs`, the key of an
   * earlier one has already occurred.
   */
  ghost predicate InFirstSeenOrder(r: seq<string>, xs: seq<string>, key: string -> string) {
    forall a, b, j :: 0 <= a < b < |r| && 0 <= j < |xs| && key(xs[j]) == key(r[b]) ==> key(r[a]) in Keys(xs[..j], key)
  }

  /** Deduplication keeps the order in which the keys are first seen. */
  lemma {:induction false} DedupeFirstSeenOrder(xs: seq<string>, key: string -> string)
    ensures InFirstSeenOrder(DedupeBy(xs, key), xs, key)
    decreases |xs|
  {
    if xs != [] {
      var init, last := xs[..|xs| - 1], xs[|xs| - 1];
      var ri, r := DedupeBy(init, key), DedupeBy(xs, key);
      DedupeFirstSeenOrder(init, key);
      DedupeSubseq(init, key);
      assert r == ri + (if key(last) in Keys(init, key) then [] else [last]);
      forall a, b, j | 0 <= a < b < |r| && 0 <= j < |xs| && key(xs[j]) == key(r[b])
        ensures key(r[a]) in Keys(xs[..j], key)
      {
        assert r[a] == ri[a];
        SubseqIn(ri, init, ri[a]);
        if j == |xs| - 1 {
          assert xs[..j] == init;
        } else {
          assert xs[j] == init[j] && xs[..j] == init[..j];
          assert key(r[b]) in Keys(init, key);
          assert b < |ri| && r[b] == ri[b];
          assert key(ri[a]) in Keys(init[..j], key);
        }
      }
    }
  }

  /** Deduplication is idempotent. */
  lemma DedupeIdempotent(xs: seq<string>, key: string -> string)
    ensures DedupeBy(DedupeBy(xs, key), key) == DedupeBy(xs, key)
  {
    DedupeDistinct(xs, key);
    DedupeOfDistinct(DedupeBy(xs, key), key);
  }

  /** An element whose key has not been seen before is kept. */
  lemma {:induction false} DedupeKeepsFirst(xs: seq<string>, key: string -> string, i: nat)
    requires i < |xs| && key(xs[i]) !in Keys(xs[..i], key)
    ensures xs[i] in DedupeBy(xs, key)
    decreases |xs|
  {
    var init, last := xs[..|xs| - 1], xs[|xs| - 1];
    if i == |xs| - 1 {
      assert init == xs[..i];
    } else {
      assert init[..i] == xs[..i] && init[i] == xs[i];
      DedupeKeepsFirst(init, key, i);
    }
  }

  /**
   * The element kept for each key is the first one carrying that key: the
   * casing seen first survives.
   */
  lemma DedupeFirstSeen(xs: seq<string>, key: string -> string, u: string, i: nat)
    requires u in DedupeBy(xs, key)
    requires i < |xs| && key(xs[i]) == key(u) && key(xs[i]) !in Keys(xs[..i], key)
    ensures u == xs[i]
  {
    var r := DedupeBy(xs, key);
    DedupeKeepsFirst(xs, key, i);
    DedupeDistinct(xs, key);
    var a :| 0 <= a < |r| && r[a] == u;
    var b :| 0 <= b < |r| && r[b] == xs[i];
    assert a == b;
  }
}
