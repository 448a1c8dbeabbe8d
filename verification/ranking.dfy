/**
 * `Counter.most_common(n)`: the counter's items sorted by descending score,
 * keeping insertion order among equal scores (the sort is stable), cut
 * after the first `n`. The sort is an insertion sort on sequences; its
 * specification is the classic one: ordered, a permutation, and stable.
 */
module Ranking {
  import opened Seqs

  /** A `(word, score)` pair as `Counter.items()` yields it. */
  type Entry = (string, real)

  function Word(e: Entry): string { e.0 }

  /** Scores never increase from left to right. */
  predicate SortedDesc(s: seq<Entry>) {
    forall i, j :: 0 <= i < j < |s| ==> s[i].1 >= s[j].1
  }

  /** The entries of `s` whose score is `v`, in their order in `s`. */
  function WithScore(v: real, s: seq<Entry>): seq<Entry>
    decreases |s|
  {
    if |s| == 0 then []
    else
      var init := WithScore(v, s[..|s| - 1]);
      if s[|s| - 1].1 == v then init + [s[|s| - 1]] else init
  }

  lemma {:induction false} WithScoreMembers(v: real, s: seq<Entry>)
    ensures forall e :: e in WithScore(v, s) <==> e in s && e.1 == v
    decreases |s|
  {
    if |s| > 0 {
      WithScoreMembers(v, s[..|s| - 1]);
      assert s == s[..|s| - 1] + [s[|s| - 1]];
    }
  }

  /** `a` is a prefix of `b`. */
  predicate IsPrefix(a: seq<Entry>, b: seq<Entry>) {
    |a| <= |b| && b[..|a|] == a
  }

  lemma {:induction false} WithScoreAppend(v: real, a: seq<Entry>, b: seq<Entry>)
    ensures WithScore(v, a + b) == WithScore(v, a) + WithScore(v, b)
    decreases |b|
  {
    if |b| == 0 {
      assert a + b == a;
    } else {
      var init := b[..|b| - 1];
      assert (a + b)[..|a + b| - 1] == a + init;
      WithScoreAppend(v, a, init);
    }
  }

  lemma WithScoreCons(v: real, x: Entry, s: seq<Entry>)
    ensures WithScore(v, [x] + s) == (if x.1 == v then [x] else []) + WithScore(v, s)
  {
    WithScoreAppend(v, [x], s);
    assert [x][..0] == [];
  }

  /**
   * Inserts `x` into the descending `t` after every entry scoring at least
   * as much: `x` lands behind its equals, which is what keeps the sort
   * stable.
   */
  function InsertDesc(t: seq<Entry>, x: Entry): (r: seq<Entry>)
    requires SortedDesc(t)
    ensures SortedDesc(r)
    ensures |r| == |t| + 1
    ensures multiset(r) == multiset(t) + multiset{x}
    ensures forall v :: WithScore(v, r) == WithScore(v, t) + WithScore(v, [x])
    decreases |t|
  {
    if |t| == 0 then
      assert [] + [x] == [x];
      [x]
    else
      var y := t[|t| - 1];
      var init := t[..|t| - 1];
      assert t == init + [y];
      if y.1 >= x.1 then
        InsertAfterAll(t, x);
        t + [x]
      else
        var r' := InsertDesc(init, x);
        InsertBeforeLast(init, y, x, r');
        r' + [y]
  }

  lemma InsertAfterAll(t: seq<Entry>, x: Entry)
    requires SortedDesc(t)
    requires |t| > 0 && t[|t| - 1].1 >= x.1
    ensures SortedDesc(t + [x])
    ensures forall v :: WithScore(v, t + [x]) == WithScore(v, t) + WithScore(v, [x])
  {
    forall v ensures WithScore(v, t + [x]) == WithScore(v, t) + WithScore(v, [x]) {
      WithScoreAppend(v, t, [x]);
    }
  }

  /** The step where `x` overtakes the last entry `y`, which scores less. */
  lemma InsertBeforeLast(init: seq<Entry>, y: Entry, x: Entry, r': seq<Entry>)
    requires SortedDesc(init + [y])
    requires y.1 < x.1
    requires SortedDesc(r')
    requires multiset(r') == multiset(init) + multiset{x}
    requires forall v :: WithScore(v, r') == WithScore(v, init) + WithScore(v, [x])
    ensures SortedDesc(r' + [y])
    ensures forall v :: WithScore(v, r' + [y]) == WithScore(v, init + [y]) + WithScore(v, [x])
  {
    var t := init + [y];
    forall i | 0 <= i < |r'| ensures r'[i].1 >= y.1 {
      assert r'[i] in multiset(r');
      if r'[i] != x {
        assert r'[i] in multiset(init);
        var k :| 0 <= k < |init| && init[k] == r'[i];
        assert t[k] == init[k] && t[|t| - 1] == y;
      }
    }
    forall v ensures WithScore(v, r' + [y]) == WithScore(v, init + [y]) + WithScore(v, [x]) {
      WithScoreAppend(v, r', [y]);
      WithScoreAppend(v, init, [y]);
      if y.1 == v {
        assert WithScore(v, [x]) == [];
      }
    }
  }

  /** `sorted(items, key=score, reverse=True)`: a stable descending sort. */
  function SortDesc(s: seq<Entry>): (r: seq<Entry>)
    ensures SortedDesc(r)
    ensures |r| == |s|
    ensures multiset(r) == multiset(s)
    ensures forall v :: WithScore(v, r) == WithScore(v, s)
    decreases |s|
  {
    if |s| == 0 then []
    else
      var init := s[..|s| - 1];
      var x := s[|s| - 1];
      assert s == init + [x];
      var r := InsertDesc(SortDesc(init), x);
      assert forall v :: WithScore(v, r) == WithScore(v, s) by {
        forall v ensures WithScore(v, r) == WithScore(v, s) {
          WithScoreAppend(v, init, [x]);
        }
      }
      r
  }

  /**
   * Two descending orderings that agree on the order within every group of
   * equal scores are the same sequence: the specification of the stable
   * sort determines its result.
   */
  lemma {:induction false} StableSortUnique(a: seq<Entry>, b: seq<Entry>)
    requires SortedDesc(a) && SortedDesc(b)
    requires forall v :: WithScore(v, a) == WithScore(v, b)
    ensures a == b
    decreases |a|
  {
    if |a| == 0 {
      if |b| > 0 {
        assert b == [b[0]] + b[1..];
        WithScoreCons(b[0].1, b[0], b[1..]);
        assert false;
      }
    } else if |b| == 0 {
      assert a == [a[0]] + a[1..];
      WithScoreCons(a[0].1, a[0], a[1..]);
      assert false;
    } else {
      var x, y := a[0], b[0];
      assert a == [x] + a[1..] && b == [y] + b[1..];
      HeadScoreBound(a, b, x.1);
      HeadScoreBound(b, a, y.1);
      var v := x.1;
      WithScoreCons(v, x, a[1..]);
      WithScoreCons(v, y, b[1..]);
      assert WithScore(v, a)[0] == x && WithScore(v, b)[0] == y;
      assert x == y;
      forall u ensures WithScore(u, a[1..]) == WithScore(u, b[1..]) {
        WithScoreCons(u, x, a[1..]);
        WithScoreCons(u, y, b[1..]);
        var p: seq<Entry> := if x.1 == u then [x] else [];
        assert WithScore(u, a[1..]) == WithScore(u, a)[|p|..];
        assert WithScore(u, b[1..]) == WithScore(u, b)[|p|..];
      }
      StableSortUnique(a[1..], b[1..]);
    }
  }

  /** When both orders have the same group of score `v` and `a` starts with it, `b` starts no lower. */
  lemma HeadScoreBound(a: seq<Entry>, b: seq<Entry>, v: real)
    requires SortedDesc(b)
    requires |a| > 0 && |b| > 0 && a[0].1 == v
    requires WithScore(v, a) == WithScore(v, b)
    ensures v <= b[0].1
  {
    WithScoreMembers(v, a);
    WithScoreMembers(v, b);
    assert a[0] in a;
    var k :| 0 <= k < |b| && b[k] == a[0];
  }

  /**
   * `most_common(n)`: at most `n` entries, in descending order, drawn from
   * `s`; no omitted entry scores more than any kept one; and among equal
   * scores the kept ones are the earliest in `s`.
   */
  function MostCommon(s: seq<Entry>, n: nat): (r: seq<Entry>)
    ensures |r| == if n < |s| then n else |s|
    ensures SortedDesc(r)
    ensures multiset(r) <= multiset(s)
    ensures forall e, i :: e in multiset(s) - multiset(r) && 0 <= i < |r| ==> e.1 <= r[i].1
    ensures forall v :: IsPrefix(WithScore(v, r), WithScore(v, s))
  {
    var sorted := SortDesc(s);
    var k := if n < |s| then n else |s|;
    CutFacts(sorted, k);
    sorted[..k]
  }

  /** The first `k` entries of a descending order, and what they say about the rest. */
  lemma CutFacts(sorted: seq<Entry>, k: nat)
    requires SortedDesc(sorted)
    requires k <= |sorted|
    ensures SortedDesc(sorted[..k])
    ensures multiset(sorted[..k]) <= multiset(sorted)
    ensures forall e, i :: e in multiset(sorted) - multiset(sorted[..k]) && 0 <= i < k ==> e.1 <= sorted[i].1
    ensures forall v :: IsPrefix(WithScore(v, sorted[..k]), WithScore(v, sorted))
  {
    var r, rest := sorted[..k], sorted[k..];
    assert sorted == r + rest;
    assert multiset(sorted) == multiset(r) + multiset(rest);
    forall e, i | e in multiset(sorted) - multiset(r) && 0 <= i < k ensures e.1 <= sorted[i].1 {
      assert e in multiset(rest);
      var j :| 0 <= j < |rest| && rest[j] == e;
      assert sorted[k + j] == e;
    }
    forall v ensures IsPrefix(WithScore(v, r), WithScore(v, sorted)) {
      WithScoreAppend(v, r, rest);
    }
  }

  /** Entries with distinct words keep distinct words in `most_common`. */
  lemma MostCommonDistinct(s: seq<Entry>, n: nat)
    requires DistinctKeys(Word, s)
    ensures DistinctKeys(Word, MostCommon(s, n))
  {
    SubmultisetDistinct(MostCommon(s, n), s);
  }

  lemma SubmultisetDistinct(r: seq<Entry>, s: seq<Entry>)
    requires multiset(r) <= multiset(s)
    requires DistinctKeys(Word, s)
    ensures DistinctKeys(Word, r)
  {
    forall i, j | 0 <= i < j < |r| ensures Word(r[i]) != Word(r[j]) {
      assert r[i] in multiset(s) && r[j] in multiset(s);
      var i' :| 0 <= i' < |s| && s[i'] == r[i];
      var j' :| 0 <= j' < |s| && s[j'] == r[j];
      if r[i] == r[j] {
        TwoOccurrences(r, i, j);
        CountAtMostOne(s, r[i]);
      } else {
        assert i' != j';
      }
    }
  }

  /** An entry found at two positions occurs at least twice. */
  lemma TwoOccurrences(r: seq<Entry>, i: nat, j: nat)
    requires i < j < |r| && r[i] == r[j]
    ensures multiset(r)[r[i]] >= 2
  {
    var a, b := r[..j], r[j..];
    assert r == a + b;
    assert a[i] == r[i] && b[0] == r[j];
    assert multiset(a)[r[i]] >= 1 && multiset(b)[r[i]] >= 1;
  }

  /** With distinct words, an entry occurs at most once. */
  lemma {:induction false} CountAtMostOne(s: seq<Entry>, e: Entry)
    requires DistinctKeys(Word, s)
    ensures multiset(s)[e] <= 1
    decreases |s|
  {
    if |s| > 0 {
      var t := s[1..];
      assert s == [s[0]] + t;
      assert DistinctKeys(Word, t) by {
        forall i, j | 0 <= i < j < |t| ensures Word(t[i]) != Word(t[j]) {
          assert t[i] == s[i + 1] && t[j] == s[j + 1];
        }
      }
      CountAtMostOne(t, e);
      forall k | 0 <= k < |t| ensures t[k] != s[0] {
        assert t[k] == s[k + 1];
      }
      assert s[0] !in t;
    }
  }
}
