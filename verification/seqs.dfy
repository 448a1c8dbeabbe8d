/**
 * Order-preserving sequence operations shared by the article filters and the
 * TF-IDF scorer: filtering, subsequences, interleavings and first occurrences.
 */
module Seqs {

  /** `a` is obtained from `b` by deleting elements, keeping the order of the rest. */
  predicate IsSubseq<T(==)>(a: seq<T>, b: seq<T>)
    decreases |b|
  {
    if |a| == 0 then true
    else if |b| == 0 then false
    else (a[0] == b[0] && IsSubseq(a[1..], b[1..])) || IsSubseq(a, b[1..])
  }

  /** `s` is a merge of `a` and `b`: every element of `s` is taken, in order, from exactly one of them. */
  predicate Interleaves<T(==)>(s: seq<T>, a: seq<T>, b: seq<T>)
    decreases |s|
  {
    if |s| == 0 then a == [] && b == []
    else
      || (|a| > 0 && a[0] == s[0] && Interleaves(s[1..], a[1..], b))
      || (|b| > 0 && b[0] == s[0] && Interleaves(s[1..], a, b[1..]))
  }

  /** The elements of `s` satisfying `p`, in their original order (a Python list comprehension with a condition). */
  function Filter<T(==,!new)>(p: T -> bool, s: seq<T>): (r: seq<T>)
    ensures |r| <= |s|
    ensures forall x :: x in r <==> x in s && p(x)
    ensures forall x :: multiset(r)[x] == if p(x) then multiset(s)[x] else 0
    ensures IsSubseq(r, s)
    decreases |s|
  {
    if |s| == 0 then []
    else
      assert s == [s[0]] + s[1..];
      if p(s[0]) then [s[0]] + Filter(p, s[1..]) else Filter(p, s[1..])
  }

  /** Filtering keeps a sequence whose elements all pass unchanged. */
  lemma {:induction false} FilterKeepsAll<T(!new)>(p: T -> bool, s: seq<T>)
    requires forall i :: 0 <= i < |s| ==> p(s[i])
    ensures Filter(p, s) == s
    decreases |s|
  {
    if |s| > 0 {
      FilterKeepsAll(p, s[1..]);
    }
  }

  lemma {:induction false} SubseqEmpty<T>(b: seq<T>)
    ensures IsSubseq([], b)
  {
  }

  /** Appending one element to the longer sequence keeps a subsequence. */
  lemma {:induction false} SubseqExtend<T>(a: seq<T>, b: seq<T>, x: T)
    requires IsSubseq(a, b)
    ensures IsSubseq(a, b + [x])
    decreases |b|
  {
    if |a| > 0 {
      assert (b + [x])[1..] == b[1..] + [x];
      if a[0] == b[0] && IsSubseq(a[1..], b[1..]) {
        SubseqExtend(a[1..], b[1..], x);
      } else {
        SubseqExtend(a, b[1..], x);
      }
    }
  }

  /** Appending the same element to both sides keeps a subsequence. */
  lemma {:induction false} SubseqSnoc<T>(a: seq<T>, b: seq<T>, x: T)
    requires IsSubseq(a, b)
    ensures IsSubseq(a + [x], b + [x])
    decreases |b|
  {
    if |b| > 0 {
      assert (b + [x])[1..] == b[1..] + [x];
    }
    if |a| == 0 {
      assert a + [x] == [x];
      SubseqEmpty(b + [x]);
      if |b| > 0 {
        SubseqSnoc(a, b[1..], x);
      }
    } else {
      assert (a + [x])[1..] == a[1..] + [x];
      if a[0] == b[0] && IsSubseq(a[1..], b[1..]) {
        SubseqSnoc(a[1..], b[1..], x);
      } else {
        SubseqSnoc(a, b[1..], x);
      }
    }
  }

  lemma {:induction false} SubseqMembers<T>(a: seq<T>, b: seq<T>)
    requires IsSubseq(a, b)
    ensures forall x :: x in a ==> x in b
    decreases |b|
  {
    if |a| > 0 && |b| > 0 {
      if a[0] == b[0] && IsSubseq(a[1..], b[1..]) {
        SubseqMembers(a[1..], b[1..]);
        assert a == [a[0]] + a[1..];
      } else {
        SubseqMembers(a, b[1..]);
      }
    }
  }

  /** Deleting elements keeps keys pairwise distinct. */
  lemma {:induction false} SubseqDistinctKeys<T, K>(key: T -> K, a: seq<T>, b: seq<T>)
    requires IsSubseq(a, b) && DistinctKeys(key, b)
    ensures DistinctKeys(key, a)
    decreases |b|
  {
    if |a| > 0 {
      if a[0] == b[0] && IsSubseq(a[1..], b[1..]) {
        SubseqDistinctKeys(key, a[1..], b[1..]);
        SubseqMembers(a[1..], b[1..]);
        forall j | 0 < j < |a| ensures key(a[0]) != key(a[j]) {
          assert a[j] == a[1..][j - 1];
          assert a[j] in b[1..];
          var m :| 0 <= m < |b[1..]| && b[1..][m] == a[j];
          assert b[m + 1] == a[j];
        }
      } else {
        SubseqDistinctKeys(key, a, b[1..]);
      }
    }
  }

  /**
   * An interleaving is a partition that keeps order: both parts are
   * subsequences of `s`, their lengths add up, and every element of `s`
   * lands in exactly one of them (as a multiset).
   */
  lemma InterleavesPartition<T>(s: seq<T>, a: seq<T>, b: seq<T>)
    requires Interleaves(s, a, b)
    ensures |a| + |b| == |s|
    ensures multiset(s) == multiset(a) + multiset(b)
    ensures IsSubseq(a, s) && IsSubseq(b, s)
  {
    InterleavesCount(s, a, b);
    InterleavesSubseq(s, a, b);
  }

  lemma {:induction false} InterleavesCount<T>(s: seq<T>, a: seq<T>, b: seq<T>)
    requires Interleaves(s, a, b)
    ensures |a| + |b| == |s|
    ensures multiset(s) == multiset(a) + multiset(b)
    decreases |s|
  {
    if |s| > 0 {
      assert s == [s[0]] + s[1..];
      if |a| > 0 && a[0] == s[0] && Interleaves(s[1..], a[1..], b) {
        InterleavesCount(s[1..], a[1..], b);
        assert a == [a[0]] + a[1..];
      } else {
        InterleavesCount(s[1..], a, b[1..]);
        assert b == [b[0]] + b[1..];
      }
    }
  }

  lemma {:induction false} InterleavesSubseq<T>(s: seq<T>, a: seq<T>, b: seq<T>)
    requires Interleaves(s, a, b)
    ensures IsSubseq(a, s) && IsSubseq(b, s)
    decreases |s|
  {
    if |s| > 0 {
      if |a| > 0 && a[0] == s[0] && Interleaves(s[1..], a[1..], b) {
        InterleavesSubseq(s[1..], a[1..], b);
      } else {
        InterleavesSubseq(s[1..], a, b[1..]);
      }
    }
  }

  /** The set of keys the elements of `s` carry. */
  function KeysOf<T(==), K>(key: T -> K, s: seq<T>): set<K> {
    set x | x in s :: key(x)
  }

  lemma KeysOfSnoc<T, K>(key: T -> K, s: seq<T>, x: T)
    ensures KeysOf(key, s + [x]) == KeysOf(key, s) + {key(x)}
  {
    assert x in s + [x];
    forall k | k in KeysOf(key, s + [x]) ensures k in KeysOf(key, s) + {key(x)} {
      var y :| y in s + [x] && key(y) == k;
      if y != x { assert y in s; }
    }
  }

  lemma KeysOfCons<T, K>(key: T -> K, x: T, s: seq<T>)
    ensures KeysOf(key, [x] + s) == {key(x)} + KeysOf(key, s)
  {
    assert x in [x] + s;
    forall k | k in KeysOf(key, [x] + s) ensures k in {key(x)} + KeysOf(key, s) {
      var y :| y in [x] + s && key(y) == k;
      if y != x { assert y in s; }
    }
  }

  /** Keys are pairwise distinct along `s`. */
  predicate DistinctKeys<T, K(==)>(key: T -> K, s: seq<T>) {
    forall i, j :: 0 <= i < j < |s| ==> key(s[i]) != key(s[j])
  }

  /**
   * The first element of `s` for every key, in order: an element is kept
   * exactly when no earlier element has the same key.
   */
  function FirstByKey<T(==), K(==)>(key: T -> K, s: seq<T>): (r: seq<T>)
    ensures KeysOf(key, r) == KeysOf(key, s)
    ensures DistinctKeys(key, r)
    ensures IsSubseq(r, s)
    decreases |s|
  {
    if |s| == 0 then []
    else
      var init := s[..|s| - 1];
      var last := s[|s| - 1];
      assert s == init + [last];
      KeysOfSnoc(key, init, last);
      var prev := FirstByKey(key, init);
      SubseqExtend(prev, init, last);
      if key(last) in KeysOf(key, init) then prev
      else
        KeysOfSnoc(key, prev, last);
        SubseqSnoc(prev, init, last);
        prev + [last]
  }

  /**
   * The elements of `s` whose key occurred earlier, in order: the
   * complement of `FirstByKey`.
   */
  function RepeatsByKey<T(==), K(==)>(key: T -> K, s: seq<T>): seq<T>
    decreases |s|
  {
    if |s| == 0 then []
    else
      var init, last := s[..|s| - 1], s[|s| - 1];
      if key(last) in KeysOf(key, init) then RepeatsByKey(key, init) + [last] else RepeatsByKey(key, init)
  }

  /**
   * The distinct elements of `s` in order of first occurrence: an element
   * is kept exactly when it does not occur earlier.
   */
  function Distinct<T(==,!new)>(s: seq<T>): (r: seq<T>)
    ensures forall x :: x in r <==> x in s
    ensures forall i, j :: 0 <= i < j < |r| ==> r[i] != r[j]
    decreases |s|
  {
    if |s| == 0 then []
    else
      var init, x := s[..|s| - 1], s[|s| - 1];
      assert s == init + [x];
      var d := Distinct(init);
      if x in init then d else d + [x]
  }

  /** The position of the first occurrence of `x` in `s`. */
  function IndexOf<T(==)>(s: seq<T>, x: T): (k: nat)
    requires x in s
    ensures k < |s| && s[k] == x
    ensures forall j :: 0 <= j < k ==> s[j] != x
  {
    if s[0] == x then 0 else 1 + IndexOf(s[1..], x)
  }

  /** Appending an element leaves the first occurrence of an earlier element where it was. */
  lemma IndexOfSnoc<T>(s: seq<T>, x: T, y: T)
    requires y in s
    ensures IndexOf(s + [x], y) == IndexOf(s, y)
  {
    assert (s + [x])[IndexOf(s, y)] == y;
  }

  /** `Distinct` lists the elements in the order of their first occurrences. */
  lemma {:induction false} DistinctInOrder<T(!new)>(s: seq<T>)
    ensures forall i, j :: 0 <= i < j < |Distinct(s)| ==> IndexOf(s, Distinct(s)[i]) < IndexOf(s, Distinct(s)[j])
    decreases |s|
  {
    if |s| > 0 {
      var init, x := s[..|s| - 1], s[|s| - 1];
      assert s == init + [x];
      DistinctInOrder(init);
      var d := Distinct(init);
      forall y | y in init
        ensures IndexOf(s, y) == IndexOf(init, y) < |init|
      {
        IndexOfSnoc(init, x, y);
      }
      if x !in init {
        assert IndexOf(s, x) == |init|;
        assert Distinct(s) == d + [x];
      }
    }
  }

  /** Appending a non-empty sequence is appending its front and then its last element. */
  lemma AppendSnoc<T>(p: seq<T>, s: seq<T>)
    requires |s| > 0
    ensures p + s == (p + s[..|s| - 1]) + [s[|s| - 1]]
  {
    assert s == s[..|s| - 1] + [s[|s| - 1]];
  }

  /** Moving the head of `s` onto the end of `p` leaves the concatenation unchanged. */
  lemma ShiftHead<T>(p: seq<T>, s: seq<T>)
    requires |s| > 0
    ensures p + s == (p + [s[0]]) + s[1..]
    ensures (p + [s[0]])[..|p|] == p
  {
    assert s == [s[0]] + s[1..];
  }

  /** The members of a non-empty sequence are those of its front and its last element; the last is new when all are distinct. */
  lemma SnocMembers<T>(s: seq<T>)
    requires |s| > 0
    ensures forall x :: x in s <==> x in s[..|s| - 1] || x == s[|s| - 1]
    ensures (forall i, j :: 0 <= i < j < |s| ==> s[i] != s[j]) ==> s[|s| - 1] !in s[..|s| - 1]
  {
    assert s == s[..|s| - 1] + [s[|s| - 1]];
  }

  /** One more element joins the distinct elements exactly when it is new. */
  lemma DistinctSnoc<T(!new)>(s: seq<T>, x: T)
    ensures Distinct(s + [x]) == Distinct(s) + (if x in s then [] else [x])
  {
    var s' := s + [x];
    assert s'[..|s'| - 1] == s && s'[|s'| - 1] == x;
  }

  /** Removing repetitions from a suffix first does not change the distinct elements of the whole. */
  lemma {:induction false} DistinctOfDistinct<T(!new)>(p: seq<T>, q: seq<T>)
    ensures Distinct(p + Distinct(q)) == Distinct(p + q)
    decreases |q|
  {
    if |q| == 0 {
      assert Distinct(q) == [];
    } else {
      var init, x := q[..|q| - 1], q[|q| - 1];
      assert q == init + [x];
      assert p + q == (p + init) + [x];
      DistinctOfDistinct(p, init);
      DistinctSnoc(init, x);
      DistinctSnoc(p + init, x);
      if x !in init {
        assert p + Distinct(q) == (p + Distinct(init)) + [x];
        DistinctSnoc(p + Distinct(init), x);
        assert x in p + Distinct(init) <==> x in p + init;
      }
    }
  }

  /**
   * First-occurrence partition from some point on, with `seen` the keys met
   * so far: an element whose key is new goes to the first list and its key
   * is remembered; any other element goes to the second list.
   */
  function PartitionFirst<T(==), K(==)>(key: T -> K, s: seq<T>, seen: set<K>): (r: (seq<T>, seq<T>))
    ensures Interleaves(s, r.0, r.1)
    ensures DistinctKeys(key, r.0)
    ensures forall i :: 0 <= i < |r.0| ==> key(r.0[i]) !in seen
    ensures seen + KeysOf(key, r.0) == seen + KeysOf(key, s)
    ensures KeysOf(key, r.1) <= seen + KeysOf(key, r.0)
    decreases |s|
  {
    if |s| == 0 then ([], [])
    else
      var x := s[0];
      var k := key(x);
      assert s == [x] + s[1..];
      KeysOfCons(key, x, s[1..]);
      if k !in seen then
        var rest := PartitionFirst(key, s[1..], seen + {k});
        KeysOfCons(key, x, rest.0);
        assert ([x] + rest.0)[1..] == rest.0;
        ([x] + rest.0, rest.1)
      else
        var rest := PartitionFirst(key, s[1..], seen);
        KeysOfCons(key, x, rest.1);
        assert ([x] + rest.1)[1..] == rest.1;
        (rest.0, [x] + rest.1)
  }

  /**
   * Resuming the partition after a prefix `p`, with the prefix's keys as
   * `seen`, keeps exactly what the first-occurrence definition adds for the rest.
   */
  lemma {:induction false} PartitionFirstExtends<T, K>(key: T -> K, p: seq<T>, s: seq<T>)
    ensures FirstByKey(key, p + s) == FirstByKey(key, p) + PartitionFirst(key, s, KeysOf(key, p)).0
    decreases |s|
  {
    if |s| == 0 {
      assert p + s == p;
    } else {
      var x := s[0];
      var p' := p + [x];
      ShiftHead(p, s);
      PartitionFirstExtends(key, p', s[1..]);
      KeysOfSnoc(key, p, x);
    }
  }

  /** Started with nothing seen, the partition keeps exactly the first element of every key. */
  lemma PartitionFirstKeepsFirst<T, K>(key: T -> K, s: seq<T>)
    ensures PartitionFirst(key, s, {}).0 == FirstByKey(key, s)
  {
    PartitionFirstExtends(key, [], s);
    assert [] + s == s;
    assert KeysOf(key, []) == {};
  }

  /**
   * Resuming the partition after a prefix `p`, with the prefix's keys as
   * `seen`, sets aside exactly what the repeats definition adds for the rest.
   */
  lemma {:induction false} PartitionRepeatsExtends<T, K>(key: T -> K, p: seq<T>, s: seq<T>)
    ensures RepeatsByKey(key, p + s) == RepeatsByKey(key, p) + PartitionFirst(key, s, KeysOf(key, p)).1
    decreases |s|
  {
    if |s| == 0 {
      assert p + s == p;
    } else {
      var x := s[0];
      var p' := p + [x];
      ShiftHead(p, s);
      PartitionRepeatsExtends(key, p', s[1..]);
      KeysOfSnoc(key, p, x);
      var rest := PartitionFirst(key, s[1..], KeysOf(key, p')).1;
      if key(x) in KeysOf(key, p) {
        assert KeysOf(key, p') == KeysOf(key, p);
        assert RepeatsByKey(key, p') == RepeatsByKey(key, p) + [x];
        assert PartitionFirst(key, s, KeysOf(key, p)).1 == [x] + rest;
        AppendAssoc(RepeatsByKey(key, p), [x], rest);
      } else {
        assert RepeatsByKey(key, p') == RepeatsByKey(key, p);
        assert PartitionFirst(key, s, KeysOf(key, p)).1 == rest;
      }
    }
  }

  /** Concatenation is associative. */
  lemma AppendAssoc<T>(a: seq<T>, b: seq<T>, c: seq<T>)
    ensures (a + b) + c == a + (b + c)
  {
  }

  /** Started with nothing seen, the partition sets aside exactly the repeats. */
  lemma PartitionFirstRepeats<T, K>(key: T -> K, s: seq<T>)
    ensures PartitionFirst(key, s, {}).1 == RepeatsByKey(key, s)
  {
    PartitionRepeatsExtends(key, [], s);
    assert [] + s == s;
    assert KeysOf(key, []) == {};
  }

  /** Elements with pairwise distinct keys, none of them seen, all land in the first list. */
  lemma {:induction false} PartitionFirstDistinct<T, K>(key: T -> K, s: seq<T>, seen: set<K>)
    requires DistinctKeys(key, s)
    requires forall i :: 0 <= i < |s| ==> key(s[i]) !in seen
    ensures PartitionFirst(key, s, seen) == (s, [])
    decreases |s|
  {
    if |s| > 0 {
      PartitionFirstDistinct(key, s[1..], seen + {key(s[0])});
      assert s == [s[0]] + s[1..];
    }
  }
}
