/**
 * `compute_tf`: the relative frequency of every word of a document.
 * Frequencies are exact rationals, so the model says nothing about
 * floating-point rounding.
 */
module TermFreq {
  import opened Seqs
  import opened Text

  /** Sum of `m[k]` over the keys `ks`, in order. */
  function SumOver(ks: seq<string>, m: map<string, real>): real
    requires forall i :: 0 <= i < |ks| ==> ks[i] in m
    decreases |ks|
  {
    if |ks| == 0 then 0.0 else m[ks[0]] + SumOver(ks[1..], m)
  }

  /** Sum of the occurrence counts in `ws` of the keys `ks`. */
  function SumCounts(ks: seq<string>, ws: seq<string>): int
    decreases |ks|
  {
    if |ks| == 0 then 0 else multiset(ws)[ks[0]] + SumCounts(ks[1..], ws)
  }

  lemma {:induction false} SumCountsAppend(a: seq<string>, b: seq<string>, ws: seq<string>)
    ensures SumCounts(a + b, ws) == SumCounts(a, ws) + SumCounts(b, ws)
    decreases |a|
  {
    if |a| > 0 {
      assert (a + b)[1..] == a[1..] + b;
      SumCountsAppend(a[1..], b, ws);
    } else {
      assert a + b == b;
    }
  }

  /** One more word raises the count sum by one if the word is among the (distinct) keys. */
  lemma {:induction false} SumCountsSnoc(ks: seq<string>, p: seq<string>, x: string)
    requires forall i, j :: 0 <= i < j < |ks| ==> ks[i] != ks[j]
    ensures SumCounts(ks, p + [x]) == SumCounts(ks, p) + (if x in ks then 1 else 0)
    decreases |ks|
  {
    if |ks| > 0 {
      SumCountsSnoc(ks[1..], p, x);
      assert x in ks <==> x == ks[0] || x in ks[1..];
      assert x == ks[0] ==> x !in ks[1..];
    }
  }

  /** Counting every distinct word once over its occurrences counts every word. */
  lemma {:induction false} SumCountsDistinct(ws: seq<string>)
    ensures SumCounts(Distinct(ws), ws) == |ws|
    decreases |ws|
  {
    if |ws| > 0 {
      var p := ws[..|ws| - 1];
      var x := ws[|ws| - 1];
      assert ws == p + [x];
      SumCountsDistinct(p);
      DistinctSnoc(p, x);
      if x in p {
        assert Distinct(ws) == Distinct(p);
        SumCountsSnoc(Distinct(p), p, x);
      } else {
        assert Distinct(ws) == Distinct(p) + [x];
        SumCountsAppend(Distinct(p), [x], ws);
        SumCountsSnoc(Distinct(p), p, x);
        assert SumCounts([x], ws) == 1;
      }
    }
  }

  /** Summing `count / n` is summing the counts and dividing by `n`. */
  lemma AddDiv(a: real, b: real, n: real)
    requires n > 0.0
    ensures a / n + b / n == (a + b) / n
  {
  }

  lemma {:induction false} SumOverScaled(ks: seq<string>, m: map<string, real>, ws: seq<string>, n: real)
    requires n > 0.0
    requires forall i :: 0 <= i < |ks| ==> ks[i] in m && m[ks[i]] == multiset(ws)[ks[i]] as real / n
    ensures SumOver(ks, m) == SumCounts(ks, ws) as real / n
    decreases |ks|
  {
    if |ks| > 0 {
      SumOverScaled(ks[1..], m, ws, n);
      AddDiv(multiset(ws)[ks[0]] as real, SumCounts(ks[1..], ws) as real, n);
    }
  }

  /** `x` is the share `c / n`: scaled back by `n` it gives `c`. */
  predicate Scales(x: real, n: nat, c: nat) {
    x * n as real == c as real
  }

  /**
   * `compute_tf`: one entry per distinct word of the document, each in
   * (0, 1]; an empty document gives an empty map (there is no division
   * when there is nothing to count).
   */
  function ComputeTf(document: string): (tf: map<string, real>)
    ensures forall w :: w in tf <==> w in Split(document)
    ensures forall w :: w in tf ==> 0.0 < tf[w] <= 1.0
    ensures |Split(document)| == 0 ==> tf == map[]
  {
    if |Split(document)| == 0 then map[]
    else
      var tf := TfMap(Split(document));
      TfBounds(Split(document), tf);
      tf
  }

  /** Each frequency, scaled back by the number of words, is the word's count. */
  lemma TfCounts(document: string)
    ensures forall w :: w in ComputeTf(document) ==> Scales(ComputeTf(document)[w], |Split(document)|, multiset(Split(document))[w])
  {
    if |Split(document)| > 0 {
      TfBounds(Split(document), ComputeTf(document));
    }
  }

  /** The frequencies of a non-empty document, one per distinct word, add up to one. */
  lemma TfSumsToOne(document: string)
    requires |Split(document)| > 0
    ensures SumOver(Distinct(Split(document)), ComputeTf(document)) == 1.0
  {
    TfSum(Split(document), ComputeTf(document));
  }

  /** `{word: count / total_words ...}` over a non-empty word list. */
  function TfMap(words: seq<string>): (tf: map<string, real>)
    requires |words| > 0
    ensures forall w :: w in tf <==> w in words
    ensures forall w :: w in tf ==> tf[w] == multiset(words)[w] as real / |words| as real
  {
    map w | w in words :: multiset(words)[w] as real / |words| as real
  }

  lemma Ratio(x: real, c: int, n: int)
    requires 0 < c <= n
    requires x == c as real / n as real
    ensures 0.0 < x <= 1.0
    ensures Scales(x, n, c)
  {
  }

  lemma TfBounds(words: seq<string>, tf: map<string, real>)
    requires |words| > 0
    requires forall w :: w in tf <==> w in words
    requires forall w :: w in tf ==> tf[w] == multiset(words)[w] as real / |words| as real
    ensures forall w :: w in tf ==> 0.0 < tf[w] <= 1.0
    ensures forall w :: w in tf ==> Scales(tf[w], |words|, multiset(words)[w])
  {
    forall w | w in tf ensures 0.0 < tf[w] <= 1.0 && Scales(tf[w], |words|, multiset(words)[w]) {
      assert multiset(words)[w] <= |multiset(words)|;
      Ratio(tf[w], multiset(words)[w], |words|);
    }
  }

  lemma TfSum(words: seq<string>, tf: map<string, real>)
    requires |words| > 0
    requires forall w :: w in tf <==> w in words
    requires forall w :: w in tf ==> tf[w] == multiset(words)[w] as real / |words| as real
    ensures SumOver(Distinct(words), tf) == 1.0
  {
    var ks := Distinct(words);
    forall i | 0 <= i < |ks| ensures ks[i] in tf && tf[ks[i]] == multiset(words)[ks[i]] as real / |words| as real {
      assert ks[i] in ks;
    }
    SumOverScaled(ks, tf, words, |words| as real);
    SumCountsDistinct(words);
    DivSelf(|words|);
  }

  lemma DivSelf(n: int)
    requires n > 0
    ensures n as real / n as real == 1.0
  {
  }
}
