/**
 * `compute_idf` and `compute_tfidf`: document frequency, the smoothed
 * inverse document frequency and the per-document TF-IDF product. The
 * natural logarithm is a parameter `ln`, of which at most monotonicity is
 * ever assumed.
 */
module Idf {
  import opened Seqs
  import opened Text

  /** `w` is a word of one of the documents. */
  predicate InSomeDoc(docs: seq<string>, w: string) {
    exists i :: 0 <= i < |docs| && w in Split(docs[i])
  }

  /** `set(word for doc in documents for word in doc.split())`: exactly the words of the documents. */
  function Vocabulary(docs: seq<string>): (v: set<string>)
    ensures forall w :: w in v <==> InSomeDoc(docs, w)
    decreases |docs|
  {
    if |docs| == 0 then {}
    else
      var n := |docs| - 1;
      var v := Vocabulary(docs[..n]) + (set w | w in Split(docs[n]));
      assert forall i :: 0 <= i < n ==> docs[..n][i] == docs[i];
      v
  }

  /** `sum(1 for doc in documents if word in doc.split())`: the documents that contain `w`, however often. */
  function DocFreq(docs: seq<string>, w: string): (n: nat)
    ensures n <= |docs|
    ensures n >= 1 <==> w in Vocabulary(docs)
    decreases |docs|
  {
    if |docs| == 0 then 0
    else
      var k := |docs| - 1;
      DocFreq(docs[..k], w) + (if w in Split(docs[k]) then 1 else 0)
  }

  /** `math.log(total_docs / (1 + containing_docs))`, with `ln` standing for `math.log`. */
  function IdfWeight(ln: real -> real, n: nat, df: nat): real {
    ln(n as real / (1 + df) as real)
  }

  /**
   * `compute_idf`: one entry per word of the vocabulary; the document
   * frequency behind each lies between 1 and the number of documents (so
   * the smoothed denominator is at least 2), and the value depends on the
   * number of documents and that frequency only.
   */
  function ComputeIdf(docs: seq<string>, ln: real -> real): (idf: map<string, real>)
    ensures idf.Keys == Vocabulary(docs)
    ensures forall w :: w in idf ==> 1 <= DocFreq(docs, w) <= |docs| && 2 <= 1 + DocFreq(docs, w)
    ensures forall w :: w in idf ==> idf[w] == IdfWeight(ln, |docs|, DocFreq(docs, w))
  {
    map w | w in Vocabulary(docs) :: IdfWeight(ln, |docs|, DocFreq(docs, w))
  }

  /** `ln` never decreases on the positive reals. */
  ghost predicate Monotone(ln: real -> real) {
    forall x: real, y: real :: 0.0 < x <= y ==> ln(x) <= ln(y)
  }

  /** For a fixed number of documents, a word found in more documents never weighs more. */
  lemma IdfAntitone(ln: real -> real, n: nat, df1: nat, df2: nat)
    requires Monotone(ln)
    requires df1 <= df2
    ensures IdfWeight(ln, n, df2) <= IdfWeight(ln, n, df1)
  {
    var a := n as real / (1 + df1) as real;
    var b := n as real / (1 + df2) as real;
    if n > 0 {
      assert b * (1 + df2) as real == n as real;
      assert a * (1 + df1) as real == n as real;
      assert 0.0 < b <= a;
    }
  }

  // ---------------------------------------------------------------- compute_tfidf

  /** `compute_tfidf`: the words of `tf`, each weighted by its IDF; `idf` must cover `tf`. */
  function ComputeTfidf(tf: map<string, real>, idf: map<string, real>): (r: map<string, real>)
    requires tf.Keys <= idf.Keys
    ensures r.Keys == tf.Keys
    ensures forall w :: w in r ==> r[w] == Weigh(tf[w], idf[w])
  {
    map w | w in tf :: Weigh(tf[w], idf[w])
  }

  /** A word's TF-IDF: its frequency in the document times its IDF. */
  function Weigh(tf: real, idf: real): real {
    tf * idf
  }
}
