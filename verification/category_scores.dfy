/**
 * `get_top_words_by_category`: for every coding category, the IDF of the
 * category's own documents, the TF-IDF of every document accumulated in a
 * `Counter`, and the counter's ten best entries. The counter is a `Tally`:
 * its words in insertion order and a score for each.
 */
module CategoryScores {
  import opened Seqs
  import opened Text
  import opened TextClean
  import opened TermFreq
  import opened Idf
  import opened Ranking

  // ---------------------------------------------------------------- Counter

  /** A `Counter` of real scores: its words in insertion order and the score of each. */
  datatype Tally = Tally(order: seq<string>, score: map<string, real>)

  /** Every word is listed once, and exactly the listed words have a score. */
  ghost predicate Valid(t: Tally) {
    && (forall i, j :: 0 <= i < j < |t.order| ==> t.order[i] != t.order[j])
    && (forall w :: w in t.score <==> w in t.order)
  }

  /** `counter[w]`: zero for a word that was never added. */
  function Lookup0(t: Tally, w: string): real {
    if w in t.score then t.score[w] else 0.0
  }

  const EmptyTally := Tally([], map[])

  /** `counter[w] += x`: a new word goes to the end of the order. */
  function Add(t: Tally, w: string, x: real): (r: Tally)
    requires Valid(t)
    ensures Valid(r)
    ensures r.order == t.order + (if w in t.order then [] else [w])
    ensures forall u :: Lookup0(r, u) == Lookup0(t, u) + (if u == w then x else 0.0)
  {
    if w in t.score then Tally(t.order, t.score[w := t.score[w] + x])
    else Tally(t.order + [w], t.score[w := x])
  }

  /** `counter.update(m)`, visiting the keys of `m` in the order `ks`. */
  function UpdateWith(t: Tally, ks: seq<string>, m: map<string, real>): (r: Tally)
    requires Valid(t)
    requires forall w :: w in ks ==> w in m
    ensures Valid(r)
    decreases |ks|
  {
    if |ks| == 0 then t
    else
      var init, last := ks[..|ks| - 1], ks[|ks| - 1];
      assert forall w :: w in init ==> w in ks;
      Add(UpdateWith(t, init, m), last, m[last])
  }

  /** The order of a counter that saw the words `p` first grows to the first occurrences of `p + ks`. */
  lemma {:induction false} UpdateOrder(t: Tally, p: seq<string>, ks: seq<string>, m: map<string, real>)
    requires Valid(t) && t.order == Distinct(p)
    requires forall w :: w in ks ==> w in m
    ensures UpdateWith(t, ks, m).order == Distinct(p + ks)
    decreases |ks|
  {
    if |ks| == 0 {
      assert p + ks == p;
    } else {
      var init, last := ks[..|ks| - 1], ks[|ks| - 1];
      assert forall w :: w in init ==> w in ks;
      UpdateOrder(t, p, init, m);
      AddOrder(UpdateWith(t, init, m), p + init, last, m[last]);
      AppendSnoc(p, ks);
    }
  }

  lemma AddOrder(t: Tally, p: seq<string>, w: string, x: real)
    requires Valid(t) && t.order == Distinct(p)
    ensures Add(t, w, x).order == Distinct(p + [w])
  {
    DistinctSnoc(p, w);
  }

  /** Visiting distinct keys adds each key's value to its score once. */
  lemma {:induction false} UpdateScore(t: Tally, ks: seq<string>, m: map<string, real>)
    requires Valid(t)
    requires forall w :: w in ks ==> w in m
    requires forall i, j :: 0 <= i < j < |ks| ==> ks[i] != ks[j]
    ensures forall w :: Lookup0(UpdateWith(t, ks, m), w) == Lookup0(t, w) + (if w in ks then m[w] else 0.0)
    decreases |ks|
  {
    if |ks| > 0 {
      var init, last := ks[..|ks| - 1], ks[|ks| - 1];
      SnocMembers(ks);
      UpdateScore(t, init, m);
      assert UpdateWith(t, ks, m) == Add(UpdateWith(t, init, m), last, m[last]);
    }
  }

  // ---------------------------------------------------------------- one category

  /** The words of every document, one document after the other. */
  function AllTokens(docs: seq<string>): (ws: seq<string>)
    ensures forall w :: w in ws <==> w in Vocabulary(docs)
    decreases |docs|
  {
    if |docs| == 0 then []
    else
      var n := |docs| - 1;
      var ws := AllTokens(docs[..n]) + Split(docs[n]);
      InSomeDocSnoc(docs);
      ws
  }

  lemma InSomeDocSnoc(docs: seq<string>)
    requires |docs| > 0
    ensures forall w :: InSomeDoc(docs, w) <==> InSomeDoc(docs[..|docs| - 1], w) || w in Split(docs[|docs| - 1])
  {
    var n := |docs| - 1;
    forall w ensures InSomeDoc(docs, w) <==> InSomeDoc(docs[..n], w) || w in Split(docs[n]) {
      if InSomeDoc(docs, w) {
        var i :| 0 <= i < |docs| && w in Split(docs[i]);
        if i < n { assert docs[..n][i] == docs[i]; }
      }
      if InSomeDoc(docs[..n], w) {
        var i :| 0 <= i < n && w in Split(docs[..n][i]);
        assert docs[..n][i] == docs[i];
      }
    }
  }

  /** `compute_tfidf(compute_tf(doc), idf)`. */
  function DocTfidf(doc: string, idf: map<string, real>): (m: map<string, real>)
    requires forall w :: w in Split(doc) ==> w in idf
    ensures forall w :: w in m <==> w in Split(doc)
  {
    ComputeTfidf(ComputeTf(doc), idf)
  }

  /**
   * The counter after the loop over the category's documents: each
   * document's TF-IDF is added in, its words visited in order of first
   * occurrence in the document (the order of `Counter(words)`).
   */
  function CategoryTally(docs: seq<string>, idf: map<string, real>): (t: Tally)
    requires Vocabulary(docs) <= idf.Keys
    ensures Valid(t)
    decreases |docs|
  {
    if |docs| == 0 then EmptyTally
    else
      var n := |docs| - 1;
      VocabularyGrows(docs, n);
      var ks := Distinct(Split(docs[n]));
      assert forall w :: w in Split(docs[n]) ==> w in Vocabulary(docs) by {
        assert forall w :: w in Split(docs[n]) ==> InSomeDoc(docs, w);
      }
      UpdateWith(CategoryTally(docs[..n], idf), ks, DocTfidf(docs[n], idf))
  }

  lemma VocabularyGrows(docs: seq<string>, n: nat)
    requires n <= |docs|
    ensures Vocabulary(docs[..n]) <= Vocabulary(docs)
  {
    forall w | w in Vocabulary(docs[..n]) ensures w in Vocabulary(docs) {
      var i :| 0 <= i < n && w in Split(docs[..n][i]);
      assert docs[..n][i] == docs[i];
    }
  }

  /** The counter lists the category's words in order of first occurrence. */
  lemma {:induction false} CategoryTallyOrder(docs: seq<string>, idf: map<string, real>)
    requires Vocabulary(docs) <= idf.Keys
    ensures CategoryTally(docs, idf).order == Distinct(AllTokens(docs))
    decreases |docs|
  {
    if |docs| == 0 {
      assert Distinct<string>([]) == [];
    } else {
      var n := |docs| - 1;
      VocabularyGrows(docs, n);
      CategoryTallyOrder(docs[..n], idf);
      var p := AllTokens(docs[..n]);
      var q := Split(docs[n]);
      assert forall w :: w in q ==> w in Vocabulary(docs) by {
        assert forall w :: w in q ==> InSomeDoc(docs, w);
      }
      UpdateOrder(CategoryTally(docs[..n], idf), p, Distinct(q), DocTfidf(docs[n], idf));
      DistinctOfDistinct(p, q);
    }
  }

  /**
   * The reference score of a word in a category: its term frequency in
   * every document that contains it, times its IDF, summed over the
   * documents (a sum, not an average).
   */
  function CategoryScore(docs: seq<string>, idf: map<string, real>, w: string): real
    decreases |docs|
  {
    if |docs| == 0 then 0.0
    else
      var n := |docs| - 1;
      CategoryScore(docs[..n], idf, w) + Contribution(docs[n], idf, w)
  }

  /** What one document adds to the score of `w`: its TF-IDF for `w`, if it has the word. */
  function Contribution(doc: string, idf: map<string, real>, w: string): real {
    var tf := ComputeTf(doc);
    if w in tf && w in idf then Weigh(tf[w], idf[w]) else 0.0
  }

  /** The last document adds its contribution to every word's count. */
  lemma TallySnoc(docs: seq<string>, idf: map<string, real>)
    requires |docs| > 0 && Vocabulary(docs) <= idf.Keys
    ensures Vocabulary(docs[..|docs| - 1]) <= idf.Keys
    ensures forall u :: Lookup0(CategoryTally(docs, idf), u) == Lookup0(CategoryTally(docs[..|docs| - 1], idf), u) + Contribution(docs[|docs| - 1], idf, u)
  {
    var n := |docs| - 1;
    LastDocCovered(docs, idf);
    var prev := CategoryTally(docs[..n], idf);
    assert CategoryTally(docs, idf) == UpdateWith(prev, Distinct(Split(docs[n])), DocTfidf(docs[n], idf));
    AddDocument(prev, docs[n], idf);
  }

  /** The vocabulary of all documents covers the earlier documents and the words of the last one. */
  lemma LastDocCovered(docs: seq<string>, idf: map<string, real>)
    requires |docs| > 0 && Vocabulary(docs) <= idf.Keys
    ensures Vocabulary(docs[..|docs| - 1]) <= idf.Keys
    ensures forall w :: w in Split(docs[|docs| - 1]) ==> w in idf
  {
    VocabularyGrows(docs, |docs| - 1);
    assert forall w :: w in Split(docs[|docs| - 1]) ==> InSomeDoc(docs, w);
  }

  /** Adding one document's TF-IDF into a counter adds the document's contribution to every word. */
  lemma AddDocument(prev: Tally, doc: string, idf: map<string, real>)
    requires Valid(prev)
    requires forall w :: w in Split(doc) ==> w in idf
    ensures forall u :: Lookup0(UpdateWith(prev, Distinct(Split(doc)), DocTfidf(doc, idf)), u) == Lookup0(prev, u) + Contribution(doc, idf, u)
  {
    UpdateScore(prev, Distinct(Split(doc)), DocTfidf(doc, idf));
    DocTfidfContribution(doc, idf);
  }

  /** Adding in a document's TF-IDF adds its contribution to every word. */
  lemma DocTfidfContribution(doc: string, idf: map<string, real>)
    requires forall w :: w in Split(doc) ==> w in idf
    ensures forall u :: (if u in Distinct(Split(doc)) then DocTfidf(doc, idf)[u] else 0.0) == Contribution(doc, idf, u)
  {
    var m := DocTfidf(doc, idf);
    forall u ensures (if u in Distinct(Split(doc)) then m[u] else 0.0) == Contribution(doc, idf, u) {
      var tf := ComputeTf(doc);
      assert u in Distinct(Split(doc)) <==> u in tf;
      if u in tf {
        assert m[u] == Weigh(tf[u], idf[u]);
      }
    }
  }

  /** The counter's score of every word is the reference score. */
  lemma {:induction false} CategoryTallyScores(docs: seq<string>, idf: map<string, real>)
    requires Vocabulary(docs) <= idf.Keys
    ensures forall w :: Lookup0(CategoryTally(docs, idf), w) == CategoryScore(docs, idf, w)
    decreases |docs|
  {
    if |docs| > 0 {
      TallySnoc(docs, idf);
      CategoryTallyScores(docs[..|docs| - 1], idf);
    }
  }

  /** The summed term frequency of `w` over the documents. */
  function TfTotal(docs: seq<string>, w: string): real
    decreases |docs|
  {
    if |docs| == 0 then 0.0
    else
      var n := |docs| - 1;
      var tf := ComputeTf(docs[n]);
      TfTotal(docs[..n], w) + (if w in tf then tf[w] else 0.0)
  }

  /**
   * A word's category score is its IDF times its term frequency summed
   * over the documents, not a mean.
   */
  lemma {:induction false} CategoryScoreFactor(docs: seq<string>, idf: map<string, real>, w: string)
    requires w in idf
    ensures CategoryScore(docs, idf, w) == Weigh(TfTotal(docs, w), idf[w])
    decreases |docs|
  {
    if |docs| > 0 {
      var n := |docs| - 1;
      CategoryScoreFactor(docs[..n], idf, w);
      var x := ScoreSnoc(docs, idf, w);
      FactorStep(CategoryScore(docs, idf, w), CategoryScore(docs[..n], idf, w), TfTotal(docs, w), TfTotal(docs[..n], w), x, idf[w]);
    }
  }

  /**
   * The summed term frequency is positive exactly for the words of the
   * documents, and at most the word's document frequency: every document
   * that uses the word adds a share of at most one.
   */
  lemma {:induction false} TfTotalBounds(docs: seq<string>, w: string)
    ensures 0.0 <= TfTotal(docs, w) <= DocFreq(docs, w) as real
    ensures TfTotal(docs, w) > 0.0 <==> w in Vocabulary(docs)
    decreases |docs|
  {
    if |docs| > 0 {
      var n := |docs| - 1;
      TfTotalBounds(docs[..n], w);
      InSomeDocSnoc(docs);
      var tf := ComputeTf(docs[n]);
      var prev := TfTotal(docs[..n], w);
      if w in tf {
        assert 0.0 < tf[w] <= 1.0;
        assert TfTotal(docs, w) == prev + tf[w];
        assert DocFreq(docs, w) == DocFreq(docs[..n], w) + 1;
        assert InSomeDoc(docs, w);
      } else {
        assert TfTotal(docs, w) == prev;
        assert DocFreq(docs, w) == DocFreq(docs[..n], w);
        assert InSomeDoc(docs, w) <==> InSomeDoc(docs[..n], w);
      }
    }
  }

  /** The last document's share of `w`: its term frequency, or zero if it lacks the word. */
  lemma ScoreSnoc(docs: seq<string>, idf: map<string, real>, w: string) returns (x: real)
    requires |docs| > 0 && w in idf
    ensures CategoryScore(docs, idf, w) == CategoryScore(docs[..|docs| - 1], idf, w) + Weigh(x, idf[w])
    ensures TfTotal(docs, w) == TfTotal(docs[..|docs| - 1], w) + x
  {
    var tf := ComputeTf(docs[|docs| - 1]);
    x := if w in tf then tf[w] else 0.0;
    assert Weigh(0.0, idf[w]) == 0.0;
  }

  /** One step of factoring a sum of weighted shares: `s0 + x*c == (t0 + x)*c` when `s0 == t0*c`. */
  lemma FactorStep(s: real, s0: real, t: real, t0: real, x: real, c: real)
    requires s0 == Weigh(t0, c)
    requires s == s0 + Weigh(x, c)
    requires t == t0 + x
    ensures s == Weigh(t, c)
  {
  }

  // ---------------------------------------------------------------- top words

  /** `counter.items()`: every word with its score, in insertion order. */
  function Entries(t: Tally): (r: seq<Entry>)
    ensures |r| == |t.order|
    ensures forall i :: 0 <= i < |r| ==> r[i] == (t.order[i], Lookup0(t, t.order[i]))
  {
    seq(|t.order|, i requires 0 <= i < |t.order| => (t.order[i], Lookup0(t, t.order[i])))
  }

  /** `w` is among the words of the list. */
  predicate Listed(r: seq<Entry>, w: string) {
    exists i :: 0 <= i < |r| && r[i].0 == w
  }

  /**
   * The top-ten list of one category: at most ten distinct words of the
   * category, best first, each with its reference score; a word left out
   * scores no more than any listed one; and fewer than ten words are
   * listed only when the category has fewer than ten.
   */
  function TopWordsOfDocs(docs: seq<string>, ln: real -> real): (r: seq<Entry>)
    ensures |r| <= 10
    ensures DistinctKeys(Word, r)
    ensures SortedDesc(r)
    ensures forall i :: 0 <= i < |r| ==> r[i].0 in Vocabulary(docs)
    ensures forall i :: 0 <= i < |r| ==> r[i].1 == CategoryScore(docs, ComputeIdf(docs, ln), r[i].0)
    ensures forall w, i :: w in Vocabulary(docs) && !Listed(r, w) && 0 <= i < |r| ==> CategoryScore(docs, ComputeIdf(docs, ln), w) <= r[i].1
    ensures |r| < 10 ==> forall w :: w in Vocabulary(docs) ==> Listed(r, w)
    ensures r == MostCommon(Ranked(docs, ln), 10)
  {
    var idf := ComputeIdf(docs, ln);
    var t := CategoryTally(docs, idf);
    var entries := Entries(t);
    var r := MostCommon(entries, 10);
    TopWordsFacts(docs, idf, t, entries, r);
    EntriesRanked(docs, ln);
    r
  }

  /**
   * The reference ranking input: every word of the category in order of
   * first occurrence across its documents, with its reference score.
   */
  function Ranked(docs: seq<string>, ln: real -> real): (r: seq<Entry>)
    ensures |r| == |Distinct(AllTokens(docs))|
  {
    var ws := Distinct(AllTokens(docs));
    var idf := ComputeIdf(docs, ln);
    seq(|ws|, i requires 0 <= i < |ws| => (ws[i], CategoryScore(docs, idf, ws[i])))
  }

  /** The counter's items are the reference ranking input: same words, same order, same scores. */
  lemma EntriesRanked(docs: seq<string>, ln: real -> real)
    ensures Entries(CategoryTally(docs, ComputeIdf(docs, ln))) == Ranked(docs, ln)
  {
    var idf := ComputeIdf(docs, ln);
    CategoryTallyOrder(docs, idf);
    CategoryTallyScores(docs, idf);
  }

  lemma TopWordsFacts(docs: seq<string>, idf: map<string, real>, t: Tally, entries: seq<Entry>, r: seq<Entry>)
    requires Vocabulary(docs) <= idf.Keys
    requires t == CategoryTally(docs, idf) && entries == Entries(t) && r == MostCommon(entries, 10)
    ensures DistinctKeys(Word, r)
    ensures forall i :: 0 <= i < |r| ==> r[i].0 in Vocabulary(docs)
    ensures forall i :: 0 <= i < |r| ==> r[i].1 == CategoryScore(docs, idf, r[i].0)
    ensures forall w, i :: w in Vocabulary(docs) && !Listed(r, w) && 0 <= i < |r| ==> CategoryScore(docs, idf, w) <= r[i].1
    ensures |r| < 10 ==> forall w :: w in Vocabulary(docs) ==> Listed(r, w)
  {
    CategoryTallyOrder(docs, idf);
    CategoryTallyScores(docs, idf);
    assert forall w :: w in t.order <==> w in Vocabulary(docs);
    ListedEntries(t, r);
    forall w, i | w in Vocabulary(docs) && !Listed(r, w) && 0 <= i < |r| ensures CategoryScore(docs, idf, w) <= r[i].1 {
      OmittedScoresLess(t, r, w);
    }
    if |r| < 10 {
      forall w | w in Vocabulary(docs) ensures Listed(r, w) {
        ShortListHasAll(t, r, w);
      }
    }
  }

  /** Every listed entry is a counted word with its count, each word once. */
  lemma ListedEntries(t: Tally, r: seq<Entry>)
    requires Valid(t)
    requires r == MostCommon(Entries(t), 10)
    ensures DistinctKeys(Word, r)
    ensures forall i :: 0 <= i < |r| ==> r[i].0 in t.order && r[i].1 == Lookup0(t, r[i].0)
  {
    var entries := Entries(t);
    assert DistinctKeys(Word, entries);
    MostCommonDistinct(entries, 10);
    forall i | 0 <= i < |r| ensures r[i].0 in t.order && r[i].1 == Lookup0(t, r[i].0) {
      assert r[i] in multiset(entries);
      var k :| 0 <= k < |entries| && entries[k] == r[i];
      assert t.order[k] in t.order;
    }
  }

  /** A counted word that is not listed scores no more than any listed entry. */
  lemma OmittedScoresLess(t: Tally, r: seq<Entry>, w: string)
    requires r == MostCommon(Entries(t), 10)
    requires w in t.order && !Listed(r, w)
    ensures forall i :: 0 <= i < |r| ==> Lookup0(t, w) <= r[i].1
  {
    var entries := Entries(t);
    var k := IndexOf(t.order, w);
    var e := entries[k];
    assert e == (w, Lookup0(t, w)) && e in multiset(entries);
    forall j | 0 <= j < |r| ensures r[j] != e {
      assert r[j].0 != w;
    }
    assert e !in r;
    assert e in multiset(entries) - multiset(r);
  }

  /** A list shorter than ten holds every counted word. */
  lemma ShortListHasAll(t: Tally, r: seq<Entry>, w: string)
    requires r == MostCommon(Entries(t), 10)
    requires |r| < 10 && w in t.order
    ensures Listed(r, w)
  {
    var entries := Entries(t);
    assert multiset(r) == multiset(entries) by {
      SubmultisetSameSize(r, entries);
    }
    var k := IndexOf(t.order, w);
    assert entries[k] in multiset(r);
    var j :| 0 <= j < |r| && r[j] == entries[k];
    assert r[j].0 == w;
  }

  lemma SubmultisetSameSize(a: seq<Entry>, b: seq<Entry>)
    requires multiset(a) <= multiset(b) && |a| == |b|
    ensures multiset(a) == multiset(b)
  {
    var d := multiset(b) - multiset(a);
    assert multiset(b) == multiset(a) + d;
    assert |multiset(b)| == |multiset(a)| + |d|;
  }

  // ---------------------------------------------------------------- all categories

  /** A row of the articles table: its title and description, already as read, and its coding. */
  datatype Row = Row(title: string, description: string, coding: string)

  /** The `text` column of a row. */
  function RowText(row: Row, english: set<string>): string {
    DocumentText(row.title, row.description, english)
  }

  /** Some row carries the coding `c`. */
  predicate HasCoding(rows: seq<Row>, c: string) {
    exists i :: 0 <= i < |rows| && rows[i].coding == c
  }

  /** `df[df['coding'] == c]`: the rows coded `c`, in row order. */
  function CodedRows(rows: seq<Row>, c: string): (sel: seq<Row>)
    ensures forall r :: r in sel <==> r in rows && r.coding == c
    ensures IsSubseq(sel, rows)
    decreases |rows|
  {
    if |rows| == 0 then []
    else
      var n := |rows| - 1;
      var prev := CodedRows(rows[..n], c);
      assert rows == rows[..n] + [rows[n]];
      SubseqExtend(prev, rows[..n], rows[n]);
      if rows[n].coding == c then
        SubseqSnoc(prev, rows[..n], rows[n]);
        prev + [rows[n]]
      else prev
  }

  /** Every row coded `c` is selected as many times as it occurs, and no other row is. */
  lemma {:induction false} CodedRowsCount(rows: seq<Row>, c: string)
    ensures forall r :: multiset(CodedRows(rows, c))[r] == if r.coding == c then multiset(rows)[r] else 0
    decreases |rows|
  {
    if |rows| > 0 {
      var n := |rows| - 1;
      assert rows == rows[..n] + [rows[n]];
      assert multiset(rows) == multiset(rows[..n]) + multiset{rows[n]};
      CodedRowsCount(rows[..n], c);
    }
  }

  /**
   * `df[df['coding'] == c]['text'].tolist()`: the texts of the rows coded
   * `c`, one per row and in row order (the order that fixes the counter's
   * insertion order).
   */
  function DocsOf(rows: seq<Row>, c: string, english: set<string>): (docs: seq<string>)
    ensures |docs| == |CodedRows(rows, c)|
    ensures forall i :: 0 <= i < |docs| ==> docs[i] == RowText(CodedRows(rows, c)[i], english)
    ensures |docs| > 0 <==> HasCoding(rows, c)
    decreases |rows|
  {
    if |rows| == 0 then []
    else
      var n := |rows| - 1;
      var prev := DocsOf(rows[..n], c, english);
      CodedRowsNonEmpty(rows, c);
      if rows[n].coding == c then
        var docs := prev + [RowText(rows[n], english)];
        assert CodedRows(rows, c) == CodedRows(rows[..n], c) + [rows[n]];
        TextsSnoc(prev, CodedRows(rows[..n], c), rows[n], english);
        docs
      else prev
  }

  /** Texts listed row by row stay so when one more row and its text are appended. */
  lemma TextsSnoc(docs: seq<string>, sel: seq<Row>, row: Row, english: set<string>)
    requires |docs| == |sel|
    requires forall i :: 0 <= i < |docs| ==> docs[i] == RowText(sel[i], english)
    ensures forall i :: 0 <= i < |docs| + 1 ==> (docs + [RowText(row, english)])[i] == RowText((sel + [row])[i], english)
  {
  }

  /** Some row is coded `c` exactly when the selection for `c` is not empty. */
  lemma CodedRowsNonEmpty(rows: seq<Row>, c: string)
    ensures |CodedRows(rows, c)| > 0 <==> HasCoding(rows, c)
  {
    var sel := CodedRows(rows, c);
    if HasCoding(rows, c) {
      var i :| 0 <= i < |rows| && rows[i].coding == c;
      assert rows[i] in rows;
    }
    if |sel| > 0 {
      assert sel[0] in sel;
    }
  }

  /** `df['coding'].unique()`: every coding once, in order of first appearance. */
  function Categories(rows: seq<Row>): (cs: seq<string>)
    ensures forall c :: c in cs <==> HasCoding(rows, c)
    ensures forall i, j :: 0 <= i < j < |cs| ==> cs[i] != cs[j]
    ensures forall i, j :: 0 <= i < j < |cs| ==> FirstCoded(rows, cs[i]) < FirstCoded(rows, cs[j])
  {
    var codings := seq(|rows|, i requires 0 <= i < |rows| => rows[i].coding);
    assert forall c :: c in codings <==> HasCoding(rows, c) by {
      forall c ensures c in codings <==> HasCoding(rows, c) {
        if HasCoding(rows, c) {
          var i :| 0 <= i < |rows| && rows[i].coding == c;
          assert codings[i] == c;
        }
      }
    }
    DistinctInOrder(codings);
    forall c | c in codings ensures FirstCoded(rows, c) == IndexOf(codings, c) {
      FirstCodedAt(rows, codings, c);
    }
    Distinct(codings)
  }

  /** The index of the first row coded `c`. */
  function FirstCoded(rows: seq<Row>, c: string): (k: nat)
    requires HasCoding(rows, c)
    ensures k < |rows| && rows[k].coding == c
    ensures forall j :: 0 <= j < k ==> rows[j].coding != c
  {
    if rows[0].coding == c then 0
    else
      var i :| 0 <= i < |rows| && rows[i].coding == c;
      assert rows[1..][i - 1].coding == c;
      1 + FirstCoded(rows[1..], c)
  }

  /** The first row coded `c` is the first occurrence of `c` among the codings. */
  lemma FirstCodedAt(rows: seq<Row>, codings: seq<string>, c: string)
    requires |codings| == |rows| && forall i :: 0 <= i < |rows| ==> codings[i] == rows[i].coding
    requires c in codings
    ensures HasCoding(rows, c) && FirstCoded(rows, c) == IndexOf(codings, c)
  {
    var k := IndexOf(codings, c);
    assert rows[k].coding == c;
    var k' := FirstCoded(rows, c);
    assert codings[k'] == c;
  }

  /**
   * `get_top_words_by_category`: one top-ten list per category, in order of
   * first appearance, each computed from that category's documents alone
   * (their own IDF included).
   */
  function TopWordsByCategory(rows: seq<Row>, english: set<string>, ln: real -> real): (r: seq<(string, seq<Entry>)>)
    ensures forall c :: (exists i :: 0 <= i < |r| && r[i].0 == c) <==> HasCoding(rows, c)
    ensures forall i, j :: 0 <= i < j < |r| ==> r[i].0 != r[j].0
    ensures forall i :: 0 <= i < |r| ==> r[i].1 == TopWordsOfDocs(DocsOf(rows, r[i].0, english), ln)
  {
    var cs := Categories(rows);
    var r := PairUp(cs, (c: string) => TopWordsOfDocs(DocsOf(rows, c, english), ln));
    CategoryKeys(rows, r);
    r
  }

  /** Pairs keyed position by position by the categories carry their membership, distinctness and order. */
  lemma CategoryKeys<V>(rows: seq<Row>, r: seq<(string, V)>)
    requires |r| == |Categories(rows)|
    requires forall i :: 0 <= i < |r| ==> r[i].0 == Categories(rows)[i]
    ensures forall c :: (exists i :: 0 <= i < |r| && r[i].0 == c) <==> HasCoding(rows, c)
    ensures forall i, j :: 0 <= i < j < |r| ==> r[i].0 != r[j].0
  {
    KeysFollow(r, Categories(rows));
  }

  /** Each key of `ks` paired with its value under `f`, in order. */
  function PairUp<K, V>(ks: seq<K>, f: K -> V): (r: seq<(K, V)>)
    ensures |r| == |ks|
    ensures forall i :: 0 <= i < |r| ==> r[i] == (ks[i], f(ks[i]))
    decreases |ks|
  {
    if |ks| == 0 then [] else [(ks[0], f(ks[0]))] + PairUp(ks[1..], f)
  }

  /** Pairs keyed position by position by `cs` have exactly the keys of `cs`. */
  lemma KeysFollow<V>(r: seq<(string, V)>, cs: seq<string>)
    requires |r| == |cs|
    requires forall i :: 0 <= i < |r| ==> r[i].0 == cs[i]
    ensures forall c :: (exists i :: 0 <= i < |r| && r[i].0 == c) <==> c in cs
  {
    forall c | c in cs
      ensures exists i :: 0 <= i < |r| && r[i].0 == c
    {
      var i :| 0 <= i < |cs| && cs[i] == c;
      assert r[i].0 == c;
    }
  }

  /**
   * The lists come in order of the categories' first appearance among the
   * rows, the key order of the resulting dictionary.
   */
  lemma TopWordsByCategoryOrder(rows: seq<Row>, english: set<string>, ln: real -> real)
    ensures var r := TopWordsByCategory(rows, english, ln);
      forall i, j :: 0 <= i < j < |r| ==> HasCoding(rows, r[i].0) && HasCoding(rows, r[j].0) && FirstCoded(rows, r[i].0) < FirstCoded(rows, r[j].0)
  {
    var cs := Categories(rows);
    var r := TopWordsByCategory(rows, english, ln);
    assert r == PairUp(cs, (c: string) => TopWordsOfDocs(DocsOf(rows, c, english), ln));
    KeysOrdered(rows, r);
  }

  /** Pairs keyed position by position by the categories follow the rows' first-appearance order. */
  lemma KeysOrdered<V>(rows: seq<Row>, r: seq<(string, V)>)
    requires |r| == |Categories(rows)| && forall i :: 0 <= i < |r| ==> r[i].0 == Categories(rows)[i]
    ensures forall i, j :: 0 <= i < j < |r| ==> HasCoding(rows, r[i].0) && HasCoding(rows, r[j].0) && FirstCoded(rows, r[i].0) < FirstCoded(rows, r[j].0)
  {
    var cs := Categories(rows);
    forall i, j | 0 <= i < j < |r|
      ensures HasCoding(rows, r[i].0) && HasCoding(rows, r[j].0) && FirstCoded(rows, r[i].0) < FirstCoded(rows, r[j].0)
    {
      assert r[i].0 == cs[i] && r[j].0 == cs[j];
    }
  }

  /** `top_words[c]`: the list stored under `c`, empty if there is none. */
  function ListFor(r: seq<(string, seq<Entry>)>, c: string): seq<Entry>
    decreases |r|
  {
    if |r| == 0 then [] else if r[0].0 == c then r[0].1 else ListFor(r[1..], c)
  }

  lemma {:induction false} ListForAt(r: seq<(string, seq<Entry>)>, i: nat, c: string)
    requires forall j, k :: 0 <= j < k < |r| ==> r[j].0 != r[k].0
    requires i < |r| && r[i].0 == c
    ensures ListFor(r, c) == r[i].1
    decreases |r|
  {
    if i > 0 {
      assert r[0].0 != c;
      ListForAt(r[1..], i - 1, c);
    }
  }

  /**
   * Each category's list is the top-ten list of that category's own
   * documents; a coding no row carries has no list.
   */
  lemma TopWordsByCategoryLists(rows: seq<Row>, c: string, english: set<string>, ln: real -> real)
    ensures HasCoding(rows, c) ==> ListFor(TopWordsByCategory(rows, english, ln), c) == TopWordsOfDocs(DocsOf(rows, c, english), ln)
    ensures !HasCoding(rows, c) ==> ListFor(TopWordsByCategory(rows, english, ln), c) == []
  {
    ListForKeyed(TopWordsByCategory(rows, english, ln), c, (k: string) => TopWordsOfDocs(DocsOf(rows, k, english), ln));
  }

  /** Lookup in pairs whose values are a function of their distinct keys. */
  lemma ListForKeyed(r: seq<(string, seq<Entry>)>, c: string, f: string -> seq<Entry>)
    requires forall i, j :: 0 <= i < j < |r| ==> r[i].0 != r[j].0
    requires forall i :: 0 <= i < |r| ==> r[i].1 == f(r[i].0)
    ensures (exists i :: 0 <= i < |r| && r[i].0 == c) ==> ListFor(r, c) == f(c)
    ensures (forall i :: 0 <= i < |r| ==> r[i].0 != c) ==> ListFor(r, c) == []
  {
    if i :| 0 <= i < |r| && r[i].0 == c {
      ListForAt(r, i, c);
    } else {
      ListForAbsent(r, c);
    }
  }

  lemma {:induction false} ListForAbsent(r: seq<(string, seq<Entry>)>, c: string)
    requires forall j :: 0 <= j < |r| ==> r[j].0 != c
    ensures ListFor(r, c) == []
    decreases |r|
  {
    if |r| > 0 {
      ListForAbsent(r[1..], c);
    }
  }

  /**
   * A category's list depends on its own rows only: a row of another
   * category changes neither its documents nor, therefore, its IDF and
   * its list.
   */
  lemma TopWordsLocal(rows: seq<Row>, row: Row, c: string, english: set<string>, ln: real -> real)
    requires row.coding != c
    ensures DocsOf(rows + [row], c, english) == DocsOf(rows, c, english)
    ensures ListFor(TopWordsByCategory(rows + [row], english, ln), c) == ListFor(TopWordsByCategory(rows, english, ln), c)
  {
    var rows' := rows + [row];
    assert rows'[..|rows'| - 1] == rows;
    HasCodingOther(rows, row, c);
    TopWordsByCategoryLists(rows, c, english, ln);
    TopWordsByCategoryLists(rows', c, english, ln);
  }

  /** A row of another coding does not make `c` appear. */
  lemma HasCodingOther(rows: seq<Row>, row: Row, c: string)
    requires row.coding != c
    ensures HasCoding(rows + [row], c) <==> HasCoding(rows, c)
  {
    var rows' := rows + [row];
    if HasCoding(rows', c) {
      var i :| 0 <= i < |rows'| && rows'[i].coding == c;
      assert rows[i] == rows'[i];
    }
    if HasCoding(rows, c) {
      var i :| 0 <= i < |rows| && rows[i].coding == c;
      assert rows'[i] == rows[i];
    }
  }
}
