/**
 * The article-list cleaning of the collection step: dropping "[Removed]"
 * placeholders, picking out articles about Trump family members,
 * de-duplicating on (title, author), listing the source names, and the
 * composition that derives the four output lists. File reading and JSON
 * writing are not modelled: the operations take and return article lists.
 */
module CleanData {
  import opened Optional
  import opened Seqs
  import opened Text
  import TrumpPattern

  /**
   * One article object of the news API. `None` stands for a missing key
   * (and, for the author, also for JSON null). `others` holds every other
   * field (url, description, content, ...), which the cleaning never reads
   * but which takes part when whole articles are compared for equality.
   */
  datatype Article = Article(
    title: Option<string>,
    author: Option<string>,
    sourceName: Option<string>,
    others: map<string, string>)

  /** `article.get('title', '')`. */
  function TitleOf(a: Article): string {
    a.title.GetOr("")
  }

  // ---------------------------------------------------------------- "[Removed]"

  /** The API's placeholder for a deleted article: its title, stripped and lower-cased, is "[removed]". */
  predicate IsRemovedPlaceholder(a: Article) {
    Lower(Strip(TitleOf(a))) == "[removed]"
  }

  /**
   * `remove_removed_articles`: exactly the articles that are not
   * placeholders, each as often as in the input and in input order; an
   * article without a title is kept.
   */
  function RemoveRemovedArticles(articles: seq<Article>): (r: seq<Article>)
    ensures IsSubseq(r, articles)
    ensures forall a :: multiset(r)[a] == if IsRemovedPlaceholder(a) then 0 else multiset(articles)[a]
    ensures forall a :: a in articles && a.title.None? ==> a in r
  {
    assert Lower(Strip("")) == "";
    Filter(a => !IsRemovedPlaceholder(a), articles)
  }

  // ---------------------------------------------------------------- family filter

  /** `target_names`. */
  const TargetNames: seq<string> := ["melania", "barron", "ivanka", "ivana"]

  /**
   * The test `filter_articles` applies to the lower-cased title: the regex
   * finds a word followed by whitespace and "trump", that word is one of
   * the target names, and "trump" occurs once in the title.
   */
  predicate IsFamilyTitle(title: string) {
    var t := Lower(title);
    match TrumpPattern.Search(t)
    case None => false
    case Some(m) => Lower(TrumpPattern.Group(t, m)) in TargetNames && CountOcc(t, TrumpPattern.Literal) == 1
  }

  predicate IsAboutFamilyMember(a: Article) {
    IsFamilyTitle(TitleOf(a))
  }

  /**
   * `filter_articles`: the articles whose title passes the family test,
   * each as often as in the input and in input order. In every kept
   * article "trump" is counted exactly once in the lower-cased title
   * (`FamilyTitleShape` says where it is and what precedes it).
   */
  function FilterArticles(articles: seq<Article>): (r: seq<Article>)
    ensures IsSubseq(r, articles)
    ensures forall a :: multiset(r)[a] == if IsAboutFamilyMember(a) then multiset(articles)[a] else 0
    ensures forall a :: a in r ==> CountOcc(Lower(TitleOf(a)), "trump") == 1
  {
    Filter(IsAboutFamilyMember, articles)
  }

  /** A title in which the pattern matches nowhere is never about a family member. */
  lemma NoMatchNotFamily(title: string)
    requires forall i, j, k :: !TrumpPattern.MatchesAt(Lower(title), i, j, k)
    ensures !IsFamilyTitle(title)
  {
  }

  /**
   * In a title about a family member, the word the regex captures is a
   * target name and the "trump" right after it is the only occurrence of
   * "trump" in the lower-cased title.
   */
  lemma FamilyTitleShape(title: string)
    requires IsFamilyTitle(title)
    ensures var t := Lower(title);
      var m := TrumpPattern.Search(t).value;
      && Lower(t[m.start..m.groupEnd]) in TargetNames
      && OccursAt(t, m.literalAt, "trump")
      && forall p :: OccursAt(t, p, "trump") ==> p == m.literalAt
  {
    var t := Lower(title);
    var m := TrumpPattern.Search(t).value;
    assert CountOcc(t, "trump") == 1;
    TrumpPattern.TrumpSelfDisjoint();
    forall p | OccursAt(t, p, "trump") ensures p == m.literalAt {
      if p < m.literalAt {
        CountOccTwo(t, "trump", p, m.literalAt);
      } else if p > m.literalAt {
        CountOccTwo(t, "trump", m.literalAt, p);
      }
    }
  }

  // ---------------------------------------------------------------- duplicates

  /** `(title.strip(), (author or '').strip())`: two articles with the same key are duplicates. */
  function DedupKey(a: Article): (string, string) {
    (Strip(TitleOf(a)), Strip(a.author.GetOr("")))
  }

  /**
   * `remove_duplicates`: the input is split, in order, into the articles
   * kept and the articles removed; the kept ones have pairwise different
   * keys and cover every key of the input, and the removed ones are the
   * articles whose key occurred earlier, in the order the loop appends them.
   */
  function RemoveDuplicates(articles: seq<Article>): (r: (seq<Article>, seq<Article>))
    ensures Interleaves(articles, r.0, r.1)
    ensures |r.0| + |r.1| == |articles|
    ensures multiset(articles) == multiset(r.0) + multiset(r.1)
    ensures DistinctKeys(DedupKey, r.0)
    ensures KeysOf(DedupKey, r.0) == KeysOf(DedupKey, articles)
    ensures forall a :: a in r.1 ==> DedupKey(a) in KeysOf(DedupKey, r.0)
    ensures r.1 == RepeatsByKey(DedupKey, articles)
  {
    var r := PartitionFirst(DedupKey, articles, {});
    PartitionFirstRepeats(DedupKey, articles);
    InterleavesPartition(articles, r.0, r.1);
    assert forall a :: a in r.1 ==> DedupKey(a) in KeysOf(DedupKey, r.1);
    r
  }

  /** The kept articles are exactly the first article of every key, in input order. */
  lemma RemoveDuplicatesKeepsFirst(articles: seq<Article>)
    ensures RemoveDuplicates(articles).0 == FirstByKey(DedupKey, articles)
  {
    PartitionFirstKeepsFirst(DedupKey, articles);
  }

  /** De-duplicating the kept articles again keeps all of them and removes none. */
  lemma RemoveDuplicatesIdempotent(articles: seq<Article>)
    ensures var u := RemoveDuplicates(articles).0; RemoveDuplicates(u) == (u, [])
  {
    PartitionFirstDistinct(DedupKey, RemoveDuplicates(articles).0, {});
  }

  // ---------------------------------------------------------------- sources

  /** `article.get('source', {}).get('name', '').strip()`. */
  function SourceNameOf(a: Article): string {
    Strip(a.sourceName.GetOr(""))
  }

  /** The non-empty stripped source names of the articles. */
  function SourceNames(articles: seq<Article>): set<string> {
    set a | a in articles && SourceNameOf(a) != "" :: SourceNameOf(a)
  }

  lemma SourceNamesCons(articles: seq<Article>)
    requires |articles| > 0
    ensures var name := SourceNameOf(articles[0]);
      SourceNames(articles) == SourceNames(articles[1..]) + (if name != "" then {name} else {})
  {
    assert articles == [articles[0]] + articles[1..];
    forall n | n in SourceNames(articles) ensures n in SourceNames(articles[1..]) || n == SourceNameOf(articles[0]) {
      var a :| a in articles && SourceNameOf(a) != "" && SourceNameOf(a) == n;
      if a != articles[0] { assert a in articles[1..]; }
    }
  }

  predicate StrictlyAscending(s: seq<string>) {
    forall i, j :: 0 <= i < j < |s| ==> StrLess(s[i], s[j])
  }

  /** Insert `x` into a strictly ascending list, unless it is already there. */
  function InsertSorted(x: string, s: seq<string>): (r: seq<string>)
    requires StrictlyAscending(s)
    ensures StrictlyAscending(r)
    ensures forall y :: y in r <==> y == x || y in s
    decreases |s|
  {
    if |s| == 0 then [x]
    else if x == s[0] then s
    else if StrLess(x, s[0]) then
      assert forall j :: 0 < j < |s| ==> StrLess(x, s[j]) by {
        forall j | 0 < j < |s| ensures StrLess(x, s[j]) {
          StrLessTransitive(x, s[0], s[j]);
        }
      }
      [x] + s
    else
      StrLessTotal(x, s[0]);
      var rest := InsertSorted(x, s[1..]);
      assert forall y :: y in rest ==> StrLess(s[0], y);
      [s[0]] + rest
  }

  /**
   * `extract_sources`: the distinct non-empty stripped source names in
   * ascending order, with nothing else.
   */
  function ExtractSources(articles: seq<Article>): (r: seq<string>)
    ensures StrictlyAscending(r)
    ensures forall n :: n in r <==> n in SourceNames(articles)
    decreases |articles|
  {
    if |articles| == 0 then []
    else
      var rest := ExtractSources(articles[1..]);
      var name := SourceNameOf(articles[0]);
      SourceNamesCons(articles);
      if name != "" then InsertSorted(name, rest) else rest
  }

  /** Every other element of a strictly ascending list is above its head. */
  lemma HeadIsLeast(a: seq<string>, x: string)
    requires StrictlyAscending(a) && x in a
    ensures x == a[0] || StrLess(a[0], x)
  {
  }

  lemma TailMember(a: seq<string>, b: seq<string>, x: string)
    requires StrictlyAscending(a) && |a| > 0 && |b| > 0 && a[0] == b[0]
    requires forall y :: y in a <==> y in b
    requires x in a[1..]
    ensures x in b[1..]
  {
    var i :| 1 <= i < |a| && a[i] == x;
    assert StrLess(a[0], x);
    StrLessIrreflexive(x);
    assert x in b;
    var j :| 0 <= j < |b| && b[j] == x;
    assert b[1..][j - 1] == x;
  }

  /** A finite set has one strictly ascending listing: `sorted(set)` is determined by the set. */
  lemma {:induction false} AscendingUnique(a: seq<string>, b: seq<string>)
    requires StrictlyAscending(a) && StrictlyAscending(b)
    requires forall x :: x in a <==> x in b
    ensures a == b
    decreases |a|
  {
    assert |a| == 0 <==> |b| == 0 by {
      if |a| > 0 { assert a[0] in a; }
      if |b| > 0 { assert b[0] in b; }
    }
    if |a| > 0 && |b| > 0 {
      HeadIsLeast(b, a[0]);
      HeadIsLeast(a, b[0]);
      StrLessAsymmetric(a[0], b[0]);
      assert a[0] == b[0];
      forall x | x in a[1..] ensures x in b[1..] {
        TailMember(a, b, x);
      }
      forall x | x in b[1..] ensures x in a[1..] {
        TailMember(b, a, x);
      }
      AscendingUnique(a[1..], b[1..]);
      assert a == [a[0]] + a[1..] && b == [b[0]] + b[1..];
    }
  }

  // ---------------------------------------------------------------- pipeline

  /** Every list the pipeline derives holds only input articles that are not placeholders. */
  lemma PipelineMembers(all: seq<Article>, kept: seq<Article>, filtered: seq<Article>, unique: seq<Article>, removed: seq<Article>)
    requires kept == RemoveRemovedArticles(all)
    requires IsSubseq(filtered, kept)
    requires Interleaves(kept, unique, removed)
    ensures forall a :: a in filtered || a in unique || a in removed ==> a in all && !IsRemovedPlaceholder(a)
  {
    InterleavesPartition(kept, unique, removed);
    SubseqMembers(unique, kept);
    SubseqMembers(removed, kept);
    SubseqMembers(kept, all);
    SubseqMembers(filtered, kept);
  }

  /** The four lists the cleaning step writes out. */
  datatype Outputs = Outputs(
    filtered: seq<Article>,
    remaining: seq<Article>,
    sourceNames: seq<string>,
    removed: seq<Article>)

  /**
   * The list composition of `process_json_files` on the combined input:
   * placeholders go first; the family filter, the de-duplication and the
   * source listing all run on what is left; "remaining" is the
   * de-duplicated list minus anything equal to a filtered article.
   */
  function ProcessArticles(all: seq<Article>): (o: Outputs)
    ensures var kept := RemoveRemovedArticles(all);
      var unique := RemoveDuplicates(kept).0;
      && IsSubseq(o.remaining, unique)
      && (forall a :: a in o.remaining <==> a in unique && a !in o.filtered)
      && (forall a :: a in unique ==> a in o.remaining || a in o.filtered)
      && |unique| + |o.removed| == |kept|
    ensures var kept := RemoveRemovedArticles(all);
      && o.filtered == FilterArticles(kept)
      && Interleaves(kept, RemoveDuplicates(kept).0, o.removed)
      && o.removed == RemoveDuplicates(kept).1 == RepeatsByKey(DedupKey, kept)
      && (forall a :: a in o.removed ==> DedupKey(a) in KeysOf(DedupKey, RemoveDuplicates(kept).0))
      && (forall n :: n in o.sourceNames <==> n in SourceNames(kept))
    ensures forall a :: a in o.filtered || a in o.remaining || a in o.removed ==> a in all && !IsRemovedPlaceholder(a)
    ensures forall a :: a in o.filtered ==> IsAboutFamilyMember(a)
    ensures DistinctKeys(DedupKey, o.remaining)
    ensures StrictlyAscending(o.sourceNames)
  {
    var kept := RemoveRemovedArticles(all);
    var filtered := FilterArticles(kept);
    var (unique, removed) := RemoveDuplicates(kept);
    var remaining := Filter(a => a !in filtered, unique);
    PipelineMembers(all, kept, filtered, unique, removed);
    SubseqDistinctKeys(DedupKey, remaining, unique);
    Outputs(filtered, remaining, ExtractSources(kept), removed)
  }
}
