/**
 * The one regular expression the article filter uses, `(\w+)\s+trump`,
 * searched with Python's `re.search` semantics: the leftmost start position
 * wins, and at that position the greedy `\w+` and `\s+` settle on the first
 * combination (tried longest first) that lets the literal `trump` follow.
 */
module TrumpPattern {
  import opened Optional
  import opened Text

  const Literal: string := "trump"

  /** The literal's first letter recurs nowhere in it, so two occurrences never overlap. */
  lemma TrumpSelfDisjoint()
    ensures SelfDisjoint(Literal)
  {
    assert Literal[1] != 't' && Literal[2] != 't' && Literal[3] != 't' && Literal[4] != 't';
  }

  /** A match: group 1 is `s[start..groupEnd]`, whitespace fills `s[groupEnd..literalAt]`, then the literal. */
  datatype Match = Match(start: nat, groupEnd: nat, literalAt: nat)

  /** The pattern matches `s` with group 1 at `[i, j)` and the literal at `k`. */
  predicate MatchesAt(s: string, i: int, j: int, k: int) {
    && 0 <= i < j < k
    && OccursAt(s, k, Literal)
    && (forall m :: i <= m < j ==> IsWordChar(s[m]))
    && (forall m :: j <= m < k ==> IsSpace(s[m]))
  }

  /** The end of the run of `\w` characters starting at `i`. */
  function WordEnd(s: string, i: nat): (j: nat)
    requires i <= |s|
    ensures i <= j <= |s|
    ensures forall m :: i <= m < j ==> IsWordChar(s[m])
    ensures j == |s| || !IsWordChar(s[j])
    decreases |s| - i
  {
    if i == |s| || !IsWordChar(s[i]) then i else WordEnd(s, i + 1)
  }

  /**
   * A match starting at `i` fixes both runs: `\w+` must stop where the
   * whitespace begins and `\s+` where the literal begins, so backtracking
   * has exactly one candidate to find.
   */
  lemma MatchDetermined(s: string, i: int)
    ensures forall j, k :: MatchesAt(s, i, j, k) ==> 0 <= i <= |s| && j == WordEnd(s, i) && k == SkipSpace(s, j)
  {
    forall j, k | MatchesAt(s, i, j, k) ensures j == WordEnd(s, i) && k == SkipSpace(s, j) {
      assert s[k] == Literal[0];
      assert !IsWordChar(s[j]);
    }
  }

  /** The outcome of trying the pattern at position `i` only. */
  function MatchAt(s: string, i: nat): (r: Option<Match>)
    requires i <= |s|
    ensures r.Some? ==> r.value.start == i && MatchesAt(s, i, r.value.groupEnd, r.value.literalAt)
    ensures r.None? ==> forall j, k :: !MatchesAt(s, i, j, k)
  {
    MatchDetermined(s, i);
    if i < |s| && IsWordChar(s[i]) then
      var j := WordEnd(s, i);
      if j < |s| && IsSpace(s[j]) then
        var k := SkipSpace(s, j);
        if OccursAt(s, k, Literal) then Some(Match(i, j, k)) else None
      else None
    else None
  }

  function SearchFrom(s: string, i: nat): (r: Option<Match>)
    requires i <= |s|
    ensures r.Some? ==> i <= r.value.start && MatchesAt(s, r.value.start, r.value.groupEnd, r.value.literalAt)
    ensures r.Some? ==> forall i', j, k :: i <= i' < r.value.start ==> !MatchesAt(s, i', j, k)
    ensures r.None? ==> forall i', j, k :: i <= i' ==> !MatchesAt(s, i', j, k)
    decreases |s| - i
  {
    if i == |s| then None
    else
      match MatchAt(s, i)
      case Some(m) => Some(m)
      case None => SearchFrom(s, i + 1)
  }

  /**
   * `re.search(r'(\w+)\s+trump', s)`: no result exactly when the pattern
   * matches nowhere; otherwise the match at the leftmost position where it
   * matches at all, which is the only match at that position.
   */
  function Search(s: string): (r: Option<Match>)
    ensures r.None? <==> forall i, j, k :: !MatchesAt(s, i, j, k)
    ensures r.Some? ==> MatchesAt(s, r.value.start, r.value.groupEnd, r.value.literalAt)
    ensures r.Some? ==> forall i, j, k :: MatchesAt(s, i, j, k) ==> r.value.start <= i
    ensures r.Some? ==> forall j, k :: MatchesAt(s, r.value.start, j, k) ==> j == r.value.groupEnd && k == r.value.literalAt
  {
    var r := SearchFrom(s, 0);
    if r.Some? then MatchDetermined(s, r.value.start); r else r
  }

  /** `match.group(1)`. */
  function Group(s: string, m: Match): string
    requires m.start <= m.groupEnd <= |s|
  {
    s[m.start..m.groupEnd]
  }
}
