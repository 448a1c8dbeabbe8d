/**
 * The pieces of Python's `str` behaviour the scripts rely on: the
 * whitespace class shared by `str.split()`, `str.strip()` and the regex
 * class `\s`, ASCII `lower()`, `strip()`, `split()`, `' '.join`,
 * `str.count` and the code-point order `sorted` uses on strings.
 */
module Text {

  /** `str.isspace()`: the whitespace of `split()`, `strip()` and `\s` on `str` values. */
  predicate IsSpace(c: char) {
    || ('\t' <= c <= '\r')
    || ('\U{1C}' <= c <= ' ')
    || c == '\U{85}' || c == '\U{A0}' || c == '\U{1680}'
    || ('\U{2000}' <= c <= '\U{200A}')
    || c == '\U{2028}' || c == '\U{2029}' || c == '\U{202F}' || c == '\U{205F}' || c == '\U{3000}'
  }

  predicate IsAsciiUpper(c: char) { 'A' <= c <= 'Z' }
  predicate IsAsciiLower(c: char) { 'a' <= c <= 'z' }
  predicate IsAsciiLetter(c: char) { IsAsciiUpper(c) || IsAsciiLower(c) }
  predicate IsAsciiDigit(c: char) { '0' <= c <= '9' }

  /** The regex class `\w`, restricted to ASCII: letters, digits and underscore. */
  predicate IsWordChar(c: char) { IsAsciiLetter(c) || IsAsciiDigit(c) || c == '_' }

  /** `lower()` on one character, for the ASCII range. */
  function ToLower(c: char): (d: char)
    ensures IsAsciiUpper(c) ==> IsAsciiLower(d)
    ensures !IsAsciiUpper(c) ==> d == c
  {
    if IsAsciiUpper(c) then (c - 'A' + 'a') as char else c
  }

  function Lower(s: string): (r: string)
    ensures |r| == |s|
    ensures forall i :: 0 <= i < |s| ==> r[i] == ToLower(s[i])
  {
    seq(|s|, i requires 0 <= i < |s| => ToLower(s[i]))
  }

  predicate AllSpace(s: string) {
    forall i :: 0 <= i < |s| ==> IsSpace(s[i])
  }

  /** The first non-whitespace position at or after `i`, or `|s|`. */
  function SkipSpace(s: string, i: nat): (j: nat)
    requires i <= |s|
    ensures i <= j <= |s|
    ensures forall k :: i <= k < j ==> IsSpace(s[k])
    ensures j == |s| || !IsSpace(s[j])
    decreases |s| - i
  {
    if i == |s| || !IsSpace(s[i]) then i else SkipSpace(s, i + 1)
  }

  /** Moving left from `j`, no further than `lo`, past whitespace: the start of the trailing whitespace of `s[lo..j]`. */
  function SkipSpaceBack(s: string, lo: nat, j: nat): (k: nat)
    requires lo <= j <= |s|
    ensures lo <= k <= j
    ensures forall m :: k <= m < j ==> IsSpace(s[m])
    ensures k == lo || !IsSpace(s[k - 1])
    decreases j - lo
  {
    if j == lo || !IsSpace(s[j - 1]) then j else SkipSpaceBack(s, lo, j - 1)
  }

  /** `r` is the slice of `s` at `i`, with only whitespace before and after it. */
  predicate SliceBetweenSpace(s: string, i: int, r: string) {
    && 0 <= i && i + |r| <= |s| && r == s[i..i + |r|]
    && (forall k :: 0 <= k < i ==> IsSpace(s[k]))
    && (forall k :: i + |r| <= k < |s| ==> IsSpace(s[k]))
  }

  /**
   * `strip()`: the slice of `s` left when the whitespace at both ends is
   * removed; it neither starts nor ends with whitespace, and only
   * whitespace lies outside it.
   */
  function Strip(s: string): (r: string)
    ensures |r| > 0 ==> !IsSpace(r[0]) && !IsSpace(r[|r| - 1])
    ensures exists i :: SliceBetweenSpace(s, i, r)
  {
    var i := SkipSpace(s, 0);
    var j := SkipSpaceBack(s, i, |s|);
    assert j > i ==> !IsSpace(s[j - 1]);
    assert SliceBetweenSpace(s, i, s[i..j]);
    s[i..j]
  }

  /** A token of `split()`: non-empty, with no whitespace. */
  predicate IsToken(t: string) {
    |t| > 0 && forall k :: 0 <= k < |t| ==> !IsSpace(t[k])
  }

  /** The first whitespace position at or after `i`, or `|s|`. */
  function TokenEnd(s: string, i: nat): (j: nat)
    requires i <= |s|
    ensures i <= j <= |s|
    ensures forall k :: i <= k < j ==> !IsSpace(s[k])
    ensures j == |s| || IsSpace(s[j])
    decreases |s| - i
  {
    if i == |s| || IsSpace(s[i]) then i else TokenEnd(s, i + 1)
  }

  /**
   * `str.split()` without arguments: the maximal runs of non-whitespace
   * characters, in order; leading, trailing and repeated whitespace yields
   * no empty tokens.
   */
  function Split(s: string): (r: seq<string>)
    ensures forall i :: 0 <= i < |r| ==> IsToken(r[i])
    ensures forall i, k :: 0 <= i < |r| && 0 <= k < |r[i]| ==> r[i][k] in s
    ensures AllSpace(s) ==> r == []
    decreases |s|
  {
    if |s| == 0 then []
    else if IsSpace(s[0]) then
      var r := Split(s[1..]);
      assert forall c :: c in s[1..] ==> c in s;
      r
    else
      var j := TokenEnd(s, 0);
      var r := [s[..j]] + Split(s[j..]);
      assert forall c :: c in s[j..] ==> c in s;
      assert forall c :: c in s[..j] ==> c in s;
      r
  }

  /** `' '.join(ts)`. */
  function Join(ts: seq<string>): string
    decreases |ts|
  {
    if |ts| == 0 then ""
    else if |ts| == 1 then ts[0]
    else ts[0] + " " + Join(ts[1..])
  }

  /** Splitting at a whitespace character splits the two sides separately. */
  lemma {:induction false} SplitAround(a: string, c: char, b: string)
    requires IsSpace(c)
    ensures Split(a + [c] + b) == Split(a) + Split(b)
    decreases |a|
  {
    var s := a + [c] + b;
    if |a| == 0 {
      assert s == [c] + b;
      assert s[1..] == b;
    } else if IsSpace(a[0]) {
      assert s[1..] == a[1..] + [c] + b;
      SplitAround(a[1..], c, b);
    } else {
      var j := TokenEnd(a, 0);
      var j' := TokenEnd(s, 0);
      assert j' == j by {
        if j < |a| {
          assert IsSpace(s[j]);
        } else {
          assert s[|a|] == c;
        }
      }
      assert s[..j] == a[..j];
      assert s[j..] == a[j..] + [c] + b;
      SplitAround(a[j..], c, b);
    }
  }

  lemma SplitToken(t: string)
    requires IsToken(t)
    ensures Split(t) == [t]
  {
    assert TokenEnd(t, 0) == |t|;
    assert t[..|t|] == t;
  }

  /** Splitting the space-joined tokens gives the tokens back. */
  lemma {:induction false} SplitJoin(ts: seq<string>)
    requires forall i :: 0 <= i < |ts| ==> IsToken(ts[i])
    ensures Split(Join(ts)) == ts
    decreases |ts|
  {
    if |ts| == 0 {
    } else if |ts| == 1 {
      SplitToken(ts[0]);
    } else {
      SplitJoin(ts[1..]);
      SplitAround(ts[0], ' ', Join(ts[1..]));
      assert ts[0] + " " + Join(ts[1..]) == ts[0] + [' '] + Join(ts[1..]);
      SplitToken(ts[0]);
      assert ts == [ts[0]] + ts[1..];
    }
  }

  /** `s` has `pat` starting at position `p`. */
  predicate OccursAt(s: string, p: int, pat: string) {
    0 <= p && p + |pat| <= |s| && s[p..p + |pat|] == pat
  }

  /** `s.count(pat)`: non-overlapping occurrences, scanning left to right. */
  function CountOcc(s: string, pat: string): nat
    decreases |s|
  {
    if |pat| == 0 then |s| + 1
    else if |s| < |pat| then 0
    else if s[..|pat|] == pat then 1 + CountOcc(s[|pat|..], pat)
    else CountOcc(s[1..], pat)
  }

  /** An occurrence anywhere is counted. */
  lemma {:induction false} CountOccPositive(s: string, pat: string, p: int)
    requires OccursAt(s, p, pat)
    ensures CountOcc(s, pat) >= 1
    decreases |s|
  {
    if |pat| > 0 && s[..|pat|] != pat {
      assert p > 0;
      DropSlice(s, 1, p - 1, p - 1 + |pat|);
      CountOccPositive(s[1..], pat, p - 1);
    }
  }

  /** `pat` cannot overlap a copy of itself (true of "trump", whose letters are all different). */
  predicate SelfDisjoint(pat: string) {
    forall d :: 0 < d < |pat| ==> pat[d] != pat[0]
  }

  /**
   * For a self-disjoint pattern two different occurrence positions are
   * counted twice, so a count of one means a single occurrence position.
   */
  lemma {:induction false} CountOccTwo(s: string, pat: string, p: int, q: int)
    requires |pat| > 0 && SelfDisjoint(pat)
    requires OccursAt(s, p, pat) && OccursAt(s, q, pat) && p < q
    ensures CountOcc(s, pat) >= 2
    decreases |s|
  {
    var n := |pat|;
    if s[..n] == pat {
      CountOccAfterHead(s, pat, q);
    } else {
      assert p > 0;
      DropSlice(s, 1, p - 1, p - 1 + n);
      DropSlice(s, 1, q - 1, q - 1 + n);
      CountOccTwo(s[1..], pat, p - 1, q - 1);
    }
  }

  /** An occurrence at the start and another one later are both counted. */
  lemma CountOccAfterHead(s: string, pat: string, q: int)
    requires |pat| > 0 && SelfDisjoint(pat)
    requires |pat| <= |s| && s[..|pat|] == pat
    requires OccursAt(s, q, pat) && 0 < q
    ensures CountOcc(s, pat) >= 2
  {
    var n := |pat|;
    // The occurrences cannot overlap, since pat[0] recurs nowhere in pat.
    assert s[q] == pat[0];
    assert q < n ==> s[q] == pat[q] by {
      if q < n { assert s[..n][q] == s[q]; }
    }
    DropSlice(s, n, q - n, q - n + n);
    CountOccPositive(s[n..], pat, q - n);
  }

  /** A slice of a suffix is a slice of the whole. */
  lemma DropSlice(s: string, a: nat, i: nat, j: nat)
    requires i <= j && a + j <= |s|
    ensures s[a..][i..j] == s[a + i..a + j]
  {
  }

  /** Python's `<` on strings: code-point lexicographic order, a proper prefix first. */
  predicate StrLess(a: string, b: string)
    decreases |a|
  {
    if |a| == 0 then |b| > 0
    else if |b| == 0 then false
    else a[0] < b[0] || (a[0] == b[0] && StrLess(a[1..], b[1..]))
  }

  lemma {:induction false} StrLessIrreflexive(a: string)
    ensures !StrLess(a, a)
    decreases |a|
  {
    if |a| > 0 {
      StrLessIrreflexive(a[1..]);
    }
  }

  lemma {:induction false} StrLessTransitive(a: string, b: string, c: string)
    requires StrLess(a, b) && StrLess(b, c)
    ensures StrLess(a, c)
    decreases |a|
  {
    if |a| > 0 && a[0] == b[0] && b[0] == c[0] {
      StrLessTransitive(a[1..], b[1..], c[1..]);
    }
  }

  lemma StrLessAsymmetric(a: string, b: string)
    ensures StrLess(a, b) ==> !StrLess(b, a)
  {
    if StrLess(a, b) && StrLess(b, a) {
      StrLessTransitive(a, b, a);
      StrLessIrreflexive(a);
    }
  }

  lemma {:induction false} StrLessTotal(a: string, b: string)
    requires a != b
    ensures StrLess(a, b) || StrLess(b, a)
    decreases |a|
  {
    if |a| > 0 && |b| > 0 && a[0] == b[0] {
      assert a == [a[0]] + a[1..] && b == [b[0]] + b[1..];
      StrLessTotal(a[1..], b[1..]);
    }
  }
}
