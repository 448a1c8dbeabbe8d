/**
 * `clean_text` and the document text built from an article's title and
 * description: only ASCII letters survive, the text is lower-cased, split
 * on whitespace and stripped of stop words. The English stop-word list is
 * a parameter.
 */
module TextClean {
  import opened Seqs
  import opened Text

  /** `re.sub(r'[^a-zA-Z\s]', ' ', text)`: anything but an ASCII letter or whitespace becomes a space. */
  function ReplaceNonLetters(text: string): (r: string)
    ensures |r| == |text|
    ensures forall i :: 0 <= i < |r| ==> IsAsciiLetter(r[i]) || IsSpace(r[i])
    ensures forall i :: 0 <= i < |r| && (IsAsciiLetter(text[i]) || IsSpace(text[i])) ==> r[i] == text[i]
    ensures forall i :: 0 <= i < |r| && !(IsAsciiLetter(text[i]) || IsSpace(text[i])) ==> r[i] == ' '
  {
    seq(|text|, i requires 0 <= i < |text| => if IsAsciiLetter(text[i]) || IsSpace(text[i]) then text[i] else ' ')
  }

  /** `ENGLISH_STOP_WORDS.union({'s', 't'})`, with the English list as a parameter. */
  function CustomStopWords(english: set<string>): set<string> {
    english + {"s", "t"}
  }

  /** A non-empty word of lower-case ASCII letters only. */
  predicate IsLowerWord(w: string) {
    |w| > 0 && forall k :: 0 <= k < |w| ==> IsAsciiLower(w[k])
  }

  /**
   * The shape of `clean_text`'s output: lower-case letters and spaces,
   * no space at either end and never two spaces in a row.
   */
  predicate WellSpaced(r: string) {
    && (forall i :: 0 <= i < |r| ==> IsAsciiLower(r[i]) || r[i] == ' ')
    && (|r| > 0 ==> r[0] != ' ' && r[|r| - 1] != ' ')
    && (forall i :: 0 <= i < |r| - 1 && r[i] == ' ' ==> r[i + 1] != ' ')
  }

  /** The tokens `clean_text` splits the text into, before stop words are removed. */
  function RawTokens(text: string): (ws: seq<string>)
    ensures forall i :: 0 <= i < |ws| ==> IsLowerWord(ws[i]) && IsToken(ws[i])
  {
    var s := Lower(ReplaceNonLetters(text));
    var ws := Split(s);
    assert forall i, k :: 0 <= i < |ws| && 0 <= k < |ws[i]| ==> IsAsciiLower(ws[i][k]) by {
      forall i, k | 0 <= i < |ws| && 0 <= k < |ws[i]| ensures IsAsciiLower(ws[i][k]) {
        var c := ws[i][k];
        assert c in s && !IsSpace(c);
        var m :| 0 <= m < |s| && s[m] == c;
      }
    }
    ws
  }

  lemma {:induction false} JoinWellSpaced(ts: seq<string>)
    requires forall i :: 0 <= i < |ts| ==> IsLowerWord(ts[i])
    ensures WellSpaced(Join(ts))
    ensures |ts| > 0 ==> |Join(ts)| > 0
    decreases |ts|
  {
    if |ts| > 1 {
      JoinWellSpaced(ts[1..]);
      var t := ts[0];
      var rest := Join(ts[1..]);
      var r := Join(ts);
      assert r == t + " " + rest;
      assert forall i :: 0 <= i < |t| ==> r[i] == t[i];
      assert r[|t|] == ' ';
      assert forall i :: |t| < i < |r| ==> r[i] == rest[i - |t| - 1];
    }
  }

  /** The split words of `text` that are not stop words, in order. */
  function KeptWords(text: string, english: set<string>): (ws: seq<string>)
    ensures IsSubseq(ws, RawTokens(text))
    ensures forall w :: multiset(ws)[w] == if w in CustomStopWords(english) then 0 else multiset(RawTokens(text))[w]
    ensures forall i :: 0 <= i < |ws| ==> ws[i] !in CustomStopWords(english) && IsLowerWord(ws[i]) && IsToken(ws[i])
  {
    var raw := RawTokens(text);
    var ws := Filter(w => w !in CustomStopWords(english), raw);
    forall i | 0 <= i < |ws| ensures ws[i] !in CustomStopWords(english) && IsLowerWord(ws[i]) && IsToken(ws[i]) {
      assert ws[i] in ws;
      var j :| 0 <= j < |raw| && raw[j] == ws[i];
    }
    ws
  }

  /**
   * `clean_text`: the text's words, lower-cased and without stop words,
   * joined by single spaces. The result is well spaced; its words are
   * exactly the split words that are not stop words, in their original
   * order and multiplicity; and none of them is a stop word.
   */
  function CleanText(text: string, english: set<string>): (r: string)
    ensures WellSpaced(r)
    ensures Split(r) == KeptWords(text, english)
    ensures |text| == 0 ==> r == ""
  {
    var kept := KeptWords(text, english);
    JoinWellSpaced(kept);
    SplitJoin(kept);
    Join(kept)
  }

  /** A well-spaced text is its own normal form: `clean_text` only deletes its stop words. */
  lemma {:induction false} NormaliseWellSpaced(r: string)
    requires WellSpaced(r)
    ensures Lower(ReplaceNonLetters(r)) == r
  {
    assert forall i :: 0 <= i < |r| ==> IsAsciiLetter(r[i]) || IsSpace(r[i]);
  }

  /** Cleaning a cleaned text changes nothing. */
  lemma CleanTextIdempotent(text: string, english: set<string>)
    ensures CleanText(CleanText(text, english), english) == CleanText(text, english)
  {
    var r := CleanText(text, english);
    var kept := KeptWords(text, english);
    NormaliseWellSpaced(r);
    assert RawTokens(r) == kept;
    FilterKeepsAll(w => w !in CustomStopWords(english), kept);
    assert KeptWords(r, english) == kept;
  }

  // ---------------------------------------------------------------- load_and_preprocess_data

  /** The `text` column: cleaned title and cleaned description joined by one space. */
  function DocumentText(title: string, description: string, english: set<string>): (r: string)
    ensures Split(r) == Split(CleanText(title, english)) + Split(CleanText(description, english))
    ensures forall i :: 0 <= i < |Split(r)| ==> Split(r)[i] !in CustomStopWords(english)
  {
    var a := CleanText(title, english);
    var b := CleanText(description, english);
    SplitAround(a, ' ', b);
    assert a + " " + b == a + [' '] + b;
    a + " " + b
  }
}
