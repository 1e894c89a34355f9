/** How SQL text is written: blanks, words and letter case, given by the characters themselves and not by
    the program's tests for them. */
module Writing {
  import opened Text

  /** Space, tab, line feed, carriage return. */
  predicate IsGap(c: char) {
    c == ' ' || c == '\t' || c == '\n' || c == '\r'
  }

  /** The same, vertical tab and form feed. */
  predicate IsWhite(c: char) {
    IsGap(c) || c == '\U{0B}' || c == '\U{0C}'
  }

  /** Letters, digits, underscore. */
  predicate IsWordChar(c: char) {
    'a' <= c <= 'z' || 'A' <= c <= 'Z' || '0' <= c <= '9' || c == '_'
  }

  predicate IsUnquoted(c: char) {
    c != '"'
  }

  predicate AllBlank(s: string) {
    forall i :: 0 <= i < |s| ==> IsGap(s[i])
  }

  predicate AllWhite(s: string) {
    forall i :: 0 <= i < |s| ==> IsWhite(s[i])
  }

  predicate AllIdent(s: string) {
    forall i :: 0 <= i < |s| ==> IsWordChar(s[i])
  }

  /** A word written before `s` ends where it should. */
  predicate EndsWord(s: string) {
    s != "" ==> !IsWordChar(s[0])
  }

  /** Text that neither starts nor ends with white space. */
  predicate Bordered(s: string) {
    s != "" ==> !IsWhite(s[0]) && !IsWhite(s[|s| - 1])
  }

  predicate InCapitals(word: string) {
    forall i :: 0 <= i < |word| ==> 'A' <= word[i] <= 'Z'
  }

  /** The letter or its small form, 32 code points on. */
  predicate IsCaseOf(c: char, capital: char) {
    c == capital || ('A' <= capital <= 'Z' && c as int == capital as int + 32)
  }

  /** The word in capital or small letters, or both. */
  predicate Spells(written: string, word: string) {
    |written| == |word| && forall i :: 0 <= i < |word| ==> IsCaseOf(written[i], word[i])
  }

  predicate BeginsWith(s: string, word: string) {
    |word| <= |s| && Spells(s[..|word|], word)
  }

  function FoldedChar(c: char): char {
    if 'A' <= c <= 'Z' then (c as int + 32) as char else c
  }

  /** In small letters. */
  function Folded(s: string): (r: string)
    ensures |r| == |s|
    ensures forall i :: 0 <= i < |s| ==> r[i] == FoldedChar(s[i])
  {
    seq(|s|, i requires 0 <= i < |s| => FoldedChar(s[i]))
  }

  // ----- the program's tests agree

  lemma CaseUpper(c: char, capital: char)
    requires 'A' <= capital <= 'Z'
    ensures IsCaseOf(c, capital) <==> UpperChar(c) == capital
  {
  }

  lemma SpellsUpper(written: string, word: string)
    requires InCapitals(word)
    ensures Spells(written, word) <==> Upper(written) == word
  {
    if |written| == |word| {
      forall i | 0 <= i < |word|
        ensures IsCaseOf(written[i], word[i]) <==> Upper(written)[i] == word[i]
      {
        CaseUpper(written[i], word[i]);
      }
    }
  }

  lemma FoldedLower(s: string)
    ensures Lower(s) == Folded(s)
  {
    forall i | 0 <= i < |s|
      ensures Lower(s)[i] == Folded(s)[i]
    {
      assert LowerChar(s[i]) == FoldedChar(s[i]);
    }
  }

  lemma WhiteSpace(s: string)
    ensures AllWhite(s) <==> AllSpace(s)
    ensures Bordered(s) <==> Tight(s)
  {
    forall i | 0 <= i < |s|
      ensures IsWhite(s[i]) <==> IsSpace(s[i])
    {
      WhiteChar(s[i]);
    }
  }

  lemma WhiteChar(c: char)
    ensures IsWhite(c) <==> IsSpace(c)
  {
    assert '\t' <= c <= '\r' ==> c == '\t' || c == '\n' || c == '\U{0B}' || c == '\U{0C}' || c == '\r' by {
      assert '\t' as int == 9 && '\r' as int == 13 && '\U{0B}' as int == 11 && '\U{0C}' as int == 12 && '\n' as int == 10;
    }
  }

  /** A word written in some case reads the same as in capitals up to its first letter. */
  lemma FirstLetter(written: string, word: string)
    requires Spells(written, word) && word != ""
    ensures written != "" && IsCaseOf(written[0], word[0])
  {
  }
}
