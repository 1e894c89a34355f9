/** Which population an unattributable statement belongs to. */
module Population {
  import opened Text
  import opened WithClause
  import opened WithRendering
  import opened Policy
  import opened Attribution
  import opened Writing

  datatype Population = NoDeclaredTable | StructuralOnly | RowLevelUnattributed | NonQuery

  const NON_QUERY_PREFIXES: seq<string> :=
    ["DECLARE", "FETCH", "CLOSE", "LOCK", "BEGIN", "COMMIT", "SET", "RESET", "PREPARE", "EXECUTE"]

  /** The text starts with the whole keyword. */
  predicate HasKeywordPrefix(s: string, keyword: string) {
    HasPrefix(s, keyword)
    && (|s| == |keyword|
        || s[|keyword|] == ' ' || s[|keyword|] == '\t' || s[|keyword|] == '\n' || s[|keyword|] == '\r'
        || s[|keyword|] == '(')
  }

  /** Behind the leading comment lines the text starts with a cursor or session keyword. */
  predicate NonQueryText(sqlText: string) {
    exists k :: 0 <= k < |NON_QUERY_PREFIXES| && HasKeywordPrefix(Upper(StripComments(sqlText)), NON_QUERY_PREFIXES[k])
  }

  lemma StripTrimmed(s: string)
    ensures StripComments(Trim(s)) == StripComments(s)
  {
    TrimIdempotent(s);
  }

  /** Dropping one comment line, or the text when the line does not end. */
  lemma CommentTurn(s: string)
    requires Trim(s) == s && HasPrefix(s, "--")
    ensures var nl := RunLength(s, NotNewline);
            if nl == |s| then StripComments(s) == ""
            else
              && StripComments(Trim(s[nl + 1..])) == StripComments(s)
              && Trim(Trim(s[nl + 1..])) == Trim(s[nl + 1..])
  {
    if RunLength(s, NotNewline) < |s| {
      StripTrimmed(s[RunLength(s, NotNewline) + 1..]);
      TrimIdempotent(s[RunLength(s, NotNewline) + 1..]);
    }
  }

  lemma NoComment(s: string)
    ensures Trim(s) == s && !HasPrefix(s, "--") ==> StripComments(s) == s
    ensures StripComments("") == ""
  {
  }

  method IsNonQuery(sqlText: string) returns (r: bool)
    ensures r <==> NonQueryText(sqlText)
  {
    var s := Trim(sqlText);
    TrimIdempotent(sqlText);
    StripTrimmed(sqlText);
    hide HasKeywordPrefix, StripComments, RunLength;
    while HasPrefix(s, "--")
      invariant Trim(s) == s && StripComments(s) == StripComments(sqlText)
      decreases |s|
    {
      var nl := RunLength(s, NotNewline);
      CommentTurn(s);
      hide *;
      if nl == |s| {
        s := "";
        break;
      }
      s := Trim(s[nl + 1..]);
    }
    NoComment(s);
    assert s == StripComments(sqlText);
    var upper := Upper(s);
    var k := 0;
    while k < |NON_QUERY_PREFIXES|
      invariant 0 <= k <= |NON_QUERY_PREFIXES|
      invariant forall i :: 0 <= i < k ==> !HasKeywordPrefix(upper, NON_QUERY_PREFIXES[i])
    {
      if HasKeywordPrefix(upper, NON_QUERY_PREFIXES[k]) {
        return true;
      }
      k := k + 1;
    }
    return false;
  }

  predicate Touches(tables: set<string>, relations: seq<Relation>) {
    exists k :: 0 <= k < |relations| && Key(relations[k]) in tables
  }

  method RelationsTouch(tables: set<string>, relations: seq<Relation>) returns (r: bool)
    ensures r <==> Touches(tables, relations)
  {
    var k := 0;
    while k < |relations|
      invariant 0 <= k <= |relations|
      invariant forall i :: 0 <= i < k ==> Key(relations[i]) !in tables
    {
      if Key(relations[k]) in tables {
        return true;
      }
      k := k + 1;
    }
    return false;
  }

  ghost function PopulationOf(q: Sql, rowLevel: seq<Relation>, structuralOnly: seq<Relation>): Population {
    if NonQueryText(q.text) then NonQuery
    else if Touches(q.tables, rowLevel) then RowLevelUnattributed
    else if Touches(q.tables, structuralOnly) then StructuralOnly
    else NoDeclaredTable
  }

  method ClassifyUnattributable(q: Sql, rowLevel: seq<Relation>, structuralOnly: seq<Relation>) returns (p: Population)
    ensures p == PopulationOf(q, rowLevel, structuralOnly)
  {
    var nonQuery := IsNonQuery(q.text);
    if nonQuery {
      return NonQuery;
    }
    var touched := RelationsTouch(q.tables, rowLevel);
    if touched {
      return RowLevelUnattributed;
    }
    touched := RelationsTouch(q.tables, structuralOnly);
    if touched {
      return StructuralOnly;
    }
    return NoDeclaredTable;
  }

  // ----- what the keyword test recognises

  /** Comment lines and blanks in front of a statement do not change its population. */
  lemma CommentsIrrelevant(lines: seq<string>, pad: string, s: string)
    requires AllWhite(pad) && Bordered(s) && s != "" && !HasPrefix(s, "--")
    requires forall i :: 0 <= i < |lines| ==> '\n' !in lines[i]
    ensures NonQueryText(CommentLines(lines, pad + s)) <==> NonQueryText(s)
  {
    WhiteSpace(s);
    CommentsDropped(lines, pad, s);
    CommentsDropped([], "", s);
    assert "" + s == s;
  }

  /** A cursor or session command, in any case. */
  predicate IsSessionWord(word: string) {
    || Spells(word, "DECLARE") || Spells(word, "FETCH") || Spells(word, "CLOSE") || Spells(word, "LOCK")
    || Spells(word, "BEGIN") || Spells(word, "COMMIT") || Spells(word, "SET") || Spells(word, "RESET")
    || Spells(word, "PREPARE") || Spells(word, "EXECUTE")
  }

  /** A text that starts with this whole word has the keyword in front exactly when it is the word. */
  lemma KeywordPrefixExact(word: string, tail: string, keyword: string)
    requires InCapitals(keyword) && AllIdent(word) && EndsWord(tail)
    ensures HasKeywordPrefix(Upper(word + tail), keyword)
            <==> Spells(word, keyword) && (tail == "" || IsGap(tail[0]) || tail[0] == '(')
  {
    var s, n := word + tail, |keyword|;
    SpellsUpper(word, keyword);
    if |word| == n {
      assert Upper(s)[..n] == Upper(word);
      assert tail != "" ==> Upper(s)[n] == UpperChar(tail[0]);
    } else if |word| > n {
      assert Upper(s)[n] == UpperChar(word[n]) && IsWordChar(word[n]);
    } else if tail != "" {
      assert Upper(s)[|word|] == UpperChar(tail[0]);
    }
  }

  /** A statement is a non-query exactly when its first word, behind any comment lines, is one of the ten
      and a blank, a parenthesis or nothing follows it. */
  lemma NonQueryExact(lines: seq<string>, pad: string, word: string, tail: string)
    requires AllWhite(pad) && word != "" && AllIdent(word) && EndsWord(tail) && Bordered(word + tail)
    requires forall i :: 0 <= i < |lines| ==> '\n' !in lines[i]
    ensures NonQueryText(CommentLines(lines, pad + (word + tail)))
            <==> IsSessionWord(word) && (tail == "" || IsGap(tail[0]) || tail[0] == '(')
  {
    var s := word + tail;
    assert s[0] == word[0];
    WhiteSpace(s);
    CommentsDropped(lines, pad, s);
    hide StripComments, CommentLines, HasKeywordPrefix, Upper, Spells, AllIdent, Bordered, AllWhite;
    AllKeywords(word, tail);
  }

  lemma AllKeywords(word: string, tail: string)
    requires AllIdent(word) && EndsWord(tail)
    ensures (exists k :: 0 <= k < |NON_QUERY_PREFIXES| && HasKeywordPrefix(Upper(word + tail), NON_QUERY_PREFIXES[k]))
            <==> IsSessionWord(word) && (tail == "" || IsGap(tail[0]) || tail[0] == '(')
  {
    forall k | 0 <= k < |NON_QUERY_PREFIXES|
      ensures HasKeywordPrefix(Upper(word + tail), NON_QUERY_PREFIXES[k])
              <==> Spells(word, NON_QUERY_PREFIXES[k]) && (tail == "" || IsGap(tail[0]) || tail[0] == '(')
    {
      KeywordCapitals(k);
      KeywordPrefixExact(word, tail, NON_QUERY_PREFIXES[k]);
    }
    hide HasKeywordPrefix, Upper, Spells, AllIdent, IsGap;
    SessionWords(word);
  }

  lemma KeywordCapitals(k: nat)
    requires k < |NON_QUERY_PREFIXES|
    ensures InCapitals(NON_QUERY_PREFIXES[k])
  {
  }

  lemma SessionWords(word: string)
    ensures IsSessionWord(word) <==> exists k :: 0 <= k < |NON_QUERY_PREFIXES| && Spells(word, NON_QUERY_PREFIXES[k])
  {
    hide Spells;
    var p := NON_QUERY_PREFIXES;
    assert p[0] == "DECLARE" && p[1] == "FETCH" && p[2] == "CLOSE" && p[3] == "LOCK" && p[4] == "BEGIN";
    assert p[5] == "COMMIT" && p[6] == "SET" && p[7] == "RESET" && p[8] == "PREPARE" && p[9] == "EXECUTE";
  }

  lemma {:induction false} StrippedTight(s: string)
    ensures Tight(StripComments(s))
    decreases |s|
  {
    var t := Trim(s);
    TrimIdempotent(s);
    if HasPrefix(t, "--") && RunLength(t, NotNewline) < |t| {
      StrippedTight(t[RunLength(t, NotNewline) + 1..]);
    }
  }

  /** The first two letters of a non-query keyword; of these only DE could start a write, and
      there the third letter decides. */
  lemma NonQueryStart(upper: string, k: nat)
    requires k < |NON_QUERY_PREFIXES| && HasKeywordPrefix(upper, NON_QUERY_PREFIXES[k])
    ensures |upper| >= 3 && upper[0] != 'W' && upper[0] != 'I' && upper[0] != 'U'
    ensures upper[0] == 'D' ==> upper[2] == 'C'
  {
    var keyword := NON_QUERY_PREFIXES[k];
    assert upper[0] == keyword[0] && upper[2] == keyword[2];
  }

  /** No statement is both a non-query and a write. */
  lemma NonQueryNeverWrites(sqlText: string)
    requires NonQueryText(sqlText)
    ensures !ContainsWrite(StripComments(sqlText))
  {
    var t := StripComments(sqlText);
    var k :| 0 <= k < |NON_QUERY_PREFIXES| && HasKeywordPrefix(Upper(t), NON_QUERY_PREFIXES[k]);
    NonQueryStart(Upper(t), k);
    StrippedTight(sqlText);
    TrimTight(t);
    NoWriteStart(t);
    hide HasKeywordPrefix;
  }

  lemma NoWriteStart(t: string)
    requires |t| >= 3
    requires var u := Upper(t); u[0] != 'W' && u[0] != 'I' && u[0] != 'U' && (u[0] == 'D' ==> u[2] == 'C')
    ensures !HasKeyword(t, "WITH") && !StartsWithWrite(t)
  {
  }
}
