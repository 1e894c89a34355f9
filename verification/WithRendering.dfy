/** Statements as trees of CTE lists, their printed text, and what the two walkers
    find in that text. Keywords may be spelled in any case and blanks are free. */
module WithRendering {
  import opened Text
  import opened Parens
  import opened WithClause
  import opened Quoting
  import opened Writing

  datatype Name = Bare(id: string) | Quoted(id: string)

  datatype Hint =
    | NoHint
    | Materialized(keyword: string, gap: string)
    | NotMaterialized(notKeyword: string, notGap: string, keyword: string, gap: string)

  datatype Columns = NoColumns | Columns(content: string, gap: string)

  datatype Recursion = Simple | Recursive(keyword: string, gap: string)

  datatype Cte = Cte(lead: string, name: Name, gap: string, columns: Columns, asKeyword: string, asGap: string,
                     hint: Hint, padLeft: string, body: Statement, padRight: string, after: string)

  /** `word` and `tail` are the primary statement: its first word and the rest. */
  datatype Statement =
    | Plain(word: string, tail: string)
    | With(keyword: string, gap: string, recursion: Recursion, ctes: seq<Cte>, word: string, tail: string)

  // ----- printing

  function NameText(name: Name): string {
    match name
    case Bare(id) => id
    case Quoted(id) => QuoteIdent(id)
  }

  function HintText(hint: Hint, rest: string): string {
    match hint
    case NoHint => rest
    case Materialized(keyword, gap) => keyword + (gap + rest)
    case NotMaterialized(notKeyword, notGap, keyword, gap) => notKeyword + (notGap + (keyword + (gap + rest)))
  }

  function BodyText(c: Cte): string
    decreases c, 1
  {
    c.padLeft + Render(c.body) + c.padRight
  }

  function FromBody(c: Cte, rest: string): string
    decreases c, 2
  {
    "(" + (BodyText(c) + ")" + (c.after + rest))
  }

  function FromAs(c: Cte, rest: string): string
    decreases c, 3
  {
    c.asKeyword + (c.asGap + HintText(c.hint, FromBody(c, rest)))
  }

  function FromColumns(c: Cte, rest: string): string
    decreases c, 4
  {
    match c.columns
    case NoColumns => FromAs(c, rest)
    case Columns(content, gap) => "(" + (content + ")" + (gap + FromAs(c, rest)))
  }

  function RenderCte(c: Cte, rest: string): string
    decreases c, 5
  {
    c.lead + (NameText(c.name) + (c.gap + FromColumns(c, rest)))
  }

  function RenderCtes(ctes: seq<Cte>, rest: string): string
    decreases ctes, 6
  {
    if ctes == [] then rest
    else RenderCte(ctes[0], if |ctes| == 1 then rest else "," + RenderCtes(ctes[1..], rest))
  }

  function FromList(s: Statement): string
    requires s.With?
    decreases s, 7
  {
    RenderCtes(s.ctes, s.word + s.tail)
  }

  function Render(s: Statement): string
    decreases s, 8
  {
    match s
    case Plain(word, tail) => word + tail
    case With(keyword, gap, recursion, _, _, _) =>
      keyword + (gap + match recursion
                       case Simple => FromList(s)
                       case Recursive(again, more) => again + (more + FromList(s)))
  }

  // ----- what the trees mean

  predicate IsWriteVerb(word: string) {
    Spells(word, "INSERT") || Spells(word, "UPDATE") || Spells(word, "DELETE")
  }

  /** Some primary statement in the tree is an INSERT, UPDATE or DELETE. */
  predicate Writes(s: Statement) {
    IsWriteVerb(s.word) || (s.With? && exists i :: 0 <= i < |s.ctes| && Writes(s.ctes[i].body))
  }

  /** Every name declared by a WITH list that stands at the start of the statement or of a body, lower-cased. */
  function Declares(s: Statement): set<string> {
    if s.Plain? then {} else DeclaresIn(s.ctes)
  }

  function DeclaresIn(ctes: seq<Cte>): set<string> {
    if ctes == [] then {}
    else {Folded(ctes[0].name.id)} + Declares(ctes[0].body) + DeclaresIn(ctes[1..])
  }

  // ----- which names the scanners read

  /** A name read whole: no quote inside quotes; only letters, digits and underscore outside. */
  predicate Readable(name: Name) {
    match name
    case Bare(id) => AllIdent(id)
    case Quoted(id) => forall i :: 0 <= i < |id| ==> id[i] != '"'
  }

  /** The part of a name that is read; nothing when its first character is not. */
  function ReadPart(name: Name): Option<string> {
    match name
    case Bare(id) => if RunLength(id, IsWordChar) == 0 then None else Some(id[..RunLength(id, IsWordChar)])
    case Quoted(id) => Some(id[..RunLength(id, IsUnquoted)])
  }

  /** Length of the part of a list in front of its first unreadable name. */
  function SeenLength(ctes: seq<Cte>): (k: nat)
    ensures k <= |ctes|
    ensures forall i :: 0 <= i < k ==> Readable(ctes[i].name)
    ensures k < |ctes| ==> !Readable(ctes[k].name)
  {
    if ctes == [] || !Readable(ctes[0].name) then 0 else 1 + SeenLength(ctes[1..])
  }

  /** The first name is the word RECURSIVE itself; the scanners take it for the keyword. */
  predicate NamedRecursive(s: Statement) {
    s.With? && s.recursion.Simple? && s.ctes != [] && s.ctes[0].name.Bare? && Spells(s.ctes[0].name.id, "RECURSIVE")
  }

  /** AS then reads like a name, and the body of an only CTE like its columns: the primary statement is left. */
  predicate LeavesPrimary(s: Statement) {
    s.With? && |s.ctes| == 1 && s.ctes[0].columns.NoColumns? && s.ctes[0].hint.NoHint?
  }

  /** Some statement written in front of every unreadable name is an INSERT, UPDATE or DELETE. */
  predicate SeenWrites(s: Statement) {
    if s.Plain? then IsWriteVerb(s.word)
    else if NamedRecursive(s) then LeavesPrimary(s) && IsWriteVerb(s.word)
    else
      (exists i :: 0 <= i < SeenLength(s.ctes) && SeenWrites(s.ctes[i].body))
      || (SeenLength(s.ctes) == |s.ctes| && IsWriteVerb(s.word))
  }

  /** The first name reads like the word RECURSIVE followed by something else. */
  predicate Swallowed(s: Statement) {
    s.With? && s.recursion.Simple? && s.ctes != [] && s.ctes[0].name.Bare? && !Readable(s.ctes[0].name)
    && ReadPart(s.ctes[0].name).Some? && Spells(ReadPart(s.ctes[0].name).value, "RECURSIVE")
  }

  /** The names in front of every unreadable one, and the read part of the first of those. */
  function SeenDeclares(s: Statement): set<string> {
    if s.Plain? || Swallowed(s) then {}
    else if NamedRecursive(s) then if s.ctes[0].columns.NoColumns? then {"as"} else {}
    else SeenDeclaresIn(s.ctes)
  }

  function PartKey(name: Name): set<string> {
    if ReadPart(name).Some? then {Folded(ReadPart(name).value)} else {}
  }

  function SeenDeclaresIn(ctes: seq<Cte>): set<string> {
    if ctes == [] then {}
    else if !Readable(ctes[0].name) then PartKey(ctes[0].name)
    else {Folded(ctes[0].name.id)} + SeenDeclares(ctes[0].body) + SeenDeclaresIn(ctes[1..])
  }

  /** Every name of the leading lists is read whole, and as a name. */
  predicate AllReadable(s: Statement) {
    s.With? ==>
      && !NamedRecursive(s)
      && forall i :: 0 <= i < |s.ctes| ==> Readable(s.ctes[i].name) && AllReadable(s.ctes[i].body)
  }

  // ----- what printing asks of a tree

  /** A character of an unquoted name: besides letters, digits and underscore, `$` and everything beyond ASCII. */
  predicate IsNameChar(c: char) {
    IsWordChar(c) || c == '$' || c > '\U{7F}'
  }

  /** Any quoted text, and any unquoted name. */
  predicate NameOk(name: Name) {
    name.Bare? ==> name.id != "" && name.id[0] != '$' && forall i :: 0 <= i < |name.id| ==> IsNameChar(name.id[i])
  }

  predicate HintOk(hint: Hint) {
    match hint
    case NoHint => true
    case Materialized(keyword, gap) => Spells(keyword, "MATERIALIZED") && AllBlank(gap)
    case NotMaterialized(notKeyword, notGap, keyword, gap) =>
      Spells(notKeyword, "NOT") && AllBlank(notGap) && notGap != ""
      && Spells(keyword, "MATERIALIZED") && AllBlank(gap)
  }

  /** Balanced parentheses, blanks where words would run together, no comments inside bodies. */
  predicate CteOk(c: Cte)
    decreases c, 0
  {
    && AllBlank(c.lead) && NameOk(c.name) && AllBlank(c.gap)
    && (c.name.Bare? && c.columns.NoColumns? ==> c.gap != "")
    && (c.columns.Columns? ==> Balanced(c.columns.content) && AllBlank(c.columns.gap))
    && Spells(c.asKeyword, "AS") && AllBlank(c.asGap)
    && HintOk(c.hint) && (!c.hint.NoHint? ==> c.asGap != "")
    && AllWhite(c.padLeft) && AllWhite(c.padRight) && Balanced(BodyText(c)) && AllBlank(c.after)
    && StatementOk(c.body)
  }

  /** A statement starts with a word or a parenthesis; the word is whole and not AS, and it is a
      write verb whenever it starts like one. */
  predicate PrimaryOk(word: string, tail: string) {
    && AllIdent(word) && EndsWord(tail) && (word == "" ==> tail != "" && tail[0] == '(')
    && word + tail != "" && Bordered(word + tail)
    && (BeginsWith(word, "INSERT") || BeginsWith(word, "UPDATE") || BeginsWith(word, "DELETE") ==> |word| == 6)
    && !Spells(word, "AS")
  }

  predicate StatementOk(s: Statement)
    decreases s, 0
  {
    PrimaryOk(s.word, s.tail)
    && match s
       case Plain(word, _) => !Spells(word, "WITH")
       case With(keyword, gap, recursion, ctes, word, tail) =>
         && Spells(keyword, "WITH") && AllBlank(gap) && gap != ""
         && (recursion.Recursive? ==>
               Spells(recursion.keyword, "RECURSIVE") && AllBlank(recursion.gap) && recursion.gap != "")
         && ctes != [] && ctes[0].lead == ""
         && (word + tail)[0] != ','
         && forall i :: 0 <= i < |ctes| ==> CteOk(ctes[i])
  }

  // ----- tokens

  lemma {:induction false} DropGap(gap: string, rest: string)
    requires AllBlank(gap)
    ensures DropBlanks(gap + rest) == DropBlanks(rest)
  {
    if gap == "" {
      assert gap + rest == rest;
    } else {
      assert (gap + rest)[1..] == gap[1..] + rest;
      DropGap(gap[1..], rest);
    }
  }

  lemma {:induction false} RunText(run: string, rest: string, inRun: char -> bool)
    requires forall i :: 0 <= i < |run| ==> inRun(run[i])
    requires rest != "" ==> !inRun(rest[0])
    ensures RunLength(run + rest, inRun) == |run|
  {
    if run == "" {
      assert run + rest == rest;
    } else {
      assert (run + rest)[1..] == run[1..] + rest;
      RunText(run[1..], rest, inRun);
    }
  }

  lemma NameLength(name: Name, rest: string)
    requires NameOk(name) && Readable(name)
    requires name.Bare? ==> EndsWord(rest)
    ensures IdentLength(NameText(name) + rest) == |NameText(name)|
  {
    match name
    case Bare(id) =>
      assert (id + rest)[0] == id[0];
      RunText(id, rest, IsIdentChar);
    case Quoted(id) =>
      ReadableText(name);
      FramedLength(id, rest);
  }

  lemma FramedLength(id: string, rest: string)
    requires forall i :: 0 <= i < |id| ==> id[i] != '"'
    ensures IdentLength("\"" + id + "\"" + rest) == |id| + 2
  {
    var s := "\"" + id + "\"" + rest;
    assert s[0] == '"' && |s| >= |id| + 2;
    FramedTail(id, rest);
    RunText(id, "\"" + rest, NotQuote);
    hide RunLength;
  }

  lemma FramedTail(id: string, rest: string)
    ensures ("\"" + id + "\"" + rest)[1..] == id + ("\"" + rest)
  {
  }

  lemma ReadableText(name: Name)
    requires Readable(name)
    ensures NameText(name) == (if name.Bare? then name.id else "\"" + name.id + "\"")
    ensures ReadPart(name) == if name == Bare("") then None else Some(name.id)
    ensures name.Bare? ==> AllIdent(name.id)
    ensures name.Quoted? ==> forall i :: 0 <= i < |name.id| ==> name.id[i] != '"'
  {
    assert name.id[..|name.id|] == name.id;
    if name.Quoted? {
      DoubledPlain(name.id, '"');
    }
  }

  /** A keyword followed by the end of a word is recognised and skipped with its blanks. */
  lemma KeywordText(written: string, keyword: string, rest: string)
    requires InCapitals(keyword) && Spells(written, keyword) && EndsWord(rest)
    ensures HasKeyword(written + rest, keyword)
    ensures AfterKeyword(written + rest, keyword) == DropBlanks(rest)
  {
    var s := written + rest;
    SpellsUpper(written, keyword);
    assert s[..|keyword|] == written && s[|keyword|..] == rest;
  }

  /** A whole word is not mistaken for a keyword it does not spell. */
  lemma NotKeyword(word: string, keyword: string, rest: string)
    requires InCapitals(keyword) && AllIdent(word) && EndsWord(rest) && !Spells(word, keyword)
    ensures !HasKeyword(word + rest, keyword)
  {
    var s, k := word + rest, |keyword|;
    SpellsUpper(word, keyword);
    assert k == |word| ==> s[..k] == word;
    assert k < |word| ==> s[k] == word[k];
    assert |word| < k <= |s| ==> s[|word|] == rest[0] && Upper(s[..k])[|word|] == UpperChar(rest[0]);
  }

  lemma BlankEndsWord(gap: string, rest: string)
    requires AllBlank(gap) && gap != ""
    ensures EndsWord(gap + rest)
  {
    assert (gap + rest)[0] == gap[0];
  }

  lemma HintSkipped(hint: Hint, rest: string)
    requires HintOk(hint) && rest != "" && rest[0] == '('
    ensures AfterMaterialized(HintText(hint, rest)) == rest
  {
    match hint
    case NoHint =>
      NotKeyword("", "NOT", rest);
      NotKeyword("", "MATERIALIZED", rest);
      assert "" + rest == rest;
    case Materialized(keyword, gap) =>
      GapEndsWord(gap, rest);
      NotKeyword(keyword, "NOT", gap + rest);
      MaterializedSkipped(keyword, gap, rest);
      hide HasKeyword, AfterKeyword;
    case NotMaterialized(notKeyword, notGap, keyword, gap) =>
      NotSkipped(notKeyword, notGap, keyword, gap + rest);
      MaterializedSkipped(keyword, gap, rest);
      hide HasKeyword, AfterKeyword;
  }

  lemma NotSkipped(notKeyword: string, notGap: string, keyword: string, rest: string)
    requires Spells(notKeyword, "NOT") && AllBlank(notGap) && notGap != "" && Spells(keyword, "MATERIALIZED")
    ensures var s := notKeyword + (notGap + (keyword + rest));
            HasKeyword(s, "NOT") && AfterKeyword(s, "NOT") == keyword + rest
  {
    var more := keyword + rest;
    assert more[0] == keyword[0];
    assert DropBlanks(more) == more;
    hide HasKeyword, AfterKeyword, DropBlanks;
    BlankEndsWord(notGap, more);
    KeywordText(notKeyword, "NOT", notGap + more);
    DropGap(notGap, more);
  }

  lemma MaterializedSkipped(keyword: string, gap: string, rest: string)
    requires Spells(keyword, "MATERIALIZED") && AllBlank(gap) && rest != "" && rest[0] == '('
    ensures var s := keyword + (gap + rest);
            HasKeyword(s, "MATERIALIZED") && AfterKeyword(s, "MATERIALIZED") == rest
  {
    GapEndsWord(gap, rest);
    KeywordText(keyword, "MATERIALIZED", gap + rest);
    DropGap(gap, rest);
  }

  lemma GapEndsWord(gap: string, rest: string)
    requires AllBlank(gap) && EndsWord(rest)
    ensures EndsWord(gap + rest)
  {
    if gap != "" {
      BlankEndsWord(gap, rest);
    } else {
      assert gap + rest == rest;
    }
  }

  // ----- one CTE

  /** A parenthesised balanced text is cut out whole. */
  lemma SpanText(content: string, rest: string)
    requires Balanced(content)
    ensures var s := "(" + (content + ")" + rest);
            CloseIndex(s[1..], 1) == Some(|content|)
            && s[1..1 + |content|] == content && s[|content| + 2..] == rest
  {
    var s := "(" + (content + ")" + rest);
    assert s[1..] == content + ")" + rest;
    CloseIndexBalanced(content, rest);
  }

  lemma TailText(name: string, c: Cte, rest: string)
    requires CteOk(c)
    ensures ReadTail(name, FromAs(c, rest)) == Found(name, BodyText(c), DropBlanks(rest))
  {
    var inner := FromBody(c, rest);
    SpanText(BodyText(c), c.after + rest);
    DropGap(c.after, rest);
    AsSkipped(c.asKeyword, c.asGap, c.hint, inner);
    hide *;
    TailStages(name, FromAs(c, rest), inner, |BodyText(c)|);
  }

  lemma AsSkipped(asKeyword: string, asGap: string, hint: Hint, inner: string)
    requires Spells(asKeyword, "AS") && AllBlank(asGap) && HintOk(hint) && (!hint.NoHint? ==> asGap != "")
    requires inner != "" && inner[0] == '('
    ensures var s := asKeyword + (asGap + HintText(hint, inner));
            HasKeyword(s, "AS") && AfterMaterialized(AfterKeyword(s, "AS")) == inner
  {
    var hinted := HintText(hint, inner);
    HintSkipped(hint, inner);
    if hint.NoHint? {
      GapEndsWord(asGap, hinted);
    } else {
      BlankEndsWord(asGap, hinted);
      HintStartsWord(hint, inner);
    }
    DropGap(asGap, hinted);
    assert DropBlanks(hinted) == hinted;
    hide *;
    KeywordText(asKeyword, "AS", asGap + hinted);
  }

  lemma HintStartsWord(hint: Hint, rest: string)
    requires HintOk(hint) && !hint.NoHint?
    ensures DropBlanks(HintText(hint, rest)) == HintText(hint, rest)
  {
    var word := if hint.Materialized? then hint.keyword else hint.notKeyword;
    assert HintText(hint, rest)[0] == word[0];
  }

  lemma TailStages(name: string, s: string, t: string, k: nat)
    requires HasKeyword(s, "AS") && AfterMaterialized(AfterKeyword(s, "AS")) == t
    requires t != "" && t[0] == '(' && CloseIndex(t[1..], 1) == Some(k)
    ensures k + 2 <= |t|
    ensures ReadTail(name, s) == Found(name, t[1..1 + k], DropBlanks(t[k + 2..]))
  {
    hide HasKeyword, AfterMaterialized, DropBlanks, CloseIndex;
  }

  lemma ColumnsText(name: string, c: Cte, rest: string)
    requires CteOk(c)
    ensures ReadColumns(name, FromColumns(c, rest)) == Found(name, BodyText(c), DropBlanks(rest))
  {
    TailText(name, c, rest);
    FromAsStart(c, rest);
    FromColumnsText(c, rest);
    var fromAs := FromAs(c, rest);
    hide *;
    match c.columns
    case NoColumns => NoColumnsStage(name, fromAs);
    case Columns(content, gap) =>
      SpanText(content, gap + fromAs);
      DropGap(gap, fromAs);
      ColumnsStages(name, FromColumns(c, rest), fromAs, |content|);
  }

  lemma FromColumnsText(c: Cte, rest: string)
    ensures FromColumns(c, rest)
            == if c.columns.NoColumns? then FromAs(c, rest)
               else "(" + (c.columns.content + ")" + (c.columns.gap + FromAs(c, rest)))
  {
  }

  lemma NoColumnsStage(name: string, u: string)
    requires u != "" && u[0] != '('
    ensures ReadColumns(name, u) == ReadTail(name, u)
  {
    hide ReadTail;
  }

  lemma FromAsStart(c: Cte, rest: string)
    requires CteOk(c)
    ensures var s := FromAs(c, rest); s != "" && s[0] != '(' && DropBlanks(s) == s
    ensures c.columns.Columns? ==> Balanced(c.columns.content) && AllBlank(c.columns.gap)
  {
    assert FromAs(c, rest)[0] == c.asKeyword[0];
  }

  lemma ColumnsStages(name: string, u: string, s: string, k: nat)
    requires u != "" && u[0] == '(' && CloseIndex(u[1..], 1) == Some(k)
    requires DropBlanks(u[k + 2..]) == s
    ensures ReadColumns(name, u) == ReadTail(name, s)
  {
    hide ReadTail, DropBlanks, CloseIndex;
  }

  /** Printing a CTE and reading it back gives its name and body, and the text after it. */
  lemma CteText(c: Cte, rest: string)
    requires CteOk(c) && Readable(c.name)
    ensures ReadCte(RenderCte(c, rest)) == Found(NameText(c.name), BodyText(c), DropBlanks(rest))
  {
    var name := NameText(c.name);
    var columns := FromColumns(c, rest);
    var named := name + (c.gap + columns);
    ColumnsText(name, c, rest);
    ColumnsStart(c, rest);
    if c.name.Bare? && c.columns.NoColumns? {
      BlankEndsWord(c.gap, columns);
    } else if c.name.Bare? {
      GapEndsWord(c.gap, columns);
    }
    ReadableText(c.name);
    assert name != "" && named[0] == name[0] && !IsBlank(name[0]);
    DropGap(c.lead, named);
    NameLength(c.name, c.gap + columns);
    assert named[..|name|] == name && named[|name|..] == c.gap + columns;
    DropGap(c.gap, columns);
  }

  lemma ColumnsStart(c: Cte, rest: string)
    requires CteOk(c)
    ensures var s := FromColumns(c, rest);
            s != "" && !IsBlank(s[0]) && (c.columns.Columns? ==> EndsWord(s))
  {
    assert FromAs(c, rest)[0] == c.asKeyword[0];
  }

  lemma StripQuotesId(name: Name)
    requires NameOk(name) && Readable(name)
    ensures StripQuotes(NameText(name)) == name.id
  {
    ReadableText(name);
    match name
    case Bare(id) => StripBare(id);
    case Quoted(id) => StripFramed(id);
  }

  lemma StripBare(id: string)
    requires AllIdent(id)
    ensures StripQuotes(id) == id
  {
    assert RunLength(id, IsQuote) == 0 && id[0..] == id;
  }

  lemma StripFramed(id: string)
    requires forall i :: 0 <= i < |id| ==> id[i] != '"'
    ensures StripQuotes("\"" + id + "\"") == id
  {
    var s, closed := "\"" + id + "\"", id + "\"";
    assert s[1..] == closed;
    if id == "" {
      assert RunLength(closed[1..], IsQuote) == 0;
      assert s[2..] == "";
    } else {
      assert closed[0] == id[0];
      assert RunLength(s, IsQuote) == 1;
      assert closed[..|id|] == id && id[|id| - 1] != '"';
      assert StripQuotesRight(closed) == StripQuotesRight(id) == id;
    }
  }

  // ----- a name that is not read whole

  /** Text no scanner goes on in: not a word, not a blank, not a parenthesis. */
  predicate Strange(s: string) {
    s != "" && !IsIdentChar(s[0]) && !IsSpace(s[0]) && s[0] != '('
  }

  lemma StrangeTail(name: string, u: string)
    requires Strange(u)
    ensures ReadColumns(name, u) == Malformed(name, u) && DropBlanks(u) == u
  {
    StrangeStarts(u);
    hide HasKeyword, AfterMaterialized, AfterKeyword, CloseIndex, DropBlanks;
  }

  lemma StrangeStarts(u: string)
    requires Strange(u)
    ensures !HasKeyword(u, "AS") && DropBlanks(u) == u
  {
    NotKeyword("", "AS", u);
    assert "" + u == u;
  }

  lemma StrangeStop(u: string)
    requires Strange(u) && u[0] != '"'
    ensures ReadCte(u) == Stop(u)
  {
  }

  /** Text that starts with none of the letters of the write verbs. */
  predicate Harmless(u: string) {
    u != "" && !IsSpace(u[0]) && UpperChar(u[0]) != 'I' && UpperChar(u[0]) != 'U' && UpperChar(u[0]) != 'D'
  }

  lemma StrangeHarmless(u: string)
    requires Strange(u)
    ensures Harmless(u)
  {
  }

  lemma HarmlessPrimary(u: string)
    requires Harmless(u)
    ensures !StartsWithWrite(Trim(u))
  {
    assert TrimLeft(u) == u;
    var t := Trim(u);
    assert t != "" ==> t[0] == u[0] && Upper(t)[0] == UpperChar(u[0]);
  }

  /** The text of an unreadable name: the part that is read, with its quotes, then text to stop at. */
  ghost predicate UnreadAs(name: Name, s: string, tail: string) {
    Strange(tail) && (name.Quoted? <==> tail[0] == '"')
    && s == (if name.Bare? then name.id[..RunLength(name.id, IsWordChar)]
             else "\"" + name.id[..RunLength(name.id, IsUnquoted)] + "\"") + tail
  }

  lemma UnreadText(name: Name, rest: string) returns (tail: string)
    requires NameOk(name) && !Readable(name)
    ensures UnreadAs(name, NameText(name) + rest, tail)
  {
    match name
    case Bare(id) =>
      tail := UnreadBare(id, rest);
    case Quoted(id) =>
      tail := UnreadQuoted(id, rest);
  }

  lemma UnreadBare(id: string, rest: string) returns (tail: string)
    requires NameOk(Bare(id)) && !Readable(Bare(id))
    ensures UnreadAs(Bare(id), id + rest, tail)
  {
    var n := RunLength(id, IsWordChar);
    tail := id[n..] + rest;
    hide *;
    BareStop(id);
    CutTail(id, n, rest);
    StrangeStart(tail);
    AsUnread(id, id + rest, tail);
  }

  lemma BareStop(id: string)
    requires NameOk(Bare(id)) && !Readable(Bare(id))
    ensures var n := RunLength(id, IsWordChar); n < |id| && IsNameChar(id[n]) && !IsIdentChar(id[n])
  {
  }

  lemma StrangeStart(u: string)
    requires u != "" && IsNameChar(u[0]) && !IsIdentChar(u[0])
    ensures Strange(u) && u[0] != '"'
  {
  }

  lemma AsUnread(id: string, s: string, tail: string)
    requires Strange(tail) && tail != "" && tail[0] != '"' && s == id[..RunLength(id, IsWordChar)] + tail
    ensures UnreadAs(Bare(id), s, tail)
  {
    hide RunLength, Strange;
  }

  lemma CutTail(id: string, n: nat, rest: string)
    requires n < |id|
    ensures id + rest == id[..n] + (id[n..] + rest) && (id[n..] + rest)[0] == id[n]
  {
    assert id == id[..n] + id[n..];
  }

  lemma UnreadQuoted(id: string, rest: string) returns (tail: string)
    requires !Readable(Quoted(id))
    ensures UnreadAs(Quoted(id), QuoteIdent(id) + rest, tail)
  {
    var n := RunLength(id, IsUnquoted);
    tail := "\"" + (Doubled(id[n + 1..], '"') + ("\"" + rest));
    QuotedSplit(id, n);
    QuotedTail(id[..n], Doubled(id[n + 1..], '"'), rest);
    hide Doubled, RunLength;
  }

  lemma QuotedTail(a: string, b: string, rest: string)
    ensures var tail := "\"" + (b + ("\"" + rest));
            "\"" + (a + (['"', '"'] + b)) + "\"" + rest == "\"" + a + "\"" + tail && Strange(tail) && tail[0] == '"'
  {
    var tail := "\"" + (b + ("\"" + rest));
    assert ['"', '"'] + b + ("\"" + rest) == "\"" + tail;
    assert "\"" + (a + (['"', '"'] + b)) + "\"" + rest == "\"" + (a + (['"', '"'] + b + ("\"" + rest)));
  }

  lemma QuotedSplit(id: string, n: nat)
    requires n == RunLength(id, IsUnquoted) && !Readable(Quoted(id))
    ensures n < |id|
    ensures QuoteIdent(id) == "\"" + (id[..n] + (['"', '"'] + Doubled(id[n + 1..], '"'))) + "\""
  {
    hide *;
    QuoteStop(id, n);
    AtIndex(id, n);
    DoubledAtQuote(id[..n], id[n + 1..], '"');
    QuoteFrame(id);
  }

  lemma QuoteStop(id: string, n: nat)
    requires n == RunLength(id, IsUnquoted) && !Readable(Quoted(id))
    ensures n < |id| && id[n] == '"' && forall i :: 0 <= i < |id[..n]| ==> id[..n][i] != '"'
  {
  }

  lemma QuoteFrame(id: string)
    ensures QuoteIdent(id) == "\"" + Doubled(id, '"') + "\""
  {
    hide Doubled;
  }

  lemma AtIndex(s: string, i: nat)
    requires i < |s|
    ensures s == s[..i] + ([s[i]] + s[i + 1..])
  {
  }

  /** A CTE under an unreadable name ends the walk, with at most the read part of the name. */
  lemma UnreadableCte(c: Cte, rest: string)
    requires CteOk(c) && !Readable(c.name)
    ensures var e := ReadCte(RenderCte(c, rest));
            && !e.Found? && Strange(e.rest)
            && PartKey(c.name) == if e.Malformed? then {NameKey(e.name)} else {}
  {
    var more := c.gap + FromColumns(c, rest);
    var tail := UnreadText(c.name, more);
    hide FromColumns;
    var named := NameText(c.name) + more;
    DropGap(c.lead, named);
    assert RenderCte(c, rest) == c.lead + named;
    UnreadEntry(c.name, named, tail);
    hide *;
    SameEntry(c.lead + named, named);
  }

  /** Reading skips blanks first. */
  lemma SameEntry(s: string, t: string)
    requires DropBlanks(s) == DropBlanks(t)
    ensures ReadCte(s) == ReadCte(t)
  {
    hide ReadColumns;
  }

  lemma UnreadEntry(name: Name, s: string, tail: string)
    requires UnreadAs(name, s, tail)
    ensures var e := ReadCte(s);
            && !e.Found? && Strange(e.rest)
            && PartKey(name) == if e.Malformed? then {NameKey(e.name)} else {}
  {
    match name
    case Bare(id) => BareEntry(id, s, tail);
    case Quoted(id) => QuotedEntry(id, s, tail);
  }

  lemma BareEntry(id: string, s: string, tail: string)
    requires UnreadAs(Bare(id), s, tail)
    ensures var p := id[..RunLength(id, IsWordChar)];
            && ReadCte(s) == (if p == "" then Stop(tail) else Malformed(p, tail))
            && NameKey(p) == Folded(p)
  {
    var p := id[..RunLength(id, IsWordChar)];
    StripBare(p);
    FoldedLower(p);
    hide StripQuotes, Lower;
    if p == "" {
      assert s == tail;
      StrangeStop(tail);
    } else {
      assert s[0] == p[0];
      RunText(p, tail, IsIdentChar);
      ReadAs(s, p, tail);
    }
  }

  lemma QuotedEntry(id: string, s: string, tail: string)
    requires UnreadAs(Quoted(id), s, tail)
    ensures var p := id[..RunLength(id, IsUnquoted)]; var read := "\"" + p + "\"";
            ReadCte(s) == Malformed(read, tail) && NameKey(read) == Folded(p)
  {
    var p := id[..RunLength(id, IsUnquoted)];
    var read := "\"" + p + "\"";
    StripFramed(p);
    FramedLength(p, tail);
    FoldedLower(p);
    hide *;
    KeyStripped(read);
    ReadAs(s, read, tail);
  }

  lemma KeyStripped(name: string)
    ensures NameKey(name) == Lower(StripQuotes(name))
  {
  }

  lemma ReadAs(s: string, name: string, tail: string)
    requires s == name + tail && name != "" && !IsBlank(s[0]) && IdentLength(s) == |name| && Strange(tail)
    ensures ReadCte(s) == Malformed(name, tail)
  {
    assert s[..|name|] == name && s[|name|..] == tail;
    StrangeTail(name, tail);
    hide ReadColumns;
  }

  /** `s` ends with the last character of `t`. */
  predicate SameEnd(s: string, t: string) {
    s != "" && t != "" && s[|s| - 1] == t[|t| - 1]
  }

  lemma CteEnd(c: Cte, rest: string)
    requires rest != ""
    ensures SameEnd(RenderCte(c, rest), rest)
  {
    assert SameEnd(c.after + rest, rest);
    assert SameEnd(FromBody(c, rest), rest);
    assert SameEnd(HintText(c.hint, FromBody(c, rest)), rest);
    assert SameEnd(FromAs(c, rest), rest);
    assert SameEnd(FromColumns(c, rest), rest);
  }

  lemma {:induction false} CtesEnd(ctes: seq<Cte>, rest: string)
    requires rest != ""
    ensures SameEnd(RenderCtes(ctes, rest), rest)
  {
    if |ctes| == 1 {
      CteEnd(ctes[0], rest);
    } else if |ctes| > 1 {
      CtesEnd(ctes[1..], rest);
      CteEnd(ctes[0], "," + RenderCtes(ctes[1..], rest));
    }
  }

  lemma StatementTight(s: Statement)
    requires StatementOk(s)
    ensures Tight(Render(s)) && Render(s) != ""
  {
    if s.With? {
      CtesEnd(s.ctes, s.word + s.tail);
      var list := if s.recursion.Simple? then FromList(s)
                  else s.recursion.keyword + (s.recursion.gap + FromList(s));
      assert SameEnd(list, s.word + s.tail);
      assert Render(s) == s.keyword + (s.gap + list);
      assert Render(s)[0] == s.keyword[0];
    }
  }

  /** The body, once trimmed, is the printed inner statement. */
  lemma BodyTrimmed(c: Cte)
    requires CteOk(c)
    ensures Trim(BodyText(c)) == Render(c.body)
  {
    StatementTight(c.body);
    TrimPadded(c.padLeft, Render(c.body), c.padRight);
  }

  // ----- the list

  /** What follows a list: a primary statement that does not look like another entry. */
  predicate Primary(s: string) {
    s != "" && Tight(s) && s[0] != ','
  }

  lemma PrimaryStays(s: string)
    requires s != "" && !IsSpace(s[0])
    ensures DropBlanks(s) == s
  {
  }

  predicate ListOk(ctes: seq<Cte>) {
    ctes != [] && forall i :: 0 <= i < |ctes| ==> CteOk(ctes[i])
  }

  /** Reading a printed list gives its first CTE; a comma and the shorter list remain. */
  lemma ListHead(ctes: seq<Cte>, primary: string)
    requires ListOk(ctes) && Primary(primary) && Readable(ctes[0].name)
    ensures var rest := if |ctes| == 1 then primary else "," + RenderCtes(ctes[1..], primary);
            ReadCte(RenderCtes(ctes, primary)) == Found(NameText(ctes[0].name), BodyText(ctes[0]), rest)
  {
    assert CteOk(ctes[0]);
    var rest := if |ctes| == 1 then primary else "," + RenderCtes(ctes[1..], primary);
    hide CteOk, ReadCte, RenderCte, BodyText;
    CteText(ctes[0], rest);
    PrimaryStays(rest);
  }

  function BodyTexts(ctes: seq<Cte>): (r: seq<string>)
    ensures |r| == |ctes| && forall i :: 0 <= i < |ctes| ==> r[i] == BodyText(ctes[i])
  {
    seq(|ctes|, i requires 0 <= i < |ctes| => BodyText(ctes[i]))
  }

  lemma BodyTextsStep(ctes: seq<Cte>)
    requires ctes != []
    ensures BodyTexts(ctes) == [BodyText(ctes[0])] + BodyTexts(ctes[1..])
  {
  }

  /** An unreadable name at the head of a list ends the walk there. */
  lemma ListStuck(ctes: seq<Cte>, primary: string)
    requires ListOk(ctes) && !Readable(ctes[0].name)
    ensures var e := ReadCte(RenderCtes(ctes, primary));
            !e.Found? && Strange(e.rest) && PartKey(ctes[0].name) == if e.Malformed? then {NameKey(e.name)} else {}
  {
    assert CteOk(ctes[0]);
    hide CteOk, ReadCte, RenderCte, Readable, Strange, PartKey;
    UnreadableCte(ctes[0], if |ctes| == 1 then primary else "," + RenderCtes(ctes[1..], primary));
  }

  /** What the walk has to show for a list: its bodies up to the first unreadable name; then the primary
      statement when there is none, and otherwise strange text. */
  ghost predicate WalkedList(w: Walk, ctes: seq<Cte>, primary: string) {
    && w.bodies == BodyTexts(ctes[..SeenLength(ctes)])
    && if SeenLength(ctes) == |ctes| then w.rest == primary else Strange(w.rest)
  }

  lemma WalkedNothing(w: Walk, ctes: seq<Cte>, primary: string)
    requires ctes != [] && !Readable(ctes[0].name) && w.bodies == [] && Strange(w.rest)
    ensures WalkedList(w, ctes, primary)
  {
    assert BodyTexts(ctes[..0]) == [];
  }

  lemma WalkedMore(w: Walk, ctes: seq<Cte>, primary: string, names: seq<string>)
    requires ctes != [] && Readable(ctes[0].name) && WalkedList(w, ctes[1..], primary)
    ensures WalkedList(Walk(names, [BodyText(ctes[0])] + w.bodies, w.rest), ctes, primary)
  {
    hide BodyText, Readable, Strange;
    var k := SeenLength(ctes);
    BodyTextsStep(ctes[..k]);
    assert ctes[..k][1..] == ctes[1..][..k - 1];
  }

  lemma WalkedOne(ctes: seq<Cte>, primary: string, names: seq<string>)
    requires |ctes| == 1 && Readable(ctes[0].name)
    ensures WalkedList(Walk(names, [BodyText(ctes[0])], primary), ctes, primary)
  {
    hide BodyText, Readable, Strange;
    assert SeenLength(ctes[1..]) == 0;
    assert ctes[..1] == ctes;
    BodyTextsStep(ctes);
    assert BodyTexts(ctes[1..]) == [];
  }

  /** The walk over a printed list meets its bodies in order, up to the first unreadable name. */
  lemma {:induction false} ListBodies(ctes: seq<Cte>, primary: string)
    requires ListOk(ctes) && Primary(primary)
    ensures WalkedList(WalkList(RenderCtes(ctes, primary)), ctes, primary)
    decreases |ctes|
  {
    var list := RenderCtes(ctes, primary);
    if !Readable(ctes[0].name) {
      ListStuck(ctes, primary);
      hide *;
      StuckWalk(list);
      WalkedNothing(WalkList(list), ctes, primary);
    } else {
      ListHead(ctes, primary);
      var more := RenderCtes(ctes[1..], primary);
      var rest := if |ctes| == 1 then primary else "," + more;
      assert |ctes| > 1 ==> ListOk(ctes[1..]);
      assert primary[0] != ',';
      hide *;
      WalkStep(list, NameText(ctes[0].name), BodyText(ctes[0]), rest);
      if |ctes| > 1 {
        assert rest[1..] == more;
        ListBodies(ctes[1..], primary);
        WalkedMore(WalkList(more), ctes, primary, [NameText(ctes[0].name)] + WalkList(more).names);
      } else {
        WalkedOne(ctes, primary, [NameText(ctes[0].name)]);
      }
    }
  }

  lemma StuckWalk(s: string)
    requires !ReadCte(s).Found?
    ensures WalkList(s).bodies == [] && WalkList(s).rest == ReadCte(s).rest
  {
  }

  /** The names collected from a printed list are those of its CTEs and of their bodies, up to the first
      unreadable name. */
  lemma {:induction false} ListNames(ctes: seq<Cte>, primary: string)
    requires ListOk(ctes) && Primary(primary)
    ensures NamesFrom(RenderCtes(ctes, primary)) == ReadNames(ctes)
    decreases |ctes|
  {
    NamesTurn(RenderCtes(ctes, primary));
    if !Readable(ctes[0].name) {
      ListStuck(ctes, primary);
      hide CteOk, ReadCte, RenderCtes, BodyText, NamesFrom, DeclaredNames, Readable, Strange, PartKey;
    } else {
      ListHead(ctes, primary);
      hide CteOk, ReadCte, RenderCtes, BodyText, NamesFrom, DeclaredNames, Readable;
      var more := ctes[1..];
      var list := RenderCtes(more, primary);
      if |ctes| > 1 {
        ListNames(more, primary);
        assert ("," + list)[1..] == list;
      }
    }
  }

  lemma WalkStep(s: string, name: string, body: string, rest: string)
    requires ReadCte(s) == Found(name, body, rest)
    ensures if rest != "" && rest[0] == ',' then
              var w := WalkList(rest[1..]);
              WalkList(s) == Walk([name] + w.names, [body] + w.bodies, w.rest)
            else WalkList(s) == Walk([name], [body], rest)
  {
  }

  /** The keys the collector derives from the printed names and bodies. */
  function ReadNames(ctes: seq<Cte>): set<string> {
    if ctes == [] then {}
    else if !Readable(ctes[0].name) then PartKey(ctes[0].name)
    else {NameKey(NameText(ctes[0].name))} + DeclaredNames(Trim(BodyText(ctes[0]))) + ReadNames(ctes[1..])
  }

  // ----- whole statements

  /** Past WITH and RECURSIVE, the printed list; a swallowed first name leaves strange text instead. */
  lemma ListStartText(s: Statement)
    requires StatementOk(s) && s.With?
    ensures HasKeyword(Render(s), "WITH")
    ensures var list := ListStart(Render(s));
            if Swallowed(s) then ReadCte(list) == Stop(list) && Strange(list)
            else list == if NamedRecursive(s) then FromColumns(s.ctes[0], AfterFirst(s)) else FromList(s)
  {
    var list := FromList(s);
    ListStartsName(s);
    var more := if s.recursion.Simple? then list else s.recursion.keyword + (s.recursion.gap + list);
    assert Render(s) == s.keyword + (s.gap + more);
    hide CteOk, FromList, FromColumns, Render, NameOk, Swallowed, NamedRecursive, Strange, ReadCte;
    hide HasKeyword, AfterKeyword, Spells, AllBlank;
    WithSkipped(s.keyword, s.gap, more);
    if s.recursion.Recursive? {
      RecursiveSkipped(s.recursion.keyword, s.recursion.gap, list);
      NotSwallowed(s);
    }
  }

  lemma WithSkipped(keyword: string, gap: string, more: string)
    requires Spells(keyword, "WITH") && AllBlank(gap) && gap != ""
    ensures var t := keyword + (gap + more); HasKeyword(t, "WITH") && AfterKeyword(t, "WITH") == DropBlanks(more)
  {
    BlankEndsWord(gap, more);
    KeywordText(keyword, "WITH", gap + more);
    DropGap(gap, more);
  }

  lemma RecursiveSkipped(keyword: string, gap: string, list: string)
    requires Spells(keyword, "RECURSIVE") && AllBlank(gap) && gap != ""
    ensures var t := keyword + (gap + list);
            DropBlanks(t) == t && HasKeyword(t, "RECURSIVE") && AfterKeyword(t, "RECURSIVE") == DropBlanks(list)
  {
    BlankEndsWord(gap, list);
    KeywordText(keyword, "RECURSIVE", gap + list);
    DropGap(gap, list);
    assert (keyword + (gap + list))[0] == keyword[0];
  }

  lemma NotSwallowed(s: Statement)
    requires s.With? && s.recursion.Recursive?
    ensures !Swallowed(s) && !NamedRecursive(s)
  {
  }

  lemma ListStartsName(s: Statement)
    requires StatementOk(s) && s.With?
    ensures DropBlanks(FromList(s)) == FromList(s)
    ensures s.recursion.Simple? ==> (HasKeyword(FromList(s), "RECURSIVE") <==> Swallowed(s) || NamedRecursive(s))
    ensures NamedRecursive(s) ==>
              !Swallowed(s) && HasKeyword(FromList(s), "RECURSIVE")
              && AfterKeyword(FromList(s), "RECURSIVE") == FromColumns(s.ctes[0], AfterFirst(s))
    ensures Swallowed(s) ==>
              HasKeyword(FromList(s), "RECURSIVE")
              && var left := AfterKeyword(FromList(s), "RECURSIVE"); ReadCte(left) == Stop(left) && Strange(left)
  {
    var c := s.ctes[0];
    var primary := s.word + s.tail;
    assert CteOk(c);
    var rest := AfterFirst(s);
    assert FromList(s) == RenderCte(c, rest);
    if NamedRecursive(s) {
      RecursiveReadable(s);
    }
    assert c.name.Bare? && Readable(c.name) ==> c.name.id[..|c.name.id|] == c.name.id;
    hide RenderCte, CteOk, FromList, FromColumns;
    CteStart(c, rest);
  }

  lemma CteHead(c: Cte, rest: string)
    requires CteOk(c) && c.lead == ""
    ensures RenderCte(c, rest) == NameText(c.name) + (c.gap + FromColumns(c, rest))
    ensures NameOk(c.name) && AllBlank(c.gap) && (c.name.Bare? && c.columns.NoColumns? ==> c.gap != "")
    ensures DropBlanks(RenderCte(c, rest)) == RenderCte(c, rest)
  {
    var named := NameText(c.name) + (c.gap + FromColumns(c, rest));
    hide FromColumns;
    assert RenderCte(c, rest) == named;
    NameStart(c.name);
    assert named[0] == NameText(c.name)[0];
  }

  lemma NameStart(name: Name)
    requires NameOk(name)
    ensures NameText(name) != "" && !IsBlank(NameText(name)[0])
    ensures name.Quoted? ==> NameText(name)[0] == '"'
  {
    assert name.Bare? ==> IsNameChar(name.id[0]);
  }

  /** The start of a list reads like the word RECURSIVE exactly when its first name starts with that word. */
  lemma CteStart(c: Cte, rest: string)
    requires CteOk(c) && c.lead == ""
    ensures var s := RenderCte(c, rest);
            && DropBlanks(s) == s
            && (HasKeyword(s, "RECURSIVE") <==> StartsRecursive(c.name))
            && (HasKeyword(s, "RECURSIVE") ==>
                  var left := AfterKeyword(s, "RECURSIVE");
                  if Readable(c.name) then left == FromColumns(c, rest)
                  else ReadCte(left) == Stop(left) && Strange(left))
  {
    var columns := FromColumns(c, rest);
    CteHead(c, rest);
    ColumnsStart(c, rest);
    assert DropBlanks(columns) == columns;
    hide *;
    NameRecursive(c.name, c.gap, columns, c.columns.NoColumns?);
  }

  predicate StartsRecursive(name: Name) {
    name.Bare? && Spells(name.id[..RunLength(name.id, IsWordChar)], "RECURSIVE")
  }

  lemma NameRecursive(name: Name, gap: string, rest: string, gapNeeded: bool)
    requires NameOk(name) && AllBlank(gap)
    requires name.Bare? ==> if gapNeeded then gap != "" else EndsWord(rest)
    ensures var s := NameText(name) + (gap + rest);
            && (HasKeyword(s, "RECURSIVE") <==> StartsRecursive(name))
            && (HasKeyword(s, "RECURSIVE") ==>
                  var left := AfterKeyword(s, "RECURSIVE");
                  if Readable(name) then left == DropBlanks(rest) else ReadCte(left) == Stop(left) && Strange(left))
  {
    var s := NameText(name) + (gap + rest);
    if name.Quoted? {
      NameStart(name);
      assert s[0] == '"';
      if |s| >= 9 {
        assert Upper(s[..9])[0] == UpperChar(s[0]);
      }
    } else {
      var p := name.id[..RunLength(name.id, IsWordChar)];
      if Readable(name) {
        ReadableText(name);
        if gapNeeded {
          BlankEndsWord(gap, rest);
        } else {
          GapEndsWord(gap, rest);
        }
        assert p == name.id;
        WordRecursive(p, gap + rest);
        DropGap(gap, rest);
      } else {
        var tail := UnreadText(name, gap + rest);
        WordRecursive(p, tail);
        StrangeTail("", tail);
        StrangeStop(tail);
      }
    }
  }

  lemma WordRecursive(word: string, rest: string)
    requires AllIdent(word) && EndsWord(rest)
    ensures HasKeyword(word + rest, "RECURSIVE") <==> Spells(word, "RECURSIVE")
    ensures Spells(word, "RECURSIVE") ==> AfterKeyword(word + rest, "RECURSIVE") == DropBlanks(rest)
  {
    if Spells(word, "RECURSIVE") {
      KeywordText(word, "RECURSIVE", rest);
    } else {
      NotKeyword(word, "RECURSIVE", rest);
    }
  }

  // ----- a CTE named RECURSIVE

  lemma RecursiveReadable(s: Statement)
    requires NamedRecursive(s)
    ensures Readable(s.ctes[0].name) && !Swallowed(s)
  {
    var id := s.ctes[0].name.id;
    forall i | 0 <= i < |id|
      ensures IsIdentChar(id[i])
    {
      assert Upper(id)[i] == UpperChar(id[i]);
      assert 'A' <= "RECURSIVE"[i] <= 'Z';
    }
    RunText(id, "", IsIdentChar);
    assert id + "" == id;
  }

  /** What the walk meets when it starts behind the name. */
  function AsEntry(c: Cte, rest: string): Entry {
    if c.columns.Columns? then Stop(FromColumns(c, rest))
    else Malformed(c.asKeyword, if c.hint.NoHint? then rest else HintText(c.hint, FromBody(c, rest)))
  }

  lemma AsRead(c: Cte, rest: string)
    requires CteOk(c) && rest != "" && !IsBlank(rest[0]) && !HasKeyword(rest, "AS")
    ensures ReadCte(FromColumns(c, rest)) == AsEntry(c, rest)
  {
    FromColumnsText(c, rest);
    AsParts(c, rest);
    AsEntries(c, rest);
    hide *;
    if c.columns.NoColumns? {
      var body := FromBody(c, rest);
      AsWord(c.asKeyword, c.asGap, c.hint, body);
      if c.hint.NoHint? {
        SpanText(BodyText(c), c.after + rest);
        DropGap(c.after, rest);
        ColumnsStages(c.asKeyword, body, rest, |BodyText(c)|);
        NoTail(c.asKeyword, rest);
      } else {
        HintNotAs(c.hint, body);
        NoColumnsStage(c.asKeyword, HintText(c.hint, body));
        NoTail(c.asKeyword, HintText(c.hint, body));
      }
    }
  }

  lemma AsParts(c: Cte, rest: string)
    requires CteOk(c) && rest != "" && !IsBlank(rest[0])
    ensures Spells(c.asKeyword, "AS") && AllBlank(c.asGap) && HintOk(c.hint) && (!c.hint.NoHint? ==> c.asGap != "")
    ensures Balanced(BodyText(c)) && AllBlank(c.after) && DropBlanks(rest) == rest
    ensures var body := FromBody(c, rest);
            && FromAs(c, rest) == c.asKeyword + (c.asGap + HintText(c.hint, body))
            && body == "(" + (BodyText(c) + ")" + (c.after + rest)) && body != "" && body[0] == '('
            && (c.hint.NoHint? ==> HintText(c.hint, body) == body)
  {
    hide BodyText, Spells, Balanced, StatementOk, NameOk;
  }

  lemma AsEntries(c: Cte, rest: string)
    ensures AsEntry(c, rest)
            == if c.columns.Columns? then Stop(FromColumns(c, rest))
               else Malformed(c.asKeyword, if c.hint.NoHint? then rest else HintText(c.hint, FromBody(c, rest)))
    ensures c.columns.Columns? ==> ReadCte(FromColumns(c, rest)) == Stop(FromColumns(c, rest))
  {
    if c.columns.Columns? {
      FromColumnsText(c, rest);
      assert FromColumns(c, rest)[0] == '(';
    }
  }

  lemma NoTail(name: string, u: string)
    requires !HasKeyword(u, "AS")
    ensures ReadTail(name, u) == Malformed(name, u)
  {
  }

  lemma HintNotAs(hint: Hint, rest: string)
    requires HintOk(hint) && !hint.NoHint?
    ensures var s := HintText(hint, rest); s != "" && s[0] != '(' && !HasKeyword(s, "AS") && Harmless(s)
  {
    var s := HintText(hint, rest);
    var word := if hint.Materialized? then hint.keyword else hint.notKeyword;
    assert s[0] == word[0];
    if |s| >= 2 {
      assert Upper(s[..2])[0] == UpperChar(s[0]);
    }
  }

  lemma AsWord(asKeyword: string, asGap: string, hint: Hint, body: string)
    requires Spells(asKeyword, "AS") && AllBlank(asGap) && HintOk(hint) && (!hint.NoHint? ==> asGap != "")
    requires body != "" && body[0] == '('
    ensures ReadCte(asKeyword + (asGap + HintText(hint, body))) == ReadColumns(asKeyword, HintText(hint, body))
  {
    var hinted := HintText(hint, body);
    var s := asKeyword + (asGap + hinted);
    if hint.NoHint? {
      GapEndsWord(asGap, hinted);
    } else {
      BlankEndsWord(asGap, hinted);
      HintStartsWord(hint, body);
    }
    DropGap(asGap, hinted);
    assert DropBlanks(hinted) == hinted;
    AsIdent(asKeyword);
    RunText(asKeyword, asGap + hinted, IsIdentChar);
    assert s[0] == asKeyword[0] && DropBlanks(s) == s && IdentLength(s) == 2;
    assert s[..2] == asKeyword && s[2..] == asGap + hinted;
    hide *;
    NameStages(s, s, 2, hinted);
  }

  lemma AsIdent(asKeyword: string)
    requires Spells(asKeyword, "AS")
    ensures |asKeyword| == 2 && AllIdent(asKeyword) && NameKey(asKeyword) == "as"
  {
    AsLetters(asKeyword);
    hide IsIdentChar;
    StripBare(asKeyword);
    hide *;
    KeyStripped(asKeyword);
  }

  lemma AsLetters(asKeyword: string)
    requires Spells(asKeyword, "AS")
    ensures |asKeyword| == 2 && AllIdent(asKeyword) && Lower(asKeyword) == "as"
  {
    assert |asKeyword| == 2;
    assert UpperChar(asKeyword[0]) == Upper(asKeyword)[0] == 'A';
    assert UpperChar(asKeyword[1]) == Upper(asKeyword)[1] == 'S';
  }

  /** What follows the first CTE of a list. */
  function AfterFirst(s: Statement): string
    requires s.With? && s.ctes != []
  {
    if |s.ctes| == 1 then s.word + s.tail else "," + RenderCtes(s.ctes[1..], s.word + s.tail)
  }

  lemma AfterFirstStarts(s: Statement)
    requires StatementOk(s) && s.With?
    ensures var rest := AfterFirst(s); rest != "" && !IsBlank(rest[0]) && !HasKeyword(rest, "AS")
    ensures |s.ctes| > 1 ==> Harmless(AfterFirst(s))
  {
    if |s.ctes| == 1 {
      NotKeyword(s.word, "AS", s.tail);
    } else {
      var rest := AfterFirst(s);
      assert rest[0] == ',';
      assert |rest| >= 2 ==> Upper(rest[..2])[0] == ',';
    }
  }

  /** Of a list whose first CTE is named RECURSIVE the walk keeps no body; its text goes on with the
      primary statement, or with nothing that looks like a write. */
  lemma NamedRecursiveWalk(s: Statement)
    requires StatementOk(s) && NamedRecursive(s)
    ensures var e := ReadCte(FromColumns(s.ctes[0], AfterFirst(s)));
            && !e.Found?
            && (if LeavesPrimary(s) then e.rest == s.word + s.tail else Harmless(e.rest))
            && (if s.ctes[0].columns.NoColumns? then e.Malformed? && NameKey(e.name) == "as" else e.Stop?)
  {
    var c, rest := s.ctes[0], AfterFirst(s);
    assert CteOk(c);
    AfterFirstStarts(s);
    AsRead(c, rest);
    AsIdent(c.asKeyword);
    if c.columns.Columns? {
      FromColumnsText(c, rest);
      assert FromColumns(c, rest)[0] == '(';
    } else if !c.hint.NoHint? {
      HintNotAs(c.hint, FromBody(c, rest));
    }
    hide HasKeyword, ReadCte, NameKey, FromColumns, FromBody, CteOk, StatementOk;
  }

  // ----- the theorems

  /** A text starts like a write exactly when its whole first word is the verb. */
  lemma VerbPrefix(word: string, tail: string, verb: string)
    requires InCapitals(verb) && AllIdent(word) && EndsWord(tail) && (BeginsWith(word, verb) ==> |word| == |verb|)
    ensures HasPrefix(Upper(word + tail), verb) <==> Spells(word, verb)
  {
    var s, n := word + tail, |verb|;
    if |word| >= n {
      assert Upper(s)[..n] == Upper(word[..n]);
      SpellsUpper(word[..n], verb);
      assert |word| == n ==> word[..n] == word;
    } else if tail != "" {
      assert Upper(s)[|word|] == UpperChar(tail[0]);
    }
  }

  lemma PrimaryVerb(word: string, tail: string)
    requires PrimaryOk(word, tail)
    ensures StartsWithWrite(word + tail) <==> IsWriteVerb(word)
  {
    hide Upper, Spells, Bordered, BeginsWith;
    VerbPrefix(word, tail, "INSERT");
    VerbPrefix(word, tail, "UPDATE");
    VerbPrefix(word, tail, "DELETE");
  }

  lemma ContainsWriteTrimmed(s: string)
    ensures ContainsWrite(s) == ContainsWrite(Trim(s))
  {
    TrimIdempotent(s);
  }

  lemma PrimaryParts(s: Statement)
    requires StatementOk(s)
    ensures PrimaryOk(s.word, s.tail) && Tight(s.word + s.tail)
  {
    WhiteSpace(s.word + s.tail);
    hide AllIdent, BeginsWith, Spells, CteOk;
  }

  /** What the detector sees in printed text: the bodies of the leading list in front of its first
      unreadable name, and the primary verb when there is none. */
  lemma WriteSeen(s: Statement)
    requires StatementOk(s)
    ensures ContainsWrite(Render(s)) <==>
              if s.Plain? then IsWriteVerb(s.word)
              else if NamedRecursive(s) then LeavesPrimary(s) && IsWriteVerb(s.word)
              else
                (exists i :: 0 <= i < SeenLength(s.ctes) && ContainsWrite(BodyText(s.ctes[i])))
                || (SeenLength(s.ctes) == |s.ctes| && IsWriteVerb(s.word))
  {
    var t, primary := Render(s), s.word + s.tail;
    StatementTight(s);
    PrimaryParts(s);
    hide StatementOk, PrimaryOk, Trim, Tight, Render, ContainsWrite, StartsWithWrite, IsWriteVerb;
    TrimTight(t);
    TrimTight(primary);
    PrimaryVerb(s.word, s.tail);
    WalkSeen(s);
    if NamedRecursive(s) && !LeavesPrimary(s) {
      HarmlessPrimary(WalkWith(t).rest);
    }
    hide *;
    ContainsWriteOf(t);
    if s.With? && !NamedRecursive(s) {
      WalkedWrite(WalkWith(t), s.ctes, primary);
    }
  }

  lemma WalkSeen(s: Statement)
    requires StatementOk(s)
    ensures var w := WalkWith(Render(s));
            if s.Plain? then w == Walk([], [], s.word + s.tail)
            else if NamedRecursive(s) then
              w.bodies == [] && if LeavesPrimary(s) then w.rest == s.word + s.tail else Harmless(w.rest)
            else WalkedList(w, s.ctes, s.word + s.tail)
  {
    if s.Plain? {
      NotKeyword(s.word, "WITH", s.tail);
    } else {
      ListParts(s);
      ListStartText(s);
      DeclaredStart(Render(s));
      if NamedRecursive(s) {
        RecursiveReadable(s);
        NamedRecursiveWalk(s);
      }
      hide *;
      if NamedRecursive(s) {
        StuckWalk(ListStart(Render(s)));
      } else if Swallowed(s) {
        StuckWalk(ListStart(Render(s)));
        SwallowedHead(s);
        WalkedNothing(WalkWith(Render(s)), s.ctes, s.word + s.tail);
      } else {
        ListBodies(s.ctes, s.word + s.tail);
      }
    }
  }

  lemma ListParts(s: Statement)
    requires StatementOk(s) && s.With?
    ensures ListOk(s.ctes) && Primary(s.word + s.tail) && FromList(s) == RenderCtes(s.ctes, s.word + s.tail)
  {
  }

  lemma SwallowedHead(s: Statement)
    requires Swallowed(s)
    ensures s.With? && s.ctes != [] && !Readable(s.ctes[0].name)
  {
  }

  lemma ContainsWriteOf(t: string)
    requires Trim(t) == t
    ensures ContainsWrite(t) <==>
              StartsWithWrite(Trim(WalkWith(t).rest))
              || exists i :: 0 <= i < |WalkWith(t).bodies| && ContainsWrite(WalkWith(t).bodies[i])
  {
  }

  /** The write test on a walked list. */
  lemma WalkedWrite(w: Walk, ctes: seq<Cte>, primary: string)
    requires WalkedList(w, ctes, primary) && Trim(primary) == primary
    ensures (exists i :: 0 <= i < |w.bodies| && ContainsWrite(w.bodies[i]))
            <==> exists i :: 0 <= i < SeenLength(ctes) && ContainsWrite(BodyText(ctes[i]))
    ensures StartsWithWrite(Trim(w.rest)) <==> SeenLength(ctes) == |ctes| && StartsWithWrite(primary)
  {
    hide ContainsWrite, BodyText, StartsWithWrite, Trim, Strange, Harmless;
    var k := SeenLength(ctes);
    assert forall i :: 0 <= i < k ==> w.bodies[i] == BodyText(ctes[i]);
    if k < |ctes| {
      StrangeHarmless(w.rest);
      HarmlessPrimary(w.rest);
    }
  }

  /** The printed text contains a write for the detector exactly when the tree holds one in front of every
      unreadable name: never where the tree holds none, and always where every name is read whole. */
  lemma {:induction false} RenderedWrite(s: Statement)
    requires StatementOk(s)
    ensures ContainsWrite(Render(s)) <==> SeenWrites(s)
    ensures ContainsWrite(Render(s)) ==> Writes(s)
    ensures AllReadable(s) ==> (ContainsWrite(Render(s)) <==> Writes(s))
    decreases s
  {
    WriteSeen(s);
    if s.With? {
      if AllReadable(s) {
        ReadableLength(s);
      }
      forall i | 0 <= i < |s.ctes|
        ensures ContainsWrite(BodyText(s.ctes[i])) <==> SeenWrites(s.ctes[i].body)
        ensures ContainsWrite(BodyText(s.ctes[i])) ==> Writes(s.ctes[i].body)
        ensures AllReadable(s) ==> (ContainsWrite(BodyText(s.ctes[i])) <==> Writes(s.ctes[i].body))
      {
        assert CteOk(s.ctes[i]);
        BodySeen(s.ctes[i]);
        RenderedWrite(s.ctes[i].body);
      }
      hide ContainsWrite, BodyText, Render, StatementOk;
    }
  }

  lemma ReadableLength(s: Statement)
    requires s.With? && AllReadable(s)
    ensures SeenLength(s.ctes) == |s.ctes|
  {
    hide Readable;
  }

  lemma BodySeen(c: Cte)
    requires CteOk(c)
    ensures StatementOk(c.body) && ContainsWrite(BodyText(c)) == ContainsWrite(Render(c.body))
  {
    BodyTrimmed(c);
    hide ContainsWrite, BodyText, Render, Trim;
    ContainsWriteTrimmed(BodyText(c));
  }

  /** `cteNames` on printed text is exactly the set of names in front of every unreadable one, with the
      read part of the first of those; where every name is read whole, the names the tree declares at its
      leading lists. */
  lemma {:induction false} RenderedNames(s: Statement)
    requires StatementOk(s)
    ensures DeclaredNames(Render(s)) == SeenDeclares(s)
    ensures AllReadable(s) ==> DeclaredNames(Render(s)) == Declares(s)
    decreases s, 1
  {
    if s.Plain? {
      NotKeyword(s.word, "WITH", s.tail);
    } else {
      ListParts(s);
      ListStartText(s);
      if NamedRecursive(s) {
        RecursiveReadable(s);
        NamedRecursiveWalk(s);
        NamesTurn(ListStart(Render(s)));
        hide ReadCte, NamesFrom, FromColumns, Render, ListStart, NameKey, StatementOk, Harmless;
      } else if Swallowed(s) {
        NamesTurn(ListStart(Render(s)));
      } else {
        ListNames(s.ctes, s.word + s.tail);
        RenderedListNames(s.ctes);
        if AllReadable(s) {
          ReadableNames(s.ctes);
        }
      }
    }
  }

  lemma CteParts(c: Cte)
    requires CteOk(c)
    ensures NameOk(c.name) && StatementOk(c.body)
  {
  }

  lemma {:induction false} RenderedListNames(ctes: seq<Cte>)
    requires forall i :: 0 <= i < |ctes| ==> CteOk(ctes[i])
    ensures ReadNames(ctes) == SeenDeclaresIn(ctes)
    decreases ctes, 0
  {
    if ctes != [] && Readable(ctes[0].name) {
      var c := ctes[0];
      CteParts(c);
      ReadNamesStep(ctes);
      hide *;
      StripQuotesId(c.name);
      BodyTrimmed(c);
      RenderedNames(c.body);
      RenderedListNames(ctes[1..]);
      KeyOfName(c.name);
    }
  }

  lemma KeyOfName(name: Name)
    ensures StripQuotes(NameText(name)) == name.id ==> NameKey(NameText(name)) == Folded(name.id)
  {
    FoldedLower(name.id);
    hide StripQuotes, NameText, Lower;
  }

  lemma ReadNamesStep(ctes: seq<Cte>)
    requires ctes != [] && Readable(ctes[0].name)
    ensures ReadNames(ctes)
            == {NameKey(NameText(ctes[0].name))} + DeclaredNames(Trim(BodyText(ctes[0]))) + ReadNames(ctes[1..])
    ensures SeenDeclaresIn(ctes)
            == {Folded(ctes[0].name.id)} + SeenDeclares(ctes[0].body) + SeenDeclaresIn(ctes[1..])
  {
    hide Trim, BodyText, DeclaredNames, SeenDeclares, NameKey, NameText, Readable;
  }

  lemma {:induction false} ReadableNames(ctes: seq<Cte>)
    requires forall i :: 0 <= i < |ctes| ==> Readable(ctes[i].name) && AllReadable(ctes[i].body)
    ensures SeenDeclaresIn(ctes) == DeclaresIn(ctes)
    decreases ctes
  {
    if ctes != [] {
      var body := ctes[0].body;
      assert !Swallowed(body) by {
        assert body.With? && body.ctes != [] ==> Readable(body.ctes[0].name);
      }
      hide Readable;
      if body.With? {
        ReadableNames(body.ctes);
      }
      ReadableNames(ctes[1..]);
    }
  }

  // ----- what an unreadable name hides

  /** Behind an unreadable first name nothing is seen, whatever the statement does. */
  lemma UnreadableHides(s: Statement)
    requires StatementOk(s) && s.With? && !Readable(s.ctes[0].name)
    ensures !ContainsWrite(Render(s))
  {
    RenderedWrite(s);
    if NamedRecursive(s) {
      RecursiveReadable(s);
    }
    hide ContainsWrite, Render, StatementOk, Readable, Writes, NamedRecursive, IsWriteVerb;
    assert SeenLength(s.ctes) == 0;
  }

  /** In a list whose first CTE is named RECURSIVE only an INSERT, UPDATE or DELETE behind a lone plain CTE is
      seen. */
  lemma RecursiveHides(s: Statement)
    requires StatementOk(s) && NamedRecursive(s) && !(LeavesPrimary(s) && IsWriteVerb(s.word))
    ensures !ContainsWrite(Render(s))
  {
    assert s.With?;
    hide StatementOk, ContainsWrite, Render, Writes, AllReadable, NamedRecursive, LeavesPrimary, IsWriteVerb;
    RenderedWrite(s);
  }

  /** A quoted name that is never closed runs to the end of the text: it alone is collected, and nothing is
      seen to write. */
  lemma UnclosedQuote(keyword: string, gap: string, rest: string)
    requires Spells(keyword, "WITH") && AllBlank(gap) && gap != ""
    requires forall i :: 0 <= i < |rest| ==> rest[i] != '"'
    ensures var list := "\"" + rest;
            WalkWith(keyword + (gap + list)) == Walk([list], [], "")
            && DeclaredNames(keyword + (gap + list)) == {Folded(rest)}
  {
    var list := "\"" + rest;
    BlankEndsWord(gap, list);
    KeywordText(keyword, "WITH", gap + list);
    DropGap(gap, list);
    assert list[0] == '"' && DropBlanks(list) == list;
    NotRecursive(list);
    UnclosedEntry(rest);
    UnclosedKey(rest);
    hide NameKey, ReadCte, HasKeyword, DropBlanks;
  }

  lemma NotRecursive(list: string)
    requires list != "" && list[0] == '"'
    ensures !HasKeyword(list, "RECURSIVE")
  {
    assert |list| >= 9 ==> Upper(list[..9])[0] == '"';
  }

  lemma UnclosedEntry(rest: string)
    requires forall i :: 0 <= i < |rest| ==> rest[i] != '"'
    ensures ReadCte("\"" + rest) == Malformed("\"" + rest, "")
  {
    var list := "\"" + rest;
    assert list[1..] == rest == rest + "";
    RunText(rest, "", NotQuote);
    assert list[..|list|] == list && list[|list|..] == "";
  }

  lemma UnclosedKey(rest: string)
    requires forall i :: 0 <= i < |rest| ==> rest[i] != '"'
    ensures NameKey("\"" + rest) == Folded(rest)
  {
    var list := "\"" + rest;
    assert list[1..] == rest;
    assert RunLength(rest, IsQuote) == 0 && StripQuotesRight(rest) == rest;
    FoldedLower(rest);
  }

  /** `WITH "a""b" AS (DELETE FROM t) SELECT 1` is a valid statement that writes, and is not seen to. */
  lemma DoubledQuoteHides()
    ensures var s := Around(Quoted("a\"b")); StatementOk(s) && Writes(s) && !ContainsWrite(Render(s))
  {
    var s := Around(Quoted("a\"b"));
    assert "a\"b"[1] == '"';
    AroundOk(Quoted("a\"b"));
    UnreadableHides(s);
  }

  /** So is `WITH recursive AS (DELETE FROM t) SELECT 1`. */
  lemma RecursiveNameHides()
    ensures var s := Around(Bare("recursive")); StatementOk(s) && Writes(s) && !ContainsWrite(Render(s))
  {
    var name := Bare("recursive");
    RecursiveWord();
    AroundOk(name);
    AroundRecursive(name);
    hide *;
    RecursiveHides(Around(name));
  }

  lemma RecursiveWord()
    ensures NameOk(Bare("recursive")) && Spells("recursive", "RECURSIVE")
  {
    assert forall i :: 0 <= i < 9 ==> 'a' <= "recursive"[i] <= 'z';
  }

  lemma AroundRecursive(name: Name)
    requires name.Bare? && Spells(name.id, "RECURSIVE")
    ensures NamedRecursive(Around(name)) && !IsWriteVerb(Around(name).word)
  {
    Capitals("SELECT");
    assert "SELECT"[0] == 'S';
  }

  /** A DELETE in a CTE of this name, behind which a SELECT follows. */
  function Around(name: Name): Statement {
    var body := Plain("DELETE", " FROM t");
    With("WITH", " ", Simple, [Cte("", name, " ", NoColumns, "AS", " ", NoHint, "", body, "", " ")], "SELECT", " 1")
  }

  lemma AroundOk(name: Name)
    requires NameOk(name)
    ensures StatementOk(Around(name)) && Writes(Around(name))
  {
    var s := Around(name);
    var c := s.ctes[0];
    Capitals("WITH");
    Capitals("AS");
    DeletePart();
    SelectPart();
    PlainBalanced("" + Render(c.body) + "");
    assert CteOk(c);
    assert StatementOk(s);
    assert Writes(s.ctes[0].body);
  }

  /** A word in capitals spells itself. */
  lemma Capitals(word: string)
    requires InCapitals(word)
    ensures Spells(word, word) && AllIdent(word)
  {
  }

  lemma DeletePart()
    ensures PrimaryOk("DELETE", " FROM t") && Spells("DELETE", "DELETE") && IsWriteVerb("DELETE")
    ensures !Spells("DELETE", "WITH")
  {
    Capitals("DELETE");
    assert "DELETE" + " FROM t" == "DELETE FROM t";
  }

  lemma SelectPart()
    ensures PrimaryOk("SELECT", " 1")
  {
    Capitals("SELECT");
    assert "SELECT" + " 1" == "SELECT 1";
    assert !IsCaseOf('S', 'I') && !IsCaseOf('S', 'U') && !IsCaseOf('S', 'D');
  }

  lemma {:induction false} NoDepth(s: string, n: nat)
    requires n <= |s| && forall i :: 0 <= i < |s| ==> s[i] != '(' && s[i] != ')'
    ensures NetDepth(s[..n]) == 0
  {
    if n > 0 {
      NoDepth(s, n - 1);
      assert s[..n] == s[..n - 1] + [s[n - 1]];
      NetDepthConcat(s[..n - 1], [s[n - 1]]);
    }
  }

  /** A text without parentheses is balanced. */
  lemma PlainBalanced(s: string)
    requires forall i :: 0 <= i < |s| ==> s[i] != '(' && s[i] != ')'
    ensures Balanced(s)
  {
    forall n | 0 <= n <= |s|
      ensures NetDepth(s[..n]) == 0
    {
      NoDepth(s, n);
    }
    assert s[..|s|] == s;
  }

  // ----- what a comment between two CTEs hides

  /** A comment, and whatever stands behind it. */
  predicate IsComment(s: string) {
    "--" <= s || "/*" <= s
  }

  lemma CommentStrange(s: string)
    requires IsComment(s)
    ensures Strange(s) && s[0] != '"' && Harmless(s)
  {
    assert "--"[0] == '-' && "/*"[0] == '/';
    assert s[0] == '-' || s[0] == '/';
  }

  /** Behind a comment in front of the second CTE nothing is seen: neither the CTE, nor further ones, nor
      the primary statement. */
  lemma CommentHides(c: Cte, gap: string, comment: string)
    requires CteOk(c) && c.lead == "" && Readable(c.name) && (c.name.Bare? ==> !Spells(c.name.id, "RECURSIVE"))
    requires AllBlank(gap) && IsComment(comment) && Bordered(comment)
    ensures ContainsWrite("WITH" + (" " + RenderCte(c, "," + (gap + comment)))) <==> ContainsWrite(BodyText(c))
  {
    var rest := "," + (gap + comment);
    var list := RenderCte(c, rest);
    var text := "WITH" + (" " + list);
    CommentTight(c, rest, comment);
    OneNameStart(c, rest);
    CteText(c, rest);
    CommentEntry(gap, comment);
    WhiteSpace(text);
    hide *;
    TrimTight(text);
    HarmlessPrimary(comment);
    CommentWalk(list, NameText(c.name), BodyText(c), gap, comment);
    DeclaredStart(text);
    ContainsWriteOf(text);
    OneBody(WalkWith(text), BodyText(c));
  }

  lemma OneBody(w: Walk, body: string)
    requires w.bodies == [body]
    ensures (exists i :: 0 <= i < |w.bodies| && ContainsWrite(w.bodies[i])) <==> ContainsWrite(body)
  {
    hide ContainsWrite;
    assert w.bodies[0] == body;
  }

  lemma CommentEntry(gap: string, comment: string)
    requires AllBlank(gap) && IsComment(comment)
    ensures ReadCte(gap + comment) == Stop(comment) && Harmless(comment)
    ensures DropBlanks("," + (gap + comment)) == "," + (gap + comment)
  {
    CommentStrange(comment);
    StrangeStop(comment);
    StrangeTail("", comment);
    DropGap(gap, comment);
    hide Strange;
    SameEntry(gap + comment, comment);
    assert ("," + (gap + comment))[0] == ',';
  }

  lemma CommentWalk(list: string, name: string, body: string, gap: string, comment: string)
    requires ReadCte(list) == Found(name, body, "," + (gap + comment)) && ReadCte(gap + comment) == Stop(comment)
    ensures WalkList(list).bodies == [body] && WalkList(list).rest == comment
  {
    var rest := "," + (gap + comment);
    assert rest[0] == ',' && rest[1..] == gap + comment;
    hide *;
    WalkStep(list, name, body, rest);
    StuckWalk(gap + comment);
    assert [body] + [] == [body];
  }

  lemma CommentTight(c: Cte, rest: string, comment: string)
    requires IsComment(comment) && Bordered(comment) && SameEnd(rest, comment)
    ensures var text := "WITH" + (" " + RenderCte(c, rest)); Bordered(text)
  {
    CteEnd(c, rest);
    hide RenderCte, IsComment;
    assert SameEnd("WITH" + (" " + RenderCte(c, rest)), RenderCte(c, rest));
  }

  /** Past WITH stands the CTE. */
  lemma OneNameStart(c: Cte, rest: string)
    requires CteOk(c) && c.lead == "" && Readable(c.name) && (c.name.Bare? ==> !Spells(c.name.id, "RECURSIVE"))
    ensures var text := "WITH" + (" " + RenderCte(c, rest));
            HasKeyword(text, "WITH") && ListStart(text) == RenderCte(c, rest)
  {
    Capitals("WITH");
    CteStart(c, rest);
    assert c.name.Bare? ==> RunLength(c.name.id, IsWordChar) == |c.name.id| && c.name.id[..|c.name.id|] == c.name.id;
    assert !StartsRecursive(c.name);
    hide RenderCte, HasKeyword, AfterKeyword, CteOk, Spells;
    WithSkipped("WITH", " ", RenderCte(c, rest));
  }

  // ----- comment lines in front

  function CommentLines(lines: seq<string>, rest: string): string {
    if lines == [] then rest else "--" + (lines[0] + ("\n" + CommentLines(lines[1..], rest)))
  }

  lemma CommentLine(line: string, more: string)
    requires '\n' !in line
    ensures var text := "--" + (line + ("\n" + more));
            HasPrefix(text, "--") && (Trim(text) == text ==> StripComments(text) == StripComments(more))
  {
    var run := "--" + line;
    var text := "--" + (line + ("\n" + more));
    assert text == run + ("\n" + more);
    RunText(run, "\n" + more, NotNewline);
    assert text[|run| + 1..] == more;
  }

  lemma CommentEnds(line: string, more: string, s: string)
    requires SameEnd(more, s) && Tight(s) && s != ""
    ensures var text := "--" + (line + ("\n" + more)); SameEnd(text, s) && Tight(text)
  {
  }

  lemma {:induction false} CommentsDropped(lines: seq<string>, pad: string, s: string)
    requires forall i :: 0 <= i < |lines| ==> '\n' !in lines[i]
    requires AllWhite(pad) && Tight(s) && s != "" && !HasPrefix(s, "--")
    ensures StripComments(CommentLines(lines, pad + s)) == s
    ensures SameEnd(CommentLines(lines, pad + s), s)
  {
    if lines == [] {
      TrimPadded(pad, s, "");
      assert pad + s + "" == pad + s;
    } else {
      var more := CommentLines(lines[1..], pad + s);
      var text := CommentLines(lines, pad + s);
      CommentsDropped(lines[1..], pad, s);
      CommentEnds(lines[0], more, s);
      assert text == "--" + (lines[0] + ("\n" + more));
      hide *;
      TrimTight(text);
      CommentLine(lines[0], more);
    }
  }

  lemma CommentsTrimmed(text: string, padRight: string)
    requires AllWhite(padRight)
    ensures StripComments(text + padRight) == StripComments(text)
  {
    TrimPadRight(text, padRight);
  }

  lemma StatementStart(s: Statement)
    requires StatementOk(s)
    ensures !HasPrefix(Render(s), "--")
  {
    var word := if s.With? then s.keyword else s.word + s.tail;
    assert UpperChar(word[0]) == Upper(word)[0];
    assert Render(s)[0] == word[0] != '-';
  }

  /** Comment lines and blanks around a statement do not change what the detector and the
      collector find in it. */
  lemma CommentedStatement(lines: seq<string>, pad: string, s: Statement, padRight: string)
    requires forall i :: 0 <= i < |lines| ==> '\n' !in lines[i]
    requires AllWhite(pad) && AllWhite(padRight) && StatementOk(s)
    ensures var text := StripComments(CommentLines(lines, pad + Render(s)) + padRight);
            && (ContainsWrite(text) <==> SeenWrites(s)) && DeclaredNames(text) == SeenDeclares(s)
            && (AllReadable(s) ==> (ContainsWrite(text) <==> Writes(s)) && DeclaredNames(text) == Declares(s))
  {
    StatementTight(s);
    StatementStart(s);
    CommentsDropped(lines, pad, Render(s));
    CommentsTrimmed(CommentLines(lines, pad + Render(s)), padRight);
    RenderedWrite(s);
    RenderedNames(s);
    hide *;
  }
}
