/** The two hand-written walkers over a leading WITH clause: the one that looks for a
    write and the one that collects the declared names. Both are proved against one
    reading of the grammar, given here on suffixes of the text. */
module WithClause {
  import opened Text
  import opened Parens

  // ----- the scanners' alphabet

  predicate IsIdentChar(c: char) {
    c == '_' || 'a' <= c <= 'z' || 'A' <= c <= 'Z' || '0' <= c <= '9'
  }

  /** The blanks skipped between tokens; fewer than `IsSpace` trims. */
  predicate IsBlank(c: char) {
    c == ' ' || c == '\t' || c == '\n' || c == '\r'
  }

  predicate IsQuote(c: char) { c == '"' }

  predicate NotQuote(c: char) { c != '"' }

  predicate NotNewline(c: char) { c != '\n' }

  function DropBlanks(s: string): (r: string)
    ensures |r| <= |s|
    ensures r != "" ==> !IsBlank(r[0])
  {
    if s != "" && IsBlank(s[0]) then DropBlanks(s[1..]) else s
  }

  /** Length of the run of characters before the first one in `stop`. */
  function RunLength(s: string, inRun: char -> bool): (n: nat)
    ensures n <= |s|
    ensures forall i :: 0 <= i < n ==> inRun(s[i])
    ensures n < |s| ==> !inRun(s[n])
  {
    if s != "" && inRun(s[0]) then 1 + RunLength(s[1..], inRun) else 0
  }

  /** Length of the identifier `s` starts with; zero when it starts with none. */
  function IdentLength(s: string): (n: nat)
    ensures n <= |s|
  {
    if s != "" && s[0] == '"' then
      var n := 1 + RunLength(s[1..], NotQuote);
      if n < |s| then n + 1 else n
    else RunLength(s, IsIdentChar)
  }

  /** `s` starts with the keyword, in any case, and the word ends there. */
  predicate HasKeyword(s: string, keyword: string) {
    |keyword| <= |s| && Upper(s[..|keyword|]) == keyword
    && (|s| == |keyword| || !IsIdentChar(s[|keyword|]))
  }

  function AfterKeyword(s: string, keyword: string): (r: string)
    requires |keyword| <= |s|
    ensures |r| <= |s|
  {
    DropBlanks(s[|keyword|..])
  }

  // ----- one reading of the grammar

  /** What one turn of the list loop meets, and the text left behind. */
  datatype Entry =
    | Stop(rest: string)
    | Malformed(name: string, rest: string)
    | Found(name: string, body: string, rest: string)

  /** Skips `[NOT] MATERIALIZED`. */
  function AfterMaterialized(s: string): (r: string)
    ensures |r| <= |s|
  {
    var notGone := if HasKeyword(s, "NOT") then AfterKeyword(s, "NOT") else s;
    if HasKeyword(notGone, "MATERIALIZED") then AfterKeyword(notGone, "MATERIALIZED") else notGone
  }

  /** From the text after a name: the CTE's body and what follows it. */
  function ReadTail(name: string, s: string): (e: Entry)
    ensures |e.rest| <= |s|
    ensures e.Found? ==> |e.body| + 2 <= |s|
  {
    if !HasKeyword(s, "AS") then Malformed(name, s)
    else
      var t := AfterMaterialized(AfterKeyword(s, "AS"));
      if t == "" || t[0] != '(' then Malformed(name, t)
      else match CloseIndex(t[1..], 1)
        case None => Malformed(name, t)
        case Some(k) => Found(name, t[1..1 + k], DropBlanks(t[k + 2..]))
  }

  /** From the text after a name: the optional column list, then the tail. */
  function ReadColumns(name: string, u: string): (e: Entry)
    ensures |e.rest| <= |u|
    ensures e.Found? ==> |e.body| + 2 <= |u|
  {
    if u == "" || u[0] != '(' then ReadTail(name, u)
    else match CloseIndex(u[1..], 1)
      case None => Malformed(name, u)
      case Some(k) => ReadTail(name, DropBlanks(u[k + 2..]))
  }

  function ReadCte(s: string): (e: Entry)
    ensures |e.rest| <= |s|
    ensures e.Found? ==> |e.body| < |s| && |e.rest| < |s|
  {
    var t := DropBlanks(s);
    var n := IdentLength(t);
    if n == 0 then Stop(t) else ReadColumns(t[..n], DropBlanks(t[n..]))
  }

  /** Every name met, every body met, and the text the walk stops at. */
  datatype Walk = Walk(names: seq<string>, bodies: seq<string>, rest: string)

  function WalkList(s: string): (w: Walk)
    decreases |s|
    ensures |w.rest| <= |s|
    ensures forall i :: 0 <= i < |w.bodies| ==> |w.bodies[i]| < |s|
  {
    match ReadCte(s)
    case Stop(rest) => Walk([], [], rest)
    case Malformed(name, rest) => Walk([name], [], rest)
    case Found(name, body, rest) =>
      if rest != "" && rest[0] == ',' then
        var w := WalkList(rest[1..]);
        Walk([name] + w.names, [body] + w.bodies, w.rest)
      else Walk([name], [body], rest)
  }

  function ListStart(s: string): (r: string)
    requires HasKeyword(s, "WITH")
    ensures |r| < |s|
  {
    var t := AfterKeyword(s, "WITH");
    if HasKeyword(t, "RECURSIVE") then AfterKeyword(t, "RECURSIVE") else t
  }

  function WalkWith(s: string): (w: Walk)
    ensures |w.rest| <= |s|
    ensures forall i :: 0 <= i < |w.bodies| ==> |w.bodies[i]| < |s|
  {
    if HasKeyword(s, "WITH") then WalkList(ListStart(s)) else Walk([], [], s)
  }

  predicate StartsWithWrite(s: string) {
    HasPrefix(Upper(s), "INSERT") || HasPrefix(Upper(s), "UPDATE") || HasPrefix(Upper(s), "DELETE")
  }

  predicate ContainsWrite(s: string)
    decreases |s|
  {
    var w := WalkWith(Trim(s));
    (exists i :: 0 <= i < |w.bodies| && ContainsWrite(w.bodies[i])) || StartsWithWrite(Trim(w.rest))
  }

  function StripQuotes(s: string): string {
    var n := RunLength(s, IsQuote);
    StripQuotesRight(s[n..])
  }

  function StripQuotesRight(s: string): string {
    if s != "" && s[|s| - 1] == '"' then StripQuotesRight(s[..|s| - 1]) else s
  }

  function NameKey(name: string): string {
    Lower(StripQuotes(name))
  }

  /** The names declared by a leading WITH list and, recursively, by the lists its bodies start with. */
  function DeclaredNames(s: string): set<string>
    decreases |s|, 1
  {
    if HasKeyword(s, "WITH") then NamesFrom(ListStart(s)) else {}
  }

  function NamesFrom(s: string): set<string>
    decreases |s|, 0
  {
    match ReadCte(s)
    case Stop(_) => {}
    case Malformed(name, _) => {NameKey(name)}
    case Found(name, body, rest) =>
      {NameKey(name)} + DeclaredNames(Trim(body))
      + if rest != "" && rest[0] == ',' then NamesFrom(rest[1..]) else {}
  }

  /** Drops the "--" comment lines in front of a statement. */
  function StripComments(s: string): string
    decreases |s|
  {
    var t := Trim(s);
    if !HasPrefix(t, "--") then t
    else
      var n := RunLength(t, NotNewline);
      if n == |t| then "" else StripComments(t[n + 1..])
  }

  // ----- the code

  method SkipSpaceFrom(s: string, start: nat) returns (i: nat)
    requires start <= |s|
    ensures start <= i <= |s| && s[i..] == DropBlanks(s[start..])
  {
    i := start;
    while i < |s| && (s[i] == ' ' || s[i] == '\t' || s[i] == '\n' || s[i] == '\r')
      invariant start <= i <= |s|
      invariant DropBlanks(s[i..]) == DropBlanks(s[start..])
    {
      assert s[i..][1..] == s[i + 1..];
      i := i + 1;
    }
  }

  method SkipIdentifier(s: string, i: nat) returns (j: nat)
    requires i <= |s|
    ensures j == i + IdentLength(s[i..])
  {
    if i >= |s| {
      return i;
    }
    if s[i] == '"' {
      j := i + 1;
      assert s[i..][1..] == s[j..];
      while j < |s| && s[j] != '"'
        invariant i < j <= |s|
        invariant RunLength(s[i + 1..], NotQuote) == j - i - 1 + RunLength(s[j..], NotQuote)
      {
        assert s[j..][1..] == s[j + 1..];
        j := j + 1;
      }
      if j < |s| {
        j := j + 1;
      }
      return j;
    }
    j := i;
    while j < |s| && IsIdentChar(s[j])
      invariant i <= j <= |s|
      invariant RunLength(s[i..], IsIdentChar) == j - i + RunLength(s[j..], IsIdentChar)
    {
      assert s[j..][1..] == s[j + 1..];
      j := j + 1;
    }
  }

  method SkipKeyword(t: string, start: nat, keyword: string) returns (i: nat)
    requires start <= |t| && HasKeyword(t[start..], keyword)
    ensures start + |keyword| <= i <= |t| && t[i..] == AfterKeyword(t[start..], keyword)
  {
    assert t[start..][|keyword|..] == t[start + |keyword|..];
    i := SkipSpaceFrom(t, start + |keyword|);
  }

  method SkipMaterialized(t: string, start: nat) returns (i: nat)
    requires start <= |t|
    ensures start <= i <= |t| && t[i..] == AfterMaterialized(t[start..])
  {
    i := start;
    if HasKeyword(t[i..], "NOT") {
      i := SkipKeyword(t, i, "NOT");
      if HasKeyword(t[i..], "MATERIALIZED") {
        i := SkipKeyword(t, i, "MATERIALIZED");
      }
    } else if HasKeyword(t[i..], "MATERIALIZED") {
      i := SkipKeyword(t, i, "MATERIALIZED");
    }
  }

  method SkipListHead(t: string) returns (i: nat)
    requires HasKeyword(t, "WITH")
    ensures 0 < i <= |t| && t[i..] == ListStart(t)
  {
    assert t[0..] == t;
    i := SkipKeyword(t, 0, "WITH");
    if HasKeyword(t[i..], "RECURSIVE") {
      i := SkipKeyword(t, i, "RECURSIVE");
    }
  }

  /** Any write among the bodies from index `k` on. */
  predicate AnyWrite(bodies: seq<string>)
  {
    exists i :: 0 <= i < |bodies| && ContainsWrite(bodies[i])
  }

  /** One matched parenthesis pair, seen on the suffix that starts at it. */
  lemma SpanOnSuffix(t: string, i: nat, after: nat)
    requires i + 2 <= after <= |t|
    ensures t[i..][1..] == t[i + 1..]
    ensures t[i..][after - i..] == t[after..]
    ensures t[i + 1..after - 1] == t[i..][1..after - i - 1]
  {
  }

  lemma NameStages(s: string, t: string, n: nat, u: string)
    requires t == DropBlanks(s) && n == IdentLength(t) && u == DropBlanks(t[n..])
    ensures ReadCte(s) == if n == 0 then Stop(t) else ReadColumns(t[..n], u)
  {
  }

  /** The name a CTE starts with. */
  method TakeName(t: string, start: nat) returns (name: string, i: nat, ok: bool)
    requires start <= |t|
    ensures start <= i <= |t|
    ensures ReadCte(t[start..]) == if ok then ReadColumns(name, t[i..]) else Stop(t[i..])
    ensures ok ==> i > start
  {
    hide *;
    i := SkipSpaceFrom(t, start);
    ghost var s := t[i..];
    var nameEnd := SkipIdentifier(t, i);
    name := t[i..nameEnd];
    assert s[nameEnd - i..] == t[nameEnd..] && s[..nameEnd - i] == name;
    var next := SkipSpaceFrom(t, nameEnd);
    NameStages(t[start..], s, nameEnd - i, t[next..]);
    if nameEnd == i {
      return name, i, false;
    }
    return name, next, true;
  }

  /** Past the name: the optional column list. */
  method SkipColumns(t: string, start: nat, ghost name: string) returns (i: nat, ok: bool)
    requires start <= |t|
    ensures start <= i <= |t|
    ensures ok ==> ReadColumns(name, t[start..]) == ReadTail(name, t[i..])
    ensures !ok ==> ReadColumns(name, t[start..]) == Malformed(name, t[i..])
  {
    hide ReadTail, CloseIndex, DropBlanks;
    i, ok := start, true;
    if i < |t| && t[i] == '(' {
      var _, after, closed := BalancedParenSpan(t, i);
      assert t[i..][1..] == t[i + 1..];
      if !closed {
        return i, false;
      }
      SpanOnSuffix(t, i, after);
      i := SkipSpaceFrom(t, after);
    }
  }

  /** From AS on: the body between its parentheses. */
  method TakeBody(t: string, start: nat, ghost name: string) returns (body: string, i: nat, ok: bool)
    requires start <= |t|
    ensures start <= i <= |t|
    ensures ReadTail(name, t[start..]) == if ok then Found(name, body, t[i..]) else Malformed(name, t[i..])
    ensures ok ==> i > start
  {
    hide CloseIndex, DropBlanks, AfterMaterialized, AfterKeyword, HasKeyword;
    body, i := "", start;
    if !HasKeyword(t[i..], "AS") {
      return body, i, false;
    }
    i := SkipKeyword(t, i, "AS");
    i := SkipMaterialized(t, i);
    if i >= |t| || t[i] != '(' {
      return body, i, false;
    }
    var after;
    body, after, ok := BalancedParenSpan(t, i);
    assert t[i..][1..] == t[i + 1..];
    if ok {
      SpanOnSuffix(t, i, after);
      i := SkipSpaceFrom(t, after);
    }
  }

  /** One list entry: name, column list, AS, body. */
  method SkipEntry(t: string, start: nat) returns (body: string, i: nat, ok: bool)
    requires start <= |t|
    ensures start <= i <= |t|
    ensures ReadCte(t[start..]).rest == t[i..] && (ok <==> ReadCte(t[start..]).Found?)
    ensures ok ==> ReadCte(t[start..]).body == body && i > start
  {
    hide *;
    body := "";
    var name;
    name, i, ok := TakeName(t, start);
    if !ok {
      return;
    }
    i, ok := SkipColumns(t, i, name);
    if !ok {
      return;
    }
    body, i, ok := TakeBody(t, i, name);
  }

  /** The walk of `t` has reached the suffix `s`, with `nestedWrite` found so far. */
  ghost predicate Reached(t: string, s: string, nestedWrite: bool) {
    WalkWith(t).rest == WalkList(s).rest
    && (AnyWrite(WalkWith(t).bodies) <==> nestedWrite || AnyWrite(WalkList(s).bodies))
  }

  ghost predicate Finished(t: string, rest: string, nestedWrite: bool) {
    WalkWith(t).rest == rest && (AnyWrite(WalkWith(t).bodies) <==> nestedWrite)
  }

  lemma WalkStart(t: string)
    ensures if HasKeyword(t, "WITH") then Reached(t, ListStart(t), false) else Finished(t, t, false)
  {
  }

  lemma WalkEnds(t: string, s: string, nestedWrite: bool)
    requires Reached(t, s, nestedWrite) && !ReadCte(s).Found?
    ensures Finished(t, ReadCte(s).rest, nestedWrite)
  {
  }

  /** What one turn of the loop adds to the walk. */
  lemma WalkTurn(t: string, s: string, nestedWrite: bool, body: string, rest: string)
    requires Reached(t, s, nestedWrite)
    requires ReadCte(s).Found? && ReadCte(s).body == body && ReadCte(s).rest == rest
    ensures var nested := nestedWrite || ContainsWrite(body);
            if rest != "" && rest[0] == ',' then Reached(t, rest[1..], nested) else Finished(t, rest, nested)
  {
    if rest != "" && rest[0] == ',' {
      AnyWriteCons(body, WalkList(rest[1..]).bodies);
    } else {
      AnyWriteCons(body, []);
    }
  }

  method SkipWithClause(t: string) returns (rest: string, nestedWrite: bool)
    ensures Finished(t, rest, nestedWrite)
    decreases |t|, 0
  {
    WalkStart(t);
    hide *;
    if !HasKeyword(t, "WITH") {
      return t, false;
    }
    var i := SkipListHead(t);
    nestedWrite := false;
    while true
      invariant 0 < i <= |t|
      invariant Reached(t, t[i..], nestedWrite)
      decreases |t| - i
    {
      ghost var s, found := t[i..], nestedWrite;
      var body, ok;
      body, i, ok := SkipEntry(t, i);
      if !ok {
        WalkEnds(t, s, found);
        return t[i..], nestedWrite;
      }
      var inBody := StatementContainsWrite(body);
      if inBody {
        nestedWrite := true;
      }
      WalkTurn(t, s, found, body, t[i..]);
      if i < |t| && t[i] == ',' {
        assert t[i..][1..] == t[i + 1..];
        i := i + 1;
        continue;
      }
      return t[i..], nestedWrite;
    }
  }

  lemma AnyWriteCons(body: string, bodies: seq<string>)
    ensures AnyWrite([body] + bodies) <==> ContainsWrite(body) || AnyWrite(bodies)
  {
    hide ContainsWrite;
    assert ([body] + bodies)[0] == body;
    if AnyWrite(bodies) {
      var i :| 0 <= i < |bodies| && ContainsWrite(bodies[i]);
      assert ([body] + bodies)[i + 1] == bodies[i];
    }
  }

  method StatementContainsWrite(t: string) returns (write: bool)
    ensures write <==> ContainsWrite(t)
    decreases |t|, 1
  {
    var rest, nestedWrite := SkipWithClause(Trim(t));
    if nestedWrite {
      return true;
    }
    return StartsWithWrite(Trim(rest));
  }

  /** `x` is the key of a visited name, or is declared inside a visited body. */
  ghost predicate Visits(w: Walk, x: string) {
    (exists i :: 0 <= i < |w.names| && x == NameKey(w.names[i]))
    || (exists i :: 0 <= i < |w.bodies| && x in DeclaredNames(Trim(w.bodies[i])))
  }

  lemma VisitsCons(name: string, body: string, w: Walk, x: string)
    ensures Visits(Walk([name] + w.names, [body] + w.bodies, w.rest), x)
            <==> x == NameKey(name) || x in DeclaredNames(Trim(body)) || Visits(w, x)
  {
    hide DeclaredNames, NameKey;
    var names, bodies := [name] + w.names, [body] + w.bodies;
    assert names[0] == name && bodies[0] == body;
    assert forall i :: 0 <= i < |w.names| ==> names[i + 1] == w.names[i];
    assert forall i :: 0 <= i < |w.bodies| ==> bodies[i + 1] == w.bodies[i];
  }

  lemma {:induction false} NamesFromAgree(s: string, x: string)
    ensures x in NamesFrom(s) <==> Visits(WalkList(s), x)
    decreases |s|
  {
    NamesTurn(s);
    match ReadCte(s)
    case Stop(_) =>
    case Malformed(name, rest) =>
      assert [name][0] == name;
    case Found(name, body, rest) =>
      if rest != "" && rest[0] == ',' {
        NamesFromAgree(rest[1..], x);
        VisitsCons(name, body, WalkList(rest[1..]), x);
      } else {
        VisitsCons(name, body, Walk([], [], rest), x);
        assert [name] + [] == [name] && [body] + [] == [body];
      }
  }

  /** The name collector visits exactly the names and bodies that the write detector
      walks over, on every text, well formed or not. */
  lemma WalkersAgree(s: string, x: string)
    ensures x in DeclaredNames(s) <==> Visits(WalkWith(s), x)
  {
    if HasKeyword(s, "WITH") {
      NamesFromAgree(ListStart(s), x);
      hide *;
      DeclaredStart(s);
    }
  }

  lemma DeclaredStart(s: string)
    ensures HasKeyword(s, "WITH") ==>
              DeclaredNames(s) == NamesFrom(ListStart(s)) && WalkWith(s) == WalkList(ListStart(s))
    ensures !HasKeyword(s, "WITH") ==> DeclaredNames(s) == {} && WalkWith(s) == Walk([], [], s)
  {
  }

  /** What has been walked so far, in front of what a further walk finds. */
  ghost function Onto(seen: Walk, w: Walk): Walk {
    Walk(seen.names + w.names, seen.bodies + w.bodies, w.rest)
  }

  /** The walk once this entry has been met, with the text at hand. */
  ghost function Met(seen: Walk, e: Entry): Walk {
    if e.Stop? then Walk(seen.names, seen.bodies, e.rest)
    else if e.Malformed? then Walk(seen.names + [e.name], seen.bodies, e.rest)
    else Walk(seen.names + [e.name], seen.bodies + [e.body], e.rest)
  }

  lemma MetMeans(seen: Walk, e: Entry)
    ensures e.Stop? ==> Met(seen, e) == seen.(rest := e.rest)
    ensures e.Malformed? ==> Met(seen, e) == seen.(names := seen.names + [e.name], rest := e.rest)
    ensures e.Found? ==>
              Met(seen, e) == seen.(names := seen.names + [e.name], bodies := seen.bodies + [e.body], rest := e.rest)
  {
  }

  lemma OntoTurn(seen: Walk, s: string)
    ensures var e := ReadCte(s);
            Onto(seen, WalkList(s))
            == if e.Found? && e.rest != "" && e.rest[0] == ',' then Onto(Met(seen, e), WalkList(e.rest[1..]))
               else Met(seen, e)
  {
    var e := ReadCte(s);
    assert seen.names + [] == seen.names && seen.bodies + [] == seen.bodies;
    if e.Found? && e.rest != "" && e.rest[0] == ',' {
      var w := WalkList(e.rest[1..]);
      assert seen.names + ([e.name] + w.names) == (seen.names + [e.name]) + w.names;
      assert seen.bodies + ([e.body] + w.bodies) == (seen.bodies + [e.body]) + w.bodies;
    }
  }

  lemma OntoStart(t: string)
    ensures if HasKeyword(t, "WITH") then Onto(Walk([], [], ""), WalkList(ListStart(t))) == WalkWith(t)
            else WalkWith(t) == Walk([], [], t)
  {
    if HasKeyword(t, "WITH") {
      var w := WalkList(ListStart(t));
      assert [] + w.names == w.names && [] + w.bodies == w.bodies;
    }
  }

  /** The second walk; besides the names it returns the walk it took, which meets the same names and
      bodies and stops at the same text as the first. */
  method CollectCteNames(t: string, known: set<string>) returns (names: set<string>, walk: Walk)
    ensures names == known + DeclaredNames(t)
    ensures walk == WalkWith(t)
    decreases |t|
  {
    names := known;
    DeclaredStart(t);
    OntoStart(t);
    hide *;
    walk := Walk([], [], t);
    if !HasKeyword(t, "WITH") {
      return;
    }
    var i := SkipListHead(t);
    walk := Walk([], [], "");
    while true
      invariant 0 < i <= |t|
      invariant known + DeclaredNames(t) == names + NamesFrom(t[i..])
      invariant Onto(walk, WalkList(t[i..])) == WalkWith(t)
      decreases |t| - i
    {
      NamesTurn(t[i..]);
      OntoTurn(walk, t[i..]);
      MetMeans(walk, ReadCte(t[i..]));
      var name, body, ok;
      name, i, ok := TakeName(t, i);
      if !ok {
        walk := walk.(rest := t[i..]);
        return;
      }
      names := names + {NameKey(name)};
      walk := walk.(names := walk.names + [name]);
      i, ok := SkipColumns(t, i, name);
      if ok {
        body, i, ok := TakeBody(t, i, name);
      }
      if !ok {
        walk := walk.(rest := t[i..]);
        return;
      }
      walk := walk.(bodies := walk.bodies + [body], rest := t[i..]);
      var inner;
      names, inner := CollectCteNames(Trim(body), names);
      if i < |t| && t[i] == ',' {
        assert t[i..][1..] == t[i + 1..];
        i := i + 1;
        continue;
      }
      return;
    }
  }

  lemma NamesTurn(s: string)
    ensures var e := ReadCte(s);
            NamesFrom(s)
            == if e.Stop? then {}
               else if e.Malformed? then {NameKey(e.name)}
               else {NameKey(e.name)} + DeclaredNames(Trim(e.body))
                    + if e.rest != "" && e.rest[0] == ',' then NamesFrom(e.rest[1..]) else {}
    ensures ReadCte(s).Found? ==> |Trim(ReadCte(s).body)| < |s|
  {
  }

  method StripLeadingComments(sqlText: string) returns (t: string, stripped: bool)
    ensures t == StripComments(sqlText)
    ensures !stripped ==> t == ""
  {
    t := Trim(sqlText);
    stripped := true;
    TrimIdempotent(sqlText);
    while HasPrefix(t, "--")
      invariant Trim(t) == t && StripComments(t) == StripComments(sqlText)
      decreases |t|
    {
      var nl := RunLength(t, NotNewline);
      if nl == |t| {
        return "", false;
      }
      TrimIdempotent(t[nl + 1..]);
      t := Trim(t[nl + 1..]);
    }
  }

  method IsWriteStatement(sqlText: string) returns (write: bool)
    ensures write <==> ContainsWrite(StripComments(sqlText))
  {
    var t, _ := StripLeadingComments(sqlText);
    write := StatementContainsWrite(t);
  }

  method CteNames(sqlText: string) returns (names: set<string>)
    ensures names == DeclaredNames(StripComments(sqlText))
  {
    var t, stripped := StripLeadingComments(sqlText);
    DeclaredStart("");
    assert !HasKeyword("", "WITH");
    hide *;
    if !stripped {
      return {};
    }
    var walk;
    names, walk := CollectCteNames(t, {});
  }
}
