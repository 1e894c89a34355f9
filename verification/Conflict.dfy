/** The key of a unique violation, recovered from the text of the server's error detail. */
module Conflict {
  import opened Text
  import opened Quoting

  /** One column of a unique key and the row's value there, as text. */
  datatype Part = Part(column: string, value: string)

  type Key = seq<Part>

  const LEAD := "Key ("
  const CUT := ")=("
  const TRAIL := ") already exists."

  // ----- what the server writes

  /** A name that PostgreSQL prints without quotes. */
  predicate Simple(column: string) {
    column != "" && !('0' <= column[0] <= '9')
    && forall i :: 0 <= i < |column| ==> column[i] == '_' || 'a' <= column[i] <= 'z' || '0' <= column[i] <= '9'
  }

  function ColumnText(column: string): string {
    if Simple(column) then column else QuoteIdent(column)
  }

  /** The names as the server prints them. */
  function Shown(columns: seq<string>): (r: seq<string>)
    ensures |r| == |columns|
  {
    seq(|columns|, i requires 0 <= i < |columns| => ColumnText(columns[i]))
  }

  function Columns(key: Key): (r: seq<string>)
    ensures |r| == |key|
  {
    seq(|key|, i requires 0 <= i < |key| => key[i].column)
  }

  function Values(key: Key): (r: seq<string>)
    ensures |r| == |key|
  {
    seq(|key|, i requires 0 <= i < |key| => key[i].value)
  }

  /** A list joined by a comma and a space. */
  function ListText(parts: seq<string>): string
    requires parts != []
  {
    if |parts| == 1 then parts[0] else parts[0] + (", " + ListText(parts[1..]))
  }

  function DetailLine(key: Key): string
    requires key != []
  {
    LEAD + (ListText(Shown(Columns(key))) + (CUT + ListText(Values(key)))) + TRAIL
  }

  // ----- what the program reads

  predicate CutsAt(s: string, p: int) {
    0 <= p && p + 3 <= |s| && s[p] == ')' && s[p + 1] == '=' && s[p + 2] == '('
  }

  /** The last place in front of n, but not the first character, where the columns can end. */
  function LastCut(s: string, n: nat): (r: Option<nat>)
    ensures r.Some? ==> 1 <= r.value < n && CutsAt(s, r.value)
    ensures forall p :: (if r.Some? then r.value < p else 1 <= p) && p < n ==> !CutsAt(s, p)
  {
    if n <= 1 then None else if CutsAt(s, n - 1) then Some(n - 1) else LastCut(s, n - 1)
  }

  datatype Groups = NoMatch | Groups(cols: string, vals: string)

  /** The two groups of `^Key \((.+)\)=\((.*)\) already exists\.$`: the dot matches no line break, and
      the first group takes as much as it can. */
  function MatchDetail(line: string): Groups {
    if |line| < |LEAD| + |TRAIL| || !(LEAD <= line) || line[|line| - |TRAIL|..] != TRAIL then NoMatch
    else MatchMiddle(line[|LEAD|..|line| - |TRAIL|])
  }

  function MatchMiddle(middle: string): Groups {
    var cut := LastCut(middle, |middle|);
    if '\n' in middle || cut.None? then NoMatch else Groups(middle[..cut.value], middle[cut.value + 3..])
  }

  function SplitDetail(s: string): (r: seq<string>)
    ensures |r| >= 1
  {
    if s == "" then [""]
    else if StartsSeparator(s) then [""] + SplitDetail(s[2..])
    else
      var r := SplitDetail(s[1..]);
      [[s[0]] + r[0]] + r[1..]
  }

  predicate StartsSeparator(s: string) {
    |s| >= 2 && s[0] == ',' && s[1] == ' '
  }

  function TrimAll(parts: seq<string>): (r: seq<string>)
    ensures |r| == |parts|
  {
    seq(|parts|, i requires 0 <= i < |parts| => Trim(parts[i]))
  }

  function SplitDetailList(s: string): seq<string> {
    if s == "" then [] else TrimAll(SplitDetail(s))
  }

  /** The key named by a detail; none when the counts of columns and values differ. */
  function ParseDetail(line: string): Option<Key> {
    match MatchDetail(line)
    case NoMatch => None
    case Groups(colsText, valsText) =>
      var cols, vals := SplitDetailList(colsText), SplitDetailList(valsText);
      if |cols| == 0 || |cols| != |vals| then None
      else Some(seq(|cols|, i requires 0 <= i < |cols| => Part(cols[i], vals[i])))
  }

  /** The key read back from the detail the server writes for it. */
  function ConflictKey(key: Key): Option<Key> {
    if key == [] then None else ParseDetail(DetailLine(key))
  }

  predicate Recoverable(key: Key) {
    ConflictKey(key) == Some(key)
  }

  // ----- splitting a list

  predicate NoSeparator(v: string) {
    forall i :: 0 <= i < |v| - 1 ==> !(v[i] == ',' && v[i + 1] == ' ')
  }

  lemma {:induction false} SplitThrough(v: string, rest: string)
    requires NoSeparator(v)
    requires rest == "" || StartsSeparator(rest)
    ensures var r := SplitDetail(rest);
            SplitDetail(v + rest) == [v + r[0]] + r[1..]
  {
    var r := SplitDetail(rest);
    if v == "" {
      assert v + rest == rest && v + r[0] == r[0] && [r[0]] + r[1..] == r;
    } else {
      assert (v + rest)[1..] == v[1..] + rest;
      assert !StartsSeparator(v + rest) by {
        if |v| > 1 {
          assert !(v[0] == ',' && v[1] == ' ');
        }
      }
      forall i | 0 <= i < |v[1..]| - 1
        ensures !(v[1..][i] == ',' && v[1..][i + 1] == ' ')
      {
        assert !(v[i + 1] == ',' && v[i + 1 + 1] == ' ');
      }
      SplitThrough(v[1..], rest);
      assert [v[0]] + (v[1..] + r[0]) == v + r[0];
    }
  }

  lemma SplitWhole(v: string)
    requires NoSeparator(v)
    ensures SplitDetail(v) == [v]
  {
    SplitThrough(v, "");
    assert v + "" == v;
  }

  lemma SplitFirst(v: string, rest: string)
    requires NoSeparator(v)
    ensures SplitDetail(v + (", " + rest)) == [v] + SplitDetail(rest)
  {
    var more := ", " + rest;
    SplitThrough(v, more);
    assert more[2..] == rest;
    assert v + "" == v;
  }

  /** Splitting a joined list of values without separators gives the list back. */
  lemma {:induction false} SplitInvertsList(parts: seq<string>)
    requires parts != [] && forall i :: 0 <= i < |parts| ==> NoSeparator(parts[i])
    ensures SplitDetail(ListText(parts)) == parts
  {
    assert NoSeparator(parts[0]);
    if |parts| == 1 {
      SplitWhole(parts[0]);
    } else {
      SplitInvertsList(parts[1..]);
      SplitFirst(parts[0], ListText(parts[1..]));
      assert parts == [parts[0]] + parts[1..];
    }
  }

  lemma ListStep(first: string, more: seq<string>)
    requires more != []
    ensures ListText([first] + more) == first + (", " + ListText(more))
  {
    assert ([first] + more)[1..] == more;
  }

  lemma SplitStep(s: string)
    requires s != ""
    ensures SplitDetail(s) == if StartsSeparator(s) then [""] + SplitDetail(s[2..])
                              else [[s[0]] + SplitDetail(s[1..])[0]] + SplitDetail(s[1..])[1..]
  {
  }

  lemma GrownList(c: char, first: string, rest: seq<string>)
    ensures ListText([[c] + first] + rest) == [c] + ListText([first] + rest)
  {
    if rest == [] {
      assert [[c] + first] + rest == [[c] + first] && [first] + rest == [first];
    } else {
      ListStep(first, rest);
      ListStep([c] + first, rest);
      hide ListText;
      var more := ", " + ListText(rest);
      assert ([c] + first) + more == [c] + (first + more);
    }
  }

  /** Joining undoes splitting. */
  lemma {:induction false} ListOfSplit(s: string)
    ensures ListText(SplitDetail(s)) == s
  {
    if s != "" {
      SplitStep(s);
      hide SplitDetail, ListText;
      if StartsSeparator(s) {
        ListOfSplit(s[2..]);
        ListStep("", SplitDetail(s[2..]));
        assert s == "" + (", " + s[2..]);
      } else {
        ListOfSplit(s[1..]);
        var r := SplitDetail(s[1..]);
        assert r == [r[0]] + r[1..];
        GrownList(s[0], r[0], r[1..]);
        assert s == [s[0]] + s[1..];
      }
    }
  }

  /** The first piece is the text up to the first separator. */
  lemma {:induction false} FirstPiece(s: string)
    ensures var r := SplitDetail(s)[0];
            r <= s && NoSeparator(r) && (r == s || StartsSeparator(s[|r|..]))
  {
    if s != "" {
      SplitStep(s);
      hide SplitDetail;
      if !StartsSeparator(s) {
        var piece := SplitDetail(s[1..])[0];
        FirstPiece(s[1..]);
        PieceGrows(s, piece);
        assert s == [s[0]] + s[1..] && s[|piece| + 1..] == s[1..][|piece|..];
      }
    }
  }

  /** No piece holds a separator. */
  lemma {:induction false} PiecePlain(s: string, j: nat)
    requires j < |SplitDetail(s)|
    ensures NoSeparator(SplitDetail(s)[j])
    decreases |s|
  {
    if j == 0 {
      FirstPiece(s);
    } else {
      SplitStep(s);
      hide SplitDetail;
      if StartsSeparator(s) {
        PiecePlain(s[2..], j - 1);
      } else {
        PiecePlain(s[1..], j);
      }
    }
  }

  lemma PieceGrows(s: string, piece: string)
    requires s != "" && !StartsSeparator(s) && piece <= s[1..] && NoSeparator(piece)
    ensures NoSeparator([s[0]] + piece)
  {
    var grown := [s[0]] + piece;
    forall i | 0 <= i < |grown| - 1
      ensures !(grown[i] == ',' && grown[i + 1] == ' ')
    {
      if i > 0 {
        assert !(piece[i - 1] == ',' && piece[i - 1 + 1] == ' ');
      } else {
        assert piece[0] == s[1];
      }
    }
  }

  // ----- where the detail is cut

  /** The text holds what ends the columns, or a line break. */
  ghost predicate Misleads(s: string) {
    '\n' in s || exists p :: CutsAt(s, p)
  }

  lemma ConcatMisleads(a: string, b: string)
    ensures Misleads(a + (", " + b)) <==> Misleads(a) || Misleads(b)
  {
    var s, k := a + (", " + b), |a| + 2;
    assert forall i :: 0 <= i < |a| ==> s[i] == a[i];
    assert s[|a|] == ',' && s[|a| + 1] == ' ';
    assert forall i :: 0 <= i < |b| ==> s[k + i] == b[i];
    if p :| CutsAt(s, p) {
      if p < |a| {
        assert CutsAt(a, p);
      } else {
        assert CutsAt(b, p - k);
      }
    }
    if p :| CutsAt(a, p) {
      assert CutsAt(s, p);
    }
    if p :| CutsAt(b, p) {
      assert CutsAt(s, k + p);
    }
    if '\n' in b {
      var i :| 0 <= i < |b| && b[i] == '\n';
      assert s[k + i] == '\n';
    }
  }

  lemma {:induction false} ListMisleads(parts: seq<string>)
    requires parts != []
    ensures Misleads(ListText(parts)) <==> exists i :: 0 <= i < |parts| && Misleads(parts[i])
  {
    hide Misleads;
    if |parts| > 1 {
      ListMisleads(parts[1..]);
      ConcatMisleads(parts[0], ListText(parts[1..]));
      if Misleads(ListText(parts[1..])) {
        var i :| 0 <= i < |parts| - 1 && Misleads(parts[1..][i]);
        assert Misleads(parts[i + 1]);
      }
      if i :| 0 <= i < |parts| && Misleads(parts[i]) {
        assert i > 0 ==> Misleads(parts[1..][i - 1]);
      }
    }
  }

  lemma CutShift(c: string, v: string, p: int)
    requires p >= |c|
    ensures CutsAt(c + (CUT + v), p) <==> p == |c| || CutsAt(v, p - |c| - 3)
    ensures (c + (CUT + v))[|c| + 3..] == v && (c + (CUT + v))[..|c|] == c
  {
    var middle := c + (CUT + v);
    assert middle[|c|] == ')' && middle[|c| + 1] == '=' && middle[|c| + 2] == '(';
    assert forall i :: 0 <= i < |v| ==> middle[|c| + 3 + i] == v[i];
  }

  /** The columns never end early, and end where they should unless the values hold what ends them. */
  lemma MiddleCut(c: string, v: string)
    requires c != ""
    ensures var middle := c + (CUT + v);
            var cut := LastCut(middle, |middle|);
            && cut.Some? && cut.value >= |c|
            && (cut.value > |c| ==> cut.value >= |c| + 3)
            && (cut.value == |c| <==> forall p :: !CutsAt(v, p))
            && middle[|c| + 3..] == v && middle[..|c|] == c
  {
    var middle := c + (CUT + v);
    var cut := LastCut(middle, |middle|);
    CutShift(c, v, |c|);
    hide LastCut;
    NoNegativeCut(v);
    CutShift(c, v, cut.value);
    if p :| CutsAt(v, p) {
      CutShift(c, v, |c| + 3 + p);
    }
    hide CutsAt;
  }

  lemma NoNegativeCut(s: string)
    ensures forall p :: CutsAt(s, p) ==> 0 <= p < |s|
  {
  }

  lemma MatchOf(middle: string)
    ensures MatchDetail(LEAD + middle + TRAIL) == MatchMiddle(middle)
  {
    hide MatchMiddle;
    Framed(LEAD, middle, TRAIL);
  }

  lemma Framed(lead: string, middle: string, trail: string)
    ensures var line := lead + middle + trail;
            && lead <= line && line[|line| - |trail|..] == trail
            && |line| >= |lead| + |trail| && line[|lead|..|line| - |trail|] == middle
  {
  }

  lemma Breaks(c: string, v: string)
    ensures '\n' in c + (CUT + v) <==> '\n' in c || '\n' in v
  {
    var middle := c + (CUT + v);
    assert forall i :: 0 <= i < |c| ==> middle[i] == c[i];
    assert forall i :: 0 <= i < |v| ==> middle[|c| + 3 + i] == v[i];
    assert middle == c + CUT + v && '\n' !in CUT;
  }

  /** The groups of a printed detail: where the values hold what ends the columns, some of them stray
      into the columns. */
  lemma DetailGroups(c: string, v: string)
    requires c != ""
    ensures var g := MatchDetail(LEAD + (c + (CUT + v)) + TRAIL);
            && (g == NoMatch <==> '\n' in c || '\n' in v)
            && (g.Groups? ==> if forall p :: !CutsAt(v, p) then g == Groups(c, v) else Strays(g.cols, c))
  {
    var middle := c + (CUT + v);
    hide LastCut, MatchDetail, CutsAt;
    MatchOf(middle);
    MiddleCut(c, v);
    Breaks(c, v);
    var cut := LastCut(middle, |middle|).value;
    if cut > |c| {
      assert middle[..cut] == c + (CUT + v[..cut - |c| - 3]);
    }
  }

  ghost predicate Strays(cols: string, c: string) {
    exists extra :: cols == c + (CUT + extra)
  }

  // ----- reading the columns

  lemma SimplePlain(column: string)
    requires Simple(column)
    ensures Tight(column) && NoSeparator(column) && !Misleads(column) && ColumnText(column) == column
  {
  }

  lemma QuotedStart(column: string, rest: string)
    ensures var s, k := QuoteIdent(column) + rest, QuoteRun(column);
            var n := if k < |column| then 2 * k + 1 else 2 * k + 2;
            n <= |s| && forall i :: 0 <= i < n ==> s[i] == '"'
  {
    var k := QuoteRun(column);
    var doubled := Doubled(column, '"');
    LeadingQuotes(column, k);
    assert QuoteIdent(column) + rest == "\"" + (doubled + ("\"" + rest));
    if k == |column| {
      AllQuotes(column);
    }
  }

  /** A quoted name is never read back: it starts with more quotes than the name. */
  lemma QuotedUnread(column: string, rest: string)
    ensures Trim(SplitDetail(QuoteIdent(column) + rest)[0]) != column
  {
    var s, k := QuoteIdent(column) + rest, QuoteRun(column);
    QuotedStart(column, rest);
    var piece := SplitDetail(s)[0];
    FirstPiece(s);
    var n := if k < |column| then 2 * k + 1 else 2 * k + 2;
    PieceLength(s, n);
    hide SplitDetail, QuoteIdent;
    assert forall i :: 0 <= i < n ==> piece[i] == '"';
    TrimQuotes(piece, n);
    TrimKeepsStart(piece);
    assert Trim(piece)[k] == piece[k] == '"';
  }

  /** Length of the run of quotes a text starts with. */
  function QuoteRun(s: string): (k: nat)
    ensures k <= |s| && (forall i :: 0 <= i < k ==> s[i] == '"') && (k < |s| ==> s[k] != '"')
  {
    if s != "" && s[0] == '"' then 1 + QuoteRun(s[1..]) else 0
  }

  lemma {:induction false} AllQuotes(s: string)
    requires QuoteRun(s) == |s|
    ensures |Doubled(s, '"')| == 2 * |s|
  {
    if s != "" {
      AllQuotes(s[1..]);
    }
  }

  lemma {:induction false} TrimKeepsStart(s: string)
    requires s == "" || !IsSpace(s[0])
    ensures Trim(s) <= s
  {
    assert TrimLeft(s) == s;
  }

  lemma PieceLength(s: string, n: nat)
    requires n <= |s| && forall i :: 0 <= i < n ==> s[i] == '"'
    ensures |SplitDetail(s)[0]| >= n
  {
    FirstPiece(s);
    var r := SplitDetail(s)[0];
    assert r == s || s[|r|] == ',';
  }

  lemma {:induction false} TrimQuotes(s: string, n: nat)
    requires 1 <= n <= |s| && forall i :: 0 <= i < n ==> s[i] == '"'
    ensures |Trim(s)| >= n
  {
    assert TrimLeft(s) == s;
    TrimRightQuotes(s, n);
  }

  lemma {:induction false} TrimRightQuotes(s: string, n: nat)
    requires 1 <= n <= |s| && forall i :: 0 <= i < n ==> s[i] == '"'
    ensures |TrimRight(s)| >= n
    decreases |s|
  {
    if IsSpace(s[|s| - 1]) {
      TrimRightQuotes(s[..|s| - 1], n);
    }
  }

  lemma {:induction false} TrimmedTail(s: string, c: string)
    requires TrimRight(s) == c && |c| < |s|
    ensures IsSpace(s[|c|])
    decreases |s|
  {
    if |c| < |s| - 1 {
      TrimmedTail(s[..|s| - 1], c);
    }
  }

  lemma OnePiece(s: string)
    requires |SplitDetail(s)| == 1
    ensures SplitDetail(s)[0] == s
  {
    ListOfSplit(s);
  }

  lemma LastColumn(c: string, x: string)
    requires x == "" || x[0] == ')'
    requires TrimAll(SplitDetail(ColumnText(c) + x)) == [c]
    ensures Simple(c) && x == ""
  {
    var s := ColumnText(c) + x;
    var pieces := SplitDetail(s);
    assert TrimAll(pieces)[0] == Trim(pieces[0]);
    if !Simple(c) {
      QuotedUnread(c, x);
    } else {
      OnePiece(s);
      SimplePlain(c);
      assert TrimLeft(s) == s;
      assert x != "" ==> s[|c|] == x[0];
      if x != "" {
        TrimmedTail(s, c);
      }
    }
  }

  lemma ColumnsStep(c: string, rest: seq<string>, more: string)
    requires TrimAll(SplitDetail(ColumnText(c) + (", " + more))) == [c] + rest
    ensures Simple(c) && TrimAll(SplitDetail(more)) == rest
  {
    var s := ColumnText(c) + (", " + more);
    assert TrimAll(SplitDetail(s))[0] == Trim(SplitDetail(s)[0]);
    if !Simple(c) {
      QuotedUnread(c, ", " + more);
    } else {
      SimplePlain(c);
      SplitFirst(c, more);
      hide SplitDetail, Trim, Simple, ColumnText;
      assert TrimAll(SplitDetail(s))[1..] == TrimAll(SplitDetail(more));
    }
  }

  /** The columns read back are the key's only when no name is quoted and nothing strays into them. */
  lemma {:induction false} ColumnsRead(columns: seq<string>, x: string)
    requires columns != [] && (x == "" || x[0] == ')')
    requires TrimAll(SplitDetail(ListText(Shown(columns)) + x)) == columns
    ensures x == "" && forall i :: 0 <= i < |columns| ==> Simple(columns[i])
  {
    hide *;
    var c, rest := columns[0], columns[1..];
    ListShown(columns);
    assert columns == [c] + rest;
    if |columns| == 1 {
      LastColumn(c, x);
    } else {
      var list := ListText(Shown(rest));
      Regroup(ColumnText(c), list, x);
      ColumnsStep(c, rest, list + x);
      ColumnsRead(rest, x);
    }
  }

  lemma Regroup(a: string, b: string, x: string)
    ensures (a + (", " + b)) + x == a + (", " + (b + x))
  {
  }

  lemma ListShown(columns: seq<string>)
    requires columns != []
    ensures ListText(Shown(columns))
            == if |columns| == 1 then ColumnText(columns[0])
               else ColumnText(columns[0]) + (", " + ListText(Shown(columns[1..])))
  {
    hide ColumnText;
    ShownCons(columns);
    if |columns| > 1 {
      ListStep(ColumnText(columns[0]), Shown(columns[1..]));
    }
  }

  lemma ShownCons(columns: seq<string>)
    requires columns != []
    ensures Shown(columns) == [ColumnText(columns[0])] + Shown(columns[1..])
  {
  }

  // ----- reading the values

  lemma {:induction false} TrimSame(parts: seq<string>)
    requires parts != []
    ensures |ListText(TrimAll(parts))| <= |ListText(parts)|
    ensures |ListText(TrimAll(parts))| == |ListText(parts)| ==> TrimAll(parts) == parts
  {
    TrimShorter(parts[0]);
    if |parts| > 1 {
      TrimSame(parts[1..]);
      assert TrimAll(parts) == [Trim(parts[0])] + TrimAll(parts[1..]);
      ListStep(Trim(parts[0]), TrimAll(parts[1..]));
      assert parts == [parts[0]] + parts[1..];
      hide Trim;
    } else {
      assert TrimAll(parts) == [Trim(parts[0])];
      assert parts == [parts[0]];
    }
  }

  lemma {:induction false} TrimShorter(s: string)
    ensures |Trim(s)| <= |s| && (|Trim(s)| == |s| ==> Trim(s) == s)
  {
    if |Trim(s)| == |s| {
      assert |TrimLeft(s)| == |s| && TrimLeft(s) == s;
      assert TrimRight(s) <= s;
    }
  }

  lemma ValuesRead(values: seq<string>, i: nat)
    requires values != [] && TrimAll(SplitDetail(ListText(values))) == values && i < |values|
    ensures Tight(values[i]) && NoSeparator(values[i])
  {
    var pieces := SplitDetail(ListText(values));
    ListOfSplit(ListText(values));
    TrimSame(pieces);
    assert values == pieces && TrimAll(pieces)[i] == Trim(pieces[i]);
    TrimIdempotent(pieces[i]);
    PiecePlain(ListText(values), i);
  }

  // ----- which keys come back

  /** A value the detail keeps apart from its neighbours and from the columns. */
  ghost predicate PlainValue(v: string) {
    Tight(v) && NoSeparator(v) && !Misleads(v)
  }

  ghost predicate PlainKey(key: Key) {
    && key != []
    && (forall i :: 0 <= i < |key| ==> Simple(key[i].column) && PlainValue(key[i].value))
    && !(|key| == 1 && key[0].value == "")
  }

  lemma TrimTightAll(parts: seq<string>)
    requires forall i :: 0 <= i < |parts| ==> Tight(parts[i])
    ensures TrimAll(parts) == parts
  {
    forall i | 0 <= i < |parts|
      ensures Trim(parts[i]) == parts[i]
    {
      TrimTight(parts[i]);
    }
  }

  lemma ListNonempty(parts: seq<string>)
    requires parts != []
    ensures ListText(parts) == "" ==> parts == [""]
  {
    if |parts| == 1 {
      assert parts == [parts[0]];
    }
  }

  lemma KeyOf(key: Key, cols: seq<string>, vals: seq<string>)
    requires |cols| == |vals|
    ensures seq(|cols|, i requires 0 <= i < |cols| => Part(cols[i], vals[i])) == key
            <==> cols == Columns(key) && vals == Values(key)
  {
    var read := seq(|cols|, i requires 0 <= i < |cols| => Part(cols[i], vals[i]));
    if read == key {
      assert forall i :: 0 <= i < |cols| ==> read[i] == Part(cols[i], vals[i]);
    }
  }

  lemma NothingMisleads(v: string)
    ensures Misleads(v) <==> '\n' in v || !(forall p :: !CutsAt(v, p))
  {
  }

  lemma ParsedAs(key: Key, g: Groups)
    requires key != [] && g == MatchDetail(DetailLine(key))
    ensures Recoverable(key) <==>
              g.Groups? && SplitDetailList(g.cols) == Columns(key) && SplitDetailList(g.vals) == Values(key)
  {
    hide MatchDetail, DetailLine, SplitDetailList;
    if g.Groups? && |SplitDetailList(g.cols)| == |SplitDetailList(g.vals)| {
      KeyOf(key, SplitDetailList(g.cols), SplitDetailList(g.vals));
    }
  }

  lemma PlainRecoverable(key: Key)
    requires PlainKey(key)
    ensures Recoverable(key)
  {
    var columns, values := Columns(key), Values(key);
    var c, v := ListText(Shown(columns)), ListText(values);
    forall i | 0 <= i < |key|
      ensures Simple(columns[i]) && PlainValue(values[i]) && Shown(columns)[i] == columns[i]
      ensures Tight(columns[i]) && NoSeparator(columns[i]) && !Misleads(columns[i])
    {
      assert Simple(key[i].column) && PlainValue(key[i].value);
      SimplePlain(columns[i]);
    }
    assert Shown(columns) == columns;
    hide Misleads, Simple, ColumnText, Shown;
    ListMisleads(columns);
    ListMisleads(values);
    NothingMisleads(c);
    NothingMisleads(v);
    SplitInvertsList(columns);
    SplitInvertsList(values);
    TrimTightAll(columns);
    TrimTightAll(values);
    ListNonempty(columns);
    ListNonempty(values);
    NotSimple();
    assert columns[0] != "";
    DetailGroups(c, v);
    ParsedAs(key, MatchDetail(DetailLine(key)));
  }

  lemma NotSimple()
    ensures !Simple("")
  {
  }

  lemma {:induction false} ShownNonempty(columns: seq<string>)
    requires columns != []
    ensures ListText(Shown(columns)) != ""
  {
    ListNonempty(Shown(columns));
    assert Shown(columns)[0] == ColumnText(columns[0]) != "";
  }

  /** Of a recovered key nothing strayed into the columns and no name is quoted. */
  lemma RecoveredColumns(columns: seq<string>, v: string, g: Groups)
    requires columns != [] && g.Groups?
    requires var c := ListText(Shown(columns));
             if forall p :: !CutsAt(v, p) then g == Groups(c, v) else Strays(g.cols, c)
    requires SplitDetailList(g.cols) == columns
    ensures (forall i :: 0 <= i < |columns| ==> Simple(columns[i])) && (forall p :: !CutsAt(v, p))
  {
    hide Simple, Shown, ListText, SplitDetail, TrimAll;
    var c, x := ListText(Shown(columns)), "";
    if !(forall p :: !CutsAt(v, p)) {
      var extra :| g.cols == c + (CUT + extra);
      x := CUT + extra;
    }
    hide CutsAt;
    assert x == "" ==> c + x == c;
    assert g.cols == c + x;
    ColumnsRead(columns, x);
  }

  lemma RecoveredPlain(key: Key)
    requires key != [] && Recoverable(key)
    ensures PlainKey(key)
  {
    var columns, values := Columns(key), Values(key);
    var c, v := ListText(Shown(columns)), ListText(values);
    var g := MatchDetail(DetailLine(key));
    ShownNonempty(columns);
    DetailGroups(c, v);
    ParsedAs(key, g);
    hide Misleads, Simple, Shown, ListText, MatchDetail, DetailLine, SplitDetail, TrimAll, Recoverable, CutsAt, Strays;
    RecoveredColumns(columns, v, g);
    NothingMisleads(v);
    ListMisleads(values);
    forall i | 0 <= i < |key|
      ensures Simple(key[i].column) && PlainValue(key[i].value)
    {
      assert Simple(columns[i]);
      ValuesRead(values, i);
    }
    SingleText("");
    assert |key| == 1 ==> values == [key[0].value];
  }

  lemma SingleText(v: string)
    ensures ListText([v]) == v
  {
  }

  /** A key is recovered from the detail the server writes for it exactly when its columns need no
      quotes and its values are trimmed and hold no separator, no line break and nothing that ends the
      column list, the single empty value excepted. */
  lemma RecoverableExact(key: Key)
    ensures Recoverable(key) <==> PlainKey(key)
  {
    if PlainKey(key) {
      PlainRecoverable(key);
    }
    if key != [] && Recoverable(key) {
      RecoveredPlain(key);
    }
  }

  /** A line break in a value, a value that looks like the end of the columns, or a quoted column
      keeps a conflict from being resolved. */
  lemma Unrecovered()
    ensures !Recoverable([Part("id", "a\nb")])
    ensures !Recoverable([Part("id", "a)=(b")])
    ensures !Recoverable([Part("Id", "a")])
  {
    RecoverableExact([Part("id", "a\nb")]);
    RecoverableExact([Part("id", "a)=(b")]);
    RecoverableExact([Part("Id", "a")]);
    hide Recoverable;
    assert "a\nb"[1] == '\n';
    assert CutsAt("a)=(b", 1);
    assert "Id"[0] == 'I';
  }
}
