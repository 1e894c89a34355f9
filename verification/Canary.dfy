/** Planning the two canary rows that are seeded into a probe table. */
module Canary {
  import opened Oid
  import opened Quoting
  import opened Text

  const CANARY_A := "tgd-canary-aaaa"
  const CANARY_B := "tgd-canary-bbbb"
  const CANARY_A_UUID := "00000000-0000-4000-8000-0000000000a1"
  const CANARY_B_UUID := "00000000-0000-4000-8000-0000000000b2"

  datatype Column = Column(name: string, pgType: string, notNull: bool, hasDefault: bool, isIdentity: bool)

  // ----- types

  function IndexOf(s: string, c: char): (r: nat)
    ensures r <= |s|
  {
    if s == "" || s[0] == c then 0 else 1 + IndexOf(s[1..], c)
  }

  /** The type's text without a parenthesised modifier; a modifier at the very start stays. */
  function CutModifier(s: string): (r: string)
    ensures |r| <= |s|
  {
    var i := IndexOf(s, '(');
    if 0 < i < |s| then s[..i] else s
  }

  predicate IsArray(pgType: string) {
    var s := Lower(Trim(pgType));
    |s| >= 2 && s[|s| - 2..] == "[]"
  }

  function BaseType(pgType: string): (r: string)
    ensures |r| <= |pgType|
    ensures IsArray(pgType) ==> |r| < |pgType|
  {
    var s := Lower(Trim(pgType));
    Trim(CutModifier(if IsArray(pgType) then s[..|s| - 2] else s))
  }

  datatype Kind = Whole | Fraction | Boolean | Textual | Uuid | Timestamp | Date | Time | Json | Bytea | Inet | Interval | Other

  function KindOf(base: string): Kind {
    match base
    case "smallint" => Whole
    case "integer" => Whole
    case "bigint" => Whole
    case "real" => Fraction
    case "double precision" => Fraction
    case "numeric" => Fraction
    case "decimal" => Fraction
    case "boolean" => Boolean
    case "text" => Textual
    case "character varying" => Textual
    case "character" => Textual
    case "name" => Textual
    case "citext" => Textual
    case "uuid" => Uuid
    case "timestamp with time zone" => Timestamp
    case "timestamp without time zone" => Timestamp
    case "date" => Date
    case "time without time zone" => Time
    case "time with time zone" => Time
    case "json" => Json
    case "jsonb" => Json
    case "bytea" => Bytea
    case "inet" => Inet
    case "cidr" => Inet
    case "interval" => Interval
    case _ => Other
  }

  // ----- sample literals

  function ZeroPadded(s: string, width: nat): string
    decreases width - |s|
  {
    if |s| >= width then s else ZeroPadded("0" + s, width)
  }

  /** What the literal for row index i starts with, varies in, and ends with. */
  function Lead(kind: Kind, base: string): string {
    match kind
    case Textual => "'tgd-"
    case Uuid => "'00000000-0000-4000-8000-"
    case Timestamp => "(now() + ("
    case Date => "(current_date + "
    case Time => "('00:00:00'::" + base + " + ("
    case Json => "'{\"tgd\":"
    case Bytea => "'\\x"
    case Inet => "'127.0.0."
    case Interval => "'"
    case _ => ""
  }

  function Varying(kind: Kind, i: nat): string {
    match kind
    case Whole => Decimal(1000 + i)
    case Fraction => Decimal(1000 + i)
    case Boolean => if i % 2 == 0 then "false" else "true"
    case Uuid => ZeroPadded(Decimal(i), 12)
    case Bytea => HexByte(i % 256)
    case Inet => Decimal(1 + i % 254)
    case Interval => Decimal(1 + i)
    case _ => Decimal(i)
  }

  function Trail(kind: Kind, base: string): string {
    match kind
    case Fraction => ".0"
    case Textual => "'"
    case Uuid => "'::uuid"
    case Timestamp => " * interval '1 microsecond'))"
    case Date => ")"
    case Time => " * interval '1 second'))"
    case Json => "}'::" + base
    case Bytea => "'::bytea"
    case Inet => "'::" + base
    case Interval => " seconds'::interval"
    case _ => ""
  }

  function SampleValue(pgType: string, i: nat): Option<string>
    decreases |pgType|
  {
    var base := BaseType(pgType);
    if IsArray(pgType) then
      if base == "" then None
      else
        match SampleValue(base, i)
        case Some(element) => Some("ARRAY[" + element + ("]::" + base + "[]"))
        case None => Some("'{}'::" + base + "[]")
    else if KindOf(base).Other? then None
    else Some(Lead(KindOf(base), base) + Varying(KindOf(base), i) + Trail(KindOf(base), base))
  }

  /** The type has sample values that tell two rows apart: it is, under any depth of arrays, a type
      the dispatch knows. */
  predicate IsSampled(pgType: string)
    decreases |pgType|
  {
    var base := BaseType(pgType);
    if IsArray(pgType) then base != "" && IsSampled(base) else !KindOf(base).Other?
  }

  lemma DecimalInjective(m: nat, n: nat)
    ensures Decimal(m) == Decimal(n) <==> m == n
  {
    SignedDecimalInjective(m, n);
  }

  lemma {:induction false} NumberOfZero(s: string)
    ensures NumberOf("0" + s) == NumberOf(s)
    decreases |s|
  {
    var t := "0" + s;
    if s == "" {
      assert t[..0] == "";
    } else {
      assert t[..|t| - 1] == "0" + s[..|s| - 1];
      NumberOfZero(s[..|s| - 1]);
    }
  }

  lemma {:induction false} PaddedNumber(s: string, width: nat)
    ensures NumberOf(ZeroPadded(s, width)) == NumberOf(s)
    decreases width - |s|
  {
    if |s| < width {
      PaddedNumber("0" + s, width);
      NumberOfZero(s);
    }
  }

  lemma PaddedInjective(m: nat, n: nat)
    ensures ZeroPadded(Decimal(m), 12) == ZeroPadded(Decimal(n), 12) ==> m == n
  {
    PaddedNumber(Decimal(m), 12);
    PaddedNumber(Decimal(n), 12);
    DecimalNumber(m);
    DecimalNumber(n);
    hide ZeroPadded, NumberOf, Decimal;
  }

  /** Quotient and remainder are unique. */
  lemma Remainder(x: nat, q: nat, r: nat, n: nat)
    requires r < n && x == q * n + r
    ensures x % n == r
  {
    var d := x / n - q;
    assert d * n == r - x % n;
    assert d >= 1 ==> d * n >= n;
    assert d <= -1 ==> d * n + n <= 0;
  }

  /** Stepping by one moves the remainder by one, or back to zero. */
  lemma NextRemainder(i: nat, n: nat)
    requires n > 0
    ensures (i + 1) % n == if i % n == n - 1 then 0 else i % n + 1
  {
    var q, r := i / n, i % n;
    assert i == q * n + r;
    Remainder(i + 1, if r == n - 1 then q + 1 else q, if r == n - 1 then 0 else r + 1, n);
  }

  lemma BytesDiffer(k: nat)
    ensures HexByte(2 * k % 256) != HexByte((2 * k + 1) % 256)
  {
    NextRemainder(2 * k, 256);
    HexByteInjective(2 * k % 256, (2 * k + 1) % 256);
    hide *;
  }

  lemma HostsDiffer(k: nat)
    ensures Decimal(1 + 2 * k % 254) != Decimal(1 + (2 * k + 1) % 254)
  {
    NextRemainder(2 * k, 254);
    DecimalInjective(1 + 2 * k % 254, 1 + (2 * k + 1) % 254);
    hide *;
  }

  lemma BooleansDiffer(k: nat)
    ensures Varying(Boolean, 2 * k) != Varying(Boolean, 2 * k + 1)
  {
    assert 2 * k % 2 == 0 && (2 * k + 1) % 2 == 1;
  }

  lemma VaryingDiffers(kind: Kind, k: nat)
    ensures Varying(kind, 2 * k) != Varying(kind, 2 * k + 1)
  {
    hide Decimal, ZeroPadded, HexByte;
    match kind
    case Boolean => BooleansDiffer(k);
    case Uuid => PaddedInjective(2 * k, 2 * k + 1);
    case Bytea => BytesDiffer(k);
    case Inet => HostsDiffer(k);
    case Whole => DecimalInjective(1000 + 2 * k, 1000 + (2 * k + 1));
    case Fraction => DecimalInjective(1000 + 2 * k, 1000 + (2 * k + 1));
    case Interval => DecimalInjective(1 + 2 * k, 1 + (2 * k + 1));
    case _ => DecimalInjective(2 * k, 2 * k + 1);
  }

  lemma HexByteInjective(a: nat, b: nat)
    requires a < 256 && b < 256
    ensures HexByte(a) == HexByte(b) ==> a == b
  {
    if HexByte(a) == HexByte(b) {
      assert HexByte(a)[0] == HexByte(b)[0] && HexByte(a)[1] == HexByte(b)[1];
    }
  }

  /** Row indices 2k and 2k+1 are both sampled or both not, and their literals differ exactly for
      the types the dispatch knows and arrays of them. */
  lemma {:induction false} SamplesDiffer(pgType: string, k: nat)
    ensures SampleValue(pgType, 2 * k).Some? <==> SampleValue(pgType, 2 * k + 1).Some?
    ensures SampleValue(pgType, 2 * k).Some? ==>
              (SampleValue(pgType, 2 * k) != SampleValue(pgType, 2 * k + 1) <==> IsSampled(pgType))
    ensures IsSampled(pgType) ==> SampleValue(pgType, 2 * k).Some?
    decreases |pgType|
  {
    var base := BaseType(pgType);
    hide BaseType, Lead, Trail, Varying, KindOf, IsArray;
    if IsArray(pgType) {
      if base != "" {
        SamplesDiffer(base, k);
        var x, y := SampleValue(base, 2 * k), SampleValue(base, 2 * k + 1);
        if x.Some? {
          FrameInjective("ARRAY[", x.value, y.value, "]::" + base + "[]");
        }
      }
    } else {
      var kind := KindOf(base);
      VaryingDiffers(kind, k);
      FrameInjective(Lead(kind, base), Varying(kind, 2 * k), Varying(kind, 2 * k + 1), Trail(kind, base));
    }
  }

  lemma {:induction false} IndexAt(s: string, c: char, k: nat)
    requires k < |s| && s[k] == c && forall i :: 0 <= i < k ==> s[i] != c
    ensures IndexOf(s, c) == k
  {
    if k > 0 {
      IndexAt(s[1..], c, k - 1);
    }
  }

  /** Cutting at the modifier drops what follows it, so a time type with a precision, such as
      `timestamp(3) with time zone`, is not a type the dispatch knows. */
  lemma PrecisionUnknown(pgType: string, word: string)
    requires word == "timestamp" || word == "time"
    requires word + "(" <= Lower(Trim(pgType)) && !IsArray(pgType)
    ensures BaseType(pgType) == word && !IsSampled(pgType)
  {
    WordTight(word);
    WordCut(Lower(Trim(pgType)), word);
    TrimTight(word);
    BareWords();
    hide KindOf, Trim, CutModifier, Lower, IndexOf;
  }

  lemma WordCut(s: string, word: string)
    requires word + "(" <= s && word != "" && forall i :: 0 <= i < |word| ==> word[i] != '('
    ensures CutModifier(s) == word
  {
    assert (word + "(")[|word|] == '(';
    assert s[|word|] == '(' && s[..|word|] == word;
    IndexAt(s, '(', |word|);
  }

  lemma WordTight(word: string)
    requires word == "timestamp" || word == "time"
    ensures Tight(word) && word != "" && forall i :: 0 <= i < |word| ==> word[i] != '('
  {
  }

  lemma BareWords()
    ensures KindOf("timestamp").Other? && KindOf("time").Other?
  {
  }

  // ----- enum labels

  /** The labels of each enum type, in sort order. */
  type Catalog = map<string, seq<string>>

  function Labels(catalog: Catalog, pgType: string): seq<string> {
    var base := BaseType(pgType);
    if !IsArray(pgType) && base in catalog then catalog[base] else []
  }

  predicate DistinctLabels(labels: seq<string>) {
    forall i, j :: 0 <= i < j < |labels| ==> labels[i] != labels[j]
  }

  function EnumSampleValue(catalog: Catalog, pgType: string, i: nat): Option<string> {
    var labels := Labels(catalog, pgType);
    if labels == [] then None
    else Some("'" + Doubled(labels[(i % |labels| + |labels|) % |labels|], '\'') + ("'::" + QuoteIdent(pgType)))
  }

  lemma EnumSamplesDiffer(catalog: Catalog, pgType: string, k: nat)
    requires DistinctLabels(Labels(catalog, pgType)) && Labels(catalog, pgType) != []
    ensures EnumSampleValue(catalog, pgType, 2 * k) != EnumSampleValue(catalog, pgType, 2 * k + 1)
            <==> |Labels(catalog, pgType)| >= 2
  {
    var labels := Labels(catalog, pgType);
    var i, j := LabelIndex(2 * k, |labels|), LabelIndex(2 * k + 1, |labels|);
    LabelIndices(k, |labels|);
    hide Labels, QuoteIdent;
    FrameInjective("'", Doubled(labels[i], '\''), Doubled(labels[j], '\''), "'::" + QuoteIdent(pgType));
    if Doubled(labels[i], '\'') == Doubled(labels[j], '\'') {
      DoubledInjective(labels[i], labels[j], '\'');
    }
  }

  function LabelIndex(i: nat, n: nat): (r: nat)
    requires n > 0
    ensures r < n
  {
    (i % n + n) % n
  }

  lemma LabelIndices(k: nat, n: nat)
    requires n > 0
    ensures LabelIndex(2 * k, n) != LabelIndex(2 * k + 1, n) <==> n >= 2
  {
    var r, next := 2 * k % n, (2 * k + 1) % n;
    NextRemainder(2 * k, n);
    Remainder(r + n, 1, r, n);
    Remainder(next + n, 1, next, n);
  }

  function ColumnSampleValue(catalog: Catalog, pgType: string, i: nat): Option<string> {
    match SampleValue(pgType, i)
    case Some(v) => Some(v)
    case None => EnumSampleValue(catalog, pgType, i)
  }

  /** The type can tell two canary rows apart. */
  predicate Distinguishes(catalog: Catalog, pgType: string) {
    IsSampled(pgType) || (SampleValue(pgType, 0).None? && |Labels(catalog, pgType)| >= 2)
  }

  /** The two canary rows' sample values for one column exist together and differ exactly when the
      type can tell rows apart. */
  lemma ColumnSamplesDiffer(catalog: Catalog, pgType: string, k: nat)
    requires DistinctLabels(Labels(catalog, pgType))
    ensures var x, y := ColumnSampleValue(catalog, pgType, 2 * k), ColumnSampleValue(catalog, pgType, 2 * k + 1);
            && (x.Some? <==> y.Some?)
            && (x != y <==> Distinguishes(catalog, pgType))
  {
    SamplesDiffer(pgType, k);
    SampledAlways(pgType, 2 * k, 0);
    hide IsSampled, SampleValue;
    if Labels(catalog, pgType) != [] {
      EnumSamplesDiffer(catalog, pgType, k);
    }
  }

  /** Whether a type is sampled does not depend on the row. */
  lemma SampledAlways(pgType: string, i: nat, j: nat)
    ensures SampleValue(pgType, i).Some? <==> SampleValue(pgType, j).Some?
  {
  }

  // ----- the tenant column

  function CanaryText(pgType: string, canary: string): Option<string> {
    var kind := KindOf(BaseType(pgType));
    if IsArray(pgType) then None
    else if kind.Uuid? then
      if canary == CANARY_A then Some(CANARY_A_UUID)
      else if canary == CANARY_B then Some(CANARY_B_UUID)
      else None
    else if kind.Textual? then Some(canary)
    else None
  }

  function CanaryLiteral(pgType: string, canary: string): Option<string> {
    match CanaryText(pgType, canary)
    case None => None
    case Some(text) => Some("'" + text + if KindOf(BaseType(pgType)).Uuid? then "'::uuid" else "'")
  }

  /** The two canaries are seeded as different tenants, wherever the type can hold one at all. */
  lemma CanariesDiffer(pgType: string)
    ensures CanaryLiteral(pgType, CANARY_A).Some? <==> CanaryLiteral(pgType, CANARY_B).Some?
    ensures CanaryLiteral(pgType, CANARY_A).Some? ==>
              CanaryLiteral(pgType, CANARY_A) != CanaryLiteral(pgType, CANARY_B)
  {
    var kind := KindOf(BaseType(pgType));
    hide KindOf, BaseType, IsArray;
    assert CANARY_A[|CANARY_A| - 1] != CANARY_B[|CANARY_B| - 1];
    assert CANARY_A_UUID[|CANARY_A_UUID| - 1] != CANARY_B_UUID[|CANARY_B_UUID| - 1];
    var a, b := CanaryText(pgType, CANARY_A), CanaryText(pgType, CANARY_B);
    if a.Some? {
      FrameInjective("'", a.value, b.value, if kind.Uuid? then "'::uuid" else "'");
    }
  }

  // ----- columns that need a value of their own

  function Members(index: seq<string>, n: nat): set<string>
    requires n <= |index|
  {
    if n == 0 then {} else Members(index, n - 1) + {index[n - 1]}
  }

  lemma {:induction false} MembersAll(index: seq<string>, n: nat, c: string)
    requires n <= |index|
    ensures c in Members(index, n) <==> c in index[..n]
  {
    if n > 0 {
      MembersAll(index, n - 1, c);
      assert index[..n] == index[..n - 1] + [index[n - 1]];
    }
  }

  /** Members of the first n unique indexes that do not include the tenant column. */
  ghost function Needed(sets: seq<seq<string>>, n: nat, tenantColumn: string): set<string>
    requires n <= |sets|
  {
    if n == 0 then {}
    else Needed(sets, n - 1, tenantColumn)
         + if tenantColumn in sets[n - 1] then {} else Members(sets[n - 1], |sets[n - 1]|)
  }

  lemma {:induction false} NeededMember(sets: seq<seq<string>>, n: nat, tenantColumn: string, c: string)
    requires n <= |sets|
    ensures c in Needed(sets, n, tenantColumn)
            <==> exists k :: 0 <= k < n && tenantColumn !in sets[k] && c in sets[k]
  {
    if n > 0 {
      NeededMember(sets, n - 1, tenantColumn, c);
      MembersAll(sets[n - 1], |sets[n - 1]|, c);
    }
  }

  method ColumnsNeedingSyntheticValues(sets: seq<seq<string>>, tenantColumn: string) returns (need: set<string>)
    ensures forall c :: c in need <==> exists k :: 0 <= k < |sets| && tenantColumn !in sets[k] && c in sets[k]
  {
    need := {};
    var k := 0;
    while k < |sets|
      invariant 0 <= k <= |sets|
      invariant need == Needed(sets, k, tenantColumn)
    {
      var index := sets[k];
      k := k + 1;
      var includesTenant := false;
      var i := 0;
      while i < |index|
        invariant 0 <= i <= |index|
        invariant !includesTenant && tenantColumn !in index[..i]
      {
        if index[i] == tenantColumn {
          includesTenant := true;
          break;
        }
        i := i + 1;
      }
      if includesTenant {
        assert tenantColumn in index;
        continue;
      }
      assert index[..|index|] == index;
      ghost var before := need;
      i := 0;
      while i < |index|
        invariant 0 <= i <= |index|
        invariant need == before + Members(index, i)
      {
        need := need + {index[i]};
        i := i + 1;
      }
    }
    forall c
      ensures c in need <==> exists k :: 0 <= k < |sets| && tenantColumn !in sets[k] && c in sets[k]
    {
      NeededMember(sets, |sets|, tenantColumn, c);
    }
  }

  // ----- one row's plan

  /** What planning a row of the relation depends on, besides its columns. */
  datatype Seeding = Seeding(tenantColumn: string, need: set<string>, catalog: Catalog)

  datatype Choice =
    | Omit
    | Use(expr: string)
    | Refuse(column: string, pgType: string)

  /** The columns of the INSERT and the SQL expression for each. */
  datatype Plan =
    | Planned(insertCols: seq<string>, exprs: seq<string>)
    | Refused(column: string, pgType: string)

  /** Where a column's value comes from when nothing else decides it. */
  type Borrow = Column -> Option<string>

  /** Copying from a sampled row: a plain column reference. */
  const BORROW_SAMPLED: Borrow := (c: Column) => Some(QuoteIdent(c.name))

  function OrRefuse(c: Column, expr: Option<string>): Choice {
    if expr.Some? then Use(expr.value) else Refuse(c.name, c.pgType)
  }

  function Choose(c: Column, s: Seeding, canary: string, index: nat, borrow: Borrow): Choice {
    if c.name == s.tenantColumn then OrRefuse(c, CanaryLiteral(c.pgType, canary))
    else if c.isIdentity || c.hasDefault then Omit
    else if c.name in s.need then OrRefuse(c, ColumnSampleValue(s.catalog, c.pgType, index))
    else if borrow(c).Some? then Use(borrow(c).value)
    else Omit
  }

  function Extend(p: Plan, name: string, choice: Choice): Plan {
    if p.Refused? then p
    else
      match choice
      case Omit => p
      case Use(expr) => Planned(p.insertCols + [QuoteIdent(name)], p.exprs + [expr])
      case Refuse(column, pgType) => Refused(column, pgType)
  }

  /** The plan for the first n columns; column i of canary row 0 or 1 uses sample index 2i or 2i+1. */
  function PlanOf(cols: seq<Column>, n: nat, s: Seeding, canary: string, row: nat, borrow: Borrow): (p: Plan)
    requires n <= |cols|
    ensures p.Planned? ==> |p.insertCols| == |p.exprs|
  {
    if n == 0 then Planned([], [])
    else
      Extend(PlanOf(cols, n - 1, s, canary, row, borrow), cols[n - 1].name,
             Choose(cols[n - 1], s, canary, 2 * (n - 1) + row, borrow))
  }

  lemma RefusedStep(cols: seq<Column>, n: nat, s: Seeding, canary: string, row: nat, borrow: Borrow)
    requires 0 < n <= |cols| && PlanOf(cols, n - 1, s, canary, row, borrow).Refused?
    ensures PlanOf(cols, n, s, canary, row, borrow) == PlanOf(cols, n - 1, s, canary, row, borrow)
  {
    hide Choose, QuoteIdent;
  }

  lemma {:induction false} RefusedStays(cols: seq<Column>, n: nat, m: nat, s: Seeding, canary: string, row: nat, borrow: Borrow)
    requires n <= m <= |cols| && PlanOf(cols, n, s, canary, row, borrow).Refused?
    ensures PlanOf(cols, m, s, canary, row, borrow) == PlanOf(cols, n, s, canary, row, borrow)
    decreases m
  {
    hide *;
    if n < m {
      RefusedStays(cols, n, m - 1, s, canary, row, borrow);
      RefusedStep(cols, m, s, canary, row, borrow);
    }
  }

  method PlanRow(cols: seq<Column>, s: Seeding, canary: string, row: nat, borrow: Borrow) returns (plan: Plan)
    ensures plan == PlanOf(cols, |cols|, s, canary, row, borrow)
  {
    var insertCols: seq<string>, exprs: seq<string> := [], [];
    hide QuoteIdent, CanaryLiteral, ColumnSampleValue;
    for i := 0 to |cols|
      invariant PlanOf(cols, i, s, canary, row, borrow) == Planned(insertCols, exprs)
    {
      var c := cols[i];
      var expr: string;
      if c.name == s.tenantColumn {
        var literal := CanaryLiteral(c.pgType, canary);
        if literal.None? {
          RefusedStays(cols, i + 1, |cols|, s, canary, row, borrow);
          return Refused(c.name, c.pgType);
        }
        expr := literal.value;
      } else if c.isIdentity || c.hasDefault {
        continue;
      } else if c.name in s.need {
        var value := ColumnSampleValue(s.catalog, c.pgType, 2 * i + row);
        if value.None? {
          RefusedStays(cols, i + 1, |cols|, s, canary, row, borrow);
          return Refused(c.name, c.pgType);
        }
        expr := value.value;
      } else {
        var borrowed := borrow(c);
        if borrowed.None? {
          continue;
        }
        expr := borrowed.value;
      }
      insertCols := insertCols + [QuoteIdent(c.name)];
      exprs := exprs + [expr];
    }
    return Planned(insertCols, exprs);
  }

  predicate DistinctColumns(cols: seq<Column>) {
    forall i, j :: 0 <= i < j < |cols| ==> cols[i].name != cols[j].name
  }

  /** What column i is to receive: the canary in the tenant column; nothing where the database fills it in;
      a sample where an index needs one; elsewhere what can be borrowed. */
  function ColumnValue(cols: seq<Column>, i: nat, s: Seeding, canary: string, row: nat, borrow: Borrow): Option<string>
    requires i < |cols|
  {
    var c := cols[i];
    if c.name == s.tenantColumn then CanaryLiteral(c.pgType, canary)
    else if c.isIdentity || c.hasDefault then None
    else if c.name in s.need then ColumnSampleValue(s.catalog, c.pgType, 2 * i + row)
    else borrow(c)
  }

  /** The plan writes this value into this column, or leaves the column out. */
  ghost predicate Writes(p: Plan, name: string, value: Option<string>)
    requires p.Planned? && |p.insertCols| == |p.exprs|
  {
    if value.None? then QuoteIdent(name) !in p.insertCols
    else exists k :: 0 <= k < |p.insertCols| && p.insertCols[k] == QuoteIdent(name) && p.exprs[k] == value.value
  }

  lemma {:induction false} PlannedNames(cols: seq<Column>, n: nat, s: Seeding, canary: string, row: nat, borrow: Borrow,
                                        name: string)
    requires n <= |cols| && PlanOf(cols, n, s, canary, row, borrow).Planned?
    requires forall i :: 0 <= i < n ==> cols[i].name != name
    ensures QuoteIdent(name) !in PlanOf(cols, n, s, canary, row, borrow).insertCols
    decreases n
  {
    hide QuoteIdent, Choose;
    if n > 0 {
      PlannedNames(cols, n - 1, s, canary, row, borrow, name);
      QuoteIdentInjective(name, cols[n - 1].name);
    }
  }

  lemma WritesMore(p: Plan, name: string, value: Option<string>, other: string, choice: Choice)
    requires p.Planned? && |p.insertCols| == |p.exprs| && Writes(p, name, value) && other != name && !choice.Refuse?
    ensures var q := Extend(p, other, choice); q.Planned? && |q.insertCols| == |q.exprs| && Writes(q, name, value)
  {
    QuoteIdentInjective(name, other);
    hide QuoteIdent;
    var q := Extend(p, other, choice);
    if value.Some? {
      var k :| 0 <= k < |p.insertCols| && p.insertCols[k] == QuoteIdent(name) && p.exprs[k] == value.value;
      assert q.insertCols[k] == p.insertCols[k] && q.exprs[k] == p.exprs[k];
    }
  }

  lemma WritesNow(p: Plan, name: string, value: Option<string>, choice: Choice)
    requires p.Planned? && |p.insertCols| == |p.exprs| && QuoteIdent(name) !in p.insertCols
    requires choice == if value.Some? then Use(value.value) else Omit
    ensures var q := Extend(p, name, choice); q.Planned? && |q.insertCols| == |q.exprs| && Writes(q, name, value)
  {
    hide QuoteIdent;
    var q := Extend(p, name, choice);
    if value.Some? {
      assert q.insertCols[|p.insertCols|] == QuoteIdent(name) && q.exprs[|p.insertCols|] == value.value;
    }
  }

  /** A planned row writes into every column exactly what it is to receive. */
  lemma {:induction false} PlanExact(cols: seq<Column>, n: nat, s: Seeding, canary: string, row: nat, borrow: Borrow, i: nat)
    requires i < n <= |cols| && DistinctColumns(cols) && PlanOf(cols, n, s, canary, row, borrow).Planned?
    ensures Writes(PlanOf(cols, n, s, canary, row, borrow), cols[i].name, ColumnValue(cols, i, s, canary, row, borrow))
    decreases n
  {
    hide *;
    var c := cols[n - 1];
    var before := PlanOf(cols, n - 1, s, canary, row, borrow);
    var choice := Choose(c, s, canary, 2 * (n - 1) + row, borrow);
    PlanStep(cols, n, s, canary, row, borrow);
    LastApart(cols, n);
    if i < n - 1 {
      PlanExact(cols, n - 1, s, canary, row, borrow, i);
      WritesMore(before, cols[i].name, ColumnValue(cols, i, s, canary, row, borrow), c.name, choice);
    } else {
      PlannedNames(cols, n - 1, s, canary, row, borrow, c.name);
      ChosenValue(cols, i, s, canary, row, borrow);
      WritesNow(before, c.name, ColumnValue(cols, i, s, canary, row, borrow), choice);
    }
  }

  lemma LastApart(cols: seq<Column>, n: nat)
    requires 0 < n <= |cols| && DistinctColumns(cols)
    ensures forall j :: 0 <= j < n - 1 ==> cols[j].name != cols[n - 1].name
  {
  }

  lemma PlanStep(cols: seq<Column>, n: nat, s: Seeding, canary: string, row: nat, borrow: Borrow)
    requires 0 < n <= |cols| && PlanOf(cols, n, s, canary, row, borrow).Planned?
    ensures PlanOf(cols, n - 1, s, canary, row, borrow).Planned?
    ensures var choice := Choose(cols[n - 1], s, canary, 2 * (n - 1) + row, borrow);
            !choice.Refuse?
            && PlanOf(cols, n, s, canary, row, borrow)
               == Extend(PlanOf(cols, n - 1, s, canary, row, borrow), cols[n - 1].name, choice)
  {
    hide QuoteIdent, Choose;
  }

  lemma ChosenValue(cols: seq<Column>, i: nat, s: Seeding, canary: string, row: nat, borrow: Borrow)
    requires i < |cols|
    ensures var choice, value := Choose(cols[i], s, canary, 2 * i + row, borrow), ColumnValue(cols, i, s, canary, row, borrow);
            !choice.Refuse? ==> choice == if value.Some? then Use(value.value) else Omit
  {
    hide CanaryLiteral, ColumnSampleValue;
  }

  /** An enum column's sample is one of its type's labels, quoted, and cast to the type. */
  lemma EnumSampleIs(catalog: Catalog, pgType: string, i: nat)
    ensures var base, sample := BaseType(pgType), EnumSampleValue(catalog, pgType, i);
            if IsArray(pgType) || base !in catalog || catalog[base] == [] then sample == None
            else sample == Some("'" + Doubled(catalog[base][i % |catalog[base]|], '\'') + ("'::" + QuoteIdent(pgType)))
  {
    var labels := Labels(catalog, pgType);
    if labels != [] {
      Remainder(i % |labels| + |labels|, 1, i % |labels|, |labels|);
    }
    hide BaseType, IsArray, QuoteIdent, Doubled;
  }

  // ----- the two rows together

  /** The database has no enum type with a repeated label. */
  predicate ProperCatalog(catalog: Catalog) {
    forall t :: t in catalog ==> DistinctLabels(catalog[t])
  }

  function PlanA(cols: seq<Column>, n: nat, s: Seeding): Plan
    requires n <= |cols|
  {
    PlanOf(cols, n, s, CANARY_A, 0, BORROW_SAMPLED)
  }

  function PlanB(cols: seq<Column>, n: nat, s: Seeding): Plan
    requires n <= |cols|
  {
    PlanOf(cols, n, s, CANARY_B, 1, BORROW_SAMPLED)
  }

  /** What each row chooses for column i. */
  function ChoiceA(c: Column, i: nat, s: Seeding): Choice {
    Choose(c, s, CANARY_A, 2 * i, BORROW_SAMPLED)
  }

  function ChoiceB(c: Column, i: nat, s: Seeding): Choice {
    Choose(c, s, CANARY_B, 2 * i + 1, BORROW_SAMPLED)
  }

  /** Both canary rows carry this column, with different expressions. */
  predicate TellsApart(c: Column, s: Seeding) {
    c.name == s.tenantColumn
    || (!c.isIdentity && !c.hasDefault && c.name in s.need && Distinguishes(s.catalog, c.pgType))
  }

  /** Two choices of one kind, with different expressions exactly when they tell the rows apart. */
  predicate Match(a: Choice, b: Choice, apart: bool) {
    && (a.Omit? <==> b.Omit?)
    && (a.Refuse? || b.Refuse? ==> a == b)
    && (a.Use? && b.Use? ==> (a.expr != b.expr <==> apart))
    && (apart ==> !a.Omit?)
  }

  lemma ChoicesMatch(c: Column, i: nat, s: Seeding)
    requires ProperCatalog(s.catalog)
    ensures Match(ChoiceA(c, i, s), ChoiceB(c, i, s), TellsApart(c, s))
  {
    hide CanaryLiteral, ColumnSampleValue, Distinguishes, QuoteIdent, OrRefuse, Match;
    SameChoice(Omit);
    SameChoice(Use(QuoteIdent(c.name)));
    if c.name == s.tenantColumn {
      CanariesDiffer(c.pgType);
      MatchValues(c, CanaryLiteral(c.pgType, CANARY_A), CanaryLiteral(c.pgType, CANARY_B), true);
    } else if !c.isIdentity && !c.hasDefault && c.name in s.need {
      ColumnSamplesDiffer(s.catalog, c.pgType, i);
      MatchValues(c, ColumnSampleValue(s.catalog, c.pgType, 2 * i), ColumnSampleValue(s.catalog, c.pgType, 2 * i + 1),
                  Distinguishes(s.catalog, c.pgType));
    }
  }

  lemma SameChoice(a: Choice)
    ensures Match(a, a, false)
  {
  }

  /** Two values that exist together and differ as told make matching choices. */
  lemma MatchValues(c: Column, x: Option<string>, y: Option<string>, apart: bool)
    requires (x.Some? <==> y.Some?) && (x.Some? ==> (x != y <==> apart))
    ensures Match(OrRefuse(c, x), OrRefuse(c, y), apart)
  {
  }

  /** Two plans for the same columns, or both refused over the same one. */
  predicate Aligned(a: Plan, b: Plan) {
    && (a.Planned? <==> b.Planned?)
    && (a.Refused? ==> a == b)
    && (a.Planned? ==> a.insertCols == b.insertCols && |a.exprs| == |b.exprs| == |a.insertCols|)
  }

  lemma ExtendAligned(a: Plan, b: Plan, name: string, x: Choice, y: Choice, apart: bool)
    requires Aligned(a, b) && Match(x, y, apart)
    ensures Aligned(Extend(a, name, x), Extend(b, name, y))
  {
    hide QuoteIdent;
  }

  /** On the sampling path the two column lists line up: both rows are planned with one list of
      columns, or both are refused over the same column. */
  lemma {:induction false} SameColumns(cols: seq<Column>, n: nat, s: Seeding)
    requires n <= |cols| && ProperCatalog(s.catalog)
    ensures Aligned(PlanA(cols, n, s), PlanB(cols, n, s))
    decreases n
  {
    if n == 0 {
      PlansStart(cols, s);
    } else {
      hide *;
      var c := cols[n - 1];
      SameColumns(cols, n - 1, s);
      ChoicesMatch(c, n - 1, s);
      ExtendAligned(PlanA(cols, n - 1, s), PlanB(cols, n - 1, s), c.name, ChoiceA(c, n - 1, s), ChoiceB(c, n - 1, s),
                    TellsApart(c, s));
      PlansStep(cols, n, s);
    }
  }

  lemma PlansStart(cols: seq<Column>, s: Seeding)
    ensures PlanA(cols, 0, s) == PlanB(cols, 0, s) == Planned([], [])
  {
  }

  lemma PlansStep(cols: seq<Column>, n: nat, s: Seeding)
    requires 0 < n <= |cols|
    ensures PlanA(cols, n, s) == Extend(PlanA(cols, n - 1, s), cols[n - 1].name, ChoiceA(cols[n - 1], n - 1, s))
    ensures PlanB(cols, n, s) == Extend(PlanB(cols, n - 1, s), cols[n - 1].name, ChoiceB(cols[n - 1], n - 1, s))
  {
    hide Extend, Choose;
  }

  /** The index holds a column that quotes to this text. */
  ghost predicate Holds(index: seq<string>, quoted: string) {
    exists m :: 0 <= m < |index| && quoted == QuoteIdent(index[m])
  }

  /** The column at position p of the INSERT is in the index, and the two rows differ there. */
  ghost predicate DiffersAt(a: Plan, b: Plan, index: seq<string>, p: int) {
    a.Planned? && b.Planned? && 0 <= p < |a.insertCols| && p < |a.exprs| && p < |b.exprs|
    && Holds(index, a.insertCols[p])
    && a.exprs[p] != b.exprs[p]
  }

  /** The two rows cannot collide on the index: one of its columns gets two different expressions. */
  ghost predicate Differ(a: Plan, b: Plan, index: seq<string>) {
    exists p :: DiffersAt(a, b, index, p)
  }

  /** Some column of the index among the first n tells the rows apart. */
  predicate IndexTellsApart(cols: seq<Column>, n: nat, s: Seeding, index: seq<string>)
    requires n <= |cols|
  {
    exists j :: 0 <= j < n && cols[j].name in index && TellsApart(cols[j], s)
  }

  lemma NamedIn(c: Column, index: seq<string>)
    ensures Holds(index, QuoteIdent(c.name)) <==> c.name in index
  {
    forall m | 0 <= m < |index|
      ensures QuoteIdent(c.name) == QuoteIdent(index[m]) <==> c.name == index[m]
    {
      QuoteIdentInjective(c.name, index[m]);
    }
    if c.name in index {
      var m :| 0 <= m < |index| && index[m] == c.name;
      assert QuoteIdent(c.name) == QuoteIdent(index[m]);
    }
  }

  lemma DifferSnoc(a: Plan, b: Plan, index: seq<string>, name: string, x: Choice, y: Choice, apart: bool)
    requires a.Planned? && Aligned(a, b) && Match(x, y, apart) && !x.Refuse?
    ensures Differ(Extend(a, name, x), Extend(b, name, y), index)
            <==> Differ(a, b, index) || (apart && Holds(index, QuoteIdent(name)))
  {
    hide QuoteIdent, Holds;
    var c, d := Extend(a, name, x), Extend(b, name, y);
    var k := |a.insertCols|;
    if x.Use? {
      assert forall p :: 0 <= p < k ==> c.insertCols[p] == a.insertCols[p] && c.exprs[p] == a.exprs[p] && d.exprs[p] == b.exprs[p];
      assert c.insertCols[k] == QuoteIdent(name) && c.exprs[k] == x.expr && d.exprs[k] == y.expr;
      if Differ(a, b, index) {
        var p :| DiffersAt(a, b, index, p);
        assert DiffersAt(c, d, index, p);
      }
      if apart && Holds(index, QuoteIdent(name)) {
        assert DiffersAt(c, d, index, k);
      }
      if Differ(c, d, index) {
        var p :| DiffersAt(c, d, index, p);
        assert p < k ==> DiffersAt(a, b, index, p);
      }
    }
  }

  /** Column n - 1 adds a difference on the index exactly when it is in it and tells the rows apart. */
  lemma PlansDifferStep(cols: seq<Column>, n: nat, s: Seeding, index: seq<string>)
    requires 0 < n <= |cols| && ProperCatalog(s.catalog) && PlanA(cols, n, s).Planned?
    ensures PlanA(cols, n - 1, s).Planned?
    ensures Differ(PlanA(cols, n, s), PlanB(cols, n, s), index)
            <==> Differ(PlanA(cols, n - 1, s), PlanB(cols, n - 1, s), index)
                 || (cols[n - 1].name in index && TellsApart(cols[n - 1], s))
  {
    hide *;
    var c := cols[n - 1];
    var x, y := ChoiceA(c, n - 1, s), ChoiceB(c, n - 1, s);
    PlansStep(cols, n, s);
    PlanBefore(PlanA(cols, n - 1, s), c.name, x);
    SameColumns(cols, n - 1, s);
    ChoicesMatch(c, n - 1, s);
    DifferSnoc(PlanA(cols, n - 1, s), PlanB(cols, n - 1, s), index, c.name, x, y, TellsApart(c, s));
    NamedIn(c, index);
  }

  lemma NothingDiffers(cols: seq<Column>, s: Seeding, index: seq<string>)
    ensures !Differ(PlanA(cols, 0, s), PlanB(cols, 0, s), index) && !IndexTellsApart(cols, 0, s, index)
  {
    PlansStart(cols, s);
    hide PlanA, PlanB;
  }

  /** The planned rows differ on an index exactly when one of its columns tells them apart. */
  lemma {:induction false} PlansDiffer(cols: seq<Column>, n: nat, s: Seeding, index: seq<string>)
    requires n <= |cols| && ProperCatalog(s.catalog) && PlanA(cols, n, s).Planned?
    ensures Differ(PlanA(cols, n, s), PlanB(cols, n, s), index) <==> IndexTellsApart(cols, n, s, index)
    decreases n
  {
    hide *;
    if n == 0 {
      NothingDiffers(cols, s, index);
    } else {
      PlansDifferStep(cols, n, s, index);
      PlansDiffer(cols, n - 1, s, index);
      TellsApartStep(cols, n, s, index);
    }
  }

  lemma PlanBefore(p: Plan, name: string, choice: Choice)
    requires Extend(p, name, choice).Planned?
    ensures p.Planned? && !choice.Refuse?
  {
  }

  lemma TellsApartStep(cols: seq<Column>, n: nat, s: Seeding, index: seq<string>)
    requires 0 < n <= |cols|
    ensures IndexTellsApart(cols, n, s, index)
            <==> IndexTellsApart(cols, n - 1, s, index) || (cols[n - 1].name in index && TellsApart(cols[n - 1], s))
  {
  }

  // ----- seeding from sampled rows

  /** Some unique index without the tenant column holds the column. */
  predicate MustDiffer(name: string, tenantColumn: string, sets: seq<seq<string>>) {
    exists k :: 0 <= k < |sets| && tenantColumn !in sets[k] && name in sets[k]
  }

  /** The column is the tenant column, or one that must differ, that the database does not fill in,
      and whose type can tell rows apart. */
  predicate Separates(c: Column, tenantColumn: string, sets: seq<seq<string>>, catalog: Catalog) {
    c.name == tenantColumn
    || (!c.isIdentity && !c.hasDefault && MustDiffer(c.name, tenantColumn, sets) && Distinguishes(catalog, c.pgType))
  }

  predicate Separated(cols: seq<Column>, tenantColumn: string, sets: seq<seq<string>>, catalog: Catalog, k: nat)
    requires k < |sets|
  {
    exists j :: 0 <= j < |cols| && cols[j].name in sets[k] && Separates(cols[j], tenantColumn, sets, catalog)
  }

  /** The column keeps the relation from being seeded: a tenant column that cannot hold a canary, or
      a column that must differ and whose type has no sample value. */
  predicate Unsupported(c: Column, tenantColumn: string, sets: seq<seq<string>>, catalog: Catalog) {
    if c.name == tenantColumn then CanaryLiteral(c.pgType, CANARY_A).None?
    else
      !c.isIdentity && !c.hasDefault && MustDiffer(c.name, tenantColumn, sets)
      && ColumnSampleValue(catalog, c.pgType, 0).None?
  }

  ghost predicate NeedOf(s: Seeding, sets: seq<seq<string>>) {
    forall name :: name in s.need <==> MustDiffer(name, s.tenantColumn, sets)
  }

  lemma ExtendRefused(p: Plan, name: string, choice: Choice)
    ensures Extend(p, name, choice).Refused? <==> p.Refused? || choice.Refuse?
  {
  }

  lemma NothingRefused(cols: seq<Column>, s: Seeding)
    ensures PlanA(cols, 0, s).Planned? && !SomeRefused(cols, 0, s)
  {
  }

  lemma {:induction false} RefusedColumn(cols: seq<Column>, n: nat, s: Seeding)
    requires n <= |cols|
    ensures PlanA(cols, n, s).Refused? <==> SomeRefused(cols, n, s)
    decreases n
  {
    hide *;
    if n == 0 {
      NothingRefused(cols, s);
    } else {
      PlansStep(cols, n, s);
      ExtendRefused(PlanA(cols, n - 1, s), cols[n - 1].name, ChoiceA(cols[n - 1], n - 1, s));
      RefusedColumn(cols, n - 1, s);
      SomeRefusedStep(cols, n, s);
    }
  }

  predicate SomeRefused(cols: seq<Column>, n: nat, s: Seeding)
    requires n <= |cols|
  {
    exists j :: 0 <= j < n && ChoiceA(cols[j], j, s).Refuse?
  }

  lemma SomeRefusedStep(cols: seq<Column>, n: nat, s: Seeding)
    requires 0 < n <= |cols|
    ensures SomeRefused(cols, n, s) <==> SomeRefused(cols, n - 1, s) || ChoiceA(cols[n - 1], n - 1, s).Refuse?
  {
    hide ChoiceA;
  }

  lemma RefusedChoice(c: Column, i: nat, s: Seeding, sets: seq<seq<string>>)
    requires NeedOf(s, sets)
    ensures ChoiceA(c, i, s).Refuse? <==> Unsupported(c, s.tenantColumn, sets, s.catalog)
  {
    SampledAlways(c.pgType, 2 * i, 0);
    hide CanaryLiteral, SampleValue, MustDiffer, QuoteIdent, Labels;
  }

  lemma RefusedPlan(cols: seq<Column>, s: Seeding, sets: seq<seq<string>>)
    requires NeedOf(s, sets)
    ensures PlanA(cols, |cols|, s).Refused?
            <==> exists j :: 0 <= j < |cols| && Unsupported(cols[j], s.tenantColumn, sets, s.catalog)
  {
    RefusedColumn(cols, |cols|, s);
    hide ChoiceA, Unsupported, PlanA;
    forall j | 0 <= j < |cols|
      ensures ChoiceA(cols[j], j, s).Refuse? <==> Unsupported(cols[j], s.tenantColumn, sets, s.catalog)
    {
      RefusedChoice(cols[j], j, s, sets);
    }
  }

  lemma SeparatedIndex(cols: seq<Column>, s: Seeding, sets: seq<seq<string>>, k: nat)
    requires NeedOf(s, sets) && k < |sets|
    ensures IndexTellsApart(cols, |cols|, s, sets[k]) <==> Separated(cols, s.tenantColumn, sets, s.catalog, k)
  {
    hide MustDiffer, Distinguishes;
    forall j | 0 <= j < |cols|
      ensures TellsApart(cols[j], s) <==> Separates(cols[j], s.tenantColumn, sets, s.catalog)
    {
    }
  }

  /** On an index without the tenant column, only the database's own defaults and the types decide;
      an index holding the tenant column always separates. */
  lemma SeparatedMeaning(cols: seq<Column>, tenantColumn: string, sets: seq<seq<string>>, catalog: Catalog, k: nat)
    requires k < |sets|
    ensures tenantColumn !in sets[k] ==>
              (Separated(cols, tenantColumn, sets, catalog, k)
               <==> exists j :: 0 <= j < |cols| && cols[j].name in sets[k] && !cols[j].isIdentity && !cols[j].hasDefault
                                && Distinguishes(catalog, cols[j].pgType))
    ensures tenantColumn in sets[k] && (exists j :: 0 <= j < |cols| && cols[j].name == tenantColumn) ==>
              Separated(cols, tenantColumn, sets, catalog, k)
  {
    hide Distinguishes;
  }

  datatype SeedOutcome = Skipped(column: string, pgType: string) | Inserted(a: Plan, b: Plan)

  /** The INSERT's two SELECT lists line up. */
  predicate LinedUp(a: Plan, b: Plan) {
    a.Planned? && b.Planned? && a.insertCols == b.insertCols && |a.exprs| == |b.exprs| == |a.insertCols|
  }

  /** The relation is seeded unless some column is unsupported; then the rows line up, and they
      differ on exactly the unique indexes that a column separates. */
  method SeedFromSample(cols: seq<Column>, tenantColumn: string, sets: seq<seq<string>>, catalog: Catalog)
    returns (outcome: SeedOutcome)
    requires ProperCatalog(catalog)
    ensures outcome.Skipped? <==> exists j :: 0 <= j < |cols| && Unsupported(cols[j], tenantColumn, sets, catalog)
    ensures outcome.Inserted? ==> LinedUp(outcome.a, outcome.b)
    ensures outcome.Inserted? ==>
              forall k :: 0 <= k < |sets| ==>
                (Differ(outcome.a, outcome.b, sets[k]) <==> Separated(cols, tenantColumn, sets, catalog, k))
  {
    var need := ColumnsNeedingSyntheticValues(sets, tenantColumn);
    var s := Seeding(tenantColumn, need, catalog);
    assert NeedOf(s, sets);
    var planA := PlanRow(cols, s, CANARY_A, 0, BORROW_SAMPLED);
    assert planA == PlanA(cols, |cols|, s);
    RefusedPlan(cols, s, sets);
    if planA.Refused? {
      return Skipped(planA.column, planA.pgType);
    }
    var planB := PlanRow(cols, s, CANARY_B, 1, BORROW_SAMPLED);
    assert planB == PlanB(cols, |cols|, s);
    SameColumns(cols, |cols|, s);
    AlignedPlans(planA, planB);
    hide *;
    forall k | 0 <= k < |sets|
      ensures Differ(planA, planB, sets[k]) <==> Separated(cols, tenantColumn, sets, catalog, k)
    {
      PlansDiffer(cols, |cols|, s, sets[k]);
      SeparatedIndex(cols, s, sets, k);
    }
    if planB.Refused? {
      // The second row is refused over the column that refuses the first, so never here.
      assert false;
    }
    return Inserted(planA, planB);
  }

  lemma AlignedPlans(a: Plan, b: Plan)
    requires Aligned(a, b) && a.Planned?
    ensures LinedUp(a, b) && b.Planned?
  {
  }
}
