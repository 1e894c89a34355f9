/** The sample literals against the types they are written for. */
module SampleLiterals {
  import opened Text
  import opened Oid
  import opened Canary
  import opened Writing

  // ----- which types are known

  predicate IsWholeType(base: string) {
    base == "smallint" || base == "integer" || base == "bigint"
  }

  predicate IsFractionType(base: string) {
    base == "real" || base == "double precision" || base == "numeric" || base == "decimal"
  }

  predicate IsTextualType(base: string) {
    base == "text" || base == "character varying" || base == "character" || base == "name" || base == "citext"
  }

  predicate IsTimestampType(base: string) {
    base == "timestamp with time zone" || base == "timestamp without time zone"
  }

  predicate IsTimeType(base: string) {
    base == "time without time zone" || base == "time with time zone"
  }

  predicate IsJsonType(base: string) {
    base == "json" || base == "jsonb"
  }

  predicate IsInetType(base: string) {
    base == "inet" || base == "cidr"
  }

  lemma NamesByKind(base: string)
    ensures KindOf(base) == Whole ==> IsWholeType(base)
    ensures KindOf(base) == Fraction ==> IsFractionType(base)
    ensures KindOf(base) == Boolean ==> base == "boolean"
    ensures KindOf(base) == Textual ==> IsTextualType(base)
    ensures KindOf(base) == Uuid ==> base == "uuid"
    ensures KindOf(base) == Timestamp ==> IsTimestampType(base)
    ensures KindOf(base) == Date ==> base == "date"
    ensures KindOf(base) == Time ==> IsTimeType(base)
    ensures KindOf(base) == Json ==> IsJsonType(base)
    ensures KindOf(base) == Bytea ==> base == "bytea"
    ensures KindOf(base) == Inet ==> IsInetType(base)
    ensures KindOf(base) == Interval ==> base == "interval"
  {
  }

  lemma WholeNames()
    ensures KindOf("smallint") == Whole
    ensures KindOf("integer") == Whole
    ensures KindOf("bigint") == Whole
  {
  }

  lemma FractionNames()
    ensures KindOf("real") == Fraction
    ensures KindOf("double precision") == Fraction
    ensures KindOf("numeric") == Fraction
    ensures KindOf("decimal") == Fraction
  {
  }

  lemma TextualNames()
    ensures KindOf("text") == Textual
    ensures KindOf("character varying") == Textual
    ensures KindOf("character") == Textual
    ensures KindOf("name") == Textual
    ensures KindOf("citext") == Textual
  {
  }

  lemma TimestampNames()
    ensures KindOf("timestamp with time zone") == Timestamp
    ensures KindOf("timestamp without time zone") == Timestamp
  {
  }

  lemma TimeNames()
    ensures KindOf("time without time zone") == Time
    ensures KindOf("time with time zone") == Time
  {
  }

  lemma JsonNames()
    ensures KindOf("json") == Json
    ensures KindOf("jsonb") == Json
  {
  }

  lemma InetNames()
    ensures KindOf("inet") == Inet
    ensures KindOf("cidr") == Inet
  {
  }

  lemma OtherNames()
    ensures KindOf("boolean") == Boolean
    ensures KindOf("uuid") == Uuid
    ensures KindOf("date") == Date
    ensures KindOf("bytea") == Bytea
    ensures KindOf("interval") == Interval
  {
  }

  /** The dispatch groups the type names as PostgreSQL's types are grouped. */
  lemma KindByName(base: string)
    ensures KindOf(base) == Whole <==> IsWholeType(base)
    ensures KindOf(base) == Fraction <==> IsFractionType(base)
    ensures KindOf(base) == Boolean <==> base == "boolean"
    ensures KindOf(base) == Textual <==> IsTextualType(base)
    ensures KindOf(base) == Uuid <==> base == "uuid"
    ensures KindOf(base) == Timestamp <==> IsTimestampType(base)
    ensures KindOf(base) == Date <==> base == "date"
    ensures KindOf(base) == Time <==> IsTimeType(base)
    ensures KindOf(base) == Json <==> IsJsonType(base)
    ensures KindOf(base) == Bytea <==> base == "bytea"
    ensures KindOf(base) == Inet <==> IsInetType(base)
    ensures KindOf(base) == Interval <==> base == "interval"
  {
    NamesByKind(base);
    WholeNames();
    FractionNames();
    TextualNames();
    TimestampNames();
    TimeNames();
    JsonNames();
    InetNames();
    OtherNames();
    hide KindOf;
  }

  // ----- which type a written type names

  /** A type as `format_type` writes it: a name, a modifier in parentheses or none, and brackets for an array. */
  function TypeText(name: string, modifier: string, array_: bool): string {
    name + modifier + if array_ then "[]" else ""
  }

  predicate IsTypeName(name: string) {
    name != "" && Bordered(name) && forall i :: 0 <= i < |name| ==> name[i] != '(' && name[i] != ']'
  }

  predicate IsModifier(modifier: string) {
    modifier == "" || (|modifier| >= 2 && modifier[0] == '(' && modifier[|modifier| - 1] == ')')
  }

  lemma {:induction false} NoParenthesis(s: string)
    requires forall i :: 0 <= i < |s| ==> s[i] != '('
    ensures IndexOf(s, '(') == |s|
  {
    if s != "" {
      NoParenthesis(s[1..]);
    }
  }

  lemma LowerConcat(a: string, b: string)
    ensures Lower(a + b) == Lower(a) + Lower(b)
  {
  }

  lemma ModifierCut(name: string, modifier: string)
    requires IsTypeName(name) && IsModifier(modifier)
    ensures CutModifier(Lower(name + modifier)) == Lower(name)
  {
    LowerConcat(name, modifier);
    var s := Lower(name + modifier);
    assert forall i :: 0 <= i < |name| ==> s[i] == LowerChar(name[i]) && s[i] != '(';
    if modifier == "" {
      assert name + modifier == name;
      NoParenthesis(s);
    } else {
      assert s[|name|] == LowerChar(modifier[0]) == '(';
      IndexAt(s, '(', |name|);
      assert s[..|name|] == Lower(name);
    }
  }

  lemma TypeTrimmed(pad: string, text: string, after: string)
    requires AllWhite(pad) && AllWhite(after) && Bordered(text)
    ensures Trim(pad + text + after) == text
  {
    WhiteSpace(pad);
    WhiteSpace(after);
    WhiteSpace(text);
    TrimPadded(pad, text, after);
  }

  lemma LowerTight(name: string)
    requires Bordered(name)
    ensures Trim(Lower(name)) == Lower(name)
  {
    WhiteSpace(name);
    assert Tight(Lower(name));
    TrimTight(Lower(name));
  }

  /** The dispatch sees the type's name in small letters, without modifier and brackets, and whether it is an
      array's. */
  lemma TypeNamed(name: string, modifier: string, array_: bool, pad: string, after: string)
    requires IsTypeName(name) && IsModifier(modifier) && AllWhite(pad) && AllWhite(after)
    ensures var pgType := pad + TypeText(name, modifier, array_) + after;
            BaseType(pgType) == Folded(name) && (IsArray(pgType) <==> array_)
  {
    var text := TypeText(name, modifier, array_);
    var pgType := pad + text + after;
    TextBordered(name, modifier, array_);
    TypeTrimmed(pad, text, after);
    ModifierCut(name, modifier);
    LowerTight(name);
    FoldedLower(name);
    LowerConcat(name + modifier, if array_ then "[]" else "");
    assert Lower("[]") == "[]" && Lower("") == "";
    hide CutModifier, Trim, TypeText, Folded;
    TypeEnd(name, modifier);
    assert array_ ==> Lower(text)[|text| - 2..] == "[]" && Lower(text)[..|text| - 2] == Lower(name + modifier);
    assert !array_ ==> text == name + modifier + "" == name + modifier;
  }

  lemma TextBordered(name: string, modifier: string, array_: bool)
    requires IsTypeName(name) && IsModifier(modifier)
    ensures var text := TypeText(name, modifier, array_);
            Bordered(text) && text == name + modifier + (if array_ then "[]" else "") && |text| >= |name|
  {
  }

  /** Without brackets the text does not end in them. */
  lemma TypeEnd(name: string, modifier: string)
    requires IsTypeName(name) && IsModifier(modifier)
    ensures var s := Lower(name + modifier); |s| >= 1 && s[|s| - 1] != ']'
  {
    var t := name + modifier;
    assert t[|t| - 1] == if modifier == "" then name[|name| - 1] else modifier[|modifier| - 1];
  }

  // ----- which texts are literals of a type

  /** The text is the number, in decimal, between the two others. */
  ghost predicate Numbered(l: string, lead: string, n: int, trail: string) {
    exists digits :: IsDigitsOf(digits, n) && l == lead + digits + trail
  }

  /** The inside of a plain quoted text. */
  predicate IsQuoted(l: string) {
    |l| >= 2 && l[0] == '\'' && l[|l| - 1] == '\'' && forall i :: 1 <= i < |l| - 1 ==> l[i] != '\''
  }

  predicate IsHex(c: char) {
    '0' <= c <= '9' || 'a' <= c <= 'f'
  }

  /** Five groups of hexadecimal digits, 8-4-4-4-12. */
  predicate IsUuid(u: string) {
    |u| == 36
    && forall i :: 0 <= i < 36 ==> if i == 8 || i == 13 || i == 18 || i == 23 then u[i] == '-' else IsHex(u[i])
  }

  /** `l` is an SQL literal or expression of a type of this kind, for the row of this index. */
  ghost predicate Fits(kind: Kind, base: string, l: string, i: nat) {
    match kind
    case Whole => IsDigitsOf(l, 1000 + i)
    case Fraction => Numbered(l, "", 1000 + i, ".0")
    case Boolean => l == if i % 2 == 0 then "false" else "true"
    case Textual => IsQuoted(l) && Numbered(l, "'tgd-", i, "'")
    case Uuid => |Decimal(i)| <= 12 ==> exists u :: IsUuid(u) && l == "'" + u + "'::uuid"
    case Timestamp => Numbered(l, "(now() + (", i, " * interval '1 microsecond'))")
    case Date => Numbered(l, "(current_date + ", i, ")")
    case Time => Numbered(l, "('00:00:00'::" + base + " + (", i, " * interval '1 second'))")
    case Json => Numbered(l, "'{\"tgd\":", i, "}'::" + base)
    case Bytea => exists a, b :: IsHex(a) && IsHex(b) && l == "'\\x" + [a, b] + "'::bytea"
    case Inet => exists n :: 1 <= n <= 254 && Numbered(l, "'127.0.0.", n, "'::" + base)
    case Interval => Numbered(l, "'", 1 + i, " seconds'::interval")
    case Other => false
  }

  // ----- the samples fit

  lemma NumberedBy(lead: string, n: nat, trail: string)
    ensures Numbered(lead + Decimal(n) + trail, lead, n, trail)
  {
    DecimalDigits(n);
    hide IsDigitsOf, Decimal;
  }

  lemma QuotedNumber(i: nat)
    ensures IsQuoted("'tgd-" + Decimal(i) + "'")
  {
    DecimalNumber(i);
    hide Decimal;
    var l, n := "'tgd-" + Decimal(i) + "'", |Decimal(i)|;
    assert forall k :: 5 <= k < 5 + n ==> l[k] == Decimal(i)[k - 5];
  }

  lemma {:induction false} PaddedDigits(s: string, width: nat)
    requires forall i :: 0 <= i < |s| ==> '0' <= s[i] <= '9'
    ensures var p := ZeroPadded(s, width);
            |p| == (if |s| < width then width else |s|) && forall i :: 0 <= i < |p| ==> '0' <= p[i] <= '9'
    decreases width - |s|
  {
    if |s| < width {
      PaddedDigits("0" + s, width);
    }
  }

  lemma UuidFits(i: nat)
    requires |Decimal(i)| <= 12
    ensures var u := "00000000-0000-4000-8000-" + ZeroPadded(Decimal(i), 12);
            IsUuid(u) && "'00000000-0000-4000-8000-" + ZeroPadded(Decimal(i), 12) + "'::uuid" == "'" + u + "'::uuid"
  {
    DecimalNumber(i);
    PaddedDigits(Decimal(i), 12);
    hide Decimal, ZeroPadded;
    var front, back := "00000000-0000-4000-8000-", ZeroPadded(Decimal(i), 12);
    var u := front + back;
    assert forall k :: 0 <= k < 24 ==> u[k] == front[k];
    assert forall k :: 24 <= k < 36 ==> u[k] == back[k - 24];
    assert "'00000000-0000-4000-8000-" == "'" + front;
  }

  lemma ByteFits(b: nat)
    requires b < 256
    ensures |HexByte(b)| == 2 && IsHex(HexByte(b)[0]) && IsHex(HexByte(b)[1])
    ensures HexByte(b) == [HexByte(b)[0], HexByte(b)[1]]
  {
  }

  /** The literal for each kind, put together. */
  lemma KindFits(kind: Kind, base: string, i: nat)
    requires !kind.Other?
    ensures Fits(kind, base, Lead(kind, base) + Varying(kind, i) + Trail(kind, base), i)
  {
    hide Decimal, IsDigitsOf, ZeroPadded, IsUuid, IsQuoted, IsHex, HexByte, Numbered;
    match kind
    case Whole => WholeFits(i);
    case Fraction => NumberedBy("", 1000 + i, ".0");
    case Boolean => assert "" + Varying(Boolean, i) + "" == Varying(Boolean, i);
    case Textual =>
      QuotedNumber(i);
      NumberedBy("'tgd-", i, "'");
    case Uuid =>
      if |Decimal(i)| <= 12 {
        UuidFits(i);
      }
    case Timestamp => NumberedBy("(now() + (", i, " * interval '1 microsecond'))");
    case Date => NumberedBy("(current_date + ", i, ")");
    case Time => NumberedBy("('00:00:00'::" + base + " + (", i, " * interval '1 second'))");
    case Json => NumberedBy("'{\"tgd\":", i, "}'::" + base);
    case Bytea => ByteFits(i % 256);
    case Inet => NumberedBy("'127.0.0.", 1 + i % 254, "'::" + base);
    case Interval => NumberedBy("'", 1 + i, " seconds'::interval");
  }

  lemma WholeFits(i: nat)
    ensures IsDigitsOf("" + Decimal(1000 + i) + "", 1000 + i)
  {
    DecimalDigits(1000 + i);
    hide IsDigitsOf, Decimal;
    assert "" + Decimal(1000 + i) + "" == Decimal(1000 + i);
  }

  /** Every sample is a literal of its type: of the base type's, or an array of one, or empty where the
      element type has none. */
  lemma SampleFits(pgType: string, i: nat)
    ensures var base, sample := BaseType(pgType), SampleValue(pgType, i);
            && (!IsArray(pgType) && sample.Some? ==> Fits(KindOf(base), base, sample.value, i))
            && (IsArray(pgType) && sample.Some? ==>
                  sample.value == if SampleValue(base, i).Some? then "ARRAY[" + SampleValue(base, i).value + ("]::" + base + "[]")
                                  else "'{}'::" + base + "[]")
            && (sample.None? <==> if IsArray(pgType) then base == "" else KindOf(base).Other?)
  {
    var base := BaseType(pgType);
    hide Fits, Lead, Varying, Trail, KindOf, BaseType, IsArray;
    if !IsArray(pgType) && !KindOf(base).Other? {
      KindFits(KindOf(base), base, i);
    }
  }

  /** A canary is written where the type holds text or UUIDs, and nowhere else. */
  lemma CanaryFits(pgType: string)
    ensures var held := !IsArray(pgType) && (BaseType(pgType) == "uuid" || IsTextualType(BaseType(pgType)));
            var a, b := CanaryLiteral(pgType, CANARY_A), CanaryLiteral(pgType, CANARY_B);
            && (a.Some? <==> held) && (b.Some? <==> held)
            && (held && BaseType(pgType) == "uuid" ==>
                  a.value == "'" + CANARY_A_UUID + "'::uuid" && b.value == "'" + CANARY_B_UUID + "'::uuid")
            && (held && BaseType(pgType) != "uuid" ==> a.value == "'" + CANARY_A + "'" && b.value == "'" + CANARY_B + "'")
  {
    KindByName(BaseType(pgType));
    CanariesApart();
    hide KindOf, BaseType, IsArray, IsTextualType;
  }

  lemma CanariesApart()
    ensures CANARY_A != CANARY_B
  {
    assert CANARY_A[11] != CANARY_B[11];
  }
}
