/** Message bodies: strings, Parse, Close, Bind and the backend descriptions. */
module Messages {
  import opened Text
  import opened Wire

  const FORMAT_TEXT := 0
  const FORMAT_BINARY := 1

  /** Why a parameter's value is not known. */
  datatype Reason =
    | NoReason
    | OidNotCaptured
    | NoOidsForStatement
    | CountMismatch(oids: nat, params: nat)
    | NoDecoder(oid: int)

  datatype Param = Param(isNull: bool, format: int, value: Bytes, oid: int, text: string, known: bool, reason: Reason)

  // ----- strings

  /** A NUL-terminated string at the front, and what follows it. */
  datatype Cut = NoCut | Cut(str: Bytes, rest: Bytes)

  function CutString(b: Bytes): (c: Cut)
    ensures c.Cut? ==> b == c.str + ([0] + c.rest) && 0 !in c.str
    ensures c == NoCut <==> 0 !in b
  {
    if b == [] then NoCut
    else if b[0] == 0 then Cut([], b[1..])
    else match CutString(b[1..])
      case NoCut => NoCut
      case Cut(str, rest) => Cut([b[0]] + str, rest)
  }

  lemma {:induction false} CutStringText(str: Bytes, rest: Bytes)
    requires 0 !in str
    ensures CutString(str + ([0] + rest)) == Cut(str, rest)
  {
    var b := str + ([0] + rest);
    if str == [] {
      assert b == [0] + rest && b[1..] == rest;
    } else {
      assert b[1..] == str[1..] + ([0] + rest);
      CutStringText(str[1..], rest);
    }
  }

  lemma CutAt(b: Bytes, i: nat, j: nat)
    requires i <= j < |b| && b[j] == 0 && forall k :: i <= k < j ==> b[k] != 0
    ensures CutString(b[i..]) == Cut(b[i..j], b[j + 1..])
  {
    hide CutString;
    CutStringText(b[i..j], b[j + 1..]);
    assert b[i..] == b[i..j] + ([0] + b[j + 1..]);
  }

  method CString(b: Bytes, i: int) returns (s: Bytes, next: int, ok: bool)
    ensures ok <==> 0 <= i <= |b| && CutString(b[i..]).Cut?
    ensures ok ==> i < next <= |b| && CutString(b[i..]) == Cut(s, b[next..])
  {
    if i < 0 || i > |b| {
      return [], 0, false;
    }
    hide CutString;
    var j := i;
    while j < |b|
      invariant i <= j <= |b|
      invariant forall k :: i <= k < j ==> b[k] != 0
    {
      if b[j] == 0 {
        CutAt(b, i, j);
        return b[i..j], j + 1, true;
      }
      j := j + 1;
    }
    return [], 0, false;
  }

  datatype Named = Malformed | Named(name: string, sql: string)

  /** Statement name and SQL text of a Parse message. */
  function ReadParse(body: Bytes): Named {
    match CutString(body)
    case NoCut => Malformed
    case Cut(name, more) =>
      match CutString(more)
      case NoCut => Malformed
      case Cut(sql, _) => Named(AsText(name), AsText(sql))
  }

  method ParseParse(body: Bytes) returns (name: string, sql: string, ok: bool)
    ensures ReadParse(body) == if ok then Named(name, sql) else Malformed
  {
    assert body[0..] == body;
    var first, i, found := CString(body, 0);
    if !found {
      return "", "", false;
    }
    var second, _, also := CString(body, i);
    if !also {
      return "", "", false;
    }
    return AsText(first), AsText(second), true;
  }

  datatype Target = NoTarget | Target(kind: Byte, name: string)

  /** What a Close or Describe names: its kind byte and the name behind it. */
  function ReadTarget(body: Bytes): Target {
    if body == [] then NoTarget
    else match CutString(body[1..])
      case NoCut => NoTarget
      case Cut(name, _) => Target(body[0], AsText(name))
  }

  method ParseClose(body: Bytes) returns (kind: Byte, name: string, ok: bool)
    ensures ReadTarget(body) == if ok then Target(kind, name) else NoTarget
  {
    if |body| < 1 {
      return 0, "", false;
    }
    var text, _, found := CString(body, 1);
    if !found {
      return 0, "", false;
    }
    return body[0], AsText(text), true;
  }

  // ----- what a Parse, Close or Describe body holds

  /** The text's characters are the bytes. */
  predicate IsTextOf(text: string, b: Bytes) {
    |text| == |b| && forall i :: 0 <= i < |b| ==> text[i] as int == b[i]
  }

  lemma TextBytes(b: Bytes)
    ensures IsTextOf(AsText(b), b)
  {
  }

  /** The Parse body of section 55.7 of the PostgreSQL 16 documentation; `rest` holds the parameter types. */
  function EncodeParse(name: Bytes, sql: Bytes, rest: Bytes): Bytes {
    name + ([0] + (sql + ([0] + rest)))
  }

  /** Parsing gives the name and the SQL text, in this order, and nothing else is a Parse body. */
  lemma ParseInverse(name: Bytes, sql: Bytes, rest: Bytes)
    requires 0 !in name && 0 !in sql
    ensures var r := ReadParse(EncodeParse(name, sql, rest)); r.Named? && IsTextOf(r.name, name) && IsTextOf(r.sql, sql)
  {
    CutStringText(name, sql + ([0] + rest));
    CutStringText(sql, rest);
    TextBytes(name);
    TextBytes(sql);
  }

  predicate IsParseOf(b: Bytes, name: Bytes, sql: Bytes, rest: Bytes) {
    0 !in name && 0 !in sql && b == EncodeParse(name, sql, rest)
  }

  lemma ParseAccepted(b: Bytes)
    ensures ReadParse(b).Named? <==> exists name, sql, rest :: IsParseOf(b, name, sql, rest)
  {
    if ReadParse(b).Named? {
      var name := CutString(b);
      var sql := CutString(name.rest);
      assert IsParseOf(b, name.str, sql.str, sql.rest);
    }
    if name, sql, rest :| IsParseOf(b, name, sql, rest) {
      ParseInverse(name, sql, rest);
    }
  }

  /** A Close or Describe body: a kind byte and a name. */
  function EncodeTarget(kind: Byte, name: Bytes, rest: Bytes): Bytes {
    [kind] + (name + ([0] + rest))
  }

  lemma TargetInverse(kind: Byte, name: Bytes, rest: Bytes)
    requires 0 !in name
    ensures var r := ReadTarget(EncodeTarget(kind, name, rest)); r.Target? && r.kind == kind && IsTextOf(r.name, name)
  {
    var body := EncodeTarget(kind, name, rest);
    assert body[1..] == name + ([0] + rest);
    CutStringText(name, rest);
    TextBytes(name);
  }

  predicate IsTargetOf(b: Bytes, kind: Byte, name: Bytes, rest: Bytes) {
    0 !in name && b == EncodeTarget(kind, name, rest)
  }

  lemma TargetAccepted(b: Bytes)
    ensures ReadTarget(b).Target? <==> exists kind, name, rest :: IsTargetOf(b, kind, name, rest)
  {
    if ReadTarget(b).Target? {
      var name := CutString(b[1..]);
      assert b == [b[0]] + b[1..];
      assert IsTargetOf(b, b[0], name.str, name.rest);
    }
    if kind, name, rest :| IsTargetOf(b, kind, name, rest) {
      TargetInverse(kind, name, rest);
    }
  }

  // ----- Bind

  function Signed16(n: nat): int {
    if n < 0x8000 then n else n - TWO_16
  }

  datatype Codes = NoCodes | Codes(codes: seq<int>, rest: Bytes)

  function ReadCodes(b: Bytes, n: nat): (c: Codes)
    ensures c.Codes? ==> |c.codes| == n
  {
    if n == 0 then Codes([], b)
    else if |b| < 2 then NoCodes
    else match ReadCodes(b[2..], n - 1)
      case NoCodes => NoCodes
      case Codes(codes, rest) => Codes([Signed16(Get16(b))] + codes, rest)
  }

  /** The format of parameter `n`: text without codes, a single code for all, otherwise its own. */
  function FormatOf(codes: seq<int>, n: nat): int {
    if |codes| == 1 then codes[0]
    else if n < |codes| then codes[n]
    else FORMAT_TEXT
  }

  function NullParam(format: int): Param {
    Param(true, format, [], 0, "NULL", true, NoReason)
  }

  function ValueParam(format: int, value: Bytes): Param {
    if format == FORMAT_TEXT then Param(false, format, value, 0, AsText(value), true, NoReason)
    else Param(false, format, value, 0, "", false, OidNotCaptured)
  }

  datatype Value = NoValue | Value(param: Param, rest: Bytes)

  /** One length word and, unless it is negative, the bytes it announces. */
  function ReadValue(b: Bytes, format: int): (v: Value)
    ensures v.Value? ==> |v.rest| < |b|
  {
    if |b| < 4 then NoValue
    else
      var length, more := Get32(b), b[4..];
      if length >= TWO_31 then Value(NullParam(format), more)
      else if |more| < length then NoValue
      else Value(ValueParam(format, more[..length]), more[length..])
  }

  datatype Values = NoValues | Values(params: seq<Param>, rest: Bytes)

  function Prepend(p: Param, v: Values): Values {
    match v
    case NoValues => NoValues
    case Values(params, rest) => Values([p] + params, rest)
  }

  /** Parameters k, k+1, .., n-1. */
  function ReadValues(b: Bytes, codes: seq<int>, k: nat, n: nat): (v: Values)
    requires k <= n
    ensures v.Values? ==> |v.params| == n - k
    decreases n - k
  {
    if k == n then Values([], b)
    else match ReadValue(b, FormatOf(codes, k))
      case NoValue => NoValues
      case Value(p, rest) => Prepend(p, ReadValues(rest, codes, k + 1, n))
  }

  datatype Bound = NoBound | Bound(portal: string, stmt: string, params: seq<Param>)

  function ReadBindTail(b: Bytes): Option<seq<Param>> {
    if |b| < 2 then None
    else match ReadCodes(b[2..], Get16(b))
      case NoCodes => None
      case Codes(codes, more) =>
        if |more| < 2 then None
        else match ReadValues(more[2..], codes, 0, Get16(more))
          case NoValues => None
          case Values(params, _) => Some(params)
  }

  function ReadBind(b: Bytes): Bound {
    match CutString(b)
    case NoCut => NoBound
    case Cut(portal, more) =>
      match CutString(more)
      case NoCut => NoBound
      case Cut(stmt, tail) =>
        match ReadBindTail(tail)
        case None => NoBound
        case Some(params) => Bound(AsText(portal), AsText(stmt), params)
  }

  method ParseCodes(body: Bytes, start: nat, numFormats: nat) returns (formats: seq<int>, i: nat, ok: bool)
    requires start <= |body|
    ensures start <= i <= |body|
    ensures ReadCodes(body[start..], numFormats) == if ok then Codes(formats, body[i..]) else NoCodes
  {
    formats, i := [], start;
    var n := 0;
    while n < numFormats
      invariant 0 <= n <= numFormats && start <= i <= |body|
      invariant ReadCodes(body[start..], numFormats) ==
                match ReadCodes(body[i..], numFormats - n)
                case NoCodes => NoCodes
                case Codes(codes, rest) => Codes(formats + codes, rest)
    {
      if i + 2 > |body| {
        return formats, i, false;
      }
      assert body[i..][2..] == body[i + 2..];
      ghost var c := ReadCodes(body[i + 2..], numFormats - n - 1);
      var code := Signed16(Get16(body[i..]));
      hide Get16, Signed16;
      assert c.Codes? ==> formats + ([code] + c.codes) == (formats + [code]) + c.codes;
      formats := formats + [code];
      i := i + 2;
      n := n + 1;
    }
    assert formats + [] == formats;
    ok := true;
  }

  method ParseValue(body: Bytes, start: nat, format: int) returns (pr: Param, i: nat, ok: bool)
    requires start <= |body|
    ensures start <= i <= |body|
    ensures ReadValue(body[start..], format) == if ok then Value(pr, body[i..]) else NoValue
  {
    pr, i := NullParam(format), start;
    if i + 4 > |body| {
      return pr, i, false;
    }
    var length := Get32(body[i..]);
    assert body[i..][4..] == body[i + 4..];
    i := i + 4;
    if length >= TWO_31 {
      return pr, i, true;
    }
    if i + length > |body| {
      return pr, i, false;
    }
    var value := body[i..i + length];
    assert body[i..][..length] == value && body[i..][length..] == body[i + length..];
    return ValueParam(format, value), i + length, true;
  }

  /** The parameters already read, put in front of the rest of the reading. */
  function After(params: seq<Param>, v: Values): Values {
    match v
    case NoValues => NoValues
    case Values(more, rest) => Values(params + more, rest)
  }

  lemma AfterMore(params: seq<Param>, p: Param, v: Values)
    ensures After(params, Prepend(p, v)) == After(params + [p], v)
    ensures After([], v) == v
  {
    if v.Values? {
      assert params + ([p] + v.params) == (params + [p]) + v.params;
      assert [] + v.params == v.params;
    }
  }

  method ParseValues(body: Bytes, start: nat, formats: seq<int>, numParams: nat)
    returns (params: seq<Param>, ok: bool)
    requires start <= |body|
    ensures match ReadValues(body[start..], formats, 0, numParams)
            case NoValues => !ok
            case Values(all, _) => ok && params == all
  {
    params := [];
    ghost var whole := ReadValues(body[start..], formats, 0, numParams);
    AfterMore([], NullParam(0), whole);
    hide *;
    var i, n := start, 0;
    while n < numParams
      invariant 0 <= n <= numParams && start <= i <= |body|
      invariant whole == After(params, ReadValues(body[i..], formats, n, numParams))
    {
      var format := ChooseFormat(formats, n);
      ReadValuesStep(body[i..], formats, n, numParams);
      var pr, found;
      pr, i, found := ParseValue(body, i, format);
      if !found {
        AfterNothing(params, []);
        return params, false;
      }
      AfterMore(params, pr, ReadValues(body[i..], formats, n + 1, numParams));
      params := params + [pr];
      n := n + 1;
    }
    ReadValuesStep(body[i..], formats, n, numParams);
    AfterNothing(params, body[i..]);
    ok := true;
  }

  lemma AfterNothing(params: seq<Param>, rest: Bytes)
    ensures After(params, NoValues) == NoValues && After(params, Values([], rest)) == Values(params, rest)
  {
    assert params + [] == params;
  }

  lemma ReadValuesStep(b: Bytes, codes: seq<int>, k: nat, n: nat)
    requires k <= n
    ensures ReadValues(b, codes, k, n)
            == if k == n then Values([], b)
               else
                 var v := ReadValue(b, FormatOf(codes, k));
                 if v.NoValue? then NoValues else Prepend(v.param, ReadValues(v.rest, codes, k + 1, n))
  {
    hide ReadValue, FormatOf;
  }

  method ChooseFormat(formats: seq<int>, n: nat) returns (format: int)
    ensures format == FormatOf(formats, n)
  {
    format := FORMAT_TEXT;
    if |formats| == 1 {
      format := formats[0];
    } else if |formats| > 1 && n < |formats| {
      format := formats[n];
    }
  }

  method ParseBind(body: Bytes) returns (portal: string, stmt: string, params: seq<Param>, ok: bool)
    ensures ReadBind(body) == if ok then Bound(portal, stmt, params) else NoBound
  {
    portal, stmt, params, ok := "", "", [], false;
    hide ReadBindTail, CutString, AsText;
    assert body[0..] == body;
    var first, i, found := CString(body, 0);
    if !found {
      return;
    }
    var second;
    second, i, found := CString(body, i);
    if !found {
      return;
    }
    portal, stmt := AsText(first), AsText(second);
    params, ok := ParseBindTail(body, i);
  }

  method ParseBindTail(body: Bytes, start: nat) returns (params: seq<Param>, ok: bool)
    requires start <= |body|
    ensures ReadBindTail(body[start..]) == if ok then Some(params) else None
  {
    params, ok := [], false;
    var i := start;
    if i + 2 > |body| {
      return;
    }
    var numFormats := Get16(body[i..]);
    assert body[i..][2..] == body[i + 2..];
    i := i + 2;
    var formats;
    formats, i, ok := ParseCodes(body, i, numFormats);
    if !ok || i + 2 > |body| {
      return [], false;
    }
    var numParams := Get16(body[i..]);
    assert body[i..][2..] == body[i + 2..];
    params, ok := ParseValues(body, i + 2, formats, numParams);
  }

  // ----- encoding of Bind messages

  /** A parameter on the wire: any negative length word means NULL. */
  datatype WireParam = WireNull(length: nat) | WireValue(value: Bytes)

  datatype WireBind = WireBind(portal: Bytes, stmt: Bytes, codes: seq<nat>, params: seq<WireParam>)

  predicate Valid(m: WireBind) {
    && 0 !in m.portal && 0 !in m.stmt
    && |m.codes| < TWO_16 && (forall i :: 0 <= i < |m.codes| ==> m.codes[i] < TWO_16)
    && |m.params| < TWO_16 && ValidParams(m.params)
  }

  predicate ValidParam(p: WireParam) {
    match p
    case WireNull(length) => TWO_31 <= length < TWO_32
    case WireValue(value) => |value| < TWO_31
  }

  function EncodeCodes(codes: seq<nat>, rest: Bytes): Bytes
    requires forall i :: 0 <= i < |codes| ==> codes[i] < TWO_16
  {
    if codes == [] then rest else Put16(codes[0]) + EncodeCodes(codes[1..], rest)
  }

  function EncodeParam(p: WireParam, rest: Bytes): Bytes
    requires ValidParam(p)
  {
    match p
    case WireNull(length) => Put32(length) + rest
    case WireValue(value) => Put32(|value|) + (value + rest)
  }

  predicate ValidParams(params: seq<WireParam>) {
    forall i :: 0 <= i < |params| ==> ValidParam(params[i])
  }

  /** Parameters i, i+1, .. one after the other. */
  function EncodeParams(params: seq<WireParam>, i: nat, rest: Bytes): Bytes
    requires i <= |params| && ValidParams(params)
    decreases |params| - i
  {
    if i == |params| then rest else EncodeParam(params[i], EncodeParams(params, i + 1, rest))
  }

  function EncodeBindTail(m: WireBind, rest: Bytes): Bytes
    requires Valid(m)
  {
    Put16(|m.codes|) + EncodeCodes(m.codes, Put16(|m.params|) + EncodeParams(m.params, 0, rest))
  }

  /** The Bind body of section 55.7 of the PostgreSQL 16 documentation; `rest` holds the
      result formats, which capture does not read. */
  function EncodeBind(m: WireBind, rest: Bytes): Bytes
    requires Valid(m)
  {
    m.portal + ([0] + (m.stmt + ([0] + EncodeBindTail(m, rest))))
  }

  function Codes16(codes: seq<nat>): (r: seq<int>)
    ensures |r| == |codes|
  {
    seq(|codes|, i requires 0 <= i < |codes| => Signed16(codes[i]))
  }

  function Captured(p: WireParam, format: int): Param {
    match p
    case WireNull(_) => NullParam(format)
    case WireValue(value) => ValueParam(format, value)
  }

  /** Each parameter captured under the format the rule assigns to its position. */
  function CapturedFrom(params: seq<WireParam>, codes: seq<int>, i: nat): (r: seq<Param>)
    requires i <= |params|
    ensures |r| == |params| - i
    decreases |params| - i
  {
    if i == |params| then []
    else [Captured(params[i], FormatOf(codes, i))] + CapturedFrom(params, codes, i + 1)
  }

  /** The j-th captured parameter is the j-th on the wire, under its own format. */
  lemma {:induction false} CapturedAt(params: seq<WireParam>, codes: seq<int>, i: nat, j: nat)
    requires i <= j < |params|
    ensures CapturedFrom(params, codes, i)[j - i] == Captured(params[j], FormatOf(codes, j))
    decreases |params| - i
  {
    if i < j {
      CapturedAt(params, codes, i + 1, j);
    }
  }

  function CapturedParams(m: WireBind): seq<Param> {
    CapturedFrom(m.params, Codes16(m.codes), 0)
  }

  lemma {:induction false} CodesInverse(codes: seq<nat>, rest: Bytes)
    requires forall i :: 0 <= i < |codes| ==> codes[i] < TWO_16
    ensures ReadCodes(EncodeCodes(codes, rest), |codes|) == Codes(Codes16(codes), rest)
  {
    if codes != [] {
      Get16Prefix(codes[0], EncodeCodes(codes[1..], rest));
      CodesInverse(codes[1..], rest);
      assert [Signed16(codes[0])] + Codes16(codes[1..]) == Codes16(codes);
    }
  }

  lemma ParamInverse(p: WireParam, format: int, rest: Bytes)
    requires ValidParam(p)
    ensures ReadValue(EncodeParam(p, rest), format) == Value(Captured(p, format), rest)
  {
    match p
    case WireNull(length) =>
      Get32Prefix(length, rest);
    case WireValue(value) =>
      Get32Prefix(|value|, value + rest);
      assert (value + rest)[..|value|] == value && (value + rest)[|value|..] == rest;
  }

  lemma {:induction false} ParamsInverse(params: seq<WireParam>, codes: seq<int>, i: nat, rest: Bytes)
    requires i <= |params| && ValidParams(params)
    ensures ReadValues(EncodeParams(params, i, rest), codes, i, |params|)
            == Values(CapturedFrom(params, codes, i), rest)
    decreases |params| - i
  {
    if i < |params| {
      ParamInverse(params[i], FormatOf(codes, i), EncodeParams(params, i + 1, rest));
      ParamsInverse(params, codes, i + 1, rest);
      hide ReadValue, EncodeParam, Captured, FormatOf;
    }
  }

  /** Parsing inverts the encoding, for all names, format codes and parameters. */
  lemma BindInverse(m: WireBind, rest: Bytes)
    requires Valid(m)
    ensures ReadBind(EncodeBind(m, rest)) == Bound(AsText(m.portal), AsText(m.stmt), CapturedParams(m))
  {
    var tail := EncodeBindTail(m, rest);
    CutStringText(m.portal, m.stmt + ([0] + tail));
    CutStringText(m.stmt, tail);
    BindTailInverse(m, rest);
  }

  lemma BindTailInverse(m: WireBind, rest: Bytes)
    requires Valid(m)
    ensures ReadBindTail(EncodeBindTail(m, rest)) == Some(CapturedParams(m))
  {
    var params := EncodeParams(m.params, 0, rest);
    var more := Put16(|m.params|) + params;
    Get16Prefix(|m.codes|, EncodeCodes(m.codes, more));
    CodesInverse(m.codes, more);
    Get16Prefix(|m.params|, params);
    ParamsInverse(m.params, Codes16(m.codes), 0, rest);
  }

  /** The word is the code in two's complement. */
  predicate IsCode(format: int, word: nat) {
    -0x8000 <= format < 0x8000 && (format - word) % 0x1_0000 == 0
  }

  /** Text without format codes, the only code for every position, the position's own code otherwise, and
      text where there is none. */
  predicate HasFormat(format: int, codes: seq<nat>, j: nat) {
    && (codes == [] ==> format == 0)
    && (|codes| == 1 ==> IsCode(format, codes[0]))
    && (|codes| > 1 && j < |codes| ==> IsCode(format, codes[j]))
    && (|codes| > 1 && j >= |codes| ==> format == 0)
  }

  /** NULL is known; text is known and made of its own bytes; anything else is unknown, its bytes kept. */
  predicate Carries(p: Param, w: WireParam) {
    && p.oid == 0
    && match w
       case WireNull(_) => p.isNull && p.known && p.value == [] && p.text == "NULL" && p.reason == NoReason
       case WireValue(value) =>
         && !p.isNull && p.value == value
         && if p.format == 0 then p.known && IsTextOf(p.text, value) && p.reason == NoReason
            else !p.known && p.text == "" && p.reason == OidNotCaptured
  }

  /** What a parsed Bind says about its j-th parameter. */
  lemma BoundParam(m: WireBind, rest: Bytes, j: nat)
    requires Valid(m) && j < |m.params|
    ensures var b := ReadBind(EncodeBind(m, rest));
            && b.Bound? && |b.params| == |m.params| && IsTextOf(b.portal, m.portal) && IsTextOf(b.stmt, m.stmt)
            && HasFormat(b.params[j].format, m.codes, j) && Carries(b.params[j], m.params[j])
  {
    BindInverse(m, rest);
    CapturedAt(m.params, Codes16(m.codes), 0, j);
    TextBytes(m.portal);
    TextBytes(m.stmt);
    FormatFollows(m.codes, j);
    CapturedCarries(m.params[j], FormatOf(Codes16(m.codes), j));
    var b := ReadBind(EncodeBind(m, rest));
    assert b.params[j] == Captured(m.params[j], FormatOf(Codes16(m.codes), j));
    hide *;
  }

  lemma FormatFollows(codes: seq<nat>, j: nat)
    requires forall i :: 0 <= i < |codes| ==> codes[i] < TWO_16
    ensures HasFormat(FormatOf(Codes16(codes), j), codes, j)
  {
    forall i | 0 <= i < |codes|
      ensures IsCode(Codes16(codes)[i], codes[i])
    {
    }
  }

  lemma CapturedCarries(w: WireParam, format: int)
    ensures var p := Captured(w, format); p.format == format && Carries(p, w)
  {
    if w.WireValue? {
      TextBytes(w.value);
    }
  }

  lemma {:induction false} CodesSound(b: Bytes, n: nat) returns (codes: seq<nat>)
    requires ReadCodes(b, n).Codes?
    ensures |codes| == n && forall i :: 0 <= i < n ==> codes[i] < TWO_16
    ensures b == EncodeCodes(codes, ReadCodes(b, n).rest)
  {
    if n == 0 {
      codes := [];
    } else {
      var more := CodesSound(b[2..], n - 1);
      Put16Get(b);
      codes := [Get16(b)] + more;
      assert codes[1..] == more;
    }
  }

  lemma ParamSound(b: Bytes, format: int) returns (p: WireParam)
    requires ReadValue(b, format).Value?
    ensures ValidParam(p) && b == EncodeParam(p, ReadValue(b, format).rest)
  {
    var length, more := Get32(b), b[4..];
    Put32Get(b);
    if length >= TWO_31 {
      p := WireNull(length);
    } else {
      p := WireValue(more[..length]);
      assert more == more[..length] + more[length..];
    }
  }

  /** Reads the parameters from the k-th on, given the wire form `read` of those before. */
  lemma {:induction false} ParamsSound(b: Bytes, codes: seq<int>, read: seq<WireParam>, n: nat)
    returns (params: seq<WireParam>)
    requires |read| <= n && ValidParams(read) && ReadValues(b, codes, |read|, n).Values?
    ensures |params| == n && ValidParams(params) && params[..|read|] == read
    ensures b == EncodeParams(params, |read|, ReadValues(b, codes, |read|, n).rest)
    decreases n - |read|
  {
    var k := |read|;
    if k == n {
      params := read;
    } else {
      var p := ParamSound(b, FormatOf(codes, k));
      var rest := ReadValue(b, FormatOf(codes, k)).rest;
      params := ParamsSound(rest, codes, read + [p], n);
      assert params[..k + 1][..k] == read && params[..k + 1][k] == p;
    }
  }

  predicate IsBindOf(b: Bytes, m: WireBind, rest: Bytes) {
    Valid(m) && b == EncodeBind(m, rest)
  }

  lemma EncodedBind(m: WireBind, rest: Bytes, tail: Bytes)
    requires Valid(m) && tail == EncodeBindTail(m, rest)
    ensures IsBindOf(m.portal + ([0] + (m.stmt + ([0] + tail))), m, rest)
  {
  }

  lemma BindSound(b: Bytes) returns (m: WireBind, rest: Bytes)
    requires ReadBind(b).Bound?
    ensures IsBindOf(b, m, rest)
  {
    var portal := CutString(b);
    var stmt := CutString(portal.rest);
    m, rest := BindTailSound(portal.str, stmt.str, stmt.rest);
    hide *;
    EncodedBind(m, rest, stmt.rest);
  }

  /** A body is accepted exactly when it is the encoding of some Bind message, so every
      parameter is read from within the body and their number is the declared one. */
  lemma BindAccepted(b: Bytes)
    ensures ReadBind(b).Bound? <==> exists m, rest :: IsBindOf(b, m, rest)
  {
    if ReadBind(b).Bound? {
      var m, rest := BindSound(b);
      assert IsBindOf(b, m, rest);
    }
    hide ReadBind;
    if m, rest :| IsBindOf(b, m, rest) {
      BindInverse(m, rest);
    }
  }

  lemma BindTailSound(portal: Bytes, stmt: Bytes, tail: Bytes) returns (m: WireBind, rest: Bytes)
    requires 0 !in portal && 0 !in stmt && ReadBindTail(tail).Some?
    ensures m.portal == portal && m.stmt == stmt && Valid(m) && tail == EncodeBindTail(m, rest)
  {
    var read := ReadCodes(tail[2..], Get16(tail));
    var codes := CodesSound(tail[2..], Get16(tail));
    var n := Get16(read.rest);
    var params := ParamsSound(read.rest[2..], read.codes, [], n);
    rest := ReadValues(read.rest[2..], read.codes, 0, n).rest;
    m := WireBind(portal, stmt, codes, params);
    Put16Get(tail);
    Put16Get(read.rest);
  }

  // ----- backend descriptions

  function ReadOids(b: Bytes, n: nat): (oids: seq<int>)
    requires |b| >= 4 * n
    ensures |oids| == n
  {
    if n == 0 then [] else [Get32(b)] + ReadOids(b[4..], n - 1)
  }

  /** Parameter type OIDs of a ParameterDescription. */
  function ReadParamDesc(body: Bytes): Option<seq<int>> {
    if |body| < 2 || |body| < 2 + 4 * Get16(body) then None else Some(ReadOids(body[2..], Get16(body)))
  }

  method ParseParameterDescription(body: Bytes) returns (oids: seq<int>, ok: bool)
    ensures ReadParamDesc(body) == if ok then Some(oids) else None
  {
    oids := [];
    if |body| < 2 {
      return oids, false;
    }
    var n := Get16(body[0..2]);
    if |body| < 2 + 4 * n {
      return oids, false;
    }
    var i := 0;
    assert body[2 + 4 * i..] == body[2..];
    while i < n
      invariant 0 <= i <= n
      invariant ReadOids(body[2..], n) == oids + ReadOids(body[2 + 4 * i..], n - i)
    {
      var at := 2 + 4 * i;
      assert body[at..][4..] == body[at + 4..];
      ghost var more := ReadOids(body[at + 4..], n - i - 1);
      var oid := Get32(body[at..]);
      assert oids + ([oid] + more) == (oids + [oid]) + more;
      oids := oids + [oid];
      i := i + 1;
    }
    assert oids + [] == oids;
    ok := true;
  }

  function EncodeOids(oids: seq<int>, rest: Bytes): Bytes
    requires forall i :: 0 <= i < |oids| ==> 0 <= oids[i] < TWO_32
  {
    if oids == [] then rest else Put32(oids[0]) + EncodeOids(oids[1..], rest)
  }

  lemma {:induction false} OidsInverse(oids: seq<int>, rest: Bytes)
    requires forall i :: 0 <= i < |oids| ==> 0 <= oids[i] < TWO_32
    ensures |EncodeOids(oids, rest)| == 4 * |oids| + |rest| && ReadOids(EncodeOids(oids, rest), |oids|) == oids
  {
    if oids != [] {
      OidsInverse(oids[1..], rest);
      Get32Prefix(oids[0], EncodeOids(oids[1..], rest));
    }
  }

  /** Parsing inverts the encoding of a ParameterDescription. */
  lemma ParamDescInverse(oids: seq<int>, rest: Bytes)
    requires |oids| < TWO_16 && forall i :: 0 <= i < |oids| ==> 0 <= oids[i] < TWO_32
    ensures ReadParamDesc(Put16(|oids|) + EncodeOids(oids, rest)) == Some(oids)
  {
    OidsInverse(oids, rest);
    Get16Prefix(|oids|, EncodeOids(oids, rest));
  }

  datatype Column = NoColumn | Column(oid: int, rest: Bytes)

  /** One column: a name, then 18 bytes whose bytes 6..9 hold the type. */
  function ReadColumn(b: Bytes): Column {
    match CutString(b)
    case NoCut => NoColumn
    case Cut(_, fixed) => if |fixed| < 18 then NoColumn else Column(Get32(fixed[6..]), fixed[18..])
  }

  function ReadColumns(b: Bytes, n: nat): Option<seq<int>>
    decreases n
  {
    if n == 0 then Some([])
    else match ReadColumn(b)
      case NoColumn => None
      case Column(oid, rest) => Before([oid], ReadColumns(rest, n - 1))
  }

  function Before(oids: seq<int>, more: Option<seq<int>>): Option<seq<int>> {
    match more
    case None => None
    case Some(rest) => Some(oids + rest)
  }

  /** Column type OIDs of a RowDescription. */
  function ReadRowDesc(body: Bytes): Option<seq<int>> {
    if |body| < 2 then None else ReadColumns(body[2..], Get16(body))
  }

  method ParseColumn(body: Bytes, start: nat) returns (oid: int, i: nat, ok: bool)
    requires start <= |body|
    ensures start <= i <= |body|
    ensures ReadColumn(body[start..]) == if ok then Column(oid, body[i..]) else NoColumn
  {
    oid, i := 0, start;
    var _, next, found := CString(body, i);
    if !found || next + 18 > |body| {
      return oid, i, false;
    }
    assert body[next..][6..] == body[next + 6..] && body[next..][18..] == body[next + 18..];
    return Get32(body[next + 6..]), next + 18, true;
  }

  lemma BeforeMore(oids: seq<int>, oid: int, more: Option<seq<int>>)
    ensures Before(oids, Before([oid], more)) == Before(oids + [oid], more)
    ensures Before([], more) == more
    ensures Before(oids, Some([])) == Some(oids) && Before(oids, None) == None
  {
    assert more.Some? ==> oids + ([oid] + more.value) == (oids + [oid]) + more.value;
    assert more.Some? ==> [] + more.value == more.value;
    assert oids + [] == oids;
  }

  lemma ReadColumnsStep(b: Bytes, n: nat)
    ensures ReadColumns(b, n) ==
            if n == 0 then Some([])
            else if ReadColumn(b).NoColumn? then None
            else Before([ReadColumn(b).oid], ReadColumns(ReadColumn(b).rest, n - 1))
  {
    hide ReadColumn, Before;
  }

  lemma RowDescStart(body: Bytes)
    requires |body| >= 2
    ensures ReadRowDesc(body) == ReadColumns(body[2..], Get16(body[0..2]))
    ensures Before([], ReadColumns(body[2..], Get16(body[0..2]))) == ReadColumns(body[2..], Get16(body[0..2]))
  {
    assert Get16(body[0..2]) == Get16(body);
    hide ReadColumns, Before, Get16;
    BeforeMore([], 0, ReadColumns(body[2..], Get16(body[0..2])));
  }

  method ParseRowDescription(body: Bytes) returns (oids: seq<int>, ok: bool)
    ensures ReadRowDesc(body) == if ok then Some(oids) else None
  {
    oids := [];
    if |body| < 2 {
      return oids, false;
    }
    var n := Get16(body[0..2]);
    var i, f := 2, 0;
    RowDescStart(body);
    hide *;
    while f < n
      invariant 0 <= f <= n && 2 <= i <= |body|
      invariant ReadColumns(body[2..], n) == Before(oids, ReadColumns(body[i..], n - f))
    {
      ReadColumnsStep(body[i..], n - f);
      var oid, found;
      oid, i, found := ParseColumn(body, i);
      if !found {
        BeforeMore(oids, 0, None);
        return oids, false;
      }
      BeforeMore(oids, oid, ReadColumns(body[i..], n - f - 1));
      oids := oids + [oid];
      f := f + 1;
    }
    ReadColumnsStep(body[i..], 0);
    BeforeMore(oids, 0, None);
    ok := true;
  }

  // ----- encoding of row descriptions

  /** A column on the wire: its name, six bytes, the type, eight bytes. */
  datatype WireColumn = WireColumn(name: Bytes, front: Bytes, oid: nat, back: Bytes)

  predicate ValidColumn(c: WireColumn) {
    0 !in c.name && |c.front| == 6 && c.oid < TWO_32 && |c.back| == 8
  }

  function EncodeColumn(c: WireColumn, rest: Bytes): Bytes
    requires ValidColumn(c)
  {
    c.name + ([0] + (c.front + (Put32(c.oid) + (c.back + rest))))
  }

  function EncodeColumns(columns: seq<WireColumn>, rest: Bytes): Bytes
    requires forall i :: 0 <= i < |columns| ==> ValidColumn(columns[i])
  {
    if columns == [] then rest else EncodeColumn(columns[0], EncodeColumns(columns[1..], rest))
  }

  function OidsOn(columns: seq<WireColumn>): (r: seq<int>)
    ensures |r| == |columns|
  {
    seq(|columns|, i requires 0 <= i < |columns| => columns[i].oid)
  }

  lemma ColumnInverse(c: WireColumn, rest: Bytes)
    requires ValidColumn(c)
    ensures ReadColumn(EncodeColumn(c, rest)) == Column(c.oid, rest)
  {
    var more := Put32(c.oid) + (c.back + rest);
    CutStringText(c.name, c.front + more);
    assert (c.front + more)[6..] == more;
    Get32Prefix(c.oid, c.back + rest);
    assert (c.front + more)[18..] == rest;
  }

  lemma {:induction false} ColumnsInverse(columns: seq<WireColumn>, rest: Bytes)
    requires forall i :: 0 <= i < |columns| ==> ValidColumn(columns[i])
    ensures ReadColumns(EncodeColumns(columns, rest), |columns|) == Some(OidsOn(columns))
    decreases |columns|
  {
    hide *;
    ReadColumnsStep(EncodeColumns(columns, rest), |columns|);
    if columns == [] {
      assert OidsOn(columns) == [];
    } else {
      ColumnInverse(columns[0], EncodeColumns(columns[1..], rest));
      ColumnsStep(columns, rest);
      ColumnsInverse(columns[1..], rest);
      BeforeOne(columns[0].oid, OidsOn(columns[1..]));
    }
  }

  lemma ColumnsStep(columns: seq<WireColumn>, rest: Bytes)
    requires columns != [] && forall i :: 0 <= i < |columns| ==> ValidColumn(columns[i])
    ensures EncodeColumns(columns, rest) == EncodeColumn(columns[0], EncodeColumns(columns[1..], rest))
    ensures OidsOn(columns) == [columns[0].oid] + OidsOn(columns[1..])
  {
    hide EncodeColumn, ValidColumn;
  }

  lemma BeforeOne(oid: int, oids: seq<int>)
    ensures Before([oid], Some(oids)) == Some([oid] + oids)
  {
  }

  /** Parsing a RowDescription gives the type of every column, in order. */
  lemma RowDescInverse(columns: seq<WireColumn>, rest: Bytes)
    requires |columns| < TWO_16 && forall i :: 0 <= i < |columns| ==> ValidColumn(columns[i])
    ensures ReadRowDesc(Put16(|columns|) + EncodeColumns(columns, rest)) == Some(OidsOn(columns))
  {
    ColumnsInverse(columns, rest);
    hide ReadColumns, EncodeColumns, Get16;
    Get16Prefix(|columns|, EncodeColumns(columns, rest));
  }
}
