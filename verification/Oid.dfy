/** Rendering of binary-format parameters as text, by type OID. */
module Oid {
  import opened Text
  import opened Wire
  import opened Messages

  const BOOL := 16
  const BYTEA := 17
  const NAME := 19
  const INT8 := 20
  const INT2 := 21
  const INT4 := 23
  const TEXT := 25
  const OID := 26
  const FLOAT4 := 700
  const FLOAT8 := 701
  const BPCHAR := 1042
  const VARCHAR := 1043
  const DATE := 1082
  const TIMESTAMP := 1114
  const TIMESTAMPTZ := 1184
  const UUID := 2950

  // ----- decimal and hexadecimal text

  function Digit(d: nat): char
    requires d < 16
  {
    if d < 10 then '0' + d as char else 'a' + (d - 10) as char
  }

  function Decimal(n: nat): string {
    if n < 10 then [Digit(n)] else Decimal(n / 10) + [Digit(n % 10)]
  }

  function SignedDecimal(n: int): string {
    if n < 0 then "-" + Decimal(-n) else Decimal(n)
  }

  function DigitValue(c: char): int {
    c as int - '0' as int
  }

  /** The number a run of digits stands for. */
  function NumberOf(s: string): int {
    if s == "" then 0 else NumberOf(s[..|s| - 1]) * 10 + DigitValue(s[|s| - 1])
  }

  lemma {:induction false} DecimalNumber(n: nat)
    ensures NumberOf(Decimal(n)) == n
    ensures Decimal(n) != "" && forall i :: 0 <= i < |Decimal(n)| ==> '0' <= Decimal(n)[i] <= '9'
  {
    if n < 10 {
      assert Decimal(n)[..0] == "";
    } else {
      DecimalNumber(n / 10);
      var s := Decimal(n);
      assert s[..|s| - 1] == Decimal(n / 10);
    }
  }

  lemma SignedDecimalInjective(m: int, n: int)
    ensures SignedDecimal(m) == SignedDecimal(n) ==> m == n
  {
    DecimalNumber(if m < 0 then -m else m);
    DecimalNumber(if n < 0 then -n else n);
    if m < 0 {
      assert SignedDecimal(m)[0] == '-' && SignedDecimal(m)[1..] == Decimal(-m);
    }
    if n < 0 {
      assert SignedDecimal(n)[0] == '-' && SignedDecimal(n)[1..] == Decimal(-n);
    }
  }

  function HexByte(b: Byte): string {
    [Digit(b / 16), Digit(b % 16)]
  }

  function Hex(b: Bytes): (s: string)
    ensures |s| == 2 * |b|
  {
    if b == [] then "" else HexByte(b[0]) + Hex(b[1..])
  }

  lemma {:induction false} HexInjective(a: Bytes, b: Bytes)
    requires Hex(a) == Hex(b)
    ensures a == b
  {
    if a != [] {
      var s, t := Hex(a), Hex(b);
      assert s[0] == Digit(a[0] / 16) && s[1] == Digit(a[0] % 16);
      assert t[0] == Digit(b[0] / 16) && t[1] == Digit(b[0] % 16);
      assert s[2..] == Hex(a[1..]) && t[2..] == Hex(b[1..]);
      HexInjective(a[1..], b[1..]);
      assert a == [a[0]] + a[1..] && b == [b[0]] + b[1..];
    }
  }

  // ----- decoding

  function Signed32(n: nat): int {
    if n < TWO_31 then n else n - TWO_32
  }

  const TWO_63 := 0x8000_0000_0000_0000
  const TWO_64 := 0x1_0000_0000_0000_0000

  function Get64(b: Bytes): (n: nat)
    requires |b| == 8
    ensures n < TWO_64
  {
    Get32(b[..4]) * TWO_32 + Get32(b[4..])
  }

  function Signed64(n: nat): int {
    if n < TWO_63 then n else n - TWO_64
  }

  /** Library rendering of floats, dates and timestamps, by type and payload. */
  type Renderer = (int, Bytes) -> string

  predicate IsTextType(oid: int) {
    oid == TEXT || oid == VARCHAR || oid == BPCHAR || oid == NAME
  }

  /** The payload width a fixed-width type demands; none for other types. */
  function Width(oid: int): Option<nat> {
    if oid == BOOL then Some(1)
    else if oid == INT2 then Some(2)
    else if oid == INT4 || oid == OID || oid == FLOAT4 || oid == DATE then Some(4)
    else if oid == INT8 || oid == FLOAT8 || oid == TIMESTAMP || oid == TIMESTAMPTZ then Some(8)
    else if oid == UUID then Some(16)
    else None
  }

  function UuidText(b: Bytes): string
    requires |b| == 16
  {
    Hex(b[0..4]) + "-" + Hex(b[4..6]) + "-" + Hex(b[6..8]) + "-" + Hex(b[8..10]) + "-" + Hex(b[10..16])
  }

  function DecodeBinary(oid: int, b: Bytes, library: Renderer): Option<string> {
    if Width(oid).Some? then
      if |b| != Width(oid).value then None
      else if oid == BOOL then Some(if b[0] != 0 then "true" else "false")
      else if oid == INT2 then Some(SignedDecimal(Signed16(Get16(b))))
      else if oid == INT4 then Some(SignedDecimal(Signed32(Get32(b))))
      else if oid == OID then Some(Decimal(Get32(b)))
      else if oid == INT8 then Some(SignedDecimal(Signed64(Get64(b))))
      else if oid == UUID then Some(UuidText(b))
      else Some(library(oid, b))
    else if IsTextType(oid) then Some(AsText(b))
    else if oid == BYTEA then Some("\\x" + Hex(b))
    else None
  }

  // ----- what the decoded text says about the payload

  predicate IsInteger(oid: int) {
    oid == INT2 || oid == INT4 || oid == INT8
  }

  /** The value a payload of an integer type stands for. */
  function IntegerOf(oid: int, b: Bytes): int
    requires IsInteger(oid) && |b| == Width(oid).value
  {
    if oid == INT2 then Signed16(Get16(b)) else if oid == INT4 then Signed32(Get32(b)) else Signed64(Get64(b))
  }

  lemma IntegerInjective(oid: int, a: Bytes, b: Bytes)
    requires IsInteger(oid) && |a| == |b| == Width(oid).value
    requires IntegerOf(oid, a) == IntegerOf(oid, b)
    ensures a == b
  {
    if oid == INT8 {
      Get32Injective(a[..4], b[..4]);
      Get32Injective(a[4..], b[4..]);
      assert a == a[..4] + a[4..] && b == b[..4] + b[4..];
    } else if oid == INT4 {
      Get32Injective(a, b);
    }
  }

  lemma Get32Injective(a: Bytes, b: Bytes)
    requires |a| == |b| == 4
    ensures Get32(a) == Get32(b) ==> a == b
  {
    if Get32(a) == Get32(b) {
      Put32Get(a);
      Put32Get(b);
      assert a[4..] == b[4..] == [];
    }
  }

  lemma {:induction false} AsTextInjective(a: Bytes, b: Bytes)
    ensures AsText(a) == AsText(b) ==> a == b
  {
    if AsText(a) == AsText(b) {
      assert |a| == |b|;
      forall i | 0 <= i < |a|
        ensures a[i] == b[i]
      {
        assert AsText(a)[i] == AsText(b)[i];
      }
    }
  }

  lemma UuidInjective(a: Bytes, b: Bytes)
    requires |a| == |b| == 16
    ensures UuidText(a) == UuidText(b) ==> a == b
  {
    UuidParts(a);
    UuidParts(b);
    if UuidText(a) == UuidText(b) {
      hide UuidText;
      HexInjective(a[0..4], b[0..4]);
      HexInjective(a[4..6], b[4..6]);
      HexInjective(a[6..8], b[6..8]);
      HexInjective(a[8..10], b[8..10]);
      HexInjective(a[10..16], b[10..16]);
      hide Hex;
      Glue(a);
      Glue(b);
    }
  }

  lemma Glue(b: Bytes)
    requires |b| == 16
    ensures b == b[0..4] + b[4..6] + b[6..8] + b[8..10] + b[10..16]
  {
  }

  /** Each group of a UUID's text is the hexadecimal of its bytes. */
  lemma UuidParts(b: Bytes)
    requires |b| == 16
    ensures var s := UuidText(b);
            |s| == 36 && s[0..8] == Hex(b[0..4]) && s[9..13] == Hex(b[4..6]) && s[14..18] == Hex(b[6..8])
            && s[19..23] == Hex(b[8..10]) && s[24..36] == Hex(b[10..16])
  {
    hide Hex;
  }

  /** Types whose payload the rendering determines: all but the library's, and bool. */
  predicate IsExact(oid: int) {
    IsInteger(oid) || oid == OID || IsTextType(oid) || oid == UUID || oid == BYTEA
  }

  /** Two payloads of one type decode to the same text exactly when they are the same
      payload; for bool, exactly when both or neither are zero. A wrong width never decodes. */
  lemma DecodeFaithful(oid: int, a: Bytes, b: Bytes, library: Renderer)
    requires DecodeBinary(oid, a, library).Some? && DecodeBinary(oid, b, library).Some?
    ensures Width(oid).Some? ==> |a| == |b| == Width(oid).value
    ensures IsExact(oid) ==> (DecodeBinary(oid, a, library) == DecodeBinary(oid, b, library) <==> a == b)
    ensures oid == BOOL ==>
              (DecodeBinary(oid, a, library) == DecodeBinary(oid, b, library) <==> (a[0] == 0 <==> b[0] == 0))
  {
    if DecodeBinary(oid, a, library) == DecodeBinary(oid, b, library) {
      if IsInteger(oid) {
        SignedDecimalInjective(IntegerOf(oid, a), IntegerOf(oid, b));
        IntegerInjective(oid, a, b);
      } else if oid == OID {
        SignedDecimalInjective(Get32(a), Get32(b));
        Get32Injective(a, b);
      } else if IsTextType(oid) {
        AsTextInjective(a, b);
      } else if oid == UUID {
        UuidInjective(a, b);
      } else if oid == BYTEA {
        assert ("\\x" + Hex(a))[2..] == Hex(a) && ("\\x" + Hex(b))[2..] == Hex(b);
        HexInjective(a, b);
      }
    }
  }

  // ----- what the text is

  /** A number's decimal text: digits of that value, no zero in front, a sign exactly when it is negative. */
  predicate IsDecimalOf(s: string, n: int) {
    if n < 0 then s != "" && s[0] == '-' && IsDigitsOf(s[1..], -n) else IsDigitsOf(s, n)
  }

  predicate IsDigitsOf(s: string, n: int) {
    s != "" && (forall i :: 0 <= i < |s| ==> '0' <= s[i] <= '9') && NumberOf(s) == n && (s[0] == '0' ==> n == 0 && |s| == 1)
  }

  lemma {:induction false} DecimalDigits(n: nat)
    ensures IsDigitsOf(Decimal(n), n)
  {
    DecimalNumber(n);
    if n < 10 {
      assert Decimal(n)[0] == Digit(n);
    } else {
      DecimalDigits(n / 10);
      assert Decimal(n)[0] == Decimal(n / 10)[0];
    }
  }

  lemma SignedDigits(n: int)
    ensures IsDecimalOf(SignedDecimal(n), n)
  {
    DecimalDigits(if n < 0 then -n else n);
    if n < 0 {
      assert SignedDecimal(n)[1..] == Decimal(-n);
    }
    hide NumberOf, Decimal;
  }

  /** The two small hexadecimal digits of a byte. */
  predicate IsHexOf(high: char, low: char, b: Byte) {
    IsHexDigit(high, b / 16) && IsHexDigit(low, b % 16)
  }

  predicate IsHexDigit(c: char, d: nat) {
    if d < 10 then c as int == '0' as int + d else d < 16 && c as int == 'a' as int + d - 10
  }

  lemma {:induction false} HexDigits(b: Bytes, i: nat)
    requires i < |b|
    ensures IsHexOf(Hex(b)[2 * i], Hex(b)[2 * i + 1], b[i])
    decreases |b|
  {
    var s := Hex(b);
    assert s[0] == Digit(b[0] / 16) && s[1] == Digit(b[0] % 16);
    if i > 0 {
      HexDigits(b[1..], i - 1);
      assert s[2..] == Hex(b[1..]);
      assert s[2 * i] == s[2..][2 * (i - 1)] && s[2 * i + 1] == s[2..][2 * (i - 1) + 1];
    }
  }

  /** Which payloads decode, by the type's number and width. */
  lemma Decodable(oid: int, b: Bytes, library: Renderer)
    ensures DecodeBinary(oid, b, library).Some? <==>
              || (oid == 16 && |b| == 1) || (oid == 21 && |b| == 2)
              || (oid in {23, 26, 700, 1082} && |b| == 4)
              || (oid in {20, 701, 1114, 1184} && |b| == 8)
              || (oid == 2950 && |b| == 16)
              || oid in {17, 19, 25, 1042, 1043}
  {
    hide Hex, UuidText, SignedDecimal, Decimal, AsText, Get64;
  }

  lemma DecodeBool(b: Byte, library: Renderer)
    ensures DecodeBinary(16, [b], library) == Some(if b == 0 then "false" else "true")
  {
  }

  lemma DecodeInt2(n: int, library: Renderer)
    requires -0x8000 <= n < 0x8000
    ensures var r := DecodeBinary(21, Put16(if n < 0 then n + 0x1_0000 else n), library);
            r.Some? && IsDecimalOf(r.value, n)
  {
    SignedDigits(n);
    hide SignedDecimal, IsDecimalOf;
  }

  lemma DecodeInt8(n: int, library: Renderer)
    requires -TWO_63 <= n < TWO_63
    ensures var word := if n < 0 then n + TWO_64 else n;
            var r := DecodeBinary(20, Put32(word / TWO_32) + Put32(word % TWO_32), library);
            r.Some? && IsDecimalOf(r.value, n)
  {
    var word := if n < 0 then n + TWO_64 else n;
    var b := Put32(word / TWO_32) + Put32(word % TWO_32);
    assert b[..4] == Put32(word / TWO_32) && b[4..] == Put32(word % TWO_32);
    assert Get64(b) == word;
    SignedDigits(n);
    hide SignedDecimal, IsDecimalOf, Get64, Put32;
  }

  lemma DecodeOid(n: nat, library: Renderer)
    requires n < TWO_32
    ensures var r := DecodeBinary(26, Put32(n), library); r.Some? && IsDecimalOf(r.value, n)
  {
    DecimalDigits(n);
    hide Decimal, IsDigitsOf, Put32;
  }

  /** Text types decode to their bytes as characters. */
  lemma DecodeText(oid: int, b: Bytes, library: Renderer)
    requires oid in {19, 25, 1042, 1043}
    ensures var r := DecodeBinary(oid, b, library); r.Some? && IsTextOf(r.value, b)
  {
    TextBytes(b);
  }

  /** A byte string decodes to a backslash, an x and two hexadecimal digits for every byte. */
  lemma DecodeBytea(b: Bytes, library: Renderer)
    ensures var r := DecodeBinary(17, b, library);
            r.Some? && |r.value| == 2 + 2 * |b| && r.value[0] == '\\' && r.value[1] == 'x'
            && forall i :: 0 <= i < |b| ==> IsHexOf(r.value[2 + 2 * i], r.value[3 + 2 * i], b[i])
  {
    forall i | 0 <= i < |b|
      ensures IsHexOf(Hex(b)[2 * i], Hex(b)[2 * i + 1], b[i])
    {
      HexDigits(b, i);
    }
    hide Hex, IsHexOf;
  }

  /** Where the i-th byte of a UUID stands in its text: behind as many dashes as groups are complete. */
  function UuidPlace(i: nat): nat {
    2 * i + if i < 4 then 0 else if i < 6 then 1 else if i < 8 then 2 else if i < 10 then 3 else 4
  }

  lemma DecodeUuid(b: Bytes, library: Renderer)
    requires |b| == 16
    ensures var r := DecodeBinary(2950, b, library);
            && r.Some? && |r.value| == 36
            && r.value[8] == '-' && r.value[13] == '-' && r.value[18] == '-' && r.value[23] == '-'
            && forall i :: 0 <= i < 16 ==> IsHexOf(r.value[UuidPlace(i)], r.value[UuidPlace(i) + 1], b[i])
  {
    var s := UuidText(b);
    UuidParts(b);
    UuidDashes(b);
    forall i | 0 <= i < 16
      ensures IsHexOf(s[UuidPlace(i)], s[UuidPlace(i) + 1], b[i])
    {
      hide UuidText, Hex, IsHexOf;
      var from, to := if i < 4 then 0 else if i < 6 then 4 else if i < 8 then 6 else if i < 10 then 8 else 10,
                      if i < 4 then 4 else if i < 6 then 6 else if i < 8 then 8 else if i < 10 then 10 else 16;
      HexDigits(b[from..to], i - from);
      var at := UuidPlace(from);
      assert s[at..at + 2 * (to - from)] == Hex(b[from..to]);
      assert s[UuidPlace(i)] == s[at..at + 2 * (to - from)][2 * (i - from)];
      assert s[UuidPlace(i) + 1] == s[at..at + 2 * (to - from)][2 * (i - from) + 1];
    }
    hide *;
    UuidDecoded(b, library);
  }

  lemma UuidDecoded(b: Bytes, library: Renderer)
    requires |b| == 16
    ensures DecodeBinary(2950, b, library) == Some(UuidText(b))
  {
    hide UuidText;
  }

  lemma UuidDashes(b: Bytes)
    requires |b| == 16
    ensures var s := UuidText(b); |s| == 36 && s[8] == '-' && s[13] == '-' && s[18] == '-' && s[23] == '-'
  {
    hide Hex;
  }

  /** Floating-point numbers, dates and timestamps are left to the library. */
  lemma DecodeByLibrary(oid: int, b: Bytes, library: Renderer)
    requires (oid in {700, 1082} && |b| == 4) || (oid in {701, 1114, 1184} && |b| == 8)
    ensures DecodeBinary(oid, b, library) == Some(library(oid, b))
  {
  }

  /** A 32-bit integer, in its two's-complement encoding, decodes to its own decimal text. */
  lemma DecodeInt4(n: int, library: Renderer)
    requires -TWO_31 <= n < TWO_31
    ensures var r := DecodeBinary(23, Put32(if n < 0 then n + TWO_32 else n), library);
            r == Some(SignedDecimal(n)) && IsDecimalOf(r.value, n)
  {
    SignedDigits(n);
    hide SignedDecimal, IsDecimalOf;
  }
}
