/** What each message of the protocol does to a session, from its bytes on the wire to the event
    and the state it leaves. */
module CapturedMessages {
  import opened Text
  import opened Wire
  import opened Messages
  import opened Oid
  import opened Session
  import opened Interleaving

  /** A message from the client, by the letter of its type. */
  function Typed(letter: char, body: Bytes): Message
    requires letter < '\U{80}'
  {
    Message(letter as int, body)
  }

  // ----- from the client

  lemma ParseCaptured(st: State, conn: int, name: Bytes, sql: Bytes, rest: Bytes, library: Renderer)
    requires 0 !in name && 0 !in sql
    ensures Front(st, conn, Typed('P', EncodeParse(name, sql, rest)), library)
            == Step(st.(stmts := st.stmts[AsText(name) := AsText(sql)]),
                    Some(Event(conn, KindParse, AsText(name), "", AsText(sql), false, [], NoNote)))
  {
    CutStringText(name, sql + ([0] + rest));
    CutStringText(sql, rest);
    hide AsText;
  }

  lemma DescribeCaptured(st: State, conn: int, kind: Byte, name: Bytes, rest: Bytes, library: Renderer)
    requires 0 !in name
    ensures Front(st, conn, Typed('D', EncodeTarget(kind, name, rest)), library)
            == Step(if kind == 'S' as int then st.(pendingDescribe := st.pendingDescribe + [AsText(name)]) else st, None)
  {
    TargetRead(kind, name, rest);
    hide ReadTarget, AsText;
  }

  lemma CloseCaptured(st: State, conn: int, kind: Byte, name: Bytes, rest: Bytes, library: Renderer)
    requires 0 !in name
    ensures Front(st, conn, Typed('C', EncodeTarget(kind, name, rest)), library)
            == if kind == 'S' as int then
                 Step(st.(stmts := st.stmts - {AsText(name)}),
                      Some(Event(conn, KindClose, AsText(name), "", "", false, [], StatementClosed)))
               else Step(st, None)
  {
    TargetRead(kind, name, rest);
    hide ReadTarget, AsText;
  }

  lemma TargetRead(kind: Byte, name: Bytes, rest: Bytes)
    requires 0 !in name
    ensures ReadTarget(EncodeTarget(kind, name, rest)) == Target(kind, AsText(name))
  {
    assert EncodeTarget(kind, name, rest)[1..] == name + ([0] + rest);
    CutStringText(name, rest);
  }

  lemma QueryCaptured(st: State, conn: int, sql: Bytes, rest: Bytes, library: Renderer)
    requires 0 !in sql
    ensures Front(st, conn, Typed('Q', sql + ([0] + rest)), library)
            == Step(st, Some(Event(conn, KindQuery, "", "", AsText(sql), true, [], NoNote)))
  {
    CutStringText(sql, rest);
    hide AsText;
  }

  /** Messages of other types, and bodies that are no encoding, are passed over. */
  lemma ClientIgnored(st: State, conn: int, m: Message, library: Renderer)
    requires if m.typ == 'P' as int then !exists name, sql, rest :: IsParseOf(m.body, name, sql, rest)
             else if m.typ == 'B' as int then !exists b, rest :: IsBindOf(m.body, b, rest)
             else if m.typ == 'D' as int || m.typ == 'C' as int then
               !exists kind, name, rest :: IsTargetOf(m.body, kind, name, rest)
             else m.typ == 'Q' as int ==> 0 !in m.body
    ensures Front(st, conn, m, library) == Step(st, None)
  {
    ParseAccepted(m.body);
    BindAccepted(m.body);
    TargetAccepted(m.body);
    hide ReadParse, ReadBind, ReadTarget, CutString, IsParseOf, IsBindOf, IsTargetOf;
  }

  // ----- a Bind and its parameters

  /** The parameter as captured: NULL and text are known from the wire; a binary one is known exactly when
      as many OIDs are recorded as there are parameters and its own OID decodes its bytes, and is then that
      text; otherwise its reason says which of these is missing. Any other format stays unknown. */
  predicate CapturedAs(p: Param, w: WireParam, oids: seq<int>, i: nat, n: nat, library: Renderer)
    requires i < n
  {
    if w.WireNull? || p.format != 1 then Carries(p, w)
    else
      && !p.isNull && p.value == w.value
      && if oids == [] then !p.known && p.reason == NoOidsForStatement
         else if |oids| != n then !p.known && p.reason == CountMismatch(|oids|, n)
         else
           && p.oid == oids[i]
           && (p.known <==> DecodeBinary(oids[i], w.value, library).Some?)
           && (p.known ==> Some(p.text) == DecodeBinary(oids[i], w.value, library) && p.reason == NoReason)
           && (!p.known ==> p.text == "" && p.reason == NoDecoder(oids[i]))
  }

  /** The OIDs recorded for a statement; none when it was never described. */
  function RecordedOids(st: State, stmt: string): seq<int> {
    if stmt in st.paramOids then st.paramOids[stmt] else []
  }

  lemma ResolveCaptured(p: Param, w: WireParam, oids: seq<int>, i: nat, n: nat, library: Renderer)
    requires i < n && Carries(p, w)
    ensures var r := ResolveParam(oids, p, i, n, library); r.format == p.format && CapturedAs(r, w, oids, i, n, library)
  {
    hide DecodeBinary, IsTextOf;
  }

  /** A Bind leaves the state alone and is captured with the SQL its statement was parsed with, and with
      every parameter in its place. */
  lemma BindCaptured(st: State, conn: int, m: WireBind, rest: Bytes, library: Renderer)
    requires Valid(m)
    ensures var step := Front(st, conn, Typed('B', EncodeBind(m, rest)), library);
            && step.state == st && step.event.Some?
            && var ev, stmt := step.event.value, AsText(m.stmt);
            && ev.conn == conn && ev.kind == KindBind && ev.stmt == stmt && ev.portal == AsText(m.portal)
            && (ev.resolved <==> stmt in st.stmts)
            && ev.sql == (if stmt in st.stmts then st.stmts[stmt] else "")
            && ev.note == (if stmt in st.stmts then NoNote else Unresolvable)
            && |ev.params| == |m.params|
            && forall i :: 0 <= i < |ev.params| ==>
                 && HasFormat(ev.params[i].format, m.codes, i)
                 && CapturedAs(ev.params[i], m.params[i], RecordedOids(st, stmt), i, |m.params|, library)
  {
    var body, stmt := EncodeBind(m, rest), AsText(m.stmt);
    BindInverse(m, rest);
    var params := ReadBind(body).params;
    var oids := RecordedOids(st, stmt);
    assert oids == OidsOf(st, stmt);
    BindStep(st, conn, body, library);
    hide *;
    forall i | 0 <= i < |m.params|
      ensures var p := Resolve(oids, params, library)[i];
              HasFormat(p.format, m.codes, i) && CapturedAs(p, m.params[i], oids, i, |m.params|, library)
    {
      BoundParam(m, rest, i);
      ResolveAt(oids, params, i, library);
      ResolveCaptured(params[i], m.params[i], oids, i, |m.params|, library);
    }
  }

  lemma ResolveAt(oids: seq<int>, params: seq<Param>, i: nat, library: Renderer)
    requires i < |params|
    ensures Resolve(oids, params, library)[i] == ResolveParam(oids, params[i], i, |params|, library)
  {
    hide ResolveParam;
  }

  lemma BindStep(st: State, conn: int, body: Bytes, library: Renderer)
    requires ReadBind(body).Bound?
    ensures var b := ReadBind(body);
            var resolved := b.stmt in st.stmts;
            Front(st, conn, Typed('B', body), library)
            == Step(st, Some(Event(conn, KindBind, b.stmt, b.portal, if resolved then st.stmts[b.stmt] else "", resolved,
                                   Resolve(OidsOf(st, b.stmt), b.params, library),
                                   if resolved then NoNote else Unresolvable)))
  {
    hide ReadBind, Resolve, OidsOf;
  }

  /** The same within a run: the parameters of the n-th message are decoded by what was recorded before it. */
  lemma ParamsExact(t: Trace, n: nat, m: WireBind, rest: Bytes, i: nat)
    requires n < |t.inputs| && Valid(m) && t.inputs[n] == FromClient(Typed('B', EncodeBind(m, rest)))
    requires i < |m.params|
    ensures EventAt(t, n).Some? && |EventAt(t, n).value.params| == |m.params|
    ensures var p := EventAt(t, n).value.params[i];
            && HasFormat(p.format, m.codes, i)
            && CapturedAs(p, m.params[i], RecordedOids(StateAt(t, n), AsText(m.stmt)), i, |m.params|, t.library)
  {
    BindCaptured(StateAt(t, n), t.conn, m, rest, t.library);
    hide HasFormat, CapturedAs, Front, EncodeBind, StateAt, RecordedOids;
  }

  // ----- from the server

  /** A ParameterDescription answers the oldest Describe; without one it is reported as unattributable. */
  lemma ParamDescCaptured(st: State, conn: int, oids: seq<int>, rest: Bytes)
    requires |oids| < TWO_16 && forall i :: 0 <= i < |oids| ==> 0 <= oids[i] < TWO_32
    ensures Back(st, conn, Typed('t', Put16(|oids|) + EncodeOids(oids, rest)))
            == if st.pendingDescribe == [] then
                 Step(st, Some(Event(conn, KindParamDesc, "", "", "", false, [], NoOutstandingDescribe)))
               else
                 var name := st.pendingDescribe[0];
                 Step(st.(pendingDescribe := st.pendingDescribe[1..], lastDescribed := name,
                          paramOids := st.paramOids[name := oids]),
                      Some(Event(conn, KindParamDesc, name, "", "", true, [], NoNote)))
  {
    ParamDescInverse(oids, rest);
    hide ReadParamDesc, Put16, EncodeOids;
  }

  /** A RowDescription is recorded for the statement described last. */
  lemma RowDescCaptured(st: State, conn: int, columns: seq<WireColumn>, rest: Bytes)
    requires |columns| < TWO_16 && forall i :: 0 <= i < |columns| ==> ValidColumn(columns[i])
    ensures Back(st, conn, Typed('T', Put16(|columns|) + EncodeColumns(columns, rest)))
            == Step(if st.lastDescribed == "" then st
                    else st.(rowOids := st.rowOids[st.lastDescribed := OidsOn(columns)]),
                    Some(Event(conn, KindRowDesc, st.lastDescribed, "", "", st.lastDescribed != "", [], NoNote)))
  {
    RowDescInverse(columns, rest);
    hide ReadRowDesc, Put16, EncodeColumns, OidsOn;
  }

  lemma ServerIgnored(st: State, conn: int, m: Message)
    requires m.typ != 't' as int && m.typ != 'T' as int
    ensures Back(st, conn, m) == Step(st, None)
  {
  }

  // ----- from the Describe to the decoded parameter

  /** A Bind of this statement with one binary parameter, a 32-bit integer. */
  function Int4Bind(stmt: Bytes, number: int): (m: WireBind)
    requires 0 !in stmt && -TWO_31 <= number < TWO_31
    ensures Valid(m) && m.stmt == stmt && m.codes == [1]
    ensures m.params == [WireValue(Put32(if number < 0 then number + TWO_32 else number))]
  {
    WireBind([], stmt, [1], [WireValue(Put32(if number < 0 then number + TWO_32 else number))])
  }

  /** A binary int4 bound after its Describe was answered is known by its decimal text. */
  lemma Int4Known(st: State, conn: int, stmt: Bytes, number: int, library: Renderer)
    requires 0 !in stmt && -TWO_31 <= number < TWO_31 && RecordedOids(st, AsText(stmt)) == [23]
    ensures var step := Front(st, conn, Typed('B', EncodeBind(Int4Bind(stmt, number), [])), library);
            step.event.Some? && |step.event.value.params| == 1
            && var p := step.event.value.params[0];
            p.known && !p.isNull && IsDecimalOf(p.text, number)
  {
    var m := Int4Bind(stmt, number);
    hide *;
    BindCaptured(st, conn, m, [], library);
    var p := Front(st, conn, Typed('B', EncodeBind(m, [])), library).event.value.params[0];
    assert HasFormat(p.format, [1], 0) && CapturedAs(p, m.params[0], [23], 0, 1, library);
    BinaryFormat(p.format);
    DecodeInt4(number, library);
    Int4Text(p, Put32(if number < 0 then number + TWO_32 else number), number, library);
  }

  lemma BinaryFormat(format: int)
    requires HasFormat(format, [1], 0)
    ensures format == 1
  {
  }

  lemma Int4Text(p: Param, value: Bytes, number: int, library: Renderer)
    requires p.format == 1 && CapturedAs(p, WireValue(value), [23], 0, 1, library)
    requires DecodeBinary(23, value, library) == Some(SignedDecimal(number))
    ensures p.known && !p.isNull && p.text == SignedDecimal(number)
  {
    hide DecodeBinary, SignedDecimal;
  }
}
