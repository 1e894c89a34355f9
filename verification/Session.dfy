/** One captured connection: prepared statements, the queue that attributes backend replies
    to Describe requests, and the decoding of bound parameters. */
module Session {
  import opened Text
  import opened Wire
  import opened Messages
  import opened Oid

  const MSG_PARSE: Byte := 80        // 'P'
  const MSG_BIND: Byte := 66         // 'B'
  const MSG_CLOSE: Byte := 67        // 'C'
  const MSG_QUERY: Byte := 81        // 'Q'
  const MSG_DESCRIBE: Byte := 68     // 'D'
  const MSG_PARAM_DESC: Byte := 116  // 't'
  const MSG_ROW_DESC: Byte := 84     // 'T'
  const KIND_STATEMENT: Byte := 83   // 'S'

  datatype Kind = KindParse | KindParamDesc | KindRowDesc | KindBind | KindClose | KindQuery

  datatype Note = NoNote | NoOutstandingDescribe | Unresolvable | StatementClosed

  datatype Event = Event(conn: int, kind: Kind, stmt: string, portal: string, sql: string,
                         resolved: bool, params: seq<Param>, note: Note)

  /** The state both directions share. */
  datatype State = State(stmts: map<string, string>, pendingDescribe: seq<string>, lastDescribed: string,
                         paramOids: map<string, seq<int>>, rowOids: map<string, seq<int>>)

  const INITIAL := State(map[], [], "", map[], map[])

  datatype Step = Step(state: State, event: Option<Event>)

  function OidsOf(st: State, stmt: string): seq<int> {
    if stmt in st.paramOids then st.paramOids[stmt] else []
  }

  // ----- parameters

  /** Parameter `i` of `n` once the statement's OIDs are consulted. */
  function ResolveParam(oids: seq<int>, p: Param, i: nat, n: nat, library: Renderer): Param
    requires i < n
  {
    if p.known || p.isNull || p.format != FORMAT_BINARY then p
    else if |oids| == 0 then p.(reason := NoOidsForStatement)
    else if |oids| != n then p.(reason := CountMismatch(|oids|, n))
    else
      var q := p.(oid := oids[i]);
      match DecodeBinary(oids[i], p.value, library)
      case None => q.(reason := NoDecoder(oids[i]))
      case Some(text) => q.(known := true, text := text, reason := NoReason)
  }

  function Resolve(oids: seq<int>, params: seq<Param>, library: Renderer): (r: seq<Param>)
    ensures |r| == |params|
  {
    seq(|params|, i requires 0 <= i < |params| => ResolveParam(oids, params[i], i, |params|, library))
  }

  // ----- one message

  function Front(st: State, conn: int, m: Message, library: Renderer): Step {
    if m.typ == MSG_PARSE then
      match ReadParse(m.body)
      case Malformed => Step(st, None)
      case Named(name, sql) =>
        Step(st.(stmts := st.stmts[name := sql]),
             Some(Event(conn, KindParse, name, "", sql, false, [], NoNote)))
    else if m.typ == MSG_BIND then
      match ReadBind(m.body)
      case NoBound => Step(st, None)
      case Bound(portal, stmt, params) =>
        var resolved := stmt in st.stmts;
        Step(st, Some(Event(conn, KindBind, stmt, portal, if resolved then st.stmts[stmt] else "", resolved,
                            Resolve(OidsOf(st, stmt), params, library),
                            if resolved then NoNote else Unresolvable)))
    else if m.typ == MSG_DESCRIBE then
      match ReadTarget(m.body)
      case NoTarget => Step(st, None)
      case Target(kind, name) =>
        if kind != KIND_STATEMENT then Step(st, None)
        else Step(st.(pendingDescribe := st.pendingDescribe + [name]), None)
    else if m.typ == MSG_CLOSE then
      match ReadTarget(m.body)
      case NoTarget => Step(st, None)
      case Target(kind, name) =>
        if kind != KIND_STATEMENT then Step(st, None)
        else Step(st.(stmts := st.stmts - {name}),
                  Some(Event(conn, KindClose, name, "", "", false, [], StatementClosed)))
    else if m.typ == MSG_QUERY then
      match CutString(m.body)
      case NoCut => Step(st, None)
      case Cut(sql, _) => Step(st, Some(Event(conn, KindQuery, "", "", AsText(sql), true, [], NoNote)))
    else Step(st, None)
  }

  function Back(st: State, conn: int, m: Message): Step {
    if m.typ == MSG_PARAM_DESC then
      match ReadParamDesc(m.body)
      case None => Step(st, None)
      case Some(oids) =>
        if st.pendingDescribe == [] then
          Step(st, Some(Event(conn, KindParamDesc, "", "", "", false, [], NoOutstandingDescribe)))
        else
          var name := st.pendingDescribe[0];
          Step(st.(pendingDescribe := st.pendingDescribe[1..], lastDescribed := name,
                   paramOids := st.paramOids[name := oids]),
               Some(Event(conn, KindParamDesc, name, "", "", true, [], NoNote)))
    else if m.typ == MSG_ROW_DESC then
      match ReadRowDesc(m.body)
      case None => Step(st, None)
      case Some(oids) =>
        var name := st.lastDescribed;
        Step(if name != "" then st.(rowOids := st.rowOids[name := oids]) else st,
             Some(Event(conn, KindRowDesc, name, "", "", name != "", [], NoNote)))
    else Step(st, None)
  }

  // ----- runs of messages from one side

  datatype Run = Run(state: State, events: seq<Event>)

  function EventList(e: Option<Event>): seq<Event> {
    match e case None => [] case Some(ev) => [ev]
  }

  function FrontRun(st: State, conn: int, messages: seq<Message>, library: Renderer): Run
    decreases |messages|
  {
    if messages == [] then Run(st, [])
    else
      var step := Front(st, conn, messages[0], library);
      var more := FrontRun(step.state, conn, messages[1..], library);
      Run(more.state, EventList(step.event) + more.events)
  }

  function BackRun(st: State, conn: int, messages: seq<Message>): Run
    decreases |messages|
  {
    if messages == [] then Run(st, [])
    else
      var step := Back(st, conn, messages[0]);
      var more := BackRun(step.state, conn, messages[1..]);
      Run(more.state, EventList(step.event) + more.events)
  }

  lemma EventsAssoc(a: seq<Event>, b: seq<Event>, c: seq<Event>)
    ensures a + (b + c) == (a + b) + c
  {
  }

  /** A list of messages can be handled in two parts. */
  lemma {:induction false} FrontRunSplit(st: State, conn: int, a: seq<Message>, b: seq<Message>, library: Renderer)
    ensures var first := FrontRun(st, conn, a, library);
            var second := FrontRun(first.state, conn, b, library);
            FrontRun(st, conn, a + b, library) == Run(second.state, first.events + second.events)
    decreases |a|
  {
    if a == [] {
      assert a + b == b;
      var r := FrontRun(st, conn, b, library);
      assert [] + r.events == r.events;
    } else {
      var step := Front(st, conn, a[0], library);
      assert (a + b)[1..] == a[1..] + b && (a + b)[0] == a[0];
      hide Front;
      FrontRunSplit(step.state, conn, a[1..], b, library);
      var first := FrontRun(step.state, conn, a[1..], library);
      var second := FrontRun(first.state, conn, b, library);
      EventsAssoc(EventList(step.event), first.events, second.events);
    }
  }

  /** Feeding the client's bytes chunk by chunk. */
  function FeedChunks(st: State, conn: int, buf: Bytes, chunks: seq<Bytes>, library: Renderer): Run
    decreases |chunks|
  {
    if chunks == [] then Run(st, [])
    else
      var d := Drain(buf + chunks[0]);
      var now := FrontRun(st, conn, d.messages, library);
      var later := FeedChunks(now.state, conn, d.rest, chunks[1..], library);
      Run(later.state, now.events + later.events)
  }

  /** Events and final state do not depend on how a settled stream is split into reads. */
  lemma {:induction false} FeedInvariance(st: State, conn: int, buf: Bytes, chunks: seq<Bytes>, library: Renderer)
    requires ReadFrame(buf) == NeedMore && Settled(buf + Concat(chunks))
    ensures FeedChunks(st, conn, buf, chunks, library)
            == FrontRun(st, conn, Drain(buf + Concat(chunks)).messages, library)
    decreases |chunks|
  {
    if chunks == [] {
      assert buf + [] == buf;
    } else {
      var more := Concat(chunks[1..]);
      assert buf + Concat(chunks) == (buf + chunks[0]) + more;
      DrainAppend(buf + chunks[0], more);
      var d := Drain(buf + chunks[0]);
      var now := FrontRun(st, conn, d.messages, library);
      hide FrontRun, Drain, ReadFrame, Settled;
      FeedInvariance(now.state, conn, d.rest, chunks[1..], library);
      FrontRunSplit(st, conn, d.messages, Drain(d.rest + more).messages, library);
    }
  }

  lemma {:induction false} BackRunSplit(st: State, conn: int, a: seq<Message>, b: seq<Message>)
    ensures var first := BackRun(st, conn, a);
            var second := BackRun(first.state, conn, b);
            BackRun(st, conn, a + b) == Run(second.state, first.events + second.events)
    decreases |a|
  {
    if a == [] {
      assert a + b == b;
      var r := BackRun(st, conn, b);
      assert [] + r.events == r.events;
    } else {
      var step := Back(st, conn, a[0]);
      assert (a + b)[1..] == a[1..] + b && (a + b)[0] == a[0];
      hide Back;
      BackRunSplit(step.state, conn, a[1..], b);
      var first := BackRun(step.state, conn, a[1..]);
      var second := BackRun(first.state, conn, b);
      EventsAssoc(EventList(step.event), first.events, second.events);
    }
  }

  /** Feeding the server's bytes chunk by chunk. */
  function FeedBackChunks(st: State, conn: int, buf: Bytes, chunks: seq<Bytes>): Run
    decreases |chunks|
  {
    if chunks == [] then Run(st, [])
    else
      var d := Drain(buf + chunks[0]);
      var now := BackRun(st, conn, d.messages);
      var later := FeedBackChunks(now.state, conn, d.rest, chunks[1..]);
      Run(later.state, now.events + later.events)
  }

  /** The same for what the server sends. */
  lemma {:induction false} FeedBackInvariance(st: State, conn: int, buf: Bytes, chunks: seq<Bytes>)
    requires ReadFrame(buf) == NeedMore && Settled(buf + Concat(chunks))
    ensures FeedBackChunks(st, conn, buf, chunks) == BackRun(st, conn, Drain(buf + Concat(chunks)).messages)
    decreases |chunks|
  {
    if chunks == [] {
      assert buf + [] == buf;
    } else {
      var more := Concat(chunks[1..]);
      assert buf + Concat(chunks) == (buf + chunks[0]) + more;
      DrainAppend(buf + chunks[0], more);
      var d := Drain(buf + chunks[0]);
      var now := BackRun(st, conn, d.messages);
      hide BackRun, Drain, ReadFrame, Settled;
      FeedBackInvariance(now.state, conn, d.rest, chunks[1..]);
      BackRunSplit(st, conn, d.messages, Drain(d.rest + more).messages);
    }
  }

  // ----- the code

  /** With `out` emitted so far, handling what `buf` holds completes the run `whole`. */
  ghost predicate FrontAhead(st: State, conn: int, buf: Bytes, out: seq<Event>, whole: Run, rest: Bytes, library: Renderer) {
    var run := FrontRun(st, conn, Drain(buf).messages, library);
    Drain(buf).rest == rest && whole == Run(run.state, out + run.events)
  }

  lemma FrontStart(st: State, conn: int, buf: Bytes, library: Renderer)
    ensures FrontAhead(st, conn, buf, [], FrontRun(st, conn, Drain(buf).messages, library), Drain(buf).rest, library)
  {
    var run := FrontRun(st, conn, Drain(buf).messages, library);
    assert [] + run.events == run.events;
  }

  lemma FrontTurn(st: State, conn: int, buf: Bytes, out: seq<Event>, whole: Run, rest: Bytes, library: Renderer)
    requires FrontAhead(st, conn, buf, out, whole, rest, library)
    ensures match ReadFrame(buf)
            case Complete(m, more) =>
              var step := Front(st, conn, m, library);
              |more| < |buf|
              && FrontAhead(step.state, conn, more,
                            match step.event case None => out case Some(ev) => out + [ev], whole, rest, library)
            case NeedMore => whole == Run(st, out) && rest == buf
            case Bad(more) => whole == Run(st, out) && rest == more
  {
    match ReadFrame(buf)
    case Complete(m, more) =>
      var step := Front(st, conn, m, library);
      hide Front;
      var run := FrontRun(step.state, conn, Drain(more).messages, library);
      EventsAssoc(out, EventList(step.event), run.events);
      assert out + [] == out;
    case _ =>
      assert out + [] == out;
  }

  /** With `out` emitted so far, handling what `buf` holds completes the run `whole`. */
  ghost predicate BackAhead(st: State, conn: int, buf: Bytes, out: seq<Event>, whole: Run, rest: Bytes) {
    var run := BackRun(st, conn, Drain(buf).messages);
    Drain(buf).rest == rest && whole == Run(run.state, out + run.events)
  }

  lemma BackStart(st: State, conn: int, buf: Bytes)
    ensures BackAhead(st, conn, buf, [], BackRun(st, conn, Drain(buf).messages), Drain(buf).rest)
  {
    var run := BackRun(st, conn, Drain(buf).messages);
    assert [] + run.events == run.events;
  }

  lemma BackTurn(st: State, conn: int, buf: Bytes, out: seq<Event>, whole: Run, rest: Bytes)
    requires BackAhead(st, conn, buf, out, whole, rest)
    ensures match ReadFrame(buf)
            case Complete(m, more) =>
              var step := Back(st, conn, m);
              |more| < |buf|
              && BackAhead(step.state, conn, more,
                            match step.event case None => out case Some(ev) => out + [ev], whole, rest)
            case NeedMore => whole == Run(st, out) && rest == buf
            case Bad(more) => whole == Run(st, out) && rest == more
  {
    match ReadFrame(buf)
    case Complete(m, more) =>
      var step := Back(st, conn, m);
      hide Back;
      var run := BackRun(step.state, conn, Drain(more).messages);
      EventsAssoc(out, EventList(step.event), run.events);
      assert out + [] == out;
    case _ =>
      assert out + [] == out;
  }

  class Session {
    const id: int
    const library: Renderer
    const fr: Framer
    const bfr: Framer
    var stmts: map<string, string>
    var pendingDescribe: seq<string>
    var lastDescribed: string
    var paramOids: map<string, seq<int>>
    var rowOids: map<string, seq<int>>

    function View(): State
      reads this
    {
      State(stmts, pendingDescribe, lastDescribed, paramOids, rowOids)
    }

    constructor (id: int, library: Renderer)
      ensures View() == INITIAL && this.id == id && this.library == library
      ensures fresh(fr) && fresh(bfr) && fr != bfr && fr.buf == [] && bfr.buf == []
    {
      this.id, this.library := id, library;
      stmts, pendingDescribe, lastDescribed, paramOids, rowOids := map[], [], "", map[], map[];
      fr := new Framer();
      bfr := new Framer();
    }

    /** Fills in the binary parameters, in place. */
    method ResolveParams(stmt: string, params: array<Param>)
      modifies params
      ensures params[..] == Resolve(OidsOf(View(), stmt), old(params[..]), library)
    {
      var oids := if stmt in paramOids then paramOids[stmt] else [];
      var correlationOk := |oids| == params.Length;
      var i := 0;
      while i < params.Length
        invariant 0 <= i <= params.Length
        invariant forall k :: 0 <= k < i ==>
                    params[k] == ResolveParam(oids, old(params[k]), k, params.Length, library)
        invariant forall k :: i <= k < params.Length ==> params[k] == old(params[k])
      {
        var p := params[i];
        if !p.known && !p.isNull && p.format == FORMAT_BINARY {
          if |oids| == 0 {
            params[i] := p.(reason := NoOidsForStatement);
          } else if !correlationOk {
            params[i] := p.(reason := CountMismatch(|oids|, params.Length));
          } else {
            p := p.(oid := oids[i]);
            var text := DecodeBinary(p.oid, p.value, library);
            if text == None {
              params[i] := p.(reason := NoDecoder(p.oid));
            } else {
              params[i] := p.(known := true, text := text.value, reason := NoReason);
            }
          }
        }
        i := i + 1;
      }
    }

    method HandleBind(body: Bytes) returns (ev: Option<Event>)
      ensures Step(View(), ev) == Front(View(), id, Message(MSG_BIND, body), library)
    {
      var portal, stmt, read, ok := ParseBind(body);
      if !ok {
        return None;
      }
      var params := new Param[|read|](i requires 0 <= i < |read| => read[i]);
      assert params[..] == read;
      ResolveParams(stmt, params);
      var resolved := stmt in stmts;
      return Some(Event(id, KindBind, stmt, portal, if resolved then stmts[stmt] else "", resolved, params[..],
                        if resolved then NoNote else Unresolvable));
    }

    method Handle(typ: Byte, body: Bytes) returns (ev: Option<Event>)
      modifies this
      ensures Step(View(), ev) == Front(old(View()), id, Message(typ, body), library)
    {
      ev := None;
      if typ == MSG_PARSE {
        var name, sql, ok := ParseParse(body);
        if ok {
          stmts := stmts[name := sql];
          ev := Some(Event(id, KindParse, name, "", sql, false, [], NoNote));
        }
      } else if typ == MSG_BIND {
        ev := HandleBind(body);
      } else if typ == MSG_DESCRIBE {
        if |body| < 1 || body[0] != KIND_STATEMENT {
          return;
        }
        var _, name, ok := ParseClose(body);
        if ok {
          pendingDescribe := pendingDescribe + [name];
        }
      } else if typ == MSG_CLOSE {
        var kind, name, ok := ParseClose(body);
        if ok && kind == KIND_STATEMENT {
          stmts := stmts - {name};
          ev := Some(Event(id, KindClose, name, "", "", false, [], StatementClosed));
        }
      } else if typ == MSG_QUERY {
        assert body[0..] == body;
        var sql, _, ok := CString(body, 0);
        if ok {
          ev := Some(Event(id, KindQuery, "", "", AsText(sql), true, [], NoNote));
        }
      }
    }

    method HandleBackend(typ: Byte, body: Bytes) returns (ev: Option<Event>)
      modifies this
      ensures Step(View(), ev) == Back(old(View()), id, Message(typ, body))
    {
      ev := None;
      if typ == MSG_PARAM_DESC {
        var oids, ok := ParseParameterDescription(body);
        if !ok {
          return;
        }
        if |pendingDescribe| == 0 {
          return Some(Event(id, KindParamDesc, "", "", "", false, [], NoOutstandingDescribe));
        }
        var name := pendingDescribe[0];
        pendingDescribe := pendingDescribe[1..];
        lastDescribed := name;
        paramOids := paramOids[name := oids];
        ev := Some(Event(id, KindParamDesc, name, "", "", true, [], NoNote));
      } else if typ == MSG_ROW_DESC {
        var oids, ok := ParseRowDescription(body);
        if !ok {
          return;
        }
        var name := lastDescribed;
        if name != "" {
          rowOids := rowOids[name := oids];
        }
        ev := Some(Event(id, KindRowDesc, name, "", "", name != "", [], NoNote));
      }
    }

    /** Consumes client bytes and returns the events they complete. */
    method FeedFrontend(b: Bytes) returns (out: seq<Event>)
      requires fr != bfr
      modifies this, fr
      ensures var d := Drain(old(fr.buf) + b);
              fr.buf == d.rest && Run(View(), out) == FrontRun(old(View()), id, d.messages, library)
    {
      fr.Push(b);
      out := [];
      ghost var d := Drain(fr.buf);
      ghost var whole := FrontRun(View(), id, d.messages, library);
      FrontStart(View(), id, fr.buf, library);
      hide *;
      while true
        invariant FrontAhead(View(), id, fr.buf, out, whole, d.rest, library)
        decreases |fr.buf|
      {
        FrontTurn(View(), id, fr.buf, out, whole, d.rest, library);
        var typ, body, ok := fr.Next();
        if !ok {
          return;
        }
        var ev := Handle(typ, body);
        if ev.Some? {
          out := out + [ev.value];
        }
      }
    }

    /** Consumes server bytes and returns the events they complete. */
    method FeedBackend(b: Bytes) returns (out: seq<Event>)
      requires fr != bfr
      modifies this, bfr
      ensures var d := Drain(old(bfr.buf) + b);
              bfr.buf == d.rest && Run(View(), out) == BackRun(old(View()), id, d.messages)
    {
      bfr.Push(b);
      out := [];
      ghost var d := Drain(bfr.buf);
      ghost var whole := BackRun(View(), id, d.messages);
      BackStart(View(), id, bfr.buf);
      hide *;
      while true
        invariant BackAhead(View(), id, bfr.buf, out, whole, d.rest)
        decreases |bfr.buf|
      {
        BackTurn(View(), id, bfr.buf, out, whole, d.rest);
        var typ, body, ok := bfr.Next();
        if !ok {
          return;
        }
        var ev := HandleBackend(typ, body);
        if ev.Some? {
          out := out + [ev.value];
        }
      }
    }
  }
}
