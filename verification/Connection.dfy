/** A whole connection: reads from both sides, in any order, fed to the session one at a time. */
module Connection {
  import opened Wire
  import opened Messages
  import opened Oid
  import opened Session
  import opened Interleaving

  datatype Read = ClientRead(bytes: Bytes) | ServerRead(bytes: Bytes)

  /** The session's state, what its two framers retain, and what the reads so far came to. */
  datatype Progress = Progress(state: State, front: Bytes, back: Bytes, events: seq<Event>, inputs: seq<Input>)

  function FromClients(ms: seq<Message>): (r: seq<Input>)
    ensures |r| == |ms|
  {
    seq(|ms|, i requires 0 <= i < |ms| => FromClient(ms[i]))
  }

  function FromServers(ms: seq<Message>): (r: seq<Input>)
    ensures |r| == |ms|
  {
    seq(|ms|, i requires 0 <= i < |ms| => FromServer(ms[i]))
  }

  /** One read: the messages it completes are handled in order. */
  function Feed(p: Progress, read: Read, conn: int, library: Renderer): Progress {
    match read
    case ClientRead(bytes) =>
      var d := Drain(p.front + bytes);
      var run := FrontRun(p.state, conn, d.messages, library);
      p.(state := run.state, front := d.rest, events := p.events + run.events,
         inputs := p.inputs + FromClients(d.messages))
    case ServerRead(bytes) =>
      var d := Drain(p.back + bytes);
      var run := BackRun(p.state, conn, d.messages);
      p.(state := run.state, back := d.rest, events := p.events + run.events,
         inputs := p.inputs + FromServers(d.messages))
  }

  function FeedAll(traffic: seq<Read>, n: nat, conn: int, library: Renderer): Progress
    requires n <= |traffic|
  {
    if n == 0 then Progress(INITIAL, [], [], [], [])
    else Feed(FeedAll(traffic, n - 1, conn, library), traffic[n - 1], conn, library)
  }

  // ----- reads are a trace of messages

  /** The events of the first n inputs, in order. */
  function EventsUpTo(t: Trace, n: nat): seq<Event>
    requires n <= |t.inputs|
  {
    if n == 0 then [] else EventsUpTo(t, n - 1) + EventList(EventAt(t, n - 1))
  }

  lemma {:induction false} SamePrefix(t: Trace, u: Trace, n: nat)
    requires t.conn == u.conn && t.library == u.library
    requires n <= |t.inputs| && n <= |u.inputs| && t.inputs[..n] == u.inputs[..n]
    ensures StateAt(t, n) == StateAt(u, n) && EventsUpTo(t, n) == EventsUpTo(u, n)
    decreases n
  {
    if n > 0 {
      assert t.inputs[n - 1] == t.inputs[..n][n - 1] == u.inputs[..n][n - 1];
      assert t.inputs[..n - 1] == t.inputs[..n][..n - 1] == u.inputs[..n - 1];
      hide Apply;
      SamePrefix(t, u, n - 1);
    }
  }

  /** The trace has come to this state and these events. */
  ghost predicate ComesTo(t: Trace, st: State, events: seq<Event>) {
    StateAt(t, |t.inputs|) == st && EventsUpTo(t, |t.inputs|) == events
  }

  lemma OneMore(t: Trace, input: Input, st: State, events: seq<Event>)
    requires ComesTo(t, st, events)
    ensures var step := Apply(t, st, input);
            ComesTo(t.(inputs := t.inputs + [input]), step.state, events + EventList(step.event))
  {
    hide Apply;
    var u := t.(inputs := t.inputs + [input]);
    assert u.inputs[..|t.inputs|] == t.inputs == t.inputs[..|t.inputs|];
    SamePrefix(t, u, |t.inputs|);
    ApplySame(t, u, st, input);
  }

  lemma ApplySame(t: Trace, u: Trace, st: State, input: Input)
    requires t.conn == u.conn && t.library == u.library
    ensures Apply(t, st, input) == Apply(u, st, input)
  {
    hide Front, Back;
  }

  lemma ApplyMeans(t: Trace, st: State, m: Message)
    ensures Apply(t, st, FromClient(m)) == Front(st, t.conn, m, t.library)
    ensures Apply(t, st, FromServer(m)) == Back(st, t.conn, m)
  {
    hide Front, Back;
  }

  lemma ClientStep(inputs: seq<Input>, st: State, conn: int, ms: seq<Message>, library: Renderer)
    ensures if ms == [] then FrontRun(st, conn, ms, library) == Run(st, []) && inputs + FromClients(ms) == inputs
            else
              var step := Front(st, conn, ms[0], library);
              var more := FrontRun(step.state, conn, ms[1..], library);
              && FrontRun(st, conn, ms, library) == Run(more.state, EventList(step.event) + more.events)
              && inputs + FromClients(ms) == (inputs + [FromClient(ms[0])]) + FromClients(ms[1..])
  {
    hide Front;
  }

  lemma {:induction false} ClientMessages(t: Trace, ms: seq<Message>, st: State, events: seq<Event>)
    requires ComesTo(t, st, events)
    ensures var run := FrontRun(st, t.conn, ms, t.library);
            ComesTo(t.(inputs := t.inputs + FromClients(ms)), run.state, events + run.events)
    decreases |ms|
  {
    hide *;
    ClientStep(t.inputs, st, t.conn, ms, t.library);
    if ms == [] {
      assert events + [] == events;
    } else {
      var input := FromClient(ms[0]);
      var step := Apply(t, st, input);
      OneMore(t, input, st, events);
      ApplyMeans(t, st, ms[0]);
      var u := t.(inputs := t.inputs + [input]);
      ClientMessages(u, ms[1..], step.state, events + EventList(step.event));
      EventsAssoc(events, EventList(step.event), FrontRun(step.state, t.conn, ms[1..], t.library).events);
    }
  }

  lemma ServerStep(inputs: seq<Input>, st: State, conn: int, ms: seq<Message>)
    ensures if ms == [] then BackRun(st, conn, ms) == Run(st, []) && inputs + FromServers(ms) == inputs
            else
              var step := Back(st, conn, ms[0]);
              var more := BackRun(step.state, conn, ms[1..]);
              && BackRun(st, conn, ms) == Run(more.state, EventList(step.event) + more.events)
              && inputs + FromServers(ms) == (inputs + [FromServer(ms[0])]) + FromServers(ms[1..])
  {
    hide Back;
  }

  lemma {:induction false} ServerMessages(t: Trace, ms: seq<Message>, st: State, events: seq<Event>)
    requires ComesTo(t, st, events)
    ensures var run := BackRun(st, t.conn, ms);
            ComesTo(t.(inputs := t.inputs + FromServers(ms)), run.state, events + run.events)
    decreases |ms|
  {
    hide *;
    ServerStep(t.inputs, st, t.conn, ms);
    if ms == [] {
      assert events + [] == events;
    } else {
      var input := FromServer(ms[0]);
      var step := Apply(t, st, input);
      OneMore(t, input, st, events);
      ApplyMeans(t, st, ms[0]);
      var u := t.(inputs := t.inputs + [input]);
      ServerMessages(u, ms[1..], step.state, events + EventList(step.event));
      EventsAssoc(events, EventList(step.event), BackRun(step.state, t.conn, ms[1..]).events);
    }
  }

  /** Reads from both sides, in any order and however split, leave the session where the messages they
      completed, one at a time in that order, leave it, with the same events. */
  lemma {:induction false} ReadsAreTrace(traffic: seq<Read>, n: nat, conn: int, library: Renderer)
    requires n <= |traffic|
    ensures var p := FeedAll(traffic, n, conn, library);
            ComesTo(Trace(conn, library, p.inputs), p.state, p.events)
    decreases n
  {
    hide *;
    FeedAllStep(traffic, n, conn, library);
    if n == 0 {
      NothingYet(conn, library);
    } else {
      var p, read := FeedAll(traffic, n - 1, conn, library), traffic[n - 1];
      var t := Trace(conn, library, p.inputs);
      ReadsAreTrace(traffic, n - 1, conn, library);
      FeedStep(p, read, conn, library);
      if read.ClientRead? {
        ClientMessages(t, Drain(p.front + read.bytes).messages, p.state, p.events);
      } else {
        ServerMessages(t, Drain(p.back + read.bytes).messages, p.state, p.events);
      }
    }
  }

  lemma FeedAllStep(traffic: seq<Read>, n: nat, conn: int, library: Renderer)
    requires n <= |traffic|
    ensures FeedAll(traffic, n, conn, library)
            == if n == 0 then Progress(INITIAL, [], [], [], [])
               else Feed(FeedAll(traffic, n - 1, conn, library), traffic[n - 1], conn, library)
  {
    hide Feed;
  }

  lemma NothingYet(conn: int, library: Renderer)
    ensures ComesTo(Trace(conn, library, []), INITIAL, [])
  {
  }

  lemma FeedStep(p: Progress, read: Read, conn: int, library: Renderer)
    ensures read.ClientRead? ==>
              var d := Drain(p.front + read.bytes);
              var run := FrontRun(p.state, conn, d.messages, library);
              Feed(p, read, conn, library)
              == Progress(run.state, d.rest, p.back, p.events + run.events, p.inputs + FromClients(d.messages))
    ensures read.ServerRead? ==>
              var d := Drain(p.back + read.bytes);
              var run := BackRun(p.state, conn, d.messages);
              Feed(p, read, conn, library)
              == Progress(run.state, p.front, d.rest, p.events + run.events, p.inputs + FromServers(d.messages))
  {
    hide Drain, FrontRun, BackRun;
  }

  // ----- and the messages are those of the two streams

  /** All bytes that one side sent in the first n reads. */
  function ClientBytes(traffic: seq<Read>, n: nat): Bytes
    requires n <= |traffic|
  {
    if n == 0 then [] else ClientBytes(traffic, n - 1) + if traffic[n - 1].ClientRead? then traffic[n - 1].bytes else []
  }

  function ServerBytes(traffic: seq<Read>, n: nat): Bytes
    requires n <= |traffic|
  {
    if n == 0 then [] else ServerBytes(traffic, n - 1) + if traffic[n - 1].ServerRead? then traffic[n - 1].bytes else []
  }

  function ClientPart(inputs: seq<Input>): seq<Message> {
    if inputs == [] then []
    else ClientPart(inputs[..|inputs| - 1]) + if inputs[|inputs| - 1].FromClient? then [inputs[|inputs| - 1].m] else []
  }

  function ServerPart(inputs: seq<Input>): seq<Message> {
    if inputs == [] then []
    else ServerPart(inputs[..|inputs| - 1]) + if inputs[|inputs| - 1].FromServer? then [inputs[|inputs| - 1].m] else []
  }

  lemma {:induction false} ClientsAdded(inputs: seq<Input>, ms: seq<Message>)
    ensures ClientPart(inputs + FromClients(ms)) == ClientPart(inputs) + ms
    ensures ServerPart(inputs + FromClients(ms)) == ServerPart(inputs)
    decreases |ms|
  {
    if ms == [] {
      assert inputs + FromClients(ms) == inputs;
    } else {
      var init, last := ms[..|ms| - 1], ms[|ms| - 1];
      ClientsAdded(inputs, init);
      var all := inputs + FromClients(ms);
      assert all[..|all| - 1] == inputs + FromClients(init) && all[|all| - 1] == FromClient(last);
      assert ms == init + [last];
    }
  }

  lemma {:induction false} ServersAdded(inputs: seq<Input>, ms: seq<Message>)
    ensures ServerPart(inputs + FromServers(ms)) == ServerPart(inputs) + ms
    ensures ClientPart(inputs + FromServers(ms)) == ClientPart(inputs)
    decreases |ms|
  {
    if ms == [] {
      assert inputs + FromServers(ms) == inputs;
    } else {
      var init, last := ms[..|ms| - 1], ms[|ms| - 1];
      ServersAdded(inputs, init);
      var all := inputs + FromServers(ms);
      assert all[..|all| - 1] == inputs + FromServers(init) && all[|all| - 1] == FromServer(last);
      assert ms == init + [last];
    }
  }

  /** A side's messages so far and what its framer retains are what one drain of all its bytes gives. */
  ghost predicate Drains(stream: Bytes, messages: seq<Message>, rest: Bytes) {
    Drain(stream) == Drained(messages, rest)
  }

  lemma DrainMore(stream: Bytes, messages: seq<Message>, rest: Bytes, bytes: Bytes)
    requires Drains(stream, messages, rest) && Settled(stream + bytes)
    ensures var d := Drain(rest + bytes);
            Drains(stream + bytes, messages + d.messages, d.rest)
  {
    DrainAppend(stream, bytes);
    hide Drain;
  }

  lemma SettledPrefix(a: Bytes, b: Bytes)
    requires Settled(a + b)
    ensures Settled(a)
    decreases |a|
  {
    hide *;
    DrainStep(a);
    DrainStep(a + b);
    match ReadFrame(a)
    case NeedMore =>
    case Bad(rest) =>
      BadStays(a, b);
      UnfinishedPrefix(rest, b);
    case Complete(m, rest) =>
      FrameStays(a, b);
      SettledPrefix(rest, b);
  }

  /** On settled streams, the messages of either side are those of its whole stream, in order, and its
      framer retains exactly the unfinished suffix. */
  lemma {:induction false} ReadsDrain(traffic: seq<Read>, n: nat, conn: int, library: Renderer)
    requires n <= |traffic|
    ensures var p := FeedAll(traffic, n, conn, library);
            && (Settled(ClientBytes(traffic, n)) ==> Drains(ClientBytes(traffic, n), ClientPart(p.inputs), p.front))
            && (Settled(ServerBytes(traffic, n)) ==> Drains(ServerBytes(traffic, n), ServerPart(p.inputs), p.back))
    decreases n
  {
    hide *;
    FeedAllStep(traffic, n, conn, library);
    if n == 0 {
      NothingDrained(traffic);
    } else {
      var p, read := FeedAll(traffic, n - 1, conn, library), traffic[n - 1];
      var sent, received := ClientBytes(traffic, n - 1), ServerBytes(traffic, n - 1);
      ReadsDrain(traffic, n - 1, conn, library);
      FeedStep(p, read, conn, library);
      BytesStep(traffic, n);
      if read.ClientRead? {
        ClientsAdded(p.inputs, Drain(p.front + read.bytes).messages);
        if Settled(sent + read.bytes) {
          SettledPrefix(sent, read.bytes);
          DrainMore(sent, ClientPart(p.inputs), p.front, read.bytes);
        }
      } else {
        ServersAdded(p.inputs, Drain(p.back + read.bytes).messages);
        if Settled(received + read.bytes) {
          SettledPrefix(received, read.bytes);
          DrainMore(received, ServerPart(p.inputs), p.back, read.bytes);
        }
      }
    }
  }

  lemma NothingDrained(traffic: seq<Read>)
    ensures Drains(ClientBytes(traffic, 0), ClientPart([]), []) && Drains(ServerBytes(traffic, 0), ServerPart([]), [])
  {
  }

  lemma BytesStep(traffic: seq<Read>, n: nat)
    requires 0 < n <= |traffic|
    ensures var read, sent, received := traffic[n - 1], ClientBytes(traffic, n - 1), ServerBytes(traffic, n - 1);
            && ClientBytes(traffic, n) == (if read.ClientRead? then sent + read.bytes else sent)
            && ServerBytes(traffic, n) == (if read.ServerRead? then received + read.bytes else received)
  {
    assert ClientBytes(traffic, n - 1) + [] == ClientBytes(traffic, n - 1);
    assert ServerBytes(traffic, n - 1) + [] == ServerBytes(traffic, n - 1);
  }

  // ----- the code

  /** The two goroutines' reads, in the order in which they take the session's lock. */
  method Serve(session: Session, traffic: seq<Read>) returns (out: seq<Event>)
    requires session.fr != session.bfr
    requires session.View() == INITIAL && session.fr.buf == [] && session.bfr.buf == []
    modifies session, session.fr, session.bfr
    ensures var p := FeedAll(traffic, |traffic|, session.id, session.library);
            session.View() == p.state && session.fr.buf == p.front && session.bfr.buf == p.back && out == p.events
  {
    out := [];
    hide FrontRun, BackRun, Drain;
    for n := 0 to |traffic|
      invariant var p := FeedAll(traffic, n, session.id, session.library);
                session.View() == p.state && session.fr.buf == p.front && session.bfr.buf == p.back && out == p.events
    {
      var events: seq<Event>;
      match traffic[n] {
        case ClientRead(bytes) => events := session.FeedFrontend(bytes);
        case ServerRead(bytes) => events := session.FeedBackend(bytes);
      }
      out := out + events;
    }
  }
}
