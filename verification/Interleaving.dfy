/** Whole runs of a session: any interleaving of client and server messages, handled one
    at a time under the session's lock. */
module Interleaving {
  import opened Text
  import opened Wire
  import opened Messages
  import opened Oid
  import opened Session

  datatype Input = FromClient(m: Message) | FromServer(m: Message)

  datatype Trace = Trace(conn: int, library: Renderer, inputs: seq<Input>)

  function Apply(t: Trace, st: State, input: Input): Step {
    match input
    case FromClient(m) => Front(st, t.conn, m, t.library)
    case FromServer(m) => Back(st, t.conn, m)
  }

  /** The state after the first n inputs. */
  function StateAt(t: Trace, n: nat): State
    requires n <= |t.inputs|
  {
    if n == 0 then INITIAL else Apply(t, StateAt(t, n - 1), t.inputs[n - 1]).state
  }

  function EventAt(t: Trace, n: nat): Option<Event>
    requires n < |t.inputs|
  {
    Apply(t, StateAt(t, n), t.inputs[n]).event
  }

  // ----- Describe requests and their replies

  /** The statement a well-formed Describe('S') names. */
  function DescribeName(input: Input): Option<string> {
    if input.FromClient? && input.m.typ == MSG_DESCRIBE && ReadTarget(input.m.body).Target?
       && ReadTarget(input.m.body).kind == KIND_STATEMENT
    then Some(ReadTarget(input.m.body).name) else None
  }

  /** The OIDs a well-formed ParameterDescription carries. */
  function AnswerOids(input: Input): Option<seq<int>> {
    if input.FromServer? && input.m.typ == MSG_PARAM_DESC then ReadParamDesc(input.m.body) else None
  }

  /** Names described by the first n inputs, in order. */
  function Described(t: Trace, n: nat): seq<string>
    requires n <= |t.inputs|
  {
    if n == 0 then []
    else Described(t, n - 1)
         + match DescribeName(t.inputs[n - 1]) case None => [] case Some(name) => [name]
  }

  /** Replies among the first n inputs, in order. */
  function Answers(t: Trace, n: nat): seq<seq<int>>
    requires n <= |t.inputs|
  {
    if n == 0 then []
    else Answers(t, n - 1)
         + match AnswerOids(t.inputs[n - 1]) case None => [] case Some(oids) => [oids]
  }

  /** No reply is seen before its Describe. */
  predicate InOrder(t: Trace, n: nat)
    requires n <= |t.inputs|
  {
    |Answers(t, n)| <= |Described(t, n)| && (n > 0 ==> InOrder(t, n - 1))
  }

  /** The k-th reply recorded under the k-th described name, later entries winning. */
  function Recorded(names: seq<string>, answers: seq<seq<int>>, k: nat): map<string, seq<int>>
    requires k <= |names| && k <= |answers|
  {
    if k == 0 then map[] else Recorded(names, answers, k - 1)[names[k - 1] := answers[k - 1]]
  }

  lemma {:induction false} RecordedPrefix(names: seq<string>, answers: seq<seq<int>>, moreNames: seq<string>,
                                          moreAnswers: seq<seq<int>>, k: nat)
    requires k <= |names| && k <= |answers|
    ensures Recorded(names + moreNames, answers + moreAnswers, k) == Recorded(names, answers, k)
  {
    if k > 0 {
      RecordedPrefix(names, answers, moreNames, moreAnswers, k - 1);
    }
  }

  /** A name's recorded OIDs are the reply to its last answered Describe. */
  lemma {:induction false} RecordedIsLast(names: seq<string>, answers: seq<seq<int>>, k: nat, name: string)
    requires k <= |names| && k <= |answers|
    ensures name in Recorded(names, answers, k) <==> exists j :: 0 <= j < k && names[j] == name
    ensures forall j :: 0 <= j < k && names[j] == name && (forall i :: j < i < k ==> names[i] != name)
                        ==> Recorded(names, answers, k)[name] == answers[j]
  {
    if k > 0 {
      RecordedIsLast(names, answers, k - 1, name);
    }
  }

  /** Every message but a Describe('S') and a ParameterDescription leaves the queue alone. */
  lemma QueueStep(t: Trace, n: nat)
    requires n < |t.inputs|
    ensures var st, next, input := StateAt(t, n), StateAt(t, n + 1), t.inputs[n];
            if DescribeName(input).Some? then
              next == st.(pendingDescribe := st.pendingDescribe + [DescribeName(input).value])
            else if AnswerOids(input).Some? then
              if st.pendingDescribe == [] then
                next == st && EventAt(t, n) == Some(Event(t.conn, KindParamDesc, "", "", "", false, [], NoOutstandingDescribe))
              else
                var name := st.pendingDescribe[0];
                && next.pendingDescribe == st.pendingDescribe[1..] && next.lastDescribed == name
                && next.paramOids == st.paramOids[name := AnswerOids(input).value]
                && EventAt(t, n) == Some(Event(t.conn, KindParamDesc, name, "", "", true, [], NoNote))
            else
              next.pendingDescribe == st.pendingDescribe && next.paramOids == st.paramOids
              && next.lastDescribed == st.lastDescribed
              && (EventAt(t, n).Some? ==> EventAt(t, n).value.note != NoOutstandingDescribe)
  {
    hide ReadParse, ReadBind, ReadTarget, CutString, ReadParamDesc, ReadRowDesc, Resolve, OidsOf;
    match t.inputs[n]
    case FromClient(m) =>
      assert m.typ == MSG_BIND ==> ReadBind(m.body).NoBound? || ReadBind(m.body).Bound?;
    case FromServer(m) =>
  }

  /** The queue holds the described names not yet answered, and each reply is recorded
      under the name with its own number. */
  predicate Queued(names: seq<string>, answers: seq<seq<int>>, st: State) {
    && |answers| <= |names|
    && st.pendingDescribe == names[|answers|..]
    && st.paramOids == Recorded(names, answers, |answers|)
    && st.lastDescribed == if answers == [] then "" else names[|answers| - 1]
  }

  lemma QueueDescribe(names: seq<string>, answers: seq<seq<int>>, st: State, name: string)
    requires Queued(names, answers, st)
    ensures Queued(names + [name], answers, st.(pendingDescribe := st.pendingDescribe + [name]))
  {
    RecordedPrefix(names, answers, [name], [], |answers|);
    assert answers + [] == answers;
  }

  lemma QueueAnswer(names: seq<string>, answers: seq<seq<int>>, st: State, oids: seq<int>, next: State)
    requires Queued(names, answers, st) && st.pendingDescribe != []
    requires next.pendingDescribe == st.pendingDescribe[1..] && next.lastDescribed == st.pendingDescribe[0]
    requires next.paramOids == st.paramOids[st.pendingDescribe[0] := oids]
    ensures Queued(names, answers + [oids], next)
  {
    var k := |answers|;
    RecordedPrefix(names, answers, [], [oids], k);
    assert names + [] == names && names[k] == st.pendingDescribe[0];
    assert Recorded(names, answers + [oids], k + 1) == Recorded(names, answers + [oids], k)[names[k] := oids];
  }

  lemma QueueNonempty(names: seq<string>, answers: seq<seq<int>>, st: State)
    requires Queued(names, answers, st)
    ensures |answers| <= |names| && (st.pendingDescribe == [] <==> |answers| == |names|)
  {
  }

  lemma QueueSame(names: seq<string>, answers: seq<seq<int>>, st: State, next: State)
    requires Queued(names, answers, st)
    requires next.pendingDescribe == st.pendingDescribe && next.paramOids == st.paramOids
    requires next.lastDescribed == st.lastDescribed
    ensures Queued(names, answers, next)
  {
  }

  lemma ListsStep(t: Trace, n: nat)
    requires n < |t.inputs|
    ensures var name, oids := DescribeName(t.inputs[n]), AnswerOids(t.inputs[n]);
            && Described(t, n + 1) == (if name.Some? then Described(t, n) + [name.value] else Described(t, n))
            && Answers(t, n + 1) == (if oids.Some? then Answers(t, n) + [oids.value] else Answers(t, n))
            && (name.Some? ==> oids == None)
  {
    assert Described(t, n) + [] == Described(t, n) && Answers(t, n) + [] == Answers(t, n);
  }

  /** While no reply overtakes its Describe, the answered names followed by the queue are all
      described names, and each reply is recorded under the name with its own number. */
  lemma {:induction false} QueueInvariant(t: Trace, n: nat)
    requires n <= |t.inputs| && InOrder(t, n)
    ensures Queued(Described(t, n), Answers(t, n), StateAt(t, n))
    decreases n
  {
    hide *;
    InOrderStep(t, n);
    if n == 0 {
      QueueStart(t);
    } else {
      var names, answers, st, next := Described(t, n - 1), Answers(t, n - 1), StateAt(t, n - 1), StateAt(t, n);
      QueueInvariant(t, n - 1);
      QueueStep(t, n - 1);
      ListsStep(t, n - 1);
      QueueNonempty(names, answers, st);
      var name, oids := DescribeName(t.inputs[n - 1]), AnswerOids(t.inputs[n - 1]);
      if name.Some? {
        QueueDescribe(names, answers, st, name.value);
      } else if oids.Some? {
        QueueAnswer(names, answers, st, oids.value, next);
      } else {
        QueueSame(names, answers, st, next);
      }
    }
  }

  lemma InOrderStep(t: Trace, n: nat)
    requires n <= |t.inputs|
    ensures InOrder(t, n) <==> |Answers(t, n)| <= |Described(t, n)| && (n > 0 ==> InOrder(t, n - 1))
  {
  }

  lemma QueueStart(t: Trace)
    ensures Queued(Described(t, 0), Answers(t, 0), StateAt(t, 0))
  {
  }

  /** The k-th reply is announced under the k-th described name. */
  lemma AnswerAttributed(t: Trace, n: nat)
    requires n < |t.inputs| && InOrder(t, n + 1) && AnswerOids(t.inputs[n]).Some?
    ensures var k := |Answers(t, n)|;
            k < |Described(t, n)|
            && EventAt(t, n) == Some(Event(t.conn, KindParamDesc, Described(t, n)[k], "", "", true, [], NoNote))
  {
    QueueInvariant(t, n);
    QueueStep(t, n);
    assert |Answers(t, n + 1)| <= |Described(t, n + 1)|;
  }

  predicate Unattributed(t: Trace, n: nat)
    requires n < |t.inputs|
  {
    EventAt(t, n).Some? && EventAt(t, n).value.note == NoOutstandingDescribe
  }

  /** Every ParameterDescription among the first n inputs was attributed to a name. */
  predicate AllAttributed(t: Trace, n: nat)
    requires n <= |t.inputs|
  {
    n > 0 ==> AllAttributed(t, n - 1) && !Unattributed(t, n - 1)
  }

  /** The order assumption is observable: it holds exactly when no reply goes unattributed. */
  lemma {:induction false} OrderObservable(t: Trace, n: nat)
    requires n <= |t.inputs|
    ensures InOrder(t, n) <==> AllAttributed(t, n)
    decreases n
  {
    if n > 0 {
      OrderObservable(t, n - 1);
      if InOrder(t, n - 1) {
        QueueInvariant(t, n - 1);
        OrderStep(t, n - 1);
      }
      hide StateAt, EventAt, Described, Answers, Queued, Unattributed;
    }
  }

  lemma OrderStep(t: Trace, n: nat)
    requires n < |t.inputs| && Queued(Described(t, n), Answers(t, n), StateAt(t, n))
    ensures Unattributed(t, n) <==> |Answers(t, n + 1)| > |Described(t, n + 1)|
  {
    QueueStep(t, n);
    ListsStep(t, n);
    QueueNonempty(Described(t, n), Answers(t, n), StateAt(t, n));
    hide StateAt, Apply, EventAt, DescribeName, AnswerOids, Recorded, Queued, Described, Answers;
  }

  /** Replies among the first n inputs that were attributed to no name. */
  function Lost(t: Trace, n: nat): nat
    requires n <= |t.inputs|
  {
    if n == 0 then 0 else Lost(t, n - 1) + if Unattributed(t, n - 1) then 1 else 0
  }

  /** The queue lags behind the replies by those that were lost. */
  predicate Shifted(names: seq<string>, answers: nat, lost: nat, st: State) {
    lost <= answers <= |names| + lost && st.pendingDescribe == names[answers - lost..]
  }

  lemma ShiftDescribe(names: seq<string>, answers: nat, lost: nat, st: State, name: string)
    requires Shifted(names, answers, lost, st)
    ensures Shifted(names + [name], answers, lost, st.(pendingDescribe := st.pendingDescribe + [name]))
  {
  }

  lemma ShiftAnswer(names: seq<string>, answers: nat, lost: nat, st: State, next: State)
    requires Shifted(names, answers, lost, st) && st.pendingDescribe != []
    requires next.pendingDescribe == st.pendingDescribe[1..]
    ensures Shifted(names, answers + 1, lost, next) && st.pendingDescribe[0] == names[answers - lost]
  {
  }

  /** In every trace, whatever the order, the queue is the described names from the number of replies
      less the lost ones on. */
  lemma {:induction false} QueueShift(t: Trace, n: nat)
    requires n <= |t.inputs|
    ensures Shifted(Described(t, n), |Answers(t, n)|, Lost(t, n), StateAt(t, n))
    decreases n
  {
    hide *;
    if n > 0 {
      var names, answers, lost, st := Described(t, n - 1), |Answers(t, n - 1)|, Lost(t, n - 1), StateAt(t, n - 1);
      QueueShift(t, n - 1);
      QueueStep(t, n - 1);
      ListsStep(t, n - 1);
      LostStep(t, n - 1);
      var name, oids := DescribeName(t.inputs[n - 1]), AnswerOids(t.inputs[n - 1]);
      if name.Some? {
        ShiftDescribe(names, answers, lost, st, name.value);
      } else if oids.Some? && st.pendingDescribe != [] {
        ShiftAnswer(names, answers, lost, st, StateAt(t, n));
      } else if oids.Some? {
        ShiftLost(names, answers, lost, st);
      } else {
        ShiftSame(names, answers, lost, st, StateAt(t, n));
      }
    } else {
      ShiftStart(t);
    }
  }

  lemma ShiftStart(t: Trace)
    ensures Shifted(Described(t, 0), |Answers(t, 0)|, Lost(t, 0), StateAt(t, 0))
  {
  }

  lemma ShiftLost(names: seq<string>, answers: nat, lost: nat, st: State)
    requires Shifted(names, answers, lost, st)
    ensures Shifted(names, answers + 1, lost + 1, st)
  {
  }

  lemma ShiftSame(names: seq<string>, answers: nat, lost: nat, st: State, next: State)
    requires Shifted(names, answers, lost, st) && next.pendingDescribe == st.pendingDescribe
    ensures Shifted(names, answers, lost, next)
  {
  }

  /** A reply is lost exactly when the queue is empty, and nothing else is. */
  lemma LostStep(t: Trace, n: nat)
    requires n < |t.inputs|
    ensures Lost(t, n + 1) == Lost(t, n)
                              + if AnswerOids(t.inputs[n]).Some? && StateAt(t, n).pendingDescribe == [] then 1 else 0
  {
    QueueStep(t, n);
    ListsStep(t, n);
    hide StateAt, EventAt, DescribeName, AnswerOids, Described, Answers;
    DescribesSilently(t, n);
  }

  lemma DescribesSilently(t: Trace, n: nat)
    requires n < |t.inputs|
    ensures DescribeName(t.inputs[n]).Some? ==> EventAt(t, n) == None
  {
    hide ReadTarget, StateAt;
  }

  /** Each reply that is attributed goes to the described name as many places early as replies were
      lost before it, so after a lost one every later reply is one place off for good. */
  lemma ReplyShifted(t: Trace, n: nat)
    requires n < |t.inputs| && AnswerOids(t.inputs[n]).Some?
    ensures var names, k := Described(t, n), |Answers(t, n)| - Lost(t, n);
            if k == |names| then Unattributed(t, n)
            else
              && 0 <= k < |names|
              && EventAt(t, n) == Some(Event(t.conn, KindParamDesc, names[k], "", "", true, [], NoNote))
              && StateAt(t, n + 1).paramOids == StateAt(t, n).paramOids[names[k] := AnswerOids(t.inputs[n]).value]
  {
    QueueShift(t, n);
    QueueStep(t, n);
    ListsStep(t, n);
    hide StateAt, EventAt, DescribeName, AnswerOids, Described, Answers, Lost;
  }

  /** Without the assumption attribution goes wrong: after a reply that overtook its Describe,
      the next reply is recorded under the earlier name. */
  lemma EarlyReplyShifts(t: Trace)
    requires |t.inputs| == 4
    requires AnswerOids(t.inputs[0]).Some? && DescribeName(t.inputs[1]).Some?
    requires DescribeName(t.inputs[2]).Some? && AnswerOids(t.inputs[3]).Some?
    ensures Unattributed(t, 0)
    ensures var st := StateAt(t, 4);
            st.paramOids == map[DescribeName(t.inputs[1]).value := AnswerOids(t.inputs[3]).value]
            && st.pendingDescribe == [DescribeName(t.inputs[2]).value]
  {
    QueueStep(t, 0);
    QueueStep(t, 1);
    QueueStep(t, 2);
    QueueStep(t, 3);
    hide Apply, DescribeName, AnswerOids;
    var first, second := DescribeName(t.inputs[1]).value, DescribeName(t.inputs[2]).value;
    assert StateAt(t, 0) == INITIAL;
    assert StateAt(t, 2).pendingDescribe == [first];
    assert StateAt(t, 3).pendingDescribe == [first, second];
  }

  // ----- which statement a Bind runs

  /** What a message says about the statement `name`: parsed with this SQL, or closed. */
  datatype Mention = NoMention | ParsedAs(sql: string) | Closed

  function MentionOf(input: Input, name: string): Mention {
    if input.FromServer? then NoMention
    else if input.m.typ == MSG_PARSE then
      match ReadParse(input.m.body)
      case Named(n, sql) => if n == name then ParsedAs(sql) else NoMention
      case Malformed => NoMention
    else if input.m.typ == MSG_CLOSE then
      match ReadTarget(input.m.body)
      case Target(kind, n) => if kind == KIND_STATEMENT && n == name then Closed else NoMention
      case NoTarget => NoMention
    else NoMention
  }

  /** The latest thing the first n inputs say about `name`. */
  function LastMention(t: Trace, n: nat, name: string): Mention
    requires n <= |t.inputs|
  {
    if n == 0 then NoMention
    else if MentionOf(t.inputs[n - 1], name) != NoMention then MentionOf(t.inputs[n - 1], name)
    else LastMention(t, n - 1, name)
  }

  lemma StatementStep(t: Trace, n: nat, name: string)
    requires n < |t.inputs|
    ensures var before, after := StateAt(t, n).stmts, StateAt(t, n + 1).stmts;
            match MentionOf(t.inputs[n], name)
            case NoMention => (name in after <==> name in before) && (name in after ==> after[name] == before[name])
            case ParsedAs(sql) => name in after && after[name] == sql
            case Closed => name !in after
  {
    hide ReadParse, ReadBind, ReadTarget, CutString, ReadParamDesc, ReadRowDesc, Resolve, OidsOf;
  }

  /** A statement is open with the SQL of its latest Parse, unless it was closed since. */
  predicate OpenAs(st: State, name: string, latest: Mention) {
    if latest.ParsedAs? then name in st.stmts && st.stmts[name] == latest.sql else name !in st.stmts
  }

  lemma OpenStep(t: Trace, n: nat, name: string, latest: Mention)
    requires n < |t.inputs| && OpenAs(StateAt(t, n), name, latest)
    ensures var now := MentionOf(t.inputs[n], name);
            OpenAs(StateAt(t, n + 1), name, if now == NoMention then latest else now)
  {
    StatementStep(t, n, name);
    hide StateAt, MentionOf;
  }

  lemma {:induction false} OpenStatements(t: Trace, n: nat, name: string)
    requires n <= |t.inputs|
    ensures OpenAs(StateAt(t, n), name, LastMention(t, n, name))
    decreases n
  {
    hide MentionOf, Apply;
    if n == 0 {
      assert LastMention(t, 0, name) == NoMention;
    } else {
      hide StateAt, OpenAs;
      OpenStatements(t, n - 1, name);
      OpenStep(t, n - 1, name, LastMention(t, n - 1, name));
    }
  }

  /** A Bind resolves exactly when the latest Parse or Close of its statement is a Parse, and
      then to that Parse's SQL; otherwise its SQL is empty. */
  lemma BindResolution(t: Trace, n: nat)
    requires n < |t.inputs| && t.inputs[n].FromClient? && t.inputs[n].m.typ == MSG_BIND
    requires ReadBind(t.inputs[n].m.body).Bound?
    ensures EventAt(t, n).Some?
    ensures var ev := EventAt(t, n).value;
            var latest := LastMention(t, n, ReadBind(t.inputs[n].m.body).stmt);
            && ev.kind == KindBind && ev.stmt == ReadBind(t.inputs[n].m.body).stmt
            && (ev.resolved <==> latest.ParsedAs?)
            && ev.sql == if latest.ParsedAs? then latest.sql else ""
  {
    OpenStatements(t, n, ReadBind(t.inputs[n].m.body).stmt);
    hide StateAt, LastMention, ReadBind, Resolve, OidsOf;
  }

  // ----- which parameters are known

  /** As parsed: text and NULL are known, anything else carries a reason. */
  predicate Parsed(p: Param) {
    if p.isNull || p.format == FORMAT_TEXT then p.known else !p.known && p.reason != NoReason
  }

  lemma {:induction false} ReadValuesParsed(b: Bytes, codes: seq<int>, k: nat, n: nat, i: nat)
    requires k <= n && ReadValues(b, codes, k, n).Values? && i < n - k
    ensures Parsed(ReadValues(b, codes, k, n).params[i])
    decreases n - k
  {
    var v := ReadValue(b, FormatOf(codes, k));
    if i > 0 {
      hide ReadValue, FormatOf;
      ReadValuesParsed(v.rest, codes, k + 1, n, i - 1);
    }
  }

  lemma BindParsed(body: Bytes, i: nat)
    requires ReadBind(body).Bound? && i < |ReadBind(body).params|
    ensures Parsed(ReadBind(body).params[i])
  {
    var tail := CutString(CutString(body).rest).rest;
    var codes := ReadCodes(tail[2..], Get16(tail));
    ReadValuesParsed(codes.rest[2..], codes.codes, 0, Get16(codes.rest), i);
  }

  /** The parameter is known or says why not; a binary one that is not NULL is known only when the
      statement's OID count matches the parameter count, and then its text is the decoding of its own
      bytes under its own OID. */
  predicate Honest(oids: seq<int>, params: seq<Param>, i: nat, library: Renderer)
    requires i < |params|
  {
    var p := params[i];
    && (p.known || p.reason != NoReason)
    && (p.known && !p.isNull && p.format == FORMAT_BINARY ==>
          |oids| == |params| && p.oid == oids[i] && DecodeBinary(oids[i], p.value, library) == Some(p.text))
  }

  lemma ResolveHonest(oids: seq<int>, params: seq<Param>, library: Renderer, i: nat)
    requires i < |params| && Parsed(params[i])
    ensures Honest(oids, Resolve(oids, params, library), i, library)
  {
    hide DecodeBinary;
  }

  lemma EventParams(t: Trace, n: nat)
    requires n < |t.inputs|
    ensures EventAt(t, n).Some? ==>
              var ev := EventAt(t, n).value;
              ev.params == []
              || (t.inputs[n].FromClient? && ReadBind(t.inputs[n].m.body).Bound?
                  && ev.params == Resolve(OidsOf(StateAt(t, n), ev.stmt), ReadBind(t.inputs[n].m.body).params, t.library))
  {
    hide ReadBind, Resolve, StateAt, OidsOf;
  }

  /** Every emitted parameter is honest. */
  lemma ParamsHonest(t: Trace, n: nat)
    requires n < |t.inputs|
    ensures EventAt(t, n).Some? ==>
              var ev := EventAt(t, n).value;
              forall i :: 0 <= i < |ev.params| ==> Honest(OidsOf(StateAt(t, n), ev.stmt), ev.params, i, t.library)
  {
    EventParams(t, n);
    hide *;
    if EventAt(t, n).Some? {
      var ev := EventAt(t, n).value;
      var oids := OidsOf(StateAt(t, n), ev.stmt);
      forall i | 0 <= i < |ev.params|
        ensures Honest(oids, ev.params, i, t.library)
      {
        var body := t.inputs[n].m.body;
        BindParsed(body, i);
        ResolveHonest(oids, ReadBind(body).params, t.library, i);
      }
    }
  }
}
