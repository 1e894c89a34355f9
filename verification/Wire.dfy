/** Framing and message parsing of the PostgreSQL v3 protocol, as the capture proxy reads it. */
module Wire {
  import opened Text

  type Byte = x: int | 0 <= x < 256
  type Bytes = seq<Byte>

  const TWO_16 := 0x1_0000
  const TWO_31 := 0x8000_0000
  const TWO_32 := 0x1_0000_0000

  /** The string made of the bytes themselves. */
  function AsText(b: Bytes): (s: string)
    ensures |s| == |b|
  {
    seq(|b|, i requires 0 <= i < |b| => b[i] as char)
  }

  function Get16(b: Bytes): (n: nat)
    requires |b| >= 2
    ensures n < TWO_16
  {
    (b[0] as int) * 256 + b[1]
  }

  function Get32(b: Bytes): (n: nat)
    requires |b| >= 4
    ensures n < TWO_32
  {
    Get16(b) * TWO_16 + Get16(b[2..])
  }

  function Put16(n: nat): (b: Bytes)
    requires n < TWO_16
    ensures |b| == 2 && Get16(b) == n
  {
    [n / 256, n % 256]
  }

  function Put32(n: nat): (b: Bytes)
    requires n < TWO_32
    ensures |b| == 4 && Get32(b) == n
  {
    var b := Put16(n / TWO_16) + Put16(n % TWO_16);
    assert b[2..] == Put16(n % TWO_16);
    b
  }

  /** Words are in network order, the highest byte first. */
  lemma NetworkOrder(a: Byte, b: Byte, c: Byte, d: Byte)
    ensures Get16([a, b]) == a * 256 + b
    ensures Get32([a, b, c, d]) == ((a * 256 + b) * 256 + c) * 256 + d
  {
    assert [a, b, c, d][2..] == [c, d];
  }

  lemma Get16Prefix(n: nat, rest: Bytes)
    requires n < TWO_16
    ensures Get16(Put16(n) + rest) == n && (Put16(n) + rest)[2..] == rest
  {
  }

  lemma Get32Prefix(n: nat, rest: Bytes)
    requires n < TWO_32
    ensures Get32(Put32(n) + rest) == n && (Put32(n) + rest)[4..] == rest
  {
    var b := Put32(n);
    assert (b + rest)[2..] == b[2..] + rest;
  }

  /** The bytes of a word are determined by its value. */
  lemma Put16Get(b: Bytes)
    requires |b| >= 2
    ensures b == Put16(Get16(b)) + b[2..]
  {
  }

  lemma Put32Get(b: Bytes)
    requires |b| >= 4
    ensures b == Put32(Get32(b)) + b[4..]
  {
    Put16Get(b);
    Put16Get(b[2..]);
    assert Get32(b) / TWO_16 == Get16(b) && Get32(b) % TWO_16 == Get16(b[2..]);
    assert b[2..][2..] == b[4..];
  }

  // ----- framing

  datatype Message = Message(typ: Byte, body: Bytes)

  datatype Frame =
    | NeedMore
    | Bad(rest: Bytes)
    | Complete(message: Message, rest: Bytes)

  function ReadFrame(buf: Bytes): Frame {
    if |buf| < 5 then NeedMore
    else
      var length := Get32(buf[1..5]);
      if length < 4 then Bad(buf[1..])
      else if |buf| < length + 1 then NeedMore
      else Complete(Message(buf[0], buf[5..length + 1]), buf[length + 1..])
  }

  /** The messages one drain of the buffer yields, and the bytes it retains. A malformed
      length costs one byte and ends the drain. */
  datatype Drained = Drained(messages: seq<Message>, rest: Bytes)

  function Drain(buf: Bytes): Drained
    decreases |buf|
  {
    match ReadFrame(buf)
    case NeedMore => Drained([], buf)
    case Bad(rest) => Drained([], rest)
    case Complete(m, rest) =>
      var d := Drain(rest);
      Drained([m] + d.messages, d.rest)
  }

  class Framer {
    var buf: Bytes

    constructor ()
      ensures buf == []
    {
      buf := [];
    }

    method Push(b: Bytes)
      modifies this
      ensures buf == old(buf) + b
    {
      buf := buf + b;
    }

    /** The next complete message; ok is false when more bytes are needed, and also after
        a malformed length, whose first byte is dropped. */
    method Next() returns (typ: Byte, body: Bytes, ok: bool)
      modifies this
      ensures match ReadFrame(old(buf))
              case NeedMore => !ok && buf == old(buf)
              case Bad(rest) => !ok && buf == rest
              case Complete(m, rest) => ok && Message(typ, body) == m && buf == rest
    {
      if |buf| < 5 {
        return 0, [], false;
      }
      var length := Get32(buf[1..5]);
      if length < 4 {
        buf := buf[1..];
        return 0, [], false;
      }
      var total := length + 1;
      if |buf| < total {
        return 0, [], false;
      }
      typ, body := buf[0], buf[5..total];
      buf := buf[total..];
      ok := true;
    }
  }

  /** Draining the stream never meets a malformed length. */
  predicate WellFormed(stream: Bytes)
    decreases |stream|
  {
    match ReadFrame(stream)
    case NeedMore => true
    case Bad(_) => false
    case Complete(_, rest) => WellFormed(rest)
  }

  /** At most one malformed length, with only an unfinished frame behind the byte it costs. */
  predicate Settled(stream: Bytes)
    decreases |stream|
  {
    match ReadFrame(stream)
    case NeedMore => true
    case Bad(rest) => ReadFrame(rest) == NeedMore
    case Complete(_, rest) => Settled(rest)
  }

  lemma {:induction false} WellFormedSettled(stream: Bytes)
    requires WellFormed(stream)
    ensures Settled(stream)
    decreases |stream|
  {
    if ReadFrame(stream).Complete? {
      WellFormedSettled(ReadFrame(stream).rest);
    }
  }

  lemma BadStays(a: Bytes, b: Bytes)
    requires ReadFrame(a).Bad?
    ensures ReadFrame(a + b) == Bad(ReadFrame(a).rest + b)
  {
    assert (a + b)[1..5] == a[1..5];
    assert (a + b)[1..] == a[1..] + b;
  }

  lemma UnfinishedPrefix(a: Bytes, b: Bytes)
    requires ReadFrame(a + b) == NeedMore
    ensures ReadFrame(a) == NeedMore
  {
    if |a| >= 5 {
      assert (a + b)[1..5] == a[1..5];
    }
  }

  lemma DrainStep(a: Bytes)
    ensures Drain(a) == match ReadFrame(a)
                        case NeedMore => Drained([], a)
                        case Bad(rest) => Drained([], rest)
                        case Complete(m, rest) => Drained([m] + Drain(rest).messages, Drain(rest).rest)
    ensures Settled(a) == match ReadFrame(a)
                          case NeedMore => true
                          case Bad(rest) => ReadFrame(rest) == NeedMore
                          case Complete(_, rest) => Settled(rest)
    ensures ReadFrame(a).Complete? ==> |ReadFrame(a).rest| < |a|
  {
  }

  lemma FrameStays(a: Bytes, b: Bytes)
    requires ReadFrame(a).Complete?
    ensures ReadFrame(a + b) == Complete(ReadFrame(a).message, ReadFrame(a).rest + b)
  {
    var length := Get32(a[1..5]);
    assert (a + b)[1..5] == a[1..5];
    assert (a + b)[5..length + 1] == a[5..length + 1];
    assert (a + b)[length + 1..] == a[length + 1..] + b;
  }

  lemma JoinMessages(m: Message, x: seq<Message>, y: seq<Message>)
    ensures [m] + (x + y) == ([m] + x) + y && [] + y == y
  {
  }

  /** Draining early and keeping the rest loses nothing. */
  lemma {:induction false} DrainAppend(a: Bytes, b: Bytes)
    requires Settled(a + b)
    ensures var d := Drain(a);
            Settled(d.rest + b)
            && Drain(a + b) == Drained(d.messages + Drain(d.rest + b).messages, Drain(d.rest + b).rest)
            && ReadFrame(d.rest) == NeedMore
    decreases |a|
  {
    hide *;
    DrainStep(a);
    DrainStep(a + b);
    JoinMessages(Message(0, []), [], Drain(a + b).messages);
    match ReadFrame(a)
    case NeedMore =>
    case Bad(rest) =>
      BadStays(a, b);
      UnfinishedPrefix(rest, b);
      DrainStep(rest + b);
    case Complete(m, rest) =>
      FrameStays(a, b);
      DrainAppend(rest, b);
      JoinMessages(m, Drain(rest).messages, Drain(Drain(rest).rest + b).messages);
  }

  function Concat(chunks: seq<Bytes>): Bytes {
    if chunks == [] then [] else chunks[0] + Concat(chunks[1..])
  }

  /** Pushing and draining chunk by chunk. */
  function DrainChunks(buf: Bytes, chunks: seq<Bytes>): Drained
    decreases |chunks|
  {
    if chunks == [] then Drained([], buf)
    else
      var d := Drain(buf + chunks[0]);
      var e := DrainChunks(d.rest, chunks[1..]);
      Drained(d.messages + e.messages, e.rest)
  }

  /** However the bytes are split into reads, the messages and the retained bytes are those
      of a single read. */
  lemma {:induction false} ChunkInvariance(buf: Bytes, chunks: seq<Bytes>)
    requires ReadFrame(buf) == NeedMore && Settled(buf + Concat(chunks))
    ensures DrainChunks(buf, chunks) == Drain(buf + Concat(chunks))
    decreases |chunks|
  {
    if chunks == [] {
      assert buf + [] == buf;
    } else {
      var more := Concat(chunks[1..]);
      assert buf + Concat(chunks) == (buf + chunks[0]) + more;
      DrainAppend(buf + chunks[0], more);
      ChunkInvariance(Drain(buf + chunks[0]).rest, chunks[1..]);
    }
  }

  predicate IsSplit(chunks: seq<Bytes>, stream: Bytes) {
    Concat(chunks) == stream && forall i :: 0 <= i < |chunks| ==> chunks[i] != []
  }

  /** A frame that ends in front of the last byte is read without it. */
  lemma LastByteFrame(a: Bytes, b: Bytes)
    requires |b| == 1 && ReadFrame(a + b).Complete? && ReadFrame(a + b).rest != []
    ensures ReadFrame(a).Complete? && ReadFrame(a).message == ReadFrame(a + b).message
    ensures ReadFrame(a).rest + b == ReadFrame(a + b).rest && |ReadFrame(a).rest| < |a|
  {
    var length := Get32((a + b)[1..5]);
    assert (a + b)[1..5] == a[1..5] && (a + b)[5..length + 1] == a[5..length + 1];
    assert (a + b)[length + 1..] == a[length + 1..] + b;
  }

  lemma LastByteBad(a: Bytes, b: Bytes)
    requires |b| == 1 && ReadFrame(a + b).Bad? && ReadFrame(ReadFrame(a + b).rest) != NeedMore
    ensures ReadFrame(a).Bad? && ReadFrame(a).rest + b == ReadFrame(a + b).rest
  {
    assert |ReadFrame(a + b).rest| >= 5;
    assert (a + b)[1..5] == a[1..5] && a[1..] + b == (a + b)[1..];
  }

  /** Reading the last byte separately resumes behind the byte that a malformed length cost. */
  lemma {:induction false} LastByteMatters(a: Bytes, b: Bytes)
    requires |b| == 1 && !Settled(a + b)
    ensures var d := Drain(a);
            var e := Drain(d.rest + b);
            Drain(a + b) != Drained(d.messages + e.messages, e.rest)
    decreases |a|
  {
    hide *;
    DrainStep(a);
    DrainStep(a + b);
    match ReadFrame(a + b)
    case NeedMore => assert false;
    case Bad(rest) =>
      LastByteBad(a, b);
      DrainStep(rest);
      ShorterRest(rest);
    case Complete(m, rest) =>
      SettledEmpty();
      LastByteFrame(a, b);
      var tail := ReadFrame(a).rest;
      LastByteMatters(tail, b);
      var d := Drain(tail);
      var e := Drain(d.rest + b);
      JoinMessages(m, d.messages, e.messages);
      SameTail(m, Drain(rest).messages, d.messages + e.messages);
  }

  lemma SettledEmpty()
    ensures Settled([])
  {
  }

  lemma ShorterRest(a: Bytes)
    requires ReadFrame(a) != NeedMore
    ensures Drained([], a) != Drained([] + Drain(a).messages, Drain(a).rest)
  {
    if ReadFrame(a).Bad? {
      assert |ReadFrame(a).rest| < |a|;
    }
  }

  lemma SameTail(m: Message, x: seq<Message>, y: seq<Message>)
    ensures [m] + x == [m] + y <==> x == y
  {
    assert ([m] + x)[1..] == x && ([m] + y)[1..] == y;
  }

  lemma TwoReads(a: Bytes, b: Bytes)
    ensures var d := Drain(a);
            var e := Drain(d.rest + b);
            DrainChunks([], [a, b]) == Drained(d.messages + e.messages, e.rest)
    ensures Concat([a, b]) == a + b
  {
    assert [] + a == a && [a, b][1..] == [b] && [b][1..] == [];
    var d := Drain(a);
    var e := Drain(d.rest + b);
    assert DrainChunks(e.rest, []) == Drained([], e.rest);
    assert e.messages + [] == e.messages && b + [] == b;
    assert DrainChunks(d.rest, [b]) == e;
    assert Concat([b]) == b;
  }

  /** The splits into reads all give the same result exactly for settled streams. */
  lemma ChunkInvarianceExact(stream: Bytes)
    ensures Settled(stream) <==> forall chunks :: IsSplit(chunks, stream) ==> DrainChunks([], chunks) == Drain(stream)
  {
    if Settled(stream) {
      forall chunks | IsSplit(chunks, stream)
        ensures DrainChunks([], chunks) == Drain(stream)
      {
        assert [] + Concat(chunks) == stream;
        ChunkInvariance([], chunks);
      }
    } else {
      assert |stream| >= 5;
      var a, b := stream[..|stream| - 1], stream[|stream| - 1..];
      assert a + b == stream;
      LastByteMatters(a, b);
      TwoReads(a, b);
      assert IsSplit([a, b], stream);
    }
  }

  lemma MalformedDrained(bad: Bytes, whole: Bytes)
    requires bad == [0, 0, 0, 0, 0] && whole == [0, 0, 0, 0, 0, 4, 7]
    ensures Drain(bad) == Drained([], [0, 0, 0, 0]) && Drain(whole).messages == []
  {
    assert whole[1..5] == [0, 0, 0, 0] == bad[1..5];
    assert Get32([0, 0, 0, 0]) == 0;
  }

  lemma ShiftedDrained(rest: Bytes)
    requires rest == [0, 0, 0, 0, 4, 7]
    ensures Drain(rest).messages == [Message(0, [])]
  {
    assert rest[1..5] == [0, 0, 0, 4] && Get32([0, 0, 0, 4]) == 4;
    assert ReadFrame(rest) == Complete(Message(0, []), [7]);
    assert Drain([7]).messages == [];
    hide ReadFrame, Get32;
    assert Drain(rest).messages == [Message(0, [])] + Drain([7]).messages;
  }

  /** Without well-formedness the split matters: a bad length at the front ends the drain of
      a single read, while a second read resumes after the dropped byte. */
  lemma MalformedSplitMatters()
    ensures var bad: Bytes := [0, 0, 0, 0, 0];
            var good: Bytes := [4, 7];
            var one := DrainChunks([], [bad + good]);
            var two := DrainChunks([], [bad, good]);
            one.messages == [] && two.messages == [Message(0, [])]
  {
    var bad: Bytes := [0, 0, 0, 0, 0];
    var good: Bytes := [4, 7];
    var rest: Bytes := [0, 0, 0, 0, 4, 7];
    var whole: Bytes := [0, 0, 0, 0, 0, 4, 7];
    assert bad + good == whole && [0, 0, 0, 0] + good == rest;
    hide *;
    MalformedDrained(bad, whole);
    ShiftedDrained(rest);
    ChunksDrained(bad, good);
  }

  /** One read of two pieces, and two reads. */
  lemma ChunksDrained(a: Bytes, b: Bytes)
    ensures DrainChunks([], [a + b]).messages == Drain(a + b).messages
    ensures DrainChunks([], [a, b]).messages == Drain(a).messages + Drain(Drain(a).rest + b).messages
  {
    hide *;
    TwoReads(a, b);
    OneChunk([], a + b);
    assert [] + (a + b) == a + b;
  }

  lemma OneChunk(buf: Bytes, b: Bytes)
    ensures DrainChunks(buf, [b]).messages == Drain(buf + b).messages
  {
    hide Drain;
    assert [b][1..] == [];
    assert Drain(buf + b).messages + [] == Drain(buf + b).messages;
  }

  // ----- encoding of frames

  predicate Encodable(m: Message) {
    |m.body| + 4 < TWO_32
  }

  function Encode(m: Message, rest: Bytes): Bytes
    requires Encodable(m)
  {
    [m.typ] + (Put32(|m.body| + 4) + (m.body + rest))
  }

  function EncodeAll(messages: seq<Message>, rest: Bytes): Bytes
    requires forall i :: 0 <= i < |messages| ==> Encodable(messages[i])
  {
    if messages == [] then rest else Encode(messages[0], EncodeAll(messages[1..], rest))
  }

  lemma EncodeFrame(m: Message, rest: Bytes)
    requires Encodable(m)
    ensures ReadFrame(Encode(m, rest)) == Complete(m, rest)
  {
    var b := Encode(m, rest);
    var n := |m.body| + 4;
    assert b[1..5] == Put32(n);
    assert b[5..n + 1] == m.body && b[n + 1..] == rest;
  }

  /** Framing an encoded list of messages returns that list, and keeps exactly the bytes of
      the unfinished message behind it. */
  lemma {:induction false} FramingInvertsEncoding(messages: seq<Message>, unfinished: Bytes)
    requires forall i :: 0 <= i < |messages| ==> Encodable(messages[i])
    requires ReadFrame(unfinished) == NeedMore
    ensures Drain(EncodeAll(messages, unfinished)) == Drained(messages, unfinished)
    ensures WellFormed(EncodeAll(messages, unfinished))
  {
    if messages != [] {
      FramingInvertsEncoding(messages[1..], unfinished);
      EncodeFrame(messages[0], EncodeAll(messages[1..], unfinished));
    }
  }
}
