/**
 * Messages in a byte stream: the chat codec with a four-byte length, and the multiplexer with a three-byte header.
 * Both decoders are loops over a buffer that stop when no whole message is there.
 */
module Framing {
  import opened Base
  import Buf = Buffer

  // ---- decoders ----

  /** The two wire formats. */
  datatype Codec = LengthHeader | Multiplexer

  /** A message; the length codec has no ids and uses 0. */
  datatype Message = Message(id: nat, payload: bytes)

  /** What a decoder sees at the front of its buffer. */
  datatype Outcome = Wait | Bad | Got(message: Message, size: nat)

  datatype Parsed = Parsed(messages: seq<Message>, rest: bytes, bad: bool)

  const MAX_MESSAGE: nat := 65536
  const MAX_PACKET: nat := 255

  function FromBigEndian32(t: bytes): nat
    requires |t| >= 4
  {
    (t[0] as int) * 0x100_0000 + (t[1] as int) * 0x1_0000 + (t[2] as int) * 256 + t[3]
  }

  function FromLittleEndian16(low: byte, high: byte): nat { low + (high as int) * 256 }

  /** A length with the top bit set is a negative int32 and refused like one that is too large. */
  function NextMessage(t: bytes): (r: Outcome)
    ensures r.Got? ==> 0 < r.size <= |t|
  {
    if |t| < 4 then Wait
    else
      var len := FromBigEndian32(t);
      if len >= 0x8000_0000 || len > MAX_MESSAGE then Bad
      else if |t| >= len + 4 then Got(Message(0, t[4..4 + len]), len + 4)
      else Wait
  }

  /** The loop goes on only while there is more than a header. */
  function NextPacket(t: bytes): (r: Outcome)
    ensures !r.Bad? && (r.Got? ==> 0 < r.size <= |t|)
  {
    if |t| <= 3 then Wait
    else
      var len: nat := t[0];
      if |t| < len + 3 then Wait else Got(Message(FromLittleEndian16(t[1], t[2]), t[3..3 + len]), len + 3)
  }

  function Next(c: Codec, t: bytes): (r: Outcome)
    ensures r.Got? ==> 0 < r.size <= |t|
  {
    if c.LengthHeader? then NextMessage(t) else NextPacket(t)
  }

  /** The loop: deliver until the decoder has to wait or gives up. */
  function DecodeAll(c: Codec, t: bytes): Parsed
    decreases |t|
  {
    match Next(c, t)
    case Wait => Parsed([], t, false)
    case Bad => Parsed([], t, true)
    case Got(m, size) =>
      var r := DecodeAll(c, t[size..]);
      Parsed([m] + r.messages, r.rest, r.bad)
  }

  /** What follows a message does not change it. */
  lemma NextIsStable(c: Codec, t: bytes, u: bytes)
    ensures Next(c, t).Got? ==> Next(c, t + u) == Next(c, t)
    ensures Next(c, t).Bad? ==> Next(c, t + u).Bad?
  {
    if |t| >= 4 {
      var n := if c.LengthHeader? then 4 + FromBigEndian32(t) else 3 + t[0] as int;
      assert (t + u)[0] == t[0] && (t + u)[1] == t[1] && (t + u)[2] == t[2] && (t + u)[3] == t[3];
      if |t| >= n {
        if c.LengthHeader? {
          assert (t + u)[4..n] == t[4..n];
        } else {
          assert (t + u)[3..n] == t[3..n];
        }
      }
    }
  }

  lemma DecodeGot(c: Codec, t: bytes, m: Message, size: nat)
    requires Next(c, t) == Got(m, size)
    ensures var r := DecodeAll(c, t[size..]);
            DecodeAll(c, t) == Parsed([m] + r.messages, r.rest, r.bad)
  {
    hide Next;
  }

  lemma DecodeStops(c: Codec, t: bytes)
    requires !Next(c, t).Got?
    ensures DecodeAll(c, t) == Parsed([], t, Next(c, t).Bad?)
  {
    hide Next;
  }

  lemma {:induction false} DecodeInTwo(c: Codec, t: bytes, u: bytes)
    ensures var a := DecodeAll(c, t);
            var b := DecodeAll(c, a.rest + u);
            DecodeAll(c, t + u) == Parsed(a.messages + b.messages, b.rest, b.bad)
    decreases |t|
  {
    hide Next, DecodeAll;
    NextIsStable(c, t, u);
    match Next(c, t)
    case Got(m, size) =>
      DecodeGot(c, t, m, size);
      DecodeGot(c, t + u, m, size);
      assert (t + u)[size..] == t[size..] + u;
      DecodeInTwo(c, t[size..], u);
      var a := DecodeAll(c, t[size..]);
      var b := DecodeAll(c, a.rest + u);
      assert [m] + (a.messages + b.messages) == [m] + a.messages + b.messages;
    case _ =>
      DecodeStops(c, t);
      var b := DecodeAll(c, t + u);
      assert [] + b.messages == b.messages;
  }

  function Concat(chunks: seq<bytes>): bytes {
    if chunks == [] then [] else chunks[0] + Concat(chunks[1..])
  }

  /** The buffer after each chunk holds what the decoder left; messages are delivered as they become whole. */
  function DecodeChunks(c: Codec, buffer: bytes, chunks: seq<bytes>): Parsed
    decreases |chunks|
  {
    if chunks == [] then Parsed([], buffer, false)
    else
      var a := DecodeAll(c, buffer + chunks[0]);
      var b := DecodeChunks(c, a.rest, chunks[1..]);
      Parsed(a.messages + b.messages, b.rest, if |chunks| == 1 then a.bad else b.bad)
  }

  /** However a stream is cut, the decoder delivers and keeps what it would deliver and keep in one piece. */
  lemma {:induction false} ChunksDoNotMatter(c: Codec, buffer: bytes, chunks: seq<bytes>)
    requires chunks != []
    ensures DecodeChunks(c, buffer, chunks) == DecodeAll(c, buffer + Concat(chunks))
    decreases |chunks|
  {
    hide DecodeAll;
    var first, rest := chunks[0], chunks[1..];
    var a := DecodeAll(c, buffer + first);
    if rest == [] {
      assert buffer + (first + []) == buffer + first;
      assert a.messages + [] == a.messages;
    } else {
      assert buffer + (first + Concat(rest)) == (buffer + first) + Concat(rest);
      DecodeInTwo(c, buffer + first, Concat(rest));
      ChunksDoNotMatter(c, a.rest, rest);
    }
  }

  // ---- the length codec ----

  function BigEndian32(n: nat): bytes
    requires n < 0x1_0000_0000
  {
    [n / 0x100_0000, n / 0x1_0000 % 256, n / 256 % 256, n % 256]
  }

  function FrameMessage(message: bytes): bytes
    requires |message| < 0x8000_0000
  {
    BigEndian32(|message|) + message
  }

  lemma BigEndianInverse(n: nat, rest: bytes)
    requires n < 0x1_0000_0000
    ensures FromBigEndian32(BigEndian32(n) + rest) == n
  {
    var t := BigEndian32(n) + rest;
    assert t[0] == n / 0x100_0000 && t[1] == n / 0x1_0000 % 256 && t[2] == n / 256 % 256 && t[3] == n % 256;
    Quarters(n);
  }

  lemma Quarters(n: nat)
    requires n < 0x1_0000_0000
    ensures n / 0x100_0000 * 0x100_0000 + n / 0x1_0000 % 256 * 0x1_0000 + n / 256 % 256 * 256 + n % 256 == n
  {
    assert n / 256 / 256 == n / 0x1_0000 && n / 0x1_0000 / 256 == n / 0x100_0000;
    assert n / 0x1_0000 == n / 0x100_0000 * 256 + n / 0x1_0000 % 256;
    assert n / 256 == n / 0x1_0000 * 256 + n / 256 % 256;
  }

  /** The length goes first, in four bytes, the most significant one in front. */
  lemma NetworkOrder(message: bytes)
    requires |message| < 0x8000_0000
    ensures var t := FrameMessage(message);
            && |t| == |message| + 4 && t[4..] == message
            && (((t[0] as int) * 0x100 + t[1] as int) * 0x100 + t[2] as int) * 0x100 + t[3] as int == |message|
  {
    Quarters(|message|);
  }

  /** A framed message is received whole if it is not too long, and stops the decoder if it is. */
  lemma MessageReceived(message: bytes, rest: bytes)
    requires |message| < 0x8000_0000
    ensures Next(LengthHeader, FrameMessage(message) + rest) ==
            if |message| <= MAX_MESSAGE then Got(Message(0, message), |message| + 4) else Bad
  {
    var t := FrameMessage(message) + rest;
    assert t == BigEndian32(|message|) + (message + rest);
    BigEndianInverse(|message|, message + rest);
    assert t[4..4 + |message|] == message;
  }

  function FrameMessages(messages: seq<bytes>): bytes
    requires forall m | m in messages :: |m| < 0x8000_0000
  {
    if messages == [] then [] else FrameMessage(messages[0]) + FrameMessages(messages[1..])
  }

  function Plain(messages: seq<bytes>): (r: seq<Message>)
    ensures |r| == |messages| && forall i | 0 <= i < |r| :: r[i] == Message(0, messages[i])
  {
    seq(|messages|, i requires 0 <= i < |messages| => Message(0, messages[i]))
  }

  lemma {:induction false} MessagesDecode(messages: seq<bytes>)
    requires forall m | m in messages :: |m| <= MAX_MESSAGE
    ensures DecodeAll(LengthHeader, FrameMessages(messages)) == Parsed(Plain(messages), [], false)
    decreases |messages|
  {
    if messages == [] {
      DecodeStops(LengthHeader, []);
    } else {
      hide DecodeAll, Next, FrameMessage, Plain;
      var m, rest := messages[0], FrameMessages(messages[1..]);
      assert m in messages;
      FrameLength(m);
      MessageReceived(m, rest);
      MessagesDecode(messages[1..]);
      var t := FrameMessage(m) + rest;
      DecodeGot(LengthHeader, t, Message(0, m), |m| + 4);
      assert t[|FrameMessage(m)|..] == rest;
      PlainFirst(messages);
    }
  }

  lemma PlainFirst(messages: seq<bytes>)
    requires messages != []
    ensures Plain(messages) == [Message(0, messages[0])] + Plain(messages[1..])
  {
  }

  lemma FrameLength(m: bytes)
    requires |m| < 0x8000_0000
    ensures |FrameMessage(m)| == |m| + 4
  {
  }

  /** Any list of messages of at most 65536 bytes arrives intact and in order, however the stream is cut. */
  lemma MessagesArrive(messages: seq<bytes>, chunks: seq<bytes>)
    requires forall m | m in messages :: |m| <= MAX_MESSAGE
    requires chunks != [] && Concat(chunks) == FrameMessages(messages)
    ensures DecodeChunks(LengthHeader, [], chunks) == Parsed(Plain(messages), [], false)
  {
    hide DecodeAll, DecodeChunks;
    MessagesDecode(messages);
    ChunksDoNotMatter(LengthHeader, [], chunks);
    assert [] + Concat(chunks) == Concat(chunks);
  }

  // ---- the multiplexer ----

  predicate ValidPacket(p: Message) { p.id < 0x1_0000 && |p.payload| <= MAX_PACKET }

  function FramePacket(p: Message): bytes
    requires ValidPacket(p)
  {
    [|p.payload|, p.id % 256, p.id / 256] + p.payload
  }

  lemma PacketReceived(p: Message, rest: bytes)
    requires ValidPacket(p)
    ensures Next(Multiplexer, FramePacket(p) + rest) == if p.payload == [] && rest == [] then Wait else Got(p, |p.payload| + 3)
  {
    var t := FramePacket(p) + rest;
    assert t[3..3 + |p.payload|] == p.payload;
  }

  function FramePackets(ps: seq<Message>): bytes
    requires forall p | p in ps :: ValidPacket(p)
  {
    if ps == [] then [] else FramePacket(ps[0]) + FramePackets(ps[1..])
  }

  /** Everything is decoded, except an empty packet at the very end, which waits for whatever comes after it. */
  function Decoded(ps: seq<Message>): seq<Message> {
    if ps != [] && ps[|ps| - 1].payload == [] then ps[..|ps| - 1] else ps
  }

  lemma DecodedFirst(p: Message, tail: seq<Message>)
    requires p.payload != [] || tail != []
    ensures Decoded([p] + tail) == [p] + Decoded(tail) && (Decoded([p] + tail) == [p] + tail <==> Decoded(tail) == tail)
  {
    var ps := [p] + tail;
    if tail != [] {
      assert ps[|ps| - 1] == tail[|tail| - 1] && ps[..|ps| - 1] == [p] + tail[..|tail| - 1];
    }
  }

  lemma {:induction false} PacketsDecode(ps: seq<Message>)
    requires forall p | p in ps :: ValidPacket(p)
    ensures var r := DecodeAll(Multiplexer, FramePackets(ps));
            r.messages == Decoded(ps) && !r.bad && (r.rest == [] <==> Decoded(ps) == ps)
    decreases |ps|
  {
    hide DecodeAll, Next;
    if ps == [] {
      NothingThere();
      DecodeStops(Multiplexer, []);
    } else {
      var p, tail := ps[0], ps[1..];
      var rest := FramePackets(tail);
      var t := FramePacket(p) + rest;
      assert p in ps && forall q | q in tail :: q in ps;
      PacketReceived(p, rest);
      if p.payload == [] && rest == [] {
        NoPackets(tail);
        DecodeStops(Multiplexer, t);
      } else {
        PacketsDecode(tail);
        DecodeGot(Multiplexer, t, p, |p.payload| + 3);
        assert t[|p.payload| + 3..] == rest;
        assert tail == [] ==> rest == [];
        DecodedFirst(p, tail);
        assert ps == [p] + tail;
      }
    }
  }

  lemma NothingThere()
    ensures Next(Multiplexer, []).Wait?
  {
  }

  lemma NoPackets(ps: seq<Message>)
    requires (forall p | p in ps :: ValidPacket(p)) && FramePackets(ps) == []
    ensures ps == []
  {
  }

  /** Packets with something in them arrive intact and in order, however the stream is cut. */
  lemma PacketsArrive(ps: seq<Message>, chunks: seq<bytes>)
    requires forall p | p in ps :: ValidPacket(p)
    requires chunks != [] && Concat(chunks) == FramePackets(ps)
    ensures DecodeChunks(Multiplexer, [], chunks).messages == Decoded(ps)
    ensures (forall p | p in ps :: p.payload != []) ==> DecodeChunks(Multiplexer, [], chunks) == Parsed(ps, [], false)
  {
    hide DecodeAll, DecodeChunks, FramePackets, Concat;
    PacketsDecode(ps);
    ChunksDoNotMatter(Multiplexer, [], chunks);
    assert [] + Concat(chunks) == Concat(chunks);
    if ps != [] {
      assert ps[|ps| - 1] in ps;
    }
  }

  /** A payload of any length is cut into packets of at most 255 bytes, none of them empty. */
  function Cut(id: nat, data: bytes): seq<Message>
    decreases |data|
  {
    if |data| > MAX_PACKET then [Message(id, data[..MAX_PACKET])] + Cut(id, data[MAX_PACKET..])
    else if data != [] then [Message(id, data)]
    else []
  }

  function Payloads(ps: seq<Message>): bytes {
    if ps == [] then [] else ps[0].payload + Payloads(ps[1..])
  }

  /** The packets of a buffer are valid, not empty, carry its id and hold all its bytes. */
  lemma {:induction false} CutIsWhole(id: nat, data: bytes)
    requires id < 0x1_0000
    ensures forall p | p in Cut(id, data) :: ValidPacket(p) && p.payload != [] && p.id == id
    ensures Payloads(Cut(id, data)) == data
    decreases |data|
  {
    if |data| > MAX_PACKET {
      var rest := data[MAX_PACKET..];
      CutIsWhole(id, rest);
      assert Cut(id, data)[1..] == Cut(id, rest);
      assert data[..MAX_PACKET] + rest == data;
    } else if data != [] {
      assert Cut(id, data)[1..] == [] && data + [] == data;
    }
  }

  /** From sender to receiver: the bytes of a client's buffer, through packets and any chunks, come out whole. */
  lemma PayloadArrives(id: nat, data: bytes, chunks: seq<bytes>)
    requires id < 0x1_0000 && chunks != []
    requires (forall p | p in Cut(id, data) :: ValidPacket(p)) ==> Concat(chunks) == FramePackets(Cut(id, data))
    ensures var r := DecodeChunks(Multiplexer, [], chunks);
            r.rest == [] && Payloads(r.messages) == data && forall p | p in r.messages :: p.id == id
  {
    CutIsWhole(id, data);
    PacketsArrive(Cut(id, data), chunks);
  }

  // ---- the loops over the buffer ----

  /** What a decoder has delivered and what it will still make of its buffer add up to the whole. */
  ghost predicate Adds(c: Codec, messages: seq<Message>, buffer: bytes, whole: Parsed) {
    var r := DecodeAll(c, buffer);
    whole == Parsed(messages + r.messages, r.rest, r.bad)
  }

  lemma AddsFirst(c: Codec, buffer: bytes)
    ensures Adds(c, [], buffer, DecodeAll(c, buffer))
  {
    assert [] + DecodeAll(c, buffer).messages == DecodeAll(c, buffer).messages;
  }

  lemma AddsOneMore(c: Codec, messages: seq<Message>, buffer: bytes, whole: Parsed)
    requires Adds(c, messages, buffer, whole) && Next(c, buffer).Got?
    ensures var next := Next(c, buffer);
            Adds(c, messages + [next.message], buffer[next.size..], whole)
  {
    hide DecodeAll, Next;
    var next := Next(c, buffer);
    DecodeGot(c, buffer, next.message, next.size);
    var r := DecodeAll(c, buffer[next.size..]);
    assert messages + ([next.message] + r.messages) == messages + [next.message] + r.messages;
  }

  lemma AddsNoMore(c: Codec, messages: seq<Message>, buffer: bytes, whole: Parsed)
    requires Adds(c, messages, buffer, whole) && !Next(c, buffer).Got?
    ensures whole == Parsed(messages, buffer, Next(c, buffer).Bad?)
  {
    hide DecodeAll, Next;
    DecodeStops(c, buffer);
    assert messages + [] == messages;
  }

  /** One round of onMessage: look at the header, and take the message if it is whole. */
  method TakeMessage(buf: Buf.Buffer) returns (r: Outcome)
    requires buf.Valid()
    modifies buf
    ensures buf.Valid() && buf.buffer == old(buf.buffer) && r == Next(LengthHeader, old(buf.Contents()))
    ensures buf.Contents() == if r.Got? && r.size <= |old(buf.Contents())| then old(buf.Contents())[r.size..] else old(buf.Contents())
  {
    if buf.Readable() < 4 {
      return Wait;
    }
    ghost var before := buf.Contents();
    var header := buf.Peek(4);
    var len := FromBigEndian32(header);
    assert len == FromBigEndian32(before);
    if len > MAX_MESSAGE || len >= 0x8000_0000 {
      return Bad;
    } else if buf.Readable() >= len + 4 {
      buf.Retrieve(4);
      var message := buf.Peek(len);
      buf.Retrieve(len);
      assert before[4..][len..] == before[len + 4..] && message == before[4..4 + len];
      return Got(Message(0, message), len + 4);
    }
    return Wait;
  }

  /** onMessage of the length codec. */
  method OnMessage(buf: Buf.Buffer) returns (messages: seq<Message>, shutdown: bool)
    requires buf.Valid()
    modifies buf
    ensures buf.Valid() && buf.buffer == old(buf.buffer)
    ensures DecodeAll(LengthHeader, old(buf.Contents())) == Parsed(messages, buf.Contents(), shutdown)
  {
    hide DecodeAll, Next, Adds;
    messages, shutdown := [], false;
    ghost var whole := DecodeAll(LengthHeader, buf.Contents());
    AddsFirst(LengthHeader, buf.Contents());
    while true
      invariant buf.Valid() && buf.buffer == old(buf.buffer)
      invariant Adds(LengthHeader, messages, buf.Contents(), whole)
      decreases |buf.Contents()|
    {
      ghost var before := buf.Contents();
      var next := TakeMessage(buf);
      if !next.Got? {
        AddsNoMore(LengthHeader, messages, before, whole);
        return messages, next.Bad?;
      }
      AddsOneMore(LengthHeader, messages, before, whole);
      messages := messages + [next.message];
    }
  }

  /** send of the length codec: the header goes into the room in front of the message. */
  method SendMessage(message: bytes) returns (out: bytes)
    requires |message| < 0x8000_0000
    ensures out == FrameMessage(message)
  {
    var buf := new Buf.Buffer();
    buf.Append(message);
    buf.Prepend(BigEndian32(|message|));
    assert [] + message == message;
    out := buf.Peek(buf.Readable());
    assert buf.Contents()[..|buf.Contents()|] == buf.Contents();
  }

  /** One round of the receiving loop: take the packet if it is whole. */
  method TakePacket(buf: Buf.Buffer) returns (r: Outcome)
    requires buf.Valid()
    modifies buf
    ensures buf.Valid() && buf.buffer == old(buf.buffer) && r == Next(Multiplexer, old(buf.Contents()))
    ensures buf.Contents() == if r.Got? && r.size <= |old(buf.Contents())| then old(buf.Contents())[r.size..] else old(buf.Contents())
  {
    if buf.Readable() <= 3 {
      return Wait;
    }
    ghost var before := buf.Contents();
    var header := buf.Peek(3);
    var len: nat := header[0];
    assert header[0] == before[0] && header[1] == before[1] && header[2] == before[2];
    if buf.Readable() < len + 3 {
      return Wait;
    }
    var whole := buf.Peek(len + 3);
    var p := Message(FromLittleEndian16(header[1], header[2]), whole[3..]);
    assert p.payload == before[3..3 + len];
    buf.Retrieve(len + 3);
    return Got(p, len + 3);
  }

  /** The receiving loop of the multiplexer and of its other end. */
  method OnPackets(buf: Buf.Buffer) returns (packets: seq<Message>)
    requires buf.Valid()
    modifies buf
    ensures buf.Valid() && buf.buffer == old(buf.buffer)
    ensures DecodeAll(Multiplexer, old(buf.Contents())) == Parsed(packets, buf.Contents(), false)
  {
    PacketsAreNeverBad(buf.Contents());
    hide DecodeAll, Next, Adds;
    packets := [];
    ghost var whole := DecodeAll(Multiplexer, buf.Contents());
    AddsFirst(Multiplexer, buf.Contents());
    while true
      invariant buf.Valid() && buf.buffer == old(buf.buffer)
      invariant Adds(Multiplexer, packets, buf.Contents(), whole)
      decreases |buf.Contents()|
    {
      ghost var before := buf.Contents();
      var next := TakePacket(buf);
      if !next.Got? {
        AddsNoMore(Multiplexer, packets, before, whole);
        return;
      }
      AddsOneMore(Multiplexer, packets, before, whole);
      packets := packets + [next.message];
    }
  }

  lemma {:induction false} PacketsAreNeverBad(t: bytes)
    ensures !DecodeAll(Multiplexer, t).bad
    decreases |t|
  {
    hide NextPacket;
    if Next(Multiplexer, t).Got? {
      PacketsAreNeverBad(t[Next(Multiplexer, t).size..]);
    }
  }

  /** What is left of a buffer once the full packets are cut off. */
  function Remainder(data: bytes): (r: bytes)
    ensures |r| <= MAX_PACKET && (data != [] ==> r != [])
    decreases |data|
  {
    if |data| > MAX_PACKET then Remainder(data[MAX_PACKET..]) else data
  }

  /**
   * sendBackendBuffer: full packets first, then what is left. While the backend is down nothing is sent, the full
   * packets are gone and the last one, with its header, stays in the buffer. The result is false where the assertion of
   * prepend fails: exactly if there is less than a full packet, and no room in front of it.
   */
  method SendBuffer(id: nat, buf: Buf.Buffer, up: bool) returns (ok: bool, out: bytes)
    requires id < 0x1_0000 && buf.Valid()
    modifies buf, buf.buffer
    ensures buf.Valid() && buf.buffer == old(buf.buffer)
    ensures forall p | p in Cut(id, old(buf.Contents())) :: ValidPacket(p)
    ensures !ok <==> 0 < |old(buf.Contents())| <= MAX_PACKET && old(buf.readerIndex) < 3
    ensures !ok ==> out == [] && buf.Contents() == old(buf.Contents())
    ensures ok && up ==> out == FramePackets(Cut(id, old(buf.Contents()))) && buf.Contents() == []
    ensures ok && !up ==> out == [] && buf.Contents() == if old(buf.Contents()) == [] then []
                                                         else FramePacket(Message(id, Remainder(old(buf.Contents()))))
    ensures ok && !up && 0 < |old(buf.Contents())| <= MAX_PACKET ==> buf.readerIndex == old(buf.readerIndex) - 3
  {
    ghost var data, front := buf.Contents(), buf.readerIndex;
    CutIsWhole(id, data);
    hide Cut, FramePackets, Remainder, Sending;
    ok, out := true, [];
    assert Sending(id, up, out, data, data) by { SendingStarts(id, up, data); }
    while buf.Readable() > MAX_PACKET
      invariant buf.Valid() && buf.buffer == old(buf.buffer)
      invariant buf.readerIndex >= 3 || buf.readerIndex == front
      invariant if |data| <= MAX_PACKET then buf.Contents() == data && buf.readerIndex == front && out == []
                else |buf.Contents()| > MAX_PACKET || buf.readerIndex >= 3
      invariant Sending(id, up, out, buf.Contents(), data)
      decreases |buf.Contents()|
    {
      ghost var before := buf.Contents();
      var sent := SendFull(id, buf, up);
      SendingMore(id, up, out, before, data);
      out := out + sent;
    }
    SendingEnds(id, up, out, buf.Contents(), data);
    if buf.Readable() > 0 {
      var sent;
      ok, sent := SendPacket(id, buf, up);
      out := out + sent;
    }
  }

  /** A client's small messages while the backend is down: two are put behind each other, a third one finds no room. */
  method MessagesWhileDown(id: nat, messages: seq<bytes>) returns (ok: bool)
    requires id < 0x1_0000 && forall m | m in messages :: m != []
    requires |Concat(messages)| + 3 * |messages| <= MAX_PACKET + 3
    ensures ok <==> |messages| <= 2
  {
    hide FramePacket, Cut, Remainder;
    var buf := new Buf.Buffer();
    var k := 0;
    ok := true;
    ConcatFrom(messages, 0);
    while k < |messages|
      invariant ok && k <= |messages| && k <= 2 && buf.Valid() && fresh(buf) && fresh(buf.buffer)
      invariant buf.readerIndex == Buf.CHEAP_PREPEND - 3 * k
      invariant |buf.Contents()| + |Concat(messages[k..])| == |Concat(messages)| + 3 * k
    {
      ConcatFrom(messages, k);
      var m := messages[k];
      assert m in messages;
      var n := buf.ReadFd(Some(m));
      ghost var data := buf.Contents();
      var out;
      ok, out := SendBuffer(id, buf, false);
      if !ok {
        return;
      }
      SmallStays(id, data);
      k := k + 1;
    }
  }

  lemma ConcatFrom(chunks: seq<bytes>, k: nat)
    requires k <= |chunks|
    ensures chunks[0..] == chunks
    ensures k < |chunks| ==> Concat(chunks[k..]) == chunks[k] + Concat(chunks[k + 1..])
  {
    assert k < |chunks| ==> chunks[k..][1..] == chunks[k + 1..];
  }

  lemma SmallStays(id: nat, data: bytes)
    requires id < 0x1_0000 && |data| <= MAX_PACKET
    ensures Remainder(data) == data && |FramePacket(Message(id, data))| == |data| + 3
  {
  }

  /** What was sent and what the rest of the buffer still gives are the packets of the whole. */
  ghost predicate Sending(id: nat, up: bool, out: bytes, rest: bytes, data: bytes) {
    && (forall p | p in Cut(id, rest) :: ValidPacket(p)) && (forall p | p in Cut(id, data) :: ValidPacket(p))
    && (if up then out + FramePackets(Cut(id, rest)) == FramePackets(Cut(id, data)) else out == [])
    && Remainder(rest) == Remainder(data) && (rest == [] <==> data == [])
  }

  lemma SendingStarts(id: nat, up: bool, data: bytes)
    requires id < 0x1_0000
    ensures Sending(id, up, [], data, data)
  {
    CutIsWhole(id, data);
    assert [] + FramePackets(Cut(id, data)) == FramePackets(Cut(id, data));
  }

  lemma SendingMore(id: nat, up: bool, out: bytes, rest: bytes, data: bytes)
    requires id < 0x1_0000 && |rest| > MAX_PACKET && Sending(id, up, out, rest, data)
    ensures Sending(id, up, out + if up then FramePacket(Message(id, rest[..MAX_PACKET])) else [], rest[MAX_PACKET..], data)
  {
    hide Cut, FramePackets, FramePacket, Remainder;
    CutFirst(id, rest);
    RemainderNext(rest);
    Associates(out, FramePacket(Message(id, rest[..MAX_PACKET])), FramePackets(Cut(id, rest[MAX_PACKET..])));
  }

  lemma RemainderNext(rest: bytes)
    requires |rest| > MAX_PACKET
    ensures Remainder(rest[MAX_PACKET..]) == Remainder(rest)
  {
  }

  lemma Associates(a: bytes, b: bytes, c: bytes)
    ensures a + (b + c) == a + b + c && a + [] == a
  {
  }

  lemma SendingEnds(id: nat, up: bool, out: bytes, rest: bytes, data: bytes)
    requires id < 0x1_0000 && |rest| <= MAX_PACKET && Sending(id, up, out, rest, data)
    ensures forall p | p in Cut(id, data) :: ValidPacket(p)
    ensures Remainder(data) == rest && (rest == [] <==> data == [])
    ensures if up then FramePackets(Cut(id, data)) == out + (if rest == [] then [] else FramePacket(Message(id, rest))) else out == []
  {
    if rest != [] {
      CutLast(id, rest);
    }
  }

  /** One full packet, copied out of the buffer. */
  method SendFull(id: nat, buf: Buf.Buffer, up: bool) returns (out: bytes)
    requires id < 0x1_0000 && buf.Valid() && |buf.Contents()| > MAX_PACKET
    modifies buf
    ensures buf.Valid() && buf.buffer == old(buf.buffer) && buf.readerIndex == old(buf.readerIndex) + MAX_PACKET
    ensures buf.Contents() == old(buf.Contents())[MAX_PACKET..]
    ensures out == if up then FramePacket(Message(id, old(buf.Contents())[..MAX_PACKET])) else []
  {
    var full := buf.Peek(MAX_PACKET);
    var packet := new Buf.Buffer();
    packet.Append(full);
    assert [] + full == full;
    buf.Retrieve(MAX_PACKET);
    var ok;
    ok, out := SendPacket(id, packet, up);
  }

  lemma CutFirst(id: nat, data: bytes)
    requires id < 0x1_0000 && |data| > MAX_PACKET
    requires forall p | p in Cut(id, data) :: ValidPacket(p)
    ensures forall p | p in Cut(id, data[MAX_PACKET..]) :: ValidPacket(p)
    ensures FramePackets(Cut(id, data)) == FramePacket(Message(id, data[..MAX_PACKET])) + FramePackets(Cut(id, data[MAX_PACKET..]))
  {
    CutIsWhole(id, data[MAX_PACKET..]);
    FirstPacket(Message(id, data[..MAX_PACKET]), Cut(id, data[MAX_PACKET..]));
  }

  lemma CutLast(id: nat, data: bytes)
    requires id < 0x1_0000 && 0 < |data| <= MAX_PACKET
    ensures (forall p | p in Cut(id, data) :: ValidPacket(p)) && FramePackets(Cut(id, data)) == FramePacket(Message(id, data))
  {
    FirstPacket(Message(id, data), []);
    assert [Message(id, data)] + [] == [Message(id, data)];
  }

  lemma FirstPacket(p: Message, ps: seq<Message>)
    requires ValidPacket(p) && forall q | q in ps :: ValidPacket(q)
    ensures FramePackets([p] + ps) == FramePacket(p) + FramePackets(ps)
  {
    assert ([p] + ps)[1..] == ps;
  }

  /**
   * sendBackendPacket: prepend the header; hand the whole buffer over if the backend is up, else leave it there. The
   * result is false where the assertion of prepend fails.
   */
  method SendPacket(id: nat, buf: Buf.Buffer, up: bool) returns (ok: bool, out: bytes)
    requires id < 0x1_0000 && buf.Valid() && |buf.Contents()| <= MAX_PACKET
    modifies buf, buf.buffer
    ensures buf.Valid() && buf.buffer == old(buf.buffer) && (ok <==> old(buf.readerIndex) >= 3)
    ensures !ok ==> out == [] && buf.Contents() == old(buf.Contents()) && buf.readerIndex == old(buf.readerIndex)
    ensures ok && up ==> out == FramePacket(Message(id, old(buf.Contents()))) && buf.Contents() == []
    ensures ok && !up ==> out == [] && buf.Contents() == FramePacket(Message(id, old(buf.Contents())))
                          && buf.readerIndex == old(buf.readerIndex) - 3
  {
    var len := buf.Readable();
    ok, out := buf.readerIndex >= 3, [];
    if !ok {
      return;
    }
    buf.Prepend([len, id % 256, id / 256]);
    if up {
      out := buf.Peek(buf.Readable());
      assert buf.Contents()[..|buf.Contents()|] == buf.Contents();
      buf.RetrieveAll();
    }
  }

  // ---- a connection that receives ----

  /** What was delivered and what the buffer and the chunks to come still give are what the whole gives. */
  ghost predicate Fed(c: Codec, messages: seq<Message>, buffer: bytes, rest: seq<bytes>, bad: bool, whole: Parsed) {
    var r := DecodeChunks(c, buffer, rest);
    whole == Parsed(messages + r.messages, r.rest, if rest == [] then bad else r.bad)
  }

  lemma FedMore(c: Codec, messages: seq<Message>, buffer: bytes, chunks: seq<bytes>, k: nat, bad: bool, whole: Parsed)
    requires k < |chunks| && Fed(c, messages, buffer, chunks[k..], bad, whole)
    ensures var a := DecodeAll(c, buffer + chunks[k]);
            Fed(c, messages + a.messages, a.rest, chunks[k + 1..], a.bad, whole)
  {
    hide DecodeAll;
    assert chunks[k..][1..] == chunks[k + 1..];
    var a := DecodeAll(c, buffer + chunks[k]);
    var r := DecodeChunks(c, a.rest, chunks[k + 1..]);
    assert messages + (a.messages + r.messages) == messages + a.messages + r.messages;
  }

  /**
   * Chunk after chunk is read into one buffer, and the codec is called after each: for either format, what is delivered
   * and what stays in the buffer is what the decoder says of the chunks. A read of no bytes would be the end of the
   * connection, and one of up to 65536 bytes always has room.
   */
  method Receive(c: Codec, buf: Buf.Buffer, chunks: seq<bytes>) returns (messages: seq<Message>, bad: bool)
    requires buf.Valid() && forall chunk | chunk in chunks :: 0 < |chunk| <= Buf.EXTRA
    modifies buf, buf.buffer
    ensures buf.Valid() && (fresh(buf.buffer) || buf.buffer == old(buf.buffer))
    ensures Parsed(messages, buf.Contents(), bad) == DecodeChunks(c, old(buf.Contents()), chunks)
    ensures chunks != [] ==> Parsed(messages, buf.Contents(), bad) == DecodeAll(c, old(buf.Contents()) + Concat(chunks))
  {
    hide DecodeAll, DecodeChunks, Fed;
    ghost var start := buf.Contents();
    ghost var whole := DecodeChunks(c, start, chunks);
    messages, bad := [], false;
    FedFirst(c, start, chunks);
    var k := 0;
    while k < |chunks|
      invariant k <= |chunks| && buf.Valid() && (fresh(buf.buffer) || buf.buffer == old(buf.buffer))
      invariant Fed(c, messages, buf.Contents(), chunks[k..], bad, whole)
    {
      FedMore(c, messages, buf.Contents(), chunks, k, bad, whole);
      var n := buf.ReadFd(Some(chunks[k]));
      var more;
      if c.LengthHeader? {
        more, bad := OnMessage(buf);
      } else {
        more := OnPackets(buf);
        bad := false;
      }
      messages := messages + more;
      k := k + 1;
    }
    assert chunks[k..] == [];
    FedLast(c, messages, buf.Contents(), bad, whole);
    if chunks != [] {
      ChunksDoNotMatter(c, start, chunks);
    }
  }

  lemma FedFirst(c: Codec, buffer: bytes, chunks: seq<bytes>)
    ensures chunks[0..] == chunks && Fed(c, [], buffer, chunks, false, DecodeChunks(c, buffer, chunks))
  {
    hide DecodeAll;
    var r := DecodeChunks(c, buffer, chunks);
    assert [] + r.messages == r.messages;
  }

  lemma FedLast(c: Codec, messages: seq<Message>, buffer: bytes, bad: bool, whole: Parsed)
    requires Fed(c, messages, buffer, [], bad, whole)
    ensures whole == Parsed(messages, buffer, bad)
  {
    assert messages + [] == messages;
  }
}
