/** Packets on a byte stream: eight-byte headers around sealed content, for any way of sealing that can be undone. */
module Framing {
  import opened Bytes
  import opened HuffmanCodec

  /**
   * How a host turns content into bytes for the wire and back, and its byte order, in which it writes
   * and reads headers; sealing can fail, which ends the program.
   */
  datatype Sealing = Sealing(host: Order, seal: seq<Byte> -> Option<seq<Byte>>, unseal: seq<Byte> -> Outcome)

  /** Whatever is sealed comes back, and its sealed length is an int. */
  ghost predicate Works(s: Sealing) {
    forall c :: 0 < |c| < 0x8000_0000 && s.seal(c).Some? ==>
      s.unseal(s.seal(c).value) == Returned(|c|, c) && 0 < |s.seal(c).value| < 0x8000_0000
  }

  // ---- serialization handlers --------------------------------------------------------------

  /** An entry of the handler table: a packet type and its pair of conversions. */
  datatype Handler<!O> = Handler(packetType: int, serialize: O -> Option<seq<Byte>>, deserialize: seq<Byte> -> Option<O>)

  datatype Packet<O> = Packet(packetType: int, obj: O)

  /** What ends the handler table. */
  const NO_TYPE := -1

  /** The handler of a type, in the table up to its end mark. */
  function FindHandler<O>(handlers: seq<Handler<O>>, packetType: int): (r: Option<Handler<O>>)
    ensures r.Some? ==> r.value in handlers && r.value.packetType == packetType != NO_TYPE
  {
    if handlers == [] || handlers[0].packetType == NO_TYPE then None
    else if handlers[0].packetType == packetType then Some(handlers[0])
    else FindHandler(handlers[1..], packetType)
  }

  /** It is the first entry of that type, if no end mark stands before it. */
  lemma {:induction false} FindsFirst<O(!new)>(handlers: seq<Handler<O>>, i: nat)
    requires i < |handlers| && handlers[i].packetType != NO_TYPE
    requires forall j | 0 <= j < i :: handlers[j].packetType != handlers[i].packetType && handlers[j].packetType != NO_TYPE
    ensures FindHandler(handlers, handlers[i].packetType) == Some(handlers[i])
    decreases |handlers|
  {
    if i > 0 {
      FindsFirst(handlers[1..], i - 1);
    }
  }

  /** None is found for a type that no entry before the end mark, or before the end, has. */
  lemma {:induction false} FindsNone<O(!new)>(handlers: seq<Handler<O>>, i: nat, packetType: int)
    requires i <= |handlers| && (i < |handlers| ==> handlers[i].packetType == NO_TYPE)
    requires forall j | 0 <= j < i :: handlers[j].packetType != packetType
    ensures FindHandler(handlers, packetType) == None
    decreases |handlers|
  {
    if i > 0 {
      FindsNone(handlers[1..], i - 1, packetType);
    }
  }

  /** Serialized content has an int for its length. */
  ghost predicate IntLengths<O(!new)>(handlers: seq<Handler<O>>) {
    forall h, o :: h in handlers && h.serialize(o).Some? ==> |h.serialize(o).value| < 0x8000_0000
  }

  /** Every handler reads back what it writes. */
  ghost predicate Faithful<O(!new)>(handlers: seq<Handler<O>>) {
    && IntLengths(handlers)
    && forall h, o :: h in handlers && h.serialize(o).Some? ==> h.deserialize(h.serialize(o).value) == Some(o)
  }

  // ---- What travels on the wire --------------------------------------------------------------

  ghost function Header(host: Order, packetType: int, len: int): (h: seq<Byte>)
    ensures |h| == 8
  {
    IntBytes(host, packetType) + IntBytes(host, len)
  }

  /** What becomes of a packet: nothing to send, a crash while sealing, or bytes to send. */
  datatype Sending = Unsent | Crash | OnWire(bytes: seq<Byte>)

  /** The bytes of one packet; Unsent where send_sftt_packet returns -1 and sends nothing. */
  ghost function Wire<O>(s: Sealing, handlers: seq<Handler<O>>, p: Packet<O>): (w: Sending)
    ensures w.OnWire? ==> |w.bytes| >= 8
  {
    match FindHandler(handlers, p.packetType)
    case None => Unsent
    case Some(h) =>
      match h.serialize(p.obj)
      case None => Unsent
      case Some(content) =>
        if content == [] then Unsent
        else
          match s.seal(content)
          case None => Crash
          case Some(sealed) => OnWire(Header(s.host, p.packetType, |sealed|) + sealed)
  }

  // ---- The calls that move bytes -------------------------------------------------------------

  /** What the two calls of one packet return, for the header and for the content. */
  datatype Calls = Calls(head: int, body: int)

  /** How many bytes a call moved that returned ret. */
  function Moved(ret: int): nat { if ret < 0 then 0 else ret }

  /** send of n bytes: -1, or how many were taken. */
  predicate CanSend(ret: int, n: int) { -1 <= ret <= n }

  /**
   * recv of up to n bytes from a stream that will deliver `data` in all: -1 where there is nothing yet,
   * or an error; 0 at the end of the stream only; otherwise any number of bytes, for a socket that
   * does not block also where the call asks to wait for all of them.
   */
  predicate CanRecv(ret: int, n: int, data: seq<Byte>) {
    ret == -1 || (ret == 0 && data == []) || (0 < ret <= n && ret <= |data|)
  }

  predicate CanSendAll(wire: Sending, sends: Calls) {
    wire.OnWire? ==> |wire.bytes| >= 8 && CanSend(sends.head, 8) && CanSend(sends.body, |wire.bytes| - 8)
  }

  /** The int send_sftt_packet returns, unless it crashes, and the stream after it; it insists that send takes everything. */
  function AfterSend(wire: Sending, data: seq<Byte>, sends: Calls): (Option<int>, seq<Byte>)
    requires CanSendAll(wire, sends)
  {
    match wire
    case Unsent => (Some(-1), data)
    case Crash => (None, data)
    case OnWire(bytes) =>
      if sends.head != 8 then (None, data + bytes[..Moved(sends.head)])
      else if sends.body != |bytes| - 8 then (None, data + bytes[..8 + Moved(sends.body)])
      else (Some(0), data + bytes)
  }

  /** A packet whose sending succeeds if the socket takes it. */
  ghost predicate Sendable<O>(s: Sealing, handlers: seq<Handler<O>>, p: Packet<O>) {
    IsInt(p.packetType) && Wire(s, handlers, p).OnWire?
  }

  /** `code` is the int recv_sftt_packet returns; Abort is a failed assertion or a fault. */
  datatype Reception<O> = Received(code: int, packet: Packet<O>) | NotReceived(code: int) | Abort

  /** The content is asked for behind a whole header with a positive length, and only there. */
  predicate CanReceive(host: Order, data: seq<Byte>, recvs: Calls) {
    && CanRecv(recvs.head, 8, data)
    && (recvs.head == 8 && Int32(host, data[4..8]) > 0 ==> CanRecv(recvs.body, Int32(host, data[4..8]), data[8..]))
  }

  /** recv_sftt_packet on a stream whose remaining bytes are `data`: the result, and the bytes it leaves. */
  ghost function Receive<O>(s: Sealing, handlers: seq<Handler<O>>, data: seq<Byte>, recvs: Calls): (Reception<O>, seq<Byte>)
    requires CanReceive(s.host, data, recvs)
  {
    if recvs.head <= 0 then (NotReceived(recvs.head), data)
    else if recvs.head != 8 then (NotReceived(-1), data[recvs.head..])
    else ReceiveContent(s, handlers, Int32(s.host, data[..4]), Int32(s.host, data[4..8]), data[8..], recvs.body)
  }

  /** The rest of a receive, once the header has given a type and a length. */
  ghost function ReceiveContent<O>(s: Sealing, handlers: seq<Handler<O>>, packetType: int, len: int, rest: seq<Byte>, body: int)
    : (Reception<O>, seq<Byte>)
    requires len > 0 ==> CanRecv(body, len, rest)
  {
    if len <= 0 then (NotReceived(-1), rest)
    else if body != len then (NotReceived(-1), rest[Moved(body)..])
    else (Deliver(handlers, packetType, 8 + len, s.unseal(rest[..len])), rest[len..])
  }

  /** What a receive makes of unsealed content. */
  ghost function Deliver<O>(handlers: seq<Handler<O>>, packetType: int, total: int, unsealed: Outcome): Reception<O> {
    match unsealed
    case Fault => Abort
    case Returned(code, content) =>
      if code <= 0 then NotReceived(-1)
      else
        match FindHandler(handlers, packetType)
        case None => NotReceived(-1)
        case Some(h) =>
          match h.deserialize(content)
          case None => NotReceived(-1)
          case Some(obj) => Received(total, Packet(packetType, obj))
  }

  lemma HeaderFields(host: Order, packetType: int, len: int, tail: seq<Byte>)
    requires IsInt(packetType) && IsInt(len)
    ensures var data := Header(host, packetType, len) + tail;
            Int32(host, data[..4]) == packetType && Int32(host, data[4..8]) == len && data[8..] == tail
  {
    var data := Header(host, packetType, len) + tail;
    assert data[..4] == IntBytes(host, packetType) && data[4..8] == IntBytes(host, len);
    Int32RoundTrip(host, packetType);
    Int32RoundTrip(host, len);
  }

  /** The content of a sendable packet, as the sender sealed it. */
  ghost function Content<O>(handlers: seq<Handler<O>>, p: Packet<O>): seq<Byte>
    requires FindHandler(handlers, p.packetType).Some?
    requires FindHandler(handlers, p.packetType).value.serialize(p.obj).Some?
  {
    FindHandler(handlers, p.packetType).value.serialize(p.obj).value
  }

  /** What the header and the content of a packet are on the wire. */
  lemma WireParts<O(!new)>(s: Sealing, handlers: seq<Handler<O>>, p: Packet<O>, tail: seq<Byte>) returns (sealed: seq<Byte>)
    requires Works(s) && Faithful(handlers) && Sendable(s, handlers, p)
    ensures var content := Content(handlers, p); var wire := Wire(s, handlers, p).bytes; var data := wire + tail;
            && s.seal(content) == Some(sealed) && wire == Header(s.host, p.packetType, |sealed|) + sealed
            && |wire| == 8 + |sealed| && 0 < |sealed| && IsInt(|sealed|)
            && Int32(s.host, data[..4]) == p.packetType && Int32(s.host, data[4..8]) == |sealed|
            && data[8..] == sealed + tail
            && s.unseal(sealed) == Returned(|content|, content) && 0 < |content|
  {
    sealed := s.seal(Content(handlers, p)).value;
    Assoc(Header(s.host, p.packetType, |sealed|), sealed, tail);
    HeaderFields(s.host, p.packetType, |sealed|, sealed + tail);
  }

  /** The reads that take a packet of n bytes: header and content, each whole. */
  function Whole(n: int): Calls { Calls(8, n - 8) }

  /** A receive whose reads are whole, on bytes that are laid out like a packet. */
  lemma ReceiveWhole<O(!new)>(s: Sealing, handlers: seq<Handler<O>>, data: seq<Byte>, sealed: seq<Byte>, content: seq<Byte>,
                              p: Packet<O>, h: Handler<O>, tail: seq<Byte>)
    requires |data| >= 8 && 0 < |sealed| && 0 < |content|
    requires Int32(s.host, data[..4]) == p.packetType && Int32(s.host, data[4..8]) == |sealed| && data[8..] == sealed + tail
    requires s.unseal(sealed) == Returned(|content|, content)
    requires FindHandler(handlers, p.packetType) == Some(h) && h.deserialize(content) == Some(p.obj)
    ensures CanReceive(s.host, data, Whole(8 + |sealed|))
    ensures Receive(s, handlers, data, Whole(8 + |sealed|)) == (Received(8 + |sealed|, p), tail)
  {
    assert (sealed + tail)[..|sealed|] == sealed && (sealed + tail)[|sealed|..] == tail;
  }

  /** One packet: a receive whose reads are whole gives it back and consumes exactly its bytes. */
  lemma ReceiveSent<O(!new)>(s: Sealing, handlers: seq<Handler<O>>, p: Packet<O>, tail: seq<Byte>)
    requires Works(s) && Faithful(handlers) && Sendable(s, handlers, p)
    ensures var wire := Wire(s, handlers, p).bytes;
            && CanReceive(s.host, wire + tail, Whole(|wire|))
            && Receive(s, handlers, wire + tail, Whole(|wire|)) == (Received(|wire|, p), tail)
  {
    var sealed := WireParts(s, handlers, p, tail);
    var h := FindHandler(handlers, p.packetType).value;
    ReceiveWhole(s, handlers, Wire(s, handlers, p).bytes + tail, sealed, Content(handlers, p), p, h, tail);
  }

  // ---- Reads that fall short ---------------------------------------------------------------

  /**
   * A sent packet is received if and only if the header read delivers all eight bytes and the
   * content read all of the content; in every other case the receive returns -1.
   */
  lemma ReadsDecide<O(!new)>(s: Sealing, handlers: seq<Handler<O>>, p: Packet<O>, tail: seq<Byte>, recvs: Calls)
    requires Works(s) && Faithful(handlers) && Sendable(s, handlers, p)
    requires CanReceive(s.host, Wire(s, handlers, p).bytes + tail, recvs)
    ensures var wire := Wire(s, handlers, p).bytes; var r := Receive(s, handlers, wire + tail, recvs);
            && (r == (Received(|wire|, p), tail) <==> recvs == Whole(|wire|))
            && (recvs != Whole(|wire|) ==> r.0 == NotReceived(-1))
  {
    var sealed := WireParts(s, handlers, p, tail);
    ReceiveSent(s, handlers, p, tail);
  }

  /** What a receive leaves is the stream behind the bytes its two reads moved; what it returns is their number. */
  lemma ReceiveConsumes<O(!new)>(s: Sealing, handlers: seq<Handler<O>>, data: seq<Byte>, recvs: Calls)
    requires CanReceive(s.host, data, recvs)
    ensures var (r, rest) := Receive(s, handlers, data, recvs);
            && |rest| <= |data| && rest == data[|data| - |rest|..]
            && (r.Received? ==> r.code == |data| - |rest|)
  {
    if recvs.head == 8 && Int32(s.host, data[4..8]) > 0 {
      var k := Moved(recvs.body);
      assert data[8..][k..] == data[8 + k..];
    }
  }

  /** The bytes a packet's receive leaves behind when its reads are not whole. */
  lemma LeftBehind<O(!new)>(s: Sealing, handlers: seq<Handler<O>>, p: Packet<O>, tail: seq<Byte>, recvs: Calls)
    returns (sealed: seq<Byte>)
    requires Works(s) && Faithful(handlers) && Sendable(s, handlers, p)
    requires CanReceive(s.host, Wire(s, handlers, p).bytes + tail, recvs)
    requires recvs != Whole(|Wire(s, handlers, p).bytes|)
    ensures
      var wire := Wire(s, handlers, p).bytes; var taken := if recvs.head == 8 then 8 + Moved(recvs.body) else Moved(recvs.head);
      && wire == Header(s.host, p.packetType, |sealed|) + sealed && taken < |wire|
      && Receive(s, handlers, wire + tail, recvs).1 == (wire + tail)[taken..] == wire[taken..] + tail
  {
    sealed := WireParts(s, handlers, p, tail);
    var wire := Wire(s, handlers, p).bytes;
    var k := Moved(recvs.body);
    if recvs.head == 8 {
      assert (wire + tail)[8..][k..] == (wire + tail)[8 + k..];
    }
  }

  /**
   * After a receive that failed, another one still gives the packet if and only if the first one
   * moved nothing, its header read returning -1, and the second one's reads are whole.
   */
  lemma RetryRecovers<O(!new)>(s: Sealing, handlers: seq<Handler<O>>, p: Packet<O>, tail: seq<Byte>, recvs: Calls, again: Calls)
    requires Works(s) && Faithful(handlers) && Sendable(s, handlers, p)
    requires CanReceive(s.host, Wire(s, handlers, p).bytes + tail, recvs)
    requires recvs != Whole(|Wire(s, handlers, p).bytes|)
    requires CanReceive(s.host, Receive(s, handlers, Wire(s, handlers, p).bytes + tail, recvs).1, again)
    ensures var wire := Wire(s, handlers, p).bytes; var left := Receive(s, handlers, wire + tail, recvs).1;
            Receive(s, handlers, left, again) == (Received(|wire|, p), tail)
            <==> recvs.head == -1 && again == Whole(|wire|)
  {
    var sealed := LeftBehind(s, handlers, p, tail, recvs);
    var wire := Wire(s, handlers, p).bytes;
    var left := Receive(s, handlers, wire + tail, recvs).1;
    if recvs.head == -1 {
      assert left == wire + tail;
      ReadsDecide(s, handlers, p, tail, again);
    } else {
      ReceiveConsumes(s, handlers, left, again);
    }
  }

  /** What the next receive on some bytes does, whatever they are: its type and length are the first eight. */
  lemma NextHeader<O>(s: Sealing, handlers: seq<Handler<O>>, data: seq<Byte>, recvs: Calls)
    requires CanReceive(s.host, data, recvs)
    ensures var r := Receive(s, handlers, data, recvs).0;
            r.Received? ==>
              && |data| >= 8 && recvs == Whole(r.code) && r.code == 8 + Int32(s.host, data[4..8])
              && r.packet.packetType == Int32(s.host, data[..4]) && FindHandler(handlers, Int32(s.host, data[..4])).Some?
  {
  }

  /**
   * Every receive, on any bytes: a packet comes out if and only if header and content were read whole,
   * unsealing gives content and the handler of the type an object; a fault while unsealing ends the
   * program; anything else is 0 at the end of the stream and -1 otherwise.
   */
  lemma ReceiveOutcome<O(!new)>(s: Sealing, handlers: seq<Handler<O>>, data: seq<Byte>, recvs: Calls)
    requires CanReceive(s.host, data, recvs)
    ensures
      var r := Receive(s, handlers, data, recvs).0;
      if recvs.head != 8 then r == NotReceived(if recvs.head == 0 then 0 else -1)
      else
        var packetType, len := Int32(s.host, data[..4]), Int32(s.host, data[4..8]);
        if len <= 0 || recvs.body != len then r == NotReceived(-1)
        else
          match s.unseal(data[8..8 + len])
          case Fault => r == Abort
          case Returned(code, content) =>
            var h := FindHandler(handlers, packetType);
            if code > 0 && h.Some? && h.value.deserialize(content).Some?
            then r == Received(8 + len, Packet(packetType, h.value.deserialize(content).value))
            else r == NotReceived(-1)
  {
    if recvs.head == 8 && Int32(s.host, data[4..8]) > 0 && recvs.body == Int32(s.host, data[4..8]) {
      assert data[8..][..recvs.body] == data[8..8 + recvs.body];
    }
  }

  /** What it leaves on the stream: everything but what its reads moved, the content being read only behind a positive length. */
  lemma ReceiveLeaves<O(!new)>(s: Sealing, handlers: seq<Handler<O>>, data: seq<Byte>, recvs: Calls)
    requires CanReceive(s.host, data, recvs)
    ensures
      var taken :=
        if recvs.head != 8 then Moved(recvs.head)
        else 8 + (if Int32(s.host, data[4..8]) <= 0 then 0 else Moved(recvs.body));
      taken <= |data| && Receive(s, handlers, data, recvs).1 == data[taken..]
  {
    if recvs.head == 8 && Int32(s.host, data[4..8]) > 0 {
      var k := Moved(recvs.body);
      assert data[8..][k..] == data[8 + k..];
    }
  }

  /**
   * What a short header read does to the packets behind: the next receive takes its type and
   * length from the rest of the header and the first bytes of the content. If that length is not
   * positive, eight bytes are lost with it; otherwise as many more as its content read delivers,
   * however the packets are laid out.
   */
  lemma AfterShortHeader<O(!new)>(s: Sealing, handlers: seq<Handler<O>>, p: Packet<O>, tail: seq<Byte>,
                                  recvs: Calls, again: Calls) returns (sealed: seq<Byte>)
    requires Works(s) && Faithful(handlers) && Sendable(s, handlers, p)
    requires CanReceive(s.host, Wire(s, handlers, p).bytes + tail, recvs) && 0 < recvs.head < 8
    requires recvs.head <= |Wire(s, handlers, p).bytes| - 8 && again.head == 8
    requires CanReceive(s.host, Receive(s, handlers, Wire(s, handlers, p).bytes + tail, recvs).1, again)
    ensures
      var wire, first := Wire(s, handlers, p).bytes, recvs.head;
      && wire == Header(s.host, p.packetType, |sealed|) + sealed
      && var left := Receive(s, handlers, wire + tail, recvs).1;
         var wrong := Header(s.host, p.packetType, |sealed|)[first..] + sealed[..first];
         var behind := sealed[first..] + tail;
         var len := Int32(s.host, wrong[4..8]);
         var lost := if len <= 0 then 0 else Moved(again.body);
         && left == wrong + behind && lost <= |behind|
         && var (r, rest) := Receive(s, handlers, left, again);
            && rest == behind[lost..]
            && (r.Received? ==> again.body == len && r.code == 8 + len && r.packet.packetType == Int32(s.host, wrong[..4]))
  {
    sealed := LeftBehind(s, handlers, p, tail, recvs);
    var header, first := Header(s.host, p.packetType, |sealed|), recvs.head;
    Misaligned(header, sealed, tail, first);
    AfterEight(s, handlers, header[first..] + sealed[..first], sealed[first..] + tail, again);
  }

  /** A receive whose header read is whole, on eight bytes and what is behind them. */
  lemma AfterEight<O>(s: Sealing, handlers: seq<Handler<O>>, header: seq<Byte>, behind: seq<Byte>, recvs: Calls)
    requires |header| == 8 && CanReceive(s.host, header + behind, recvs) && recvs.head == 8
    ensures
      var len := Int32(s.host, header[4..8]);
      var lost := if len <= 0 then 0 else Moved(recvs.body);
      && lost <= |behind|
      && var (r, rest) := Receive(s, handlers, header + behind, recvs);
         && rest == behind[lost..]
         && (r.Received? ==> recvs.body == len && r.code == 8 + len && r.packet.packetType == Int32(s.host, header[..4]))
  {
    var data := header + behind;
    assert data[..4] == header[..4] && data[4..8] == header[4..8] && data[8..] == behind;
  }

  lemma Misaligned(header: seq<Byte>, sealed: seq<Byte>, tail: seq<Byte>, first: nat)
    requires first <= |header| && first <= |sealed|
    ensures (header + sealed + tail)[first..] == (header[first..] + sealed[..first]) + (sealed[first..] + tail)
  {
  }

  /**
   * What a short content read does: the header is gone, and the next receive takes its type and
   * length from what is left of the content, followed by the packets behind. As after a short
   * header read, these eight bytes are lost, and as many more as its content read delivers.
   */
  lemma AfterShortContent<O(!new)>(s: Sealing, handlers: seq<Handler<O>>, p: Packet<O>, tail: seq<Byte>,
                                   recvs: Calls, again: Calls) returns (sealed: seq<Byte>)
    requires Works(s) && Faithful(handlers) && Sendable(s, handlers, p)
    requires CanReceive(s.host, Wire(s, handlers, p).bytes + tail, recvs) && recvs.head == 8
    requires recvs != Whole(|Wire(s, handlers, p).bytes|) && again.head == 8
    requires CanReceive(s.host, Receive(s, handlers, Wire(s, handlers, p).bytes + tail, recvs).1, again)
    ensures
      var wire := Wire(s, handlers, p).bytes;
      && wire == Header(s.host, p.packetType, |sealed|) + sealed && Moved(recvs.body) < |sealed|
      && var left := Receive(s, handlers, wire + tail, recvs).1;
         && left == sealed[Moved(recvs.body)..] + tail && |left| >= 8
         && var wrong, behind := left[..8], left[8..];
            var len := Int32(s.host, wrong[4..8]);
            var lost := if len <= 0 then 0 else Moved(again.body);
            && lost <= |behind|
            && var (r, rest) := Receive(s, handlers, left, again);
               && rest == behind[lost..]
               && (r.Received? ==> again.body == len && r.code == 8 + len && r.packet.packetType == Int32(s.host, wrong[..4]))
  {
    sealed := LeftBehind(s, handlers, p, tail, recvs);
    var wire := Wire(s, handlers, p).bytes;
    assert wire[8 + Moved(recvs.body)..] == sealed[Moved(recvs.body)..];
    var left := Receive(s, handlers, wire + tail, recvs).1;
    assert left == left[..8] + left[8..];
    AfterEight(s, handlers, left[..8], left[8..], again);
  }

  // ---- When a send falls short ---------------------------------------------------------------

  /** When the sender dies within a packet, the receive that meets what it sent of it makes no packet of that. */
  lemma TornPacket<O(!new)>(s: Sealing, handlers: seq<Handler<O>>, p: Packet<O>, sends: Calls, recvs: Calls)
    requires Works(s) && Faithful(handlers) && Sendable(s, handlers, p)
    requires CanSendAll(Wire(s, handlers, p), sends)
    requires CanReceive(s.host, AfterSend(Wire(s, handlers, p), [], sends).1, recvs)
    ensures var (ret, data) := AfterSend(Wire(s, handlers, p), [], sends);
            && (ret == Some(0) <==> sends == Whole(|Wire(s, handlers, p).bytes|))
            && (ret != Some(0) ==> !Receive(s, handlers, data, recvs).0.Received?)
  {
    var sealed := WireParts(s, handlers, p, []);
    var wire := Wire(s, handlers, p).bytes;
    assert wire + [] == wire;
    var (ret, data) := AfterSend(Wire(s, handlers, p), [], sends);
    NextHeader(s, handlers, data, recvs);
    if ret != Some(0) && |data| >= 8 {
      assert data == wire[..|data|];
      assert data[4..8] == wire[4..8];
    }
  }

  /** So a loop that goes on only after an empty header read receives nothing; one that goes on after this receive may. */
  lemma {:induction false} TornStream<O(!new)>(s: Sealing, handlers: seq<Handler<O>>, p: Packet<O>, sends: Calls, all: seq<Calls>)
    requires Works(s) && Faithful(handlers) && Sendable(s, handlers, p)
    requires CanSendAll(Wire(s, handlers, p), sends) && sends != Whole(|Wire(s, handlers, p).bytes|)
    ensures var data := AfterSend(Wire(s, handlers, p), [], sends).1;
            ReceiveAll(s, handlers, data, all) in {None, Some(([], data))}
    decreases |all|
  {
    if all != [] {
      var data := AfterSend(Wire(s, handlers, p), [], sends).1;
      if CanReceive(s.host, data, all[0]) {
        TornPacket(s, handlers, p, sends, all[0]);
        TornStream(s, handlers, p, sends, all[1..]);
      }
    }
  }

  // ---- Hosts of different byte order -----------------------------------------------------------

  /**
   * Headers are copied as they stand in memory. A host of the other byte order therefore takes the
   * type and the length with their bytes swapped: it receives something only if the swapped type
   * is registered and the swapped length is positive and that many bytes come.
   */
  lemma OtherOrder<O(!new), P>(s: Sealing, handlers: seq<Handler<O>>, p: Packet<O>, tail: seq<Byte>,
                               r: Sealing, others: seq<Handler<P>>, recvs: Calls) returns (sealed: seq<Byte>)
    requires Works(s) && Faithful(handlers) && Sendable(s, handlers, p) && r.host != s.host
    requires CanReceive(r.host, Wire(s, handlers, p).bytes + tail, recvs)
    ensures Wire(s, handlers, p).bytes == Header(s.host, p.packetType, |sealed|) + sealed && sealed != []
    ensures var got := Receive(r, others, Wire(s, handlers, p).bytes + tail, recvs).0;
            got.Received? ==>
              && got.packet.packetType == Swapped(p.packetType) && FindHandler(others, Swapped(p.packetType)).Some?
              && recvs == Calls(8, Swapped(|sealed|)) && 0 < Swapped(|sealed|) <= |sealed| + |tail|
  {
    sealed := WireParts(s, handlers, p, tail);
    var data := Wire(s, handlers, p).bytes + tail;
    HeaderBytes(s.host, p.packetType, |sealed|, sealed, tail);
    SwappedBoth(s.host, p.packetType);
    SwappedBoth(s.host, |sealed|);
    NextHeader(r, others, data, recvs);
  }

  lemma HeaderBytes(host: Order, packetType: int, len: int, sealed: seq<Byte>, tail: seq<Byte>)
    ensures var data := Header(host, packetType, len) + sealed + tail;
            data[..4] == IntBytes(host, packetType) && data[4..8] == IntBytes(host, len)
  {
  }

  /** No packet of a type from 1 to 2^16 - 1 is received, all registered types being below 2^16 ... */
  lemma NoneAcrossOrders<O(!new), P>(s: Sealing, handlers: seq<Handler<O>>, p: Packet<O>, tail: seq<Byte>,
                                     r: Sealing, others: seq<Handler<P>>, recvs: Calls)
    requires Works(s) && Faithful(handlers) && Sendable(s, handlers, p) && r.host != s.host
    requires CanReceive(r.host, Wire(s, handlers, p).bytes + tail, recvs)
    requires 0 < p.packetType < 0x1_0000
    requires forall h | h in others :: 0 <= h.packetType < 0x1_0000 || h.packetType == NO_TYPE
    ensures !Receive(r, others, Wire(s, handlers, p).bytes + tail, recvs).0.Received?
  {
    var sealed := OtherOrder(s, handlers, p, tail, r, others, recvs);
    SwappedSmall(p.packetType);
  }

  /** ... and of no type at all as long as less than 2^16 bytes have been sent behind the header. */
  lemma NoneShortAcrossOrders<O(!new), P>(s: Sealing, handlers: seq<Handler<O>>, p: Packet<O>, tail: seq<Byte>,
                                          r: Sealing, others: seq<Handler<P>>, recvs: Calls)
    requires Works(s) && Faithful(handlers) && Sendable(s, handlers, p) && r.host != s.host
    requires CanReceive(r.host, Wire(s, handlers, p).bytes + tail, recvs)
    requires |Wire(s, handlers, p).bytes| - 8 + |tail| < 0x1_0000
    ensures !Receive(r, others, Wire(s, handlers, p).bytes + tail, recvs).0.Received?
  {
    var sealed := OtherOrder(s, handlers, p, tail, r, others, recvs);
    SwappedSmall(|sealed|);
  }

  // ---- Streams of packets ------------------------------------------------------------------

  ghost predicate AllSendable<O>(s: Sealing, handlers: seq<Handler<O>>, ps: seq<Packet<O>>) {
    forall i :: 0 <= i < |ps| ==> Sendable(s, handlers, ps[i])
  }

  ghost function WireAll<O>(s: Sealing, handlers: seq<Handler<O>>, ps: seq<Packet<O>>): seq<Byte>
    requires AllSendable(s, handlers, ps)
  {
    if ps == [] then [] else Wire(s, handlers, ps[0]).bytes + WireAll(s, handlers, ps[1..])
  }

  /**
   * One receive after the other, as the session loops call it: where the header read finds nothing
   * yet it is tried again. None as soon as a receive gives no packet in any other way.
   */
  ghost function ReceiveAll<O>(s: Sealing, handlers: seq<Handler<O>>, data: seq<Byte>, all: seq<Calls>)
    : Option<(seq<Packet<O>>, seq<Byte>)>
    decreases |all|
  {
    if all == [] then Some(([], data))
    else if !CanReceive(s.host, data, all[0]) then None
    else if all[0].head == -1 then ReceiveAll(s, handlers, data, all[1..])
    else
      var (r, rest) := Receive(s, handlers, data, all[0]);
      if !r.Received? then None else
      match ReceiveAll(s, handlers, rest, all[1..])
      case None => None
      case Some((ps, end)) => Some(([r.packet] + ps, end))
  }

  /** Reads that are whole for one packet after the other, with any number of empty tries between them. */
  ghost predicate AllWhole<O>(s: Sealing, handlers: seq<Handler<O>>, ps: seq<Packet<O>>, all: seq<Calls>)
    requires AllSendable(s, handlers, ps)
    decreases |all|
  {
    if all == [] then ps == []
    else if all[0].head == -1 then AllWhole(s, handlers, ps, all[1..])
    else ps != [] && all[0] == Whole(|Wire(s, handlers, ps[0]).bytes|) && AllWhole(s, handlers, ps[1..], all[1..])
  }

  lemma WireAllFirst<O(!new)>(s: Sealing, handlers: seq<Handler<O>>, ps: seq<Packet<O>>, tail: seq<Byte>)
    requires ps != [] && AllSendable(s, handlers, ps)
    ensures AllSendable(s, handlers, ps[1..]) && Sendable(s, handlers, ps[0])
    ensures WireAll(s, handlers, ps) + tail == Wire(s, handlers, ps[0]).bytes + (WireAll(s, handlers, ps[1..]) + tail)
    ensures [ps[0]] + ps[1..] == ps
  {
    Assoc(Wire(s, handlers, ps[0]).bytes, WireAll(s, handlers, ps[1..]), tail);
  }

  /**
   * Framing: packets sent back to back are received in the same order, and nothing more is
   * consumed, if and only if every receive that finds anything reads a whole packet.
   */
  lemma {:induction false} ReceiveAllSent<O(!new)>(s: Sealing, handlers: seq<Handler<O>>, ps: seq<Packet<O>>,
                                                   all: seq<Calls>, data: seq<Byte>, tail: seq<Byte>)
    requires Works(s) && Faithful(handlers) && AllSendable(s, handlers, ps)
    requires data == WireAll(s, handlers, ps) + tail
    ensures ReceiveAll(s, handlers, data, all) == Some((ps, tail)) <==> AllWhole(s, handlers, ps, all)
    decreases |all|
  {
    if all == [] {
      ReceivedNone(s, handlers, ps, data, tail);
    } else if all[0].head == -1 {
      ReceiveAllSent(s, handlers, ps, all[1..], data, tail);
    } else if ps != [] {
      WireAllFirst(s, handlers, ps, tail);
      var rest := WireAll(s, handlers, ps[1..]) + tail;
      ReceiveAllSent(s, handlers, ps[1..], all[1..], rest, tail);
      ReceiveStep(s, handlers, ps[0], all, data, rest);
    }
  }

  lemma ReceivedNone<O(!new)>(s: Sealing, handlers: seq<Handler<O>>, ps: seq<Packet<O>>, data: seq<Byte>, tail: seq<Byte>)
    requires AllSendable(s, handlers, ps) && data == WireAll(s, handlers, ps) + tail
    ensures ps == [] ==> data == tail
  {
  }

  lemma ReceiveStep<O(!new)>(s: Sealing, handlers: seq<Handler<O>>, p: Packet<O>, all: seq<Calls>,
                             data: seq<Byte>, rest: seq<Byte>)
    requires Works(s) && Faithful(handlers) && Sendable(s, handlers, p) && all != [] && all[0].head != -1
    requires data == Wire(s, handlers, p).bytes + rest
    ensures ReceiveAll(s, handlers, data, all) ==
      if all[0] != Whole(|Wire(s, handlers, p).bytes|) then None else
      match ReceiveAll(s, handlers, rest, all[1..])
      case None => None
      case Some((more, end)) => Some(([p] + more, end))
  {
    ReceiveSent(s, handlers, p, rest);
    if CanReceive(s.host, data, all[0]) {
      ReadsDecide(s, handlers, p, rest, all[0]);
    }
  }

  // ---- From one end to the other -------------------------------------------------------------

  /** Sent one after the other, each with its own calls; None as soon as one of them does not return 0. */
  ghost function SendAll<O>(s: Sealing, handlers: seq<Handler<O>>, ps: seq<Packet<O>>, data: seq<Byte>, sends: seq<Calls>)
    : Option<seq<Byte>>
    decreases |ps|
  {
    if ps == [] then Some(data)
    else if sends == [] || !CanSendAll(Wire(s, handlers, ps[0]), sends[0]) then None
    else
      var (ret, after) := AfterSend(Wire(s, handlers, ps[0]), data, sends[0]);
      if ret != Some(0) then None else SendAll(s, handlers, ps[1..], after, sends[1..])
  }

  /** Each packet with calls that take it whole. */
  ghost predicate WholeSends<O>(s: Sealing, handlers: seq<Handler<O>>, ps: seq<Packet<O>>, sends: seq<Calls>)
    requires AllSendable(s, handlers, ps)
  {
    ps == [] || (sends != [] && sends[0] == Whole(|Wire(s, handlers, ps[0]).bytes|) && WholeSends(s, handlers, ps[1..], sends[1..]))
  }

  /** Sending succeeds exactly with whole calls, and then adds the packets behind what was there. */
  lemma {:induction false} SentStream<O(!new)>(s: Sealing, handlers: seq<Handler<O>>, ps: seq<Packet<O>>,
                                               data: seq<Byte>, sends: seq<Calls>)
    requires AllSendable(s, handlers, ps)
    ensures SendAll(s, handlers, ps, data, sends) ==
      if WholeSends(s, handlers, ps, sends) then Some(data + WireAll(s, handlers, ps)) else None
    decreases |ps|
  {
    if ps == [] {
      assert data + [] == data;
    } else if sends != [] && CanSendAll(Wire(s, handlers, ps[0]), sends[0]) {
      var wire := Wire(s, handlers, ps[0]).bytes;
      SentStream(s, handlers, ps[1..], data + wire, sends[1..]);
      Assoc(data, wire, WireAll(s, handlers, ps[1..]));
    }
  }

  /**
   * Packets sent with whole calls to a stream, whatever was on it, are received in the same order
   * from there, and nothing more is consumed, if and only if every receive that finds anything
   * reads a whole packet.
   */
  lemma SentArrive<O(!new)>(s: Sealing, handlers: seq<Handler<O>>, ps: seq<Packet<O>>, before: seq<Byte>,
                            sends: seq<Calls>, all: seq<Calls>, tail: seq<Byte>)
    requires Works(s) && Faithful(handlers) && AllSendable(s, handlers, ps) && WholeSends(s, handlers, ps, sends)
    ensures
      var on := SendAll(s, handlers, ps, before, sends);
      && on.Some? && before <= on.value
      && (ReceiveAll(s, handlers, on.value[|before|..] + tail, all) == Some((ps, tail)) <==> AllWhole(s, handlers, ps, all))
  {
    SentStream(s, handlers, ps, before, sends);
    var wires := WireAll(s, handlers, ps);
    assert (before + wires)[|before|..] == wires;
    ReceiveAllSent(s, handlers, ps, all, wires + tail, tail);
  }

  /** A packet has content to send: there is a handler, it serializes the object, and not to nothing. */
  ghost predicate HasContent<O>(handlers: seq<Handler<O>>, p: Packet<O>) {
    && FindHandler(handlers, p.packetType).Some?
    && FindHandler(handlers, p.packetType).value.serialize(p.obj).Some?
    && Content(handlers, p) != []
  }

  /**
   * One send: -1 and an untouched stream without content; no result where sealing fails or a call
   * takes less than it is given, with what was taken on the stream; otherwise 0, with header
   * and sealed content on the stream.
   */
  lemma SendOutcome<O(!new)>(s: Sealing, handlers: seq<Handler<O>>, p: Packet<O>, data: seq<Byte>, sends: Calls)
    requires CanSendAll(Wire(s, handlers, p), sends)
    ensures
      var (ret, after) := AfterSend(Wire(s, handlers, p), data, sends);
      if !HasContent(handlers, p) then ret == Some(-1) && after == data
      else
        match s.seal(Content(handlers, p))
        case None => ret == None && after == data
        case Some(sealed) =>
          var packet := Header(s.host, p.packetType, |sealed|) + sealed;
          if sends == Calls(8, |sealed|) then ret == Some(0) && after == data + packet
          else
            var taken := if sends.head != 8 then Moved(sends.head) else 8 + Moved(sends.body);
            ret == None && taken <= |packet| && after == data + packet[..taken]
  {
  }
}
