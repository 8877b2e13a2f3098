/** The packet layer: positional byte shift, content sealing, eight-byte headers, and the stream they travel on. */
module NetTrans {
  import opened Bytes
  import opened HuffmanTree
  import opened HuffmanCodec
  import opened HuffmanBounds
  import opened Compression
  import opened Framing

  // ---- encrypt.c -------------------------------------------------------------------------

  function Shift(s: seq<Byte>): (r: seq<Byte>)
    ensures |r| == |s| && forall i :: 0 <= i < |s| ==> r[i] == (s[i] + i + 5) % 256
  {
    seq(|s|, i requires 0 <= i < |s| => (s[i] + i + 5) % 256)
  }

  function Unshift(s: seq<Byte>): (r: seq<Byte>)
    ensures |r| == |s| && forall i :: 0 <= i < |s| ==> r[i] == (s[i] - i - 5) % 256
  {
    seq(|s|, i requires 0 <= i < |s| => (s[i] - i - 5) % 256)
  }

  lemma ShiftsCancel(b: Byte, i: nat)
    ensures ((b + i + 5) % 256 - i - 5) % 256 == b
    ensures ((b - i - 5) % 256 + i + 5) % 256 == b
  {
  }

  /** The two positional shifts undo each other. */
  lemma UnshiftShift(s: seq<Byte>)
    ensures Unshift(Shift(s)) == s && Shift(Unshift(s)) == s
  {
    forall i | 0 <= i < |s| ensures Unshift(Shift(s))[i] == s[i] && Shift(Unshift(s))[i] == s[i] {
      ShiftsCancel(s[i], i);
    }
  }

  /** sftt_encrypt_func, in place */
  method Encrypt(a: array<Byte>)
    modifies a
    ensures a[..] == Shift(old(a[..]))
  {
    for i := 0 to a.Length
      invariant forall k :: 0 <= k < i ==> a[k] == (old(a[k]) + k + 5) % 256
      invariant forall k :: i <= k < a.Length ==> a[k] == old(a[k])
    {
      a[i] := (a[i] + i + 5) % 256;
    }
  }

  /** sftt_decrypt_func, in place */
  method Decrypt(a: array<Byte>)
    modifies a
    ensures a[..] == Unshift(old(a[..]))
  {
    for i := 0 to a.Length
      invariant forall k :: 0 <= k < i ==> a[k] == (old(a[k]) - k - 5) % 256
      invariant forall k :: i <= k < a.Length ==> a[k] == old(a[k])
    {
      a[i] := (a[i] - i - 5) % 256;
    }
  }

  // ---- encode.c --------------------------------------------------------------------------

  /** sftt_buffer_encode with zip and crypt: nothing for an empty input; None where compression fails. */
  ghost function Seal(host: Order, content: seq<Byte>): Option<seq<Byte>> {
    if content == [] then Some([])
    else if Compress(host, content).Fault? then None
    else Some(Shift(Compress(host, content).output))
  }

  /** sftt_buffer_decode with unzip and decrypt. The assertion on the leading short aborts. */
  ghost function Unseal(host: Order, bytes: seq<Byte>): Outcome {
    if bytes == [] then Returned(0, [])
    else if |bytes| < 2 || Int16(host, Unshift(bytes)[..2]) == 0 then Fault
    else Decompress(host, Unshift(bytes))
  }

  /**
   * Sealing works exactly while the compressed bit count is an int, below 2^28 bytes of content in
   * any case; then unsealing gives the content back.
   */
  lemma UnsealSeal(host: Order, content: seq<Byte>)
    requires 0 < |content| < 0x8000_0000
    ensures Seal(host, content).Some? <==> SizeIsInt(content)
    ensures |content| < 0x1000_0000 ==> Seal(host, content).Some?
    ensures Seal(host, content).Some? ==>
      && Unseal(host, Seal(host, content).value) == Returned(|content|, content)
      && 12 <= |Seal(host, content).value| <= |content| + 1286 && IsInt(|Seal(host, content).value|)
  {
    RoundTrip(host, content, []);
    if |content| < 0x1000_0000 {
      SmallInputs(host, content);
    }
    if Seal(host, content).Some? {
      var out := Compress(host, content).output;
      OutputBound(host, content);
      UnshiftShift(out);
      assert out + [] == out;
      LeadingShort(host, content);
    }
  }

  /** Byte i of what goes out is byte i of the compressed content, with i + 5 added modulo 256. */
  lemma SealedBytes(host: Order, content: seq<Byte>)
    requires content != [] && Seal(host, content).Some?
    ensures
      var sealed, out := Seal(host, content).value, CompressedBytes(host, content);
      |sealed| == |out| && forall i | 0 <= i < |out| :: sealed[i] == (out[i] + i + 5) % 256
  {
    var out := CompressedBytes(host, content);
    assert Compress(host, content).output == out;
    var sealed := Shift(out);
    assert Seal(host, content) == Some(sealed);
  }

  /** What comes in, on any bytes: those are subtracted again, and a count of zero is a fault. */
  lemma UnsealedBytes(host: Order, bytes: seq<Byte>, out: seq<Byte>)
    requires |out| == |bytes| && forall i | 0 <= i < |out| :: out[i] == (bytes[i] - i - 5) % 256
    ensures Unseal(host, bytes) ==
      if bytes == [] then Returned(0, [])
      else if |bytes| == 1 || Int16(host, out[..2]) == 0 then Fault
      else Decompress(host, out)
  {
    assert Unshift(bytes) == out;
  }

  /** The first short of a compressed buffer is never zero. */
  lemma LeadingShort(host: Order, content: seq<Byte>)
    requires content != [] && Compress(host, content).Returned?
    ensures |Compress(host, content).output| >= 2 && Int16(host, Compress(host, content).output[..2]) != 0
  {
    var cnt := LeadingCount(host, content);
    Int16RoundTrip(host, cnt);
  }

  lemma SealEmpty(host: Order, content: seq<Byte>)
    ensures Seal(host, content) == Some([]) <==> content == []
  {
    if content != [] && Seal(host, content).Some? {
      LeadingShort(host, content);
    }
  }

  method BufferEncode(host: Order, input: seq<Byte>) returns (output: Option<seq<Byte>>)
    requires |input| < 0x8000_0000
    ensures output == Seal(host, input)
  {
    if input == [] {
      return Some([]);
    }
    var fault, code, buffer := HuffmanCompress(host, input);
    if fault {
      return None;
    }
    LeadingShort(host, input);
    Encrypt(buffer);
    return Some(buffer[..]);
  }

  method BufferDecode(host: Order, input: seq<Byte>) returns (r: Outcome)
    ensures r == Unseal(host, input)
  {
    if input == [] {
      return Returned(0, []);
    }
    var tmp := new Byte[|input|](i requires 0 <= i < |input| => input[i]);
    assert tmp[..] == input;
    Decrypt(tmp);
    if |input| < 2 || Int16(host, tmp[..2]) == 0 {
      return Fault;
    }
    assert tmp[..2] == Unshift(input)[..2];
    r := HuffmanDecompress(host, tmp[..]);
  }

  /** The sealing sftt uses on a host: Huffman compression under the positional shift. */
  ghost function Sftt(host: Order): Sealing {
    Sealing(host, (c: seq<Byte>) => Seal(host, c), (b: seq<Byte>) => Unseal(host, b))
  }

  lemma SfttWorksOn(host: Order, c: seq<Byte>)
    requires 0 < |c| < 0x8000_0000 && Sftt(host).seal(c).Some?
    ensures Sftt(host).unseal(Sftt(host).seal(c).value) == Returned(|c|, c) && 0 < |Sftt(host).seal(c).value| < 0x8000_0000
  {
    UnsealSeal(host, c);
  }

  lemma SfttWorks(host: Order)
    ensures Works(Sftt(host))
  {
    forall c: seq<Byte> | 0 < |c| < 0x8000_0000 && Sftt(host).seal(c).Some?
      ensures Sftt(host).unseal(Sftt(host).seal(c).value) == Returned(|c|, c) && 0 < |Sftt(host).seal(c).value| < 0x8000_0000
    {
      SfttWorksOn(host, c);
    }
  }

  /** A packet whose content is below 2^28 bytes, and not empty, does not crash before it is sent. */
  lemma SmallPacketsSend<O(!new)>(host: Order, handlers: seq<Handler<O>>, p: Packet<O>)
    requires FindHandler(handlers, p.packetType).Some? && IsInt(p.packetType)
    requires FindHandler(handlers, p.packetType).value.serialize(p.obj).Some?
    requires 0 < |Content(handlers, p)| < 0x1000_0000
    ensures Sendable(Sftt(host), handlers, p)
  {
    UnsealSeal(host, Content(handlers, p));
  }

  /**
   * sftt packets sent with whole calls to a stream, whatever was on it, are received in the same
   * order with the same contents from there, and nothing more is consumed, if and only if every
   * receive that finds anything reads a whole packet.
   */
  lemma PacketsArrive<O(!new)>(host: Order, handlers: seq<Handler<O>>, ps: seq<Packet<O>>, before: seq<Byte>,
                               sends: seq<Calls>, all: seq<Calls>, tail: seq<Byte>)
    requires Faithful(handlers) && AllSendable(Sftt(host), handlers, ps) && WholeSends(Sftt(host), handlers, ps, sends)
    ensures
      var on := SendAll(Sftt(host), handlers, ps, before, sends);
      && on.Some? && before <= on.value
      && (ReceiveAll(Sftt(host), handlers, on.value[|before|..] + tail, all) == Some((ps, tail))
          <==> AllWhole(Sftt(host), handlers, ps, all))
  {
    SfttWorks(host);
    SentArrive(Sftt(host), handlers, ps, before, sends, all, tail);
  }

  // ---- A header whose content is not there yet -------------------------------------------------

  /** Below this no type can be read where sealed content begins, in the order of the host that sealed it. */
  const LEAST_MISTAKEN := 1536

  ghost predicate NoType(host: Order, b: seq<Byte>)
    requires |b| == 4
  {
    Int32(host, b) < 0 || Int32(host, b) >= LEAST_MISTAKEN
  }

  /** Sealed content begins with its symbol count, shifted, which makes no small number. */
  lemma SealedStart(host: Order, content: seq<Byte>)
    requires 0 < |content| < 0x8000_0000 && Seal(host, content).Some?
    ensures |Seal(host, content).value| >= 4 && NoType(host, Seal(host, content).value[..4])
  {
    UnsealSeal(host, content);
    var cnt := LeadingCount(host, content);
    ShiftedStart(host, Compress(host, content).output, cnt);
  }

  lemma LeadingCount(host: Order, content: seq<Byte>) returns (cnt: nat)
    requires content != [] && Compress(host, content).Returned?
    ensures 1 <= cnt <= 256 && |Compress(host, content).output| >= 2 && Compress(host, content).output[..2] == ShortBytes(host, cnt)
  {
    cnt := Occurring(Freq(content), 0);
    FreqOccurs(content);
    assert content[0] in content;
    OccurringPositive(Freq(content), 0, content[0]);
  }

  lemma ShiftedStart(host: Order, out: seq<Byte>, cnt: nat)
    requires |out| >= 4 && 1 <= cnt <= 256 && out[..2] == ShortBytes(host, cnt)
    ensures NoType(host, Shift(out)[..4])
  {
    CountBytes(host, out[0], out[1], cnt);
    var b := Shift(out)[..4];
    Bytewise(b);
  }

  /** The two bytes of a symbol count, shifted: the high byte, which is 0 or 1, keeps them from being small. */
  lemma CountBytes(host: Order, first: Byte, second: Byte, cnt: nat)
    requires 1 <= cnt <= 256 && [first, second] == ShortBytes(host, cnt)
    ensures host.Big? ==> 5 <= (first + 5) % 256 <= 6
    ensures host.Little? ==> (first + 5) % 256 + 256 * ((second + 6) % 256) >= LEAST_MISTAKEN
  {
    Bytewise([first, second]);
    HighByte(if host.Big? then second else first, if host.Big? then first else second, cnt);
  }

  lemma HighByte(low: Byte, high: Byte, cnt: nat)
    requires 1 <= cnt <= 256 && low as int + 256 * high as int == cnt
    ensures high == 0 || (high == 1 && low == 0)
  {
  }

  /**
   * The ordinary case on a socket that does not block: the header has arrived and the content has
   * not. The packet is lost, and as long as every registered type is below 1536 - those of sftt are
   * below 100 - the next receive, which takes the beginning of the content for a header, gives none.
   */
  lemma LateContent<O(!new)>(host: Order, handlers: seq<Handler<O>>, p: Packet<O>, tail: seq<Byte>, recvs: Calls, again: Calls)
    requires Faithful(handlers) && Sendable(Sftt(host), handlers, p)
    requires forall h | h in handlers :: 0 <= h.packetType < LEAST_MISTAKEN || h.packetType == NO_TYPE
    requires CanReceive(host, Wire(Sftt(host), handlers, p).bytes + tail, recvs) && recvs == Calls(8, -1)
    requires CanReceive(host, Receive(Sftt(host), handlers, Wire(Sftt(host), handlers, p).bytes + tail, recvs).1, again)
    ensures var (r, left) := Receive(Sftt(host), handlers, Wire(Sftt(host), handlers, p).bytes + tail, recvs);
            r == NotReceived(-1) && !Receive(Sftt(host), handlers, left, again).0.Received?
  {
    SfttWorks(host);
    ReadsDecide(Sftt(host), handlers, p, tail, recvs);
    var sealed := LeftBehind(Sftt(host), handlers, p, tail, recvs);
    assert Wire(Sftt(host), handlers, p).bytes[8..] == sealed;
    SealedIs(host, handlers, p, sealed);
    NoPacketIn(host, handlers, Content(handlers, p), sealed, tail, again);
  }

  lemma NoPacketIn<O(!new)>(host: Order, handlers: seq<Handler<O>>, content: seq<Byte>, sealed: seq<Byte>, tail: seq<Byte>, recvs: Calls)
    requires 0 < |content| < 0x8000_0000 && Seal(host, content) == Some(sealed)
    requires forall h | h in handlers :: 0 <= h.packetType < LEAST_MISTAKEN || h.packetType == NO_TYPE
    requires CanReceive(host, sealed + tail, recvs)
    ensures !Receive(Sftt(host), handlers, sealed + tail, recvs).0.Received?
  {
    SealedStart(host, content);
    NextHeader(Sftt(host), handlers, sealed + tail, recvs);
    assert (sealed + tail)[..4] == sealed[..4];
  }

  lemma SealedIs<O(!new)>(host: Order, handlers: seq<Handler<O>>, p: Packet<O>, sealed: seq<Byte>)
    requires IntLengths(handlers) && Sendable(Sftt(host), handlers, p)
    requires Wire(Sftt(host), handlers, p).bytes == Header(host, p.packetType, |sealed|) + sealed
    ensures 0 < |Content(handlers, p)| < 0x8000_0000 && Seal(host, Content(handlers, p)) == Some(sealed)
  {
    var other := Seal(host, Content(handlers, p)).value;
    assert (Header(host, p.packetType, |other|) + other)[8..] == other;
    assert (Header(host, p.packetType, |sealed|) + sealed)[8..] == sealed;
  }

  // ---- net_trans.c ---------------------------------------------------------------------------

  /** One direction of a connected socket: bytes come out in the order they went in. */
  class ByteStream {
    var data: seq<Byte>

    constructor ()
      ensures data == []
    {
      data := [];
    }

    /** A send that returns ret. */
    method Send(bytes: seq<Byte>, ret: int)
      requires CanSend(ret, |bytes|)
      modifies this
      ensures data == old(data) + bytes[..Moved(ret)]
    {
      data := data + bytes[..Moved(ret)];
    }

    /** A read that returns ret. */
    method Recv(n: int, ret: int) returns (bytes: seq<Byte>)
      requires CanRecv(ret, n, data)
      modifies this
      ensures bytes == old(data)[..Moved(ret)] && data == old(data)[Moved(ret)..]
    {
      bytes := data[..Moved(ret)];
      data := data[Moved(ret)..];
    }
  }

  /** The loop over the handler table in sftt_packet_serialize and sftt_packet_deserialize. */
  method SearchHandler<O>(handlers: seq<Handler<O>>, packetType: int) returns (r: Option<Handler<O>>)
    ensures r == FindHandler(handlers, packetType)
  {
    var i := 0;
    while i < |handlers| && handlers[i].packetType != NO_TYPE
      invariant 0 <= i <= |handlers|
      invariant FindHandler(handlers, packetType) == FindHandler(handlers[i..], packetType)
    {
      if handlers[i].packetType == packetType {
        return Some(handlers[i]);
      }
      assert handlers[i..][1..] == handlers[i + 1..];
      i := i + 1;
    }
    return None;
  }

  /** What goes to the socket: nothing, or a header and sealed content; or sealing has failed. */
  datatype Prepared = Nothing | Failed | Ready(header: seq<Byte>, content: seq<Byte>)

  function Joined(r: Prepared): Sending {
    match r
    case Nothing => Unsent
    case Failed => Crash
    case Ready(header, content) => OnWire(header + content)
  }

  /** Serialization and encoding of one packet. */
  method PreparePacket<O(!new)>(host: Order, handlers: seq<Handler<O>>, p: Packet<O>) returns (r: Prepared)
    requires IntLengths(handlers)
    ensures Wire(Sftt(host), handlers, p) == Joined(r) && (r.Ready? ==> |r.header| == 8)
  {
    var handler := SearchHandler(handlers, p.packetType);
    if handler.None? {
      return Nothing;
    }
    var content := handler.value.serialize(p.obj);
    if content.None? {
      return Nothing;
    }
    var encoded := BufferEncode(host, content.value);
    SealEmpty(host, content.value);
    if encoded.None? {
      return Failed;
    }
    var sealed := encoded.value;
    if |sealed| <= 0 {
      return Nothing;
    }
    LaidOut(host, p.packetType);
    LaidOut(host, |sealed|);
    return Ready(Laid(host, p.packetType, 4) + Laid(host, |sealed|, 4), sealed);
  }

  /**
   * send_sftt_packet: the header, then the content; -1 and nothing sent when there is nothing to
   * send, and no result at all when sealing fails or one of the two calls takes less than it is given.
   */
  method SendPacket<O(!new)>(host: Order, sock: ByteStream, handlers: seq<Handler<O>>, p: Packet<O>, sends: Calls)
    returns (ret: Option<int>)
    requires IntLengths(handlers)
    requires CanSendAll(Wire(Sftt(host), handlers, p), sends)
    modifies sock
    ensures (ret, sock.data) == AfterSend(Wire(Sftt(host), handlers, p), old(sock.data), sends)
  {
    var prepared := PreparePacket(host, handlers, p);
    match prepared {
      case Nothing => return Some(-1);
      case Failed => return None;
      case Ready(header, content) => ret := SendParts(sock, header, content, sends);
    }
  }

  /** sftt_packet_send_header and sftt_packet_send_content, with the assertion of each. */
  method SendParts(sock: ByteStream, header: seq<Byte>, content: seq<Byte>, sends: Calls) returns (ret: Option<int>)
    requires |header| == 8 && CanSend(sends.head, 8) && CanSend(sends.body, |content|)
    modifies sock
    ensures (ret, sock.data) == AfterSend(OnWire(header + content), old(sock.data), sends)
  {
    ghost var data, bytes := sock.data, header + content;
    sock.Send(header, sends.head);
    assert bytes[..Moved(sends.head)] == header[..Moved(sends.head)];
    if sends.head != |header| {
      return None;
    }
    sock.Send(content, sends.body);
    SentParts(data, header, content, Moved(sends.body));
    if sends.body != |content| {
      return None;
    }
    return Some(0);
  }

  lemma SentParts(data: seq<Byte>, header: seq<Byte>, content: seq<Byte>, k: nat)
    requires k <= |content|
    ensures data + header[..|header|] + content[..k] == data + (header + content)[..|header| + k]
    ensures (header + content)[..|header| + |content|] == header + content
  {
  }

  /** recv_sftt_packet; `recvs` is what its two reads return. */
  method RecvPacket<O>(host: Order, sock: ByteStream, handlers: seq<Handler<O>>, recvs: Calls) returns (r: Reception<O>)
    requires CanReceive(host, sock.data, recvs)
    modifies sock
    ensures (r, sock.data) == Receive(Sftt(host), handlers, old(sock.data), recvs)
  {
    var header := sock.Recv(8, recvs.head);
    if recvs.head <= 0 {
      return NotReceived(recvs.head);
    }
    if |header| != 8 {
      return NotReceived(-1);
    }
    assert header[..4] == old(sock.data)[..4] && header[4..8] == old(sock.data)[4..8];
    var packetType, len := Int32(host, header[..4]), Int32(host, header[4..8]);
    if len <= 0 {
      return NotReceived(-1);
    }
    var body := sock.Recv(len, recvs.body);
    if recvs.body != len {
      return NotReceived(-1);
    }
    var decoded := BufferDecode(host, body);
    if decoded.Fault? {
      return Abort;
    }
    if decoded.code <= 0 {
      return NotReceived(-1);
    }
    var handler := SearchHandler(handlers, packetType);
    if handler.None? {
      return NotReceived(-1);
    }
    var obj := handler.value.deserialize(decoded.output);
    if obj.None? {
      return NotReceived(-1);
    }
    return Received(8 + len, Packet(packetType, obj.value));
  }
}
