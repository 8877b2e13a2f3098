/** Packets whose objects are structs in memory, serialized by the generated raw encoders and decoders. */
module RawPackets {
  import opened Bytes
  import opened RawCodec
  import opened Framing
  import opened NetTrans

  /** A line of the table of raw handlers: a packet type and the struct it carries. */
  datatype Entry = Entry(packetType: int, id: nat)

  ghost predicate Declared(env: seq<Struct>, e: Entry) {
    Known(env, Nested(e.id)) && Width(PlanKind(env, Nested(e.id))) < 0x8000_0000
  }

  ghost function Plan(env: seq<Struct>, e: Entry): seq<Slot>
    requires Declared(env, e)
  {
    PlanKind(env, Nested(e.id))
  }

  /** What X_raw_encode sends of a struct. */
  ghost function Serialized(host: Order, p: seq<Slot>, o: seq<Byte>): Option<seq<Byte>> {
    if |o| == Width(p) then Some(Convert(host, p, o, 0)) else None
  }

  /** What X_raw_decode makes of a buffer; nothing of one that runs past the struct. */
  ghost function Deserialized(host: Order, p: seq<Slot>, b: seq<Byte>): Option<seq<Byte>> {
    if |b| <= Width(p) then Some(Convert(host, p, b + Zeros(Width(p) - |b|), 0)) else None
  }

  /** The handler of a struct on a host; an object is the memory of the struct there. */
  ghost function RawHandler(host: Order, env: seq<Struct>, e: Entry): Handler<seq<Byte>>
    requires Declared(env, e)
  {
    var p := Plan(env, e);
    Handler(e.packetType, (o: seq<Byte>) => Serialized(host, p, o), (b: seq<Byte>) => Deserialized(host, p, b))
  }

  ghost predicate AllDeclared(env: seq<Struct>, entries: seq<Entry>) {
    forall i | 0 <= i < |entries| :: Declared(env, entries[i])
  }

  ghost function RawTable(host: Order, env: seq<Struct>, entries: seq<Entry>): (t: seq<Handler<seq<Byte>>>)
    requires AllDeclared(env, entries)
    ensures |t| == |entries| && forall i | 0 <= i < |t| :: t[i] == RawHandler(host, env, entries[i])
  {
    if entries == [] then [] else [RawHandler(host, env, entries[0])] + RawTable(host, env, entries[1..])
  }

  // ---- the generated functions do what the handlers say --------------------------------

  method SerializeRaw(host: Order, env: seq<Struct>, e: Entry, req: array<Byte>) returns (buf: seq<Byte>)
    requires Declared(env, e) && req.Length == Width(Plan(env, e))
    modifies req
    ensures RawHandler(host, env, e).serialize(old(req[..])) == Some(buf)
  {
    var out := Encode(host, env, e.id, req, true);
    buf := out.value;
  }

  method DeserializeRaw(host: Order, env: seq<Struct>, e: Entry, buf: seq<Byte>) returns (req: array?<Byte>)
    requires Declared(env, e)
    ensures RawHandler(host, env, e).deserialize(buf) == if req == null then None else Some(req[..])
  {
    var block, end := Decode(host, env, e.id, buf);
    req := block;
    if req != null {
      assert end == Zeros(Width(Plan(env, e)) - |buf|);
    }
  }

  // ---- they read back what they write --------------------------------------------------

  lemma ReadsBack(host: Order, p: seq<Slot>, o: seq<Byte>)
    requires |o| == Width(p)
    ensures Deserialized(host, p, Serialized(host, p, o).value) == Some(o)
  {
    var b := Convert(host, p, o, 0);
    assert b + Zeros(0) == b;
    ConvertTwice(host, p, o, 0);
  }

  lemma RawFaithful(host: Order, env: seq<Struct>, entries: seq<Entry>)
    requires AllDeclared(env, entries)
    ensures Faithful(RawTable(host, env, entries))
  {
    var t := RawTable(host, env, entries);
    forall h, o | h in t && h.serialize(o).Some?
      ensures |h.serialize(o).value| < 0x8000_0000 && h.deserialize(h.serialize(o).value) == Some(o)
    {
      var i :| 0 <= i < |t| && t[i] == h;
      ReadsBack(host, Plan(env, entries[i]), o);
    }
  }

  /**
   * Structs sent with whole calls between hosts of one byte order, either one, arrive in order and
   * unchanged if and only if every receive that finds anything reads a whole packet.
   */
  lemma StructsArrive(host: Order, env: seq<Struct>, entries: seq<Entry>, ps: seq<Packet<seq<Byte>>>, before: seq<Byte>,
                      sends: seq<Calls>, all: seq<Calls>, tail: seq<Byte>)
    requires AllDeclared(env, entries) && AllSendable(Sftt(host), RawTable(host, env, entries), ps)
    requires WholeSends(Sftt(host), RawTable(host, env, entries), ps, sends)
    ensures
      var t := RawTable(host, env, entries);
      var on := SendAll(Sftt(host), t, ps, before, sends);
      && on.Some? && before <= on.value
      && (ReceiveAll(Sftt(host), t, on.value[|before|..] + tail, all) == Some((ps, tail)) <==> AllWhole(Sftt(host), t, ps, all))
  {
    RawFaithful(host, env, entries);
    PacketsArrive(host, RawTable(host, env, entries), ps, before, sends, all, tail);
  }

  // ---- from one byte order to the other ------------------------------------------------

  /** The memory of a struct on one host that holds what another one holds on another host. */
  ghost function Translated(sender: Order, receiver: Order, p: seq<Slot>, o: seq<Byte>): (t: seq<Byte>)
    requires |o| == Width(p)
    ensures |t| == |o|
  {
    Convert(receiver, p, Convert(sender, p, o, 0), 0)
  }

  /** The encoders themselves would bring every field across: both hosts put the same bytes on the wire for it. */
  lemma TranslatedTravels(sender: Order, receiver: Order, p: seq<Slot>, o: seq<Byte>)
    requires |o| == Width(p) && Sound(p)
    ensures Serialized(receiver, p, Translated(sender, receiver, p, o)) == Serialized(sender, p, o)
    ensures Fields(receiver, p, Translated(sender, receiver, p, o), 0) == Fields(sender, p, o, 0)
    ensures sender == receiver ==> Translated(sender, receiver, p, o) == o
  {
    ConvertTwice(receiver, p, Convert(sender, p, o, 0), 0);
    ConvertTwice(sender, p, o, 0);
    FieldsTravel(sender, receiver, p, o, 0);
  }

  lemma SmallTypes(host: Order, env: seq<Struct>, entries: seq<Entry>)
    requires AllDeclared(env, entries)
    requires forall i | 0 <= i < |entries| :: 0 <= entries[i].packetType < 0x1_0000 || entries[i].packetType == NO_TYPE
    ensures forall h | h in RawTable(host, env, entries) :: 0 <= h.packetType < 0x1_0000 || h.packetType == NO_TYPE
  {
    var t := RawTable(host, env, entries);
    forall h | h in t ensures 0 <= h.packetType < 0x1_0000 || h.packetType == NO_TYPE {
      var i :| 0 <= i < |t| && t[i] == h;
      assert h.packetType == entries[i].packetType;
    }
  }

  /** But the headers around them do not: of packets with a type from 1 to 2^16 - 1 none is received ... */
  lemma NoStructsAcrossOrders(sender: Order, receiver: Order, env: seq<Struct>, entries: seq<Entry>,
                              p: Packet<seq<Byte>>, tail: seq<Byte>, recvs: Calls)
    requires sender != receiver && AllDeclared(env, entries) && Sendable(Sftt(sender), RawTable(sender, env, entries), p)
    requires CanReceive(receiver, Wire(Sftt(sender), RawTable(sender, env, entries), p).bytes + tail, recvs)
    requires 0 < p.packetType < 0x1_0000
    requires forall i | 0 <= i < |entries| :: 0 <= entries[i].packetType < 0x1_0000 || entries[i].packetType == NO_TYPE
    ensures !Receive(Sftt(receiver), RawTable(receiver, env, entries),
                     Wire(Sftt(sender), RawTable(sender, env, entries), p).bytes + tail, recvs).0.Received?
  {
    var t, u := RawTable(sender, env, entries), RawTable(receiver, env, entries);
    RawFaithful(sender, env, entries);
    SfttWorks(sender);
    SmallTypes(receiver, env, entries);
    NoneAcrossOrders(Sftt(sender), t, p, tail, Sftt(receiver), u, recvs);
  }

  /** ... and of a packet of any other type, 0 among them, not before 2^16 bytes have been sent behind its header. */
  lemma NoShortStructsAcrossOrders(sender: Order, receiver: Order, env: seq<Struct>, entries: seq<Entry>,
                                   p: Packet<seq<Byte>>, tail: seq<Byte>, recvs: Calls)
    requires sender != receiver && AllDeclared(env, entries) && Sendable(Sftt(sender), RawTable(sender, env, entries), p)
    requires CanReceive(receiver, Wire(Sftt(sender), RawTable(sender, env, entries), p).bytes + tail, recvs)
    requires |Wire(Sftt(sender), RawTable(sender, env, entries), p).bytes| - 8 + |tail| < 0x1_0000
    ensures !Receive(Sftt(receiver), RawTable(receiver, env, entries),
                     Wire(Sftt(sender), RawTable(sender, env, entries), p).bytes + tail, recvs).0.Received?
  {
    RawFaithful(sender, env, entries);
    SfttWorks(sender);
    NoneShortAcrossOrders(Sftt(sender), RawTable(sender, env, entries), p, tail,
                          Sftt(receiver), RawTable(receiver, env, entries), recvs);
  }
}
