/**
 * gen_serialize_raw.c: what the generated encoders and decoders do to the memory of a struct,
 * as an interpreter of the struct descriptions they are generated from.
 */
module RawCodec {
  import opened Bytes

  /** A type in a description; a nested struct is named by its place in the list of structs. */
  datatype Kind = Char | Short | Int | Nested(id: nat)

  /** One element: its type, its array dimensions, and the padding the compiler puts before it. */
  datatype Elem = Elem(pad: nat, kind: Kind, dims: seq<nat>)

  /** A struct with the padding at its end. */
  datatype Struct = Struct(elems: seq<Elem>, tail: nat)

  function Rank(k: Kind): nat { if k.Nested? then k.id + 1 else 0 }

  predicate Below(elems: seq<Elem>, i: nat) {
    elems == [] || (Rank(elems[0].kind) <= i && Below(elems[1..], i))
  }

  /** A struct contains only structs declared before it. */
  predicate Acyclic(env: seq<Struct>) {
    forall i: nat | i < |env| :: Below(env[i].elems, i)
  }

  predicate Known(env: seq<Struct>, k: Kind) { Acyclic(env) && Rank(k) <= |env| }

  // ---- the memory of a struct ----------------------------------------------------------

  /** A stretch of memory: padding, or one number of 1, 2 or 4 bytes. */
  datatype Slot = Pad(width: nat) | Number(width: nat)

  /** The slots of a value, in memory order. */
  function PlanKind(env: seq<Struct>, k: Kind): (p: seq<Slot>)
    requires Known(env, k)
    decreases Rank(k), 0, 0, 0
  {
    match k
    case Char => [Number(1)]
    case Short => [Number(2)]
    case Int => [Number(4)]
    case Nested(id) => PlanElems(env, id, env[id].elems) + [Pad(env[id].tail)]
  }

  function PlanDims(env: seq<Struct>, k: Kind, dims: seq<nat>): seq<Slot>
    requires Known(env, k)
    decreases Rank(k), 1, |dims|, 0
  {
    if dims == [] then PlanKind(env, k) else PlanMany(env, k, dims[1..], dims[0])
  }

  function PlanMany(env: seq<Struct>, k: Kind, dims: seq<nat>, n: nat): seq<Slot>
    requires Known(env, k)
    decreases Rank(k), 1, |dims|, n + 1
  {
    if n == 0 then [] else PlanDims(env, k, dims) + PlanMany(env, k, dims, n - 1)
  }

  function PlanElems(env: seq<Struct>, i: nat, elems: seq<Elem>): seq<Slot>
    requires Acyclic(env) && i < |env| && Below(elems, i)
    decreases i, 2, |elems|, 0
  {
    if elems == [] then []
    else [Pad(elems[0].pad)] + (PlanDims(env, elems[0].kind, elems[0].dims) + PlanElems(env, i, elems[1..]))
  }

  /** sizeof */
  function Width(p: seq<Slot>): nat {
    if p == [] then 0 else p[0].width + Width(p[1..])
  }

  lemma {:induction false} WidthConcat(p: seq<Slot>, q: seq<Slot>)
    ensures Width(p + q) == Width(p) + Width(q)
  {
    if p == [] {
      assert p + q == q;
    } else {
      assert (p + q)[1..] == p[1..] + q;
      WidthConcat(p[1..], q);
    }
  }

  lemma {:induction false} ManySnoc(env: seq<Struct>, k: Kind, dims: seq<nat>, n: nat)
    requires Known(env, k)
    ensures PlanMany(env, k, dims, n + 1) == PlanMany(env, k, dims, n) + PlanDims(env, k, dims)
  {
    if n == 0 {
      assert PlanMany(env, k, dims, 0) == [];
    } else {
      ManySnoc(env, k, dims, n - 1);
    }
  }

  /** Entry n of an array starts n strides behind its beginning. */
  lemma {:induction false} ManyWidth(env: seq<Struct>, k: Kind, dims: seq<nat>, n: nat)
    requires Known(env, k)
    ensures Width(PlanMany(env, k, dims, n)) == n * Width(PlanDims(env, k, dims))
  {
    if n > 0 {
      ManyWidth(env, k, dims, n - 1);
      WidthConcat(PlanDims(env, k, dims), PlanMany(env, k, dims, n - 1));
      OneMoreStride(n, Width(PlanDims(env, k, dims)));
    }
  }

  lemma OneMoreStride(n: int, w: int)
    ensures n * w == w + (n - 1) * w
  {
  }

  // ---- one pass over it ----------------------------------------------------------------

  /** htons, htonl, ntohs and ntohl: which byte of the operand lands at byte i. A char is not touched. */
  function SlotSource(host: Order, s: Slot, i: nat): (j: nat)
    requires i < s.width
    ensures j < s.width
  {
    if s.Number? && host.Little? then s.width - 1 - i else i
  }

  function Source(host: Order, p: seq<Slot>, i: nat): (j: nat)
    requires i < Width(p)
    ensures j < Width(p)
    decreases |p|
  {
    var w := p[0].width;
    if i < w then SlotSource(host, p[0], i) else w + Source(host, p[1..], i - w)
  }

  function ConvertedByte(host: Order, p: seq<Slot>, m: seq<Byte>, at: nat, i: nat): Byte
    requires at + Width(p) <= |m| && i < |m|
  {
    if at <= i < at + Width(p) then m[at + Source(host, p, i - at)] else m[i]
  }

  /** Memory m with the numbers of p, which starts at byte `at`, swapped; everything else as it was. */
  ghost function Convert(host: Order, p: seq<Slot>, m: seq<Byte>, at: nat): (r: seq<Byte>)
    requires at + Width(p) <= |m|
    ensures |r| == |m|
    ensures forall i: nat | i < |m| :: r[i] == ConvertedByte(host, p, m, at, i)
  {
    var c := seq(|m|, i requires 0 <= i < |m| => ConvertedByte(host, p, m, at, i));
    assert |c| == |m| && forall i: nat | i < |m| :: c[i] == ConvertedByte(host, p, m, at, i);
    var r: seq<Byte> :| |r| == |m| && forall i: nat | i < |m| :: r[i] == ConvertedByte(host, p, m, at, i);
    r
  }

  lemma {:induction false} SourceConcat(host: Order, p: seq<Slot>, q: seq<Slot>, i: nat)
    requires i < Width(p) + Width(q) == Width(p + q)
    ensures Source(host, p + q, i) ==
      if i < Width(p) then Source(host, p, i) else Width(p) + Source(host, q, i - Width(p))
    decreases |p|
  {
    if p == [] {
      assert p + q == q;
    } else {
      assert (p + q)[1..] == p[1..] + q;
      if i >= p[0].width {
        SourceConcat(host, p[1..], q, i - p[0].width);
      }
    }
  }

  lemma {:induction false} SourceTwice(host: Order, p: seq<Slot>, i: nat)
    requires i < Width(p)
    ensures Source(host, p, Source(host, p, i)) == i
    decreases |p|
  {
    if i >= p[0].width {
      SourceTwice(host, p[1..], i - p[0].width);
    }
  }

  /** Encoding twice on one host, or encoding and decoding there, leaves every byte as it was. */
  lemma ConvertTwice(host: Order, p: seq<Slot>, m: seq<Byte>, at: nat)
    requires at + Width(p) <= |m|
    ensures Convert(host, p, Convert(host, p, m, at), at) == m
  {
    var c := Convert(host, p, m, at);
    forall i: nat | i < |m|
      ensures Convert(host, p, c, at)[i] == m[i]
    {
      TwiceAt(host, p, m, c, at, i);
    }
  }

  lemma TwiceAt(host: Order, p: seq<Slot>, m: seq<Byte>, c: seq<Byte>, at: nat, i: nat)
    requires at + Width(p) <= |m| == |c| && i < |m| && c[i] == ConvertedByte(host, p, m, at, i)
    requires at <= i < at + Width(p) ==>
      c[at + Source(host, p, i - at)] == ConvertedByte(host, p, m, at, at + Source(host, p, i - at))
    ensures ConvertedByte(host, p, c, at, i) == m[i]
  {
    if at <= i < at + Width(p) {
      SourceTwice(host, p, i - at);
    }
  }

  /** Converting one stretch and then the next is converting both. */
  lemma ConvertNext(host: Order, p: seq<Slot>, q: seq<Slot>, m: seq<Byte>, at: nat)
    requires at + Width(p) + Width(q) <= |m|
    ensures Width(p + q) == Width(p) + Width(q)
    ensures Convert(host, q, Convert(host, p, m, at), at + Width(p)) == Convert(host, p + q, m, at)
  {
    WidthConcat(p, q);
    var c := Convert(host, p, m, at);
    forall i: nat | i < |m|
      ensures Convert(host, q, c, at + Width(p))[i] == Convert(host, p + q, m, at)[i]
    {
      NextAt(host, p, q, m, c, at, i);
    }
  }

  lemma NextAt(host: Order, p: seq<Slot>, q: seq<Slot>, m: seq<Byte>, c: seq<Byte>, at: nat, i: nat)
    requires at + Width(p) + Width(q) <= |m| == |c| && i < |m| && Width(p + q) == Width(p) + Width(q)
    requires forall k: nat | k < |m| :: c[k] == ConvertedByte(host, p, m, at, k)
    ensures ConvertedByte(host, q, c, at + Width(p), i) == ConvertedByte(host, p + q, m, at, i)
  {
    assert c[i] == ConvertedByte(host, p, m, at, i);
    if at + Width(p) <= i < at + Width(p) + Width(q) {
      var k := at + Width(p) + Source(host, q, i - (at + Width(p)));
      assert c[k] == ConvertedByte(host, p, m, at, k);
      NextInSecond(host, p, q, m, c, at, i);
    } else if at <= i < at + Width(p) {
      SourceConcat(host, p, q, i - at);
    }
  }

  lemma NextInSecond(host: Order, p: seq<Slot>, q: seq<Slot>, m: seq<Byte>, c: seq<Byte>, at: nat, i: nat)
    requires at + Width(p) + Width(q) <= |m| == |c| && i < |m| && Width(p + q) == Width(p) + Width(q)
    requires at + Width(p) <= i < at + Width(p) + Width(q)
    requires var k := at + Width(p) + Source(host, q, i - (at + Width(p))); c[k] == m[k]
    ensures ConvertedByte(host, q, c, at + Width(p), i) == ConvertedByte(host, p + q, m, at, i)
  {
    SourceConcat(host, p, q, i - at);
  }

  // ---- what the memory means -----------------------------------------------------------

  /** All the numbers of a struct, in memory order. */
  function Fields(order: Order, p: seq<Slot>, m: seq<Byte>, at: nat): seq<nat>
    requires at + Width(p) <= |m|
    decreases |p|
  {
    if p == [] then [] else
      (if p[0].Number? then [Read(order, m[at..at + p[0].width])] else [])
        + Fields(order, p[1..], m, at + p[0].width)
  }

  predicate Reversed(b: seq<Byte>, c: seq<Byte>) {
    |b| == |c| && forall i | 0 <= i < |b| :: c[i] == b[|b| - 1 - i]
  }

  /** Reversed bytes read the same in the other order. */
  lemma SwapReads(b: seq<Byte>, c: seq<Byte>)
    requires (|b| == 1 || |b| == 2 || |b| == 4) && Reversed(b, c)
    ensures FromBe(c) == FromLe(b) && FromLe(c) == FromBe(b)
  {
    Bytewise(b);
    Bytewise(c);
  }

  predicate SoundSlot(s: Slot) { s.Number? ==> s.width == 1 || s.width == 2 || s.width == 4 }

  /** The numbers of a struct are 1, 2 or 4 bytes wide. */
  predicate Sound(p: seq<Slot>) { p == [] || (SoundSlot(p[0]) && Sound(p[1..])) }

  lemma {:induction false} SoundConcat(p: seq<Slot>, q: seq<Slot>)
    requires Sound(p) && Sound(q)
    ensures Sound(p + q)
  {
    if p == [] {
      assert p + q == q;
    } else {
      assert (p + q)[1..] == p[1..] + q;
      SoundConcat(p[1..], q);
    }
  }

  /** Memory c is m with the slots of p, from byte `at` on, converted. */
  predicate Converted(host: Order, p: seq<Slot>, m: seq<Byte>, c: seq<Byte>, at: nat) {
    && |c| == |m| && at + Width(p) <= |m|
    && forall k: nat | at <= k < at + Width(p) :: c[k] == ConvertedByte(host, p, m, at, k)
  }

  lemma ConvertedRest(host: Order, p: seq<Slot>, m: seq<Byte>, c: seq<Byte>, at: nat)
    requires p != [] && Converted(host, p, m, c, at)
    ensures Converted(host, p[1..], m, c, at + p[0].width)
  {
    var w := p[0].width;
    forall k: nat | at + w <= k < at + w + Width(p[1..])
      ensures c[k] == ConvertedByte(host, p[1..], m, at + w, k)
    {
      assert c[k] == ConvertedByte(host, p, m, at, k);
    }
  }

  lemma FirstByte(host: Order, p: seq<Slot>, m: seq<Byte>, c: seq<Byte>, at: nat, i: nat)
    requires p != [] && p[0].Number? && i < p[0].width && Converted(host, p, m, c, at)
    ensures c[at + i] == m[at + if host.Little? then p[0].width - 1 - i else i]
  {
    var k := at + i;
    assert c[k] == ConvertedByte(host, p, m, at, k);
  }

  lemma ConvertedFirst(host: Order, p: seq<Slot>, m: seq<Byte>, c: seq<Byte>, at: nat)
    requires p != [] && SoundSlot(p[0]) && p[0].Number? && Converted(host, p, m, c, at)
    ensures
      var b, d := m[at..at + p[0].width], c[at..at + p[0].width];
      Read(Big, d) == Read(host, b) && Read(host, d) == Read(Big, b)
  {
    var w := p[0].width;
    var b, d := m[at..at + w], c[at..at + w];
    forall i: nat | i < w
      ensures d[i] == if host.Little? then b[w - 1 - i] else b[i]
    {
      FirstByte(host, p, m, c, at, i);
    }
    if host.Little? {
      SwapReads(b, d);
    } else {
      assert d == b;
    }
  }

  lemma {:induction false} ConvertedReads(host: Order, p: seq<Slot>, m: seq<Byte>, c: seq<Byte>, at: nat)
    requires Sound(p) && Converted(host, p, m, c, at)
    ensures Fields(Big, p, c, at) == Fields(host, p, m, at) && Fields(host, p, c, at) == Fields(Big, p, m, at)
    decreases |p|
  {
    if p != [] {
      ConvertedRest(host, p, m, c, at);
      ConvertedReads(host, p[1..], m, c, at + p[0].width);
      if p[0].Number? {
        ConvertedFirst(host, p, m, c, at);
      }
    }
  }

  /**
   * An encoded struct reads in network order as its host read it before, a decoded one reads on
   * the host as it did in network order.
   */
  lemma ConvertReads(host: Order, p: seq<Slot>, m: seq<Byte>, at: nat)
    requires at + Width(p) <= |m| && Sound(p)
    ensures Fields(Big, p, Convert(host, p, m, at), at) == Fields(host, p, m, at)
    ensures Fields(host, p, Convert(host, p, m, at), at) == Fields(Big, p, m, at)
  {
    ConvertedReads(host, p, m, Convert(host, p, m, at), at);
  }

  /** So between hosts of any byte order, decoding what was encoded restores every field. */
  lemma FieldsTravel(sender: Order, receiver: Order, p: seq<Slot>, m: seq<Byte>, at: nat)
    requires at + Width(p) <= |m| && Sound(p)
    ensures Fields(receiver, p, Convert(receiver, p, Convert(sender, p, m, at), at), at) == Fields(sender, p, m, at)
  {
    ConvertReads(sender, p, m, at);
    ConvertReads(receiver, p, Convert(sender, p, m, at), at);
  }

  // ---- every plan is sound -------------------------------------------------------------

  lemma {:induction false} PlanKindSound(env: seq<Struct>, k: Kind)
    requires Known(env, k)
    ensures Sound(PlanKind(env, k))
    decreases Rank(k), 0, 0, 0
  {
    if k.Nested? {
      PlanElemsSound(env, k.id, env[k.id].elems);
      SoundConcat(PlanElems(env, k.id, env[k.id].elems), [Pad(env[k.id].tail)]);
    }
  }

  lemma {:induction false} PlanDimsSound(env: seq<Struct>, k: Kind, dims: seq<nat>)
    requires Known(env, k)
    ensures Sound(PlanDims(env, k, dims))
    decreases Rank(k), 1, |dims|, 0
  {
    if dims == [] {
      PlanKindSound(env, k);
    } else {
      PlanManySound(env, k, dims[1..], dims[0]);
    }
  }

  lemma {:induction false} PlanManySound(env: seq<Struct>, k: Kind, dims: seq<nat>, n: nat)
    requires Known(env, k)
    ensures Sound(PlanMany(env, k, dims, n))
    decreases Rank(k), 1, |dims|, n + 1
  {
    if n > 0 {
      PlanDimsSound(env, k, dims);
      PlanManySound(env, k, dims, n - 1);
      SoundConcat(PlanDims(env, k, dims), PlanMany(env, k, dims, n - 1));
    }
  }

  lemma {:induction false} PlanElemsSound(env: seq<Struct>, i: nat, elems: seq<Elem>)
    requires Acyclic(env) && i < |env| && Below(elems, i)
    ensures Sound(PlanElems(env, i, elems))
    decreases i, 2, |elems|, 0
  {
    if elems != [] {
      PlanDimsSound(env, elems[0].kind, elems[0].dims);
      PlanElemsSound(env, i, elems[1..]);
      SoundConcat(PlanDims(env, elems[0].kind, elems[0].dims), PlanElems(env, i, elems[1..]));
    }
  }

  // ---- the numbers of a description, without its plan ----------------------------------

  /** A number in memory: its address and its width. */
  datatype Scalar = Scalar(at: nat, width: nat)

  /** sizeof: 1 for a char, 2 for a short, 4 for an int; an array is as large as its entries, a struct as its parts. */
  function KindSize(env: seq<Struct>, k: Kind): nat
    requires Known(env, k)
    decreases Rank(k), 0, 0, 0
  {
    match k
    case Char => 1
    case Short => 2
    case Int => 4
    case Nested(id) => ElemsSize(env, id, env[id].elems) + env[id].tail
  }

  function DimsSize(env: seq<Struct>, k: Kind, dims: seq<nat>): nat
    requires Known(env, k)
    decreases Rank(k), 1, |dims|, 0
  {
    if dims == [] then KindSize(env, k) else dims[0] * DimsSize(env, k, dims[1..])
  }

  function ElemsSize(env: seq<Struct>, i: nat, elems: seq<Elem>): nat
    requires Acyclic(env) && i < |env| && Below(elems, i)
    decreases i, 2, |elems|, 0
  {
    if elems == [] then 0
    else elems[0].pad + DimsSize(env, elems[0].kind, elems[0].dims) + ElemsSize(env, i, elems[1..])
  }

  /** Every number in a value at an address, in memory order. */
  function Scalars(env: seq<Struct>, k: Kind, at: nat): seq<Scalar>
    requires Known(env, k)
    decreases Rank(k), 0, 0, 0
  {
    match k
    case Char => [Scalar(at, 1)]
    case Short => [Scalar(at, 2)]
    case Int => [Scalar(at, 4)]
    case Nested(id) => ElemScalars(env, id, env[id].elems, at)
  }

  function DimScalars(env: seq<Struct>, k: Kind, dims: seq<nat>, at: nat): seq<Scalar>
    requires Known(env, k)
    decreases Rank(k), 1, |dims|, 0
  {
    if dims == [] then Scalars(env, k, at) else EntryScalars(env, k, dims[1..], dims[0], at)
  }

  /** Those of the first n entries of an array, entry j at at + j * the size of one. */
  function EntryScalars(env: seq<Struct>, k: Kind, dims: seq<nat>, n: nat, at: nat): seq<Scalar>
    requires Known(env, k)
    decreases Rank(k), 1, |dims|, n + 1
  {
    if n == 0 then []
    else EntryScalars(env, k, dims, n - 1, at) + DimScalars(env, k, dims, at + (n - 1) * DimsSize(env, k, dims))
  }

  function ElemScalars(env: seq<Struct>, i: nat, elems: seq<Elem>, at: nat): seq<Scalar>
    requires Acyclic(env) && i < |env| && Below(elems, i)
    decreases i, 2, |elems|, 0
  {
    if elems == [] then []
    else
      var start := at + elems[0].pad;
      DimScalars(env, elems[0].kind, elems[0].dims, start)
        + ElemScalars(env, i, elems[1..], start + DimsSize(env, elems[0].kind, elems[0].dims))
  }

  /** The numbers of a plan at an address. */
  function Numbers(p: seq<Slot>, at: nat): seq<Scalar> {
    if p == [] then [] else (if p[0].Number? then [Scalar(at, p[0].width)] else []) + Numbers(p[1..], at + p[0].width)
  }

  lemma {:induction false} NumbersConcat(p: seq<Slot>, q: seq<Slot>, at: nat)
    ensures Numbers(p + q, at) == Numbers(p, at) + Numbers(q, at + Width(p))
  {
    if p == [] {
      assert p + q == q;
    } else {
      assert (p + q)[1..] == p[1..] + q;
      NumbersConcat(p[1..], q, at + p[0].width);
    }
  }

  lemma OneSlot(s: Slot, at: nat)
    ensures Width([s]) == s.width && Numbers([s], at) == if s.Number? then [Scalar(at, s.width)] else []
  {
    assert [s][1..] == [];
  }

  /** The plan of a value has its size and its numbers. */
  lemma {:induction false} KindPlanned(env: seq<Struct>, k: Kind, at: nat)
    requires Known(env, k)
    ensures Width(PlanKind(env, k)) == KindSize(env, k) && Numbers(PlanKind(env, k), at) == Scalars(env, k, at)
    decreases Rank(k), 0, 0, 0
  {
    match k
    case Char => OneSlot(Number(1), at);
    case Short => OneSlot(Number(2), at);
    case Int => OneSlot(Number(4), at);
    case Nested(id) =>
      var p, tail := PlanElems(env, id, env[id].elems), Pad(env[id].tail);
      ElemsPlanned(env, id, env[id].elems, at);
      OneSlot(tail, at + Width(p));
      WidthConcat(p, [tail]);
      NumbersConcat(p, [tail], at);
  }

  lemma {:induction false} DimsPlanned(env: seq<Struct>, k: Kind, dims: seq<nat>, at: nat)
    requires Known(env, k)
    ensures Width(PlanDims(env, k, dims)) == DimsSize(env, k, dims)
    ensures Numbers(PlanDims(env, k, dims), at) == DimScalars(env, k, dims, at)
    decreases Rank(k), 1, |dims|, 0
  {
    if dims == [] {
      KindPlanned(env, k, at);
    } else {
      ManyPlanned(env, k, dims[1..], dims[0], at);
    }
  }

  lemma {:induction false} ManyPlanned(env: seq<Struct>, k: Kind, dims: seq<nat>, n: nat, at: nat)
    requires Known(env, k)
    ensures Width(PlanMany(env, k, dims, n)) == n * DimsSize(env, k, dims)
    ensures Numbers(PlanMany(env, k, dims, n), at) == EntryScalars(env, k, dims, n, at)
    decreases Rank(k), 1, |dims|, n + 1
  {
    if n > 0 {
      var p, q, size := PlanMany(env, k, dims, n - 1), PlanDims(env, k, dims), DimsSize(env, k, dims);
      ManyPlanned(env, k, dims, n - 1, at);
      DimsPlanned(env, k, dims, at + (n - 1) * size);
      ManySnoc(env, k, dims, n - 1);
      WidthConcat(p, q);
      NumbersConcat(p, q, at);
      OneMoreStride(n, size);
    } else {
      assert PlanMany(env, k, dims, n) == [];
    }
  }

  lemma {:induction false} ElemsPlanned(env: seq<Struct>, i: nat, elems: seq<Elem>, at: nat)
    requires Acyclic(env) && i < |env| && Below(elems, i)
    ensures Width(PlanElems(env, i, elems)) == ElemsSize(env, i, elems)
    ensures Numbers(PlanElems(env, i, elems), at) == ElemScalars(env, i, elems, at)
    decreases i, 2, |elems|, 0
  {
    if elems != [] {
      var gap, field := [Pad(elems[0].pad)], PlanDims(env, elems[0].kind, elems[0].dims);
      var rest, start := PlanElems(env, i, elems[1..]), at + elems[0].pad;
      DimsPlanned(env, elems[0].kind, elems[0].dims, start);
      ElemsPlanned(env, i, elems[1..], start + Width(field));
      OneSlot(gap[0], at);
      WidthConcat(gap, field + rest);
      WidthConcat(field, rest);
      NumbersConcat(gap, field + rest, at);
      NumbersConcat(field, rest, start);
    }
  }

  // ---- what conversion does to them ----------------------------------------------------

  predicate Inside(s: Scalar, i: nat) { s.at <= i < s.at + s.width }

  /** Between memory m of a host and the same memory in network order: every number crosses over, and nothing else changes. */
  predicate Crossed(host: Order, scalars: seq<Scalar>, m: seq<Byte>, c: seq<Byte>) {
    && |c| == |m|
    && (forall i | 0 <= i < |scalars| :: ScalarCrossed(host, scalars[i], m, c))
    && (forall j: nat | j < |m| && (forall s | s in scalars :: !Inside(s, j)) :: c[j] == m[j])
  }

  predicate ScalarCrossed(host: Order, s: Scalar, m: seq<Byte>, c: seq<Byte>)
    requires |c| == |m|
  {
    && s.at + s.width <= |m|
    && FromBe(c[s.at..s.at + s.width]) == Read(host, m[s.at..s.at + s.width])
    && Read(host, c[s.at..s.at + s.width]) == FromBe(m[s.at..s.at + s.width])
  }

  lemma {:induction false} NumbersCross(host: Order, p: seq<Slot>, m: seq<Byte>, c: seq<Byte>, at: nat)
    requires Sound(p) && Converted(host, p, m, c, at)
    ensures forall i | 0 <= i < |Numbers(p, at)| :: ScalarCrossed(host, Numbers(p, at)[i], m, c)
    decreases |p|
  {
    if p != [] {
      ConvertedRest(host, p, m, c, at);
      NumbersCross(host, p[1..], m, c, at + p[0].width);
      if p[0].Number? {
        ConvertedFirst(host, p, m, c, at);
      }
    }
  }

  lemma {:induction false} OutsideKept(host: Order, p: seq<Slot>, j: nat, at: nat)
    requires at <= j < at + Width(p) && forall s | s in Numbers(p, at) :: !Inside(s, j)
    ensures Source(host, p, j - at) == j - at
    decreases |p|
  {
    var w := p[0].width;
    NumbersFirst(p, at);
    if j >= at + w {
      OutsideKept(host, p[1..], j, at + w);
    }
  }

  lemma NumbersFirst(p: seq<Slot>, at: nat)
    requires p != []
    ensures p[0].Number? ==> Scalar(at, p[0].width) in Numbers(p, at)
    ensures forall s | s in Numbers(p[1..], at + p[0].width) :: s in Numbers(p, at)
  {
    var rest := Numbers(p[1..], at + p[0].width);
    assert Numbers(p, at) == (if p[0].Number? then [Scalar(at, p[0].width)] else []) + rest;
  }

  /** So conversion crosses every number of the description, and changes nothing else. */
  lemma ConvertCrosses(host: Order, env: seq<Struct>, k: Kind, m: seq<Byte>, at: nat)
    requires Known(env, k) && at + Width(PlanKind(env, k)) <= |m|
    ensures Crossed(host, Scalars(env, k, at), m, Convert(host, PlanKind(env, k), m, at))
  {
    var p, c := PlanKind(env, k), Convert(host, PlanKind(env, k), m, at);
    PlanKindSound(env, k);
    KindPlanned(env, k, at);
    NumbersCross(host, p, m, c, at);
    OthersKept(host, p, m, at);
  }

  lemma OthersKept(host: Order, p: seq<Slot>, m: seq<Byte>, at: nat)
    requires at + Width(p) <= |m|
    ensures var c := Convert(host, p, m, at);
      forall j: nat | j < |m| && (forall s | s in Numbers(p, at) :: !Inside(s, j)) :: c[j] == m[j]
  {
    var c := Convert(host, p, m, at);
    forall j: nat | j < |m| && (forall s | s in Numbers(p, at) :: !Inside(s, j))
      ensures c[j] == m[j]
    {
      if at <= j < at + Width(p) {
        OutsideKept(host, p, j, at);
      }
    }
  }

  /** The number at an address, as it is read there. */
  predicate ReadsAt(order: Order, m: seq<Byte>, s: Scalar, v: nat) {
    s.at + s.width <= |m| && v == Read(order, m[s.at..s.at + s.width])
  }

  predicate AllRead(order: Order, m: seq<Byte>, scalars: seq<Scalar>, fields: seq<nat>) {
    |fields| == |scalars| && forall i | 0 <= i < |scalars| :: ReadsAt(order, m, scalars[i], fields[i])
  }

  lemma {:induction false} FieldsAre(order: Order, p: seq<Slot>, m: seq<Byte>, at: nat)
    requires at + Width(p) <= |m|
    ensures AllRead(order, m, Numbers(p, at), Fields(order, p, m, at))
    decreases |p|
  {
    if p != [] {
      FieldsAre(order, p[1..], m, at + p[0].width);
    }
  }

  /** The fields of a struct are the numbers of its description, one by one. */
  lemma FieldsAreScalars(order: Order, env: seq<Struct>, k: Kind, m: seq<Byte>, at: nat)
    requires Known(env, k) && at + Width(PlanKind(env, k)) <= |m|
    ensures AllRead(order, m, Scalars(env, k, at), Fields(order, PlanKind(env, k), m, at))
  {
    KindPlanned(env, k, at);
    FieldsAre(order, PlanKind(env, k), m, at);
  }

  // ---- the generated statements --------------------------------------------------------

  /** `_req->f = htons(_req->f)` and its like on the bytes at an address; on a big-endian host nothing. */
  method SwapAt(host: Order, mem: array<Byte>, at: nat, w: nat)
    requires (w == 2 || w == 4) && at + w <= mem.Length
    modifies mem
    ensures mem[..] == Convert(host, [Number(w)], old(mem[..]), at)
  {
    ghost var m := mem[..];
    assert [Number(w)][1..] == [];
    if host.Little? {
      if w == 2 {
        mem[at], mem[at + 1] := mem[at + 1], mem[at];
      } else {
        mem[at], mem[at + 1], mem[at + 2], mem[at + 3] := mem[at + 3], mem[at + 2], mem[at + 1], mem[at];
      }
    }
    assert forall k: nat | k < |m| :: mem[..][k] == ConvertedByte(host, [Number(w)], m, at, k);
  }

  lemma KeepsBytes(host: Order, p: seq<Slot>, m: seq<Byte>, at: nat)
    requires at + Width(p) <= |m| && forall i: nat | i < Width(p) :: Source(host, p, i) == i
    ensures Convert(host, p, m, at) == m
  {
    forall k: nat | k < |m| ensures Convert(host, p, m, at)[k] == m[k] {
      assert at <= k < at + Width(p) ==> Source(host, p, k - at) == k - at;
    }
  }

  /** The statement for one value at an address, or the call for a nested struct. */
  method RunKind(host: Order, env: seq<Struct>, k: Kind, mem: array<Byte>, at: nat)
    requires Known(env, k) && at + Width(PlanKind(env, k)) <= mem.Length
    modifies mem
    ensures mem[..] == Convert(host, PlanKind(env, k), old(mem[..]), at)
    decreases Rank(k), 0, 0, 0
  {
    ghost var m := mem[..];
    match k {
      case Char =>
        assert [Number(1)][1..] == [];
        KeepsBytes(host, [Number(1)], m, at);
      case Short => SwapAt(host, mem, at, 2);
      case Int => SwapAt(host, mem, at, 4);
      case Nested(id) =>
        StructAndTail(host, env, id, m, at);
        RunElems(host, env, id, mem, at);
    }
  }

  lemma {:induction false} StructAndTail(host: Order, env: seq<Struct>, id: nat, m: seq<Byte>, at: nat)
    requires Acyclic(env) && id < |env| && at + Width(PlanKind(env, Nested(id))) <= |m|
    ensures at + Width(PlanElems(env, id, env[id].elems)) <= |m|
    ensures Convert(host, PlanKind(env, Nested(id)), m, at) == Convert(host, PlanElems(env, id, env[id].elems), m, at)
  {
    TailKept(host, PlanElems(env, id, env[id].elems), env[id].tail, m, at);
  }

  /** Padding behind some slots is passed over. */
  lemma TailKept(host: Order, p: seq<Slot>, pad: nat, m: seq<Byte>, at: nat)
    requires at + Width(p + [Pad(pad)]) <= |m|
    ensures Width(p + [Pad(pad)]) == Width(p) + pad
    ensures Convert(host, p + [Pad(pad)], m, at) == Convert(host, p, m, at)
  {
    PadWidth(pad);
    WidthConcat(p, [Pad(pad)]);
    forall i: nat | i < |m|
      ensures Convert(host, p + [Pad(pad)], m, at)[i] == Convert(host, p, m, at)[i]
    {
      TailAt(host, p, pad, m, at, i);
    }
  }

  lemma TailAt(host: Order, p: seq<Slot>, pad: nat, m: seq<Byte>, at: nat, i: nat)
    requires at + Width(p) <= |m| && at + Width(p + [Pad(pad)]) <= |m| && i < |m|
    ensures ConvertedByte(host, p + [Pad(pad)], m, at, i) == ConvertedByte(host, p, m, at, i)
  {
    PadWidth(pad);
    WidthConcat(p, [Pad(pad)]);
    if at <= i < at + Width(p) + pad {
      SourceConcat(host, p, [Pad(pad)], i - at);
    }
  }

  lemma PadWidth(pad: nat)
    ensures Width([Pad(pad)]) == pad
  {
    assert [Pad(pad)][1..] == [];
  }

  /** The loops over the dimensions of one element, outermost first. */
  method RunDims(host: Order, env: seq<Struct>, k: Kind, dims: seq<nat>, mem: array<Byte>, at: nat)
    requires Known(env, k) && at + Width(PlanDims(env, k, dims)) <= mem.Length
    modifies mem
    ensures mem[..] == Convert(host, PlanDims(env, k, dims), old(mem[..]), at)
    decreases Rank(k), 1, |dims|, 0
  {
    if dims == [] {
      RunKind(host, env, k, mem, at);
    } else {
      RunMany(host, env, k, dims[1..], dims[0], mem, at);
    }
  }

  /** One loop: every entry of an array of n, each at its own address. */
  method RunMany(host: Order, env: seq<Struct>, k: Kind, dims: seq<nat>, n: nat, mem: array<Byte>, at: nat)
    requires Known(env, k) && at + Width(PlanMany(env, k, dims, n)) <= mem.Length
    modifies mem
    ensures mem[..] == Convert(host, PlanMany(env, k, dims, n), old(mem[..]), at)
    decreases Rank(k), 1, |dims|, 1
  {
    var stride := Width(PlanDims(env, k, dims));
    ghost var m, done: seq<Slot> := mem[..], [];
    ConvertNothing(host, m, at);
    var i := 0;
    while i < n
      invariant 0 <= i <= n && done == PlanMany(env, k, dims, i) && at + Width(done) <= |m|
      invariant mem[..] == Convert(host, done, m, at)
    {
      var address := at + i * stride;
      ghost var more := ManyStep(host, env, k, dims, i, n, done, m, mem[..], at, address);
      RunDims(host, env, k, dims, mem, address);
      i, done := i + 1, more;
    }
  }

  lemma ConvertNothing(host: Order, m: seq<Byte>, at: nat)
    requires at <= |m|
    ensures Convert(host, [], m, at) == m
  {
    KeepsBytes(host, [], m, at);
  }

  /** One more turn of the loop over an array of n: the entry at its address, then the next. */
  lemma {:induction false} ManyStep(host: Order, env: seq<Struct>, k: Kind, dims: seq<nat>, i: nat, n: nat,
                                       done: seq<Slot>, m: seq<Byte>, before: seq<Byte>, at: nat, address: int)
    returns (more: seq<Slot>)
    requires Known(env, k) && i < n && at + Width(PlanMany(env, k, dims, n)) <= |m|
    requires done == PlanMany(env, k, dims, i) && at + Width(done) <= |m| && before == Convert(host, done, m, at)
    requires address == at + i * Width(PlanDims(env, k, dims))
    ensures more == PlanMany(env, k, dims, i + 1) && at + Width(more) <= |m|
    ensures 0 <= address <= address + Width(PlanDims(env, k, dims)) == at + Width(more)
    ensures Convert(host, PlanDims(env, k, dims), before, address) == Convert(host, more, m, at)
  {
    more := PlanMany(env, k, dims, i + 1);
    ManySnoc(env, k, dims, i);
    ManyWidth(env, k, dims, i);
    WidthConcat(done, PlanDims(env, k, dims));
    ManyGrows(env, k, dims, i + 1, n);
    ConvertNext(host, done, PlanDims(env, k, dims), m, at);
  }

  lemma {:induction false} ManyGrows(env: seq<Struct>, k: Kind, dims: seq<nat>, i: nat, n: nat)
    requires Known(env, k) && i <= n
    ensures Width(PlanMany(env, k, dims, i)) <= Width(PlanMany(env, k, dims, n))
    decreases n
  {
    if i < n {
      ManyGrows(env, k, dims, i, n - 1);
      WidthConcat(PlanDims(env, k, dims), PlanMany(env, k, dims, n - 1));
    }
  }

  /** The statements for one struct, element by element, each at its offset; those for a char come to nothing. */
  method RunElems(host: Order, env: seq<Struct>, id: nat, mem: array<Byte>, at: nat)
    requires Acyclic(env) && id < |env| && at + Width(PlanElems(env, id, env[id].elems)) <= mem.Length
    modifies mem
    ensures mem[..] == Convert(host, PlanElems(env, id, env[id].elems), old(mem[..]), at)
    decreases id, 3, 0, 0
  {
    var elems, offset := env[id].elems, 0;
    ghost var m, all, done: seq<Slot> := mem[..], PlanElems(env, id, elems), [];
    assert done + all == all;
    ConvertNothing(host, m, at);
    while elems != []
      invariant Below(elems, id) && done + PlanElems(env, id, elems) == all
      invariant offset == Width(done)
      invariant at + offset <= |m| && mem[..] == Convert(host, done, m, at)
      decreases |elems|
    {
      offset, done := RunElem(host, env, id, elems, done, m, mem, at, offset);
      elems := elems[1..];
    }
    assert done + [] == done;
  }

  /** The statement for one element, behind the padding before it. */
  method RunElem(host: Order, env: seq<Struct>, id: nat, elems: seq<Elem>, ghost done: seq<Slot>, ghost m: seq<Byte>,
                 mem: array<Byte>, at: nat, offset: nat) returns (end: nat, ghost more: seq<Slot>)
    requires Acyclic(env) && id < |env| && elems != [] && Below(elems, id)
    requires at + Width(done + PlanElems(env, id, elems)) <= |m| == mem.Length
    requires at + Width(done) <= |m| && offset == Width(done) && mem[..] == Convert(host, done, m, at)
    modifies mem
    ensures done + PlanElems(env, id, elems) == more + PlanElems(env, id, elems[1..])
    ensures end == Width(more) && at + end <= |m|
    ensures mem[..] == Convert(host, more, m, at)
    decreases id, 2, 0, 0
  {
    var p, address := elems[0], at + offset + elems[0].pad;
    more := ElemStep(host, env, id, elems, done, m, mem[..], at, address);
    RunDims(host, env, p.kind, p.dims, mem, address);
    end := offset + p.pad + Width(PlanDims(env, p.kind, p.dims));
  }

  /** One more element: its padding is passed over and its field converted. */
  lemma {:induction false} ElemStep(host: Order, env: seq<Struct>, id: nat, elems: seq<Elem>,
                                    done: seq<Slot>, m: seq<Byte>, before: seq<Byte>, at: nat, address: nat)
    returns (more: seq<Slot>)
    requires Acyclic(env) && id < |env| && elems != [] && Below(elems, id)
    requires at + Width(done + PlanElems(env, id, elems)) <= |m|
    requires at + Width(done) <= |m| && before == Convert(host, done, m, at)
    requires address == at + Width(done) + elems[0].pad
    ensures done + PlanElems(env, id, elems) == more + PlanElems(env, id, elems[1..])
    ensures at + Width(more) == address + Width(PlanDims(env, elems[0].kind, elems[0].dims)) <= |m|
    ensures Convert(host, PlanDims(env, elems[0].kind, elems[0].dims), before, address) == Convert(host, more, m, at)
  {
    var field, rest := PlanDims(env, elems[0].kind, elems[0].dims), PlanElems(env, id, elems[1..]);
    more := ConvertPadded(host, done, elems[0].pad, field, rest, m, at);
  }

  lemma ConvertPadded(host: Order, done: seq<Slot>, pad: nat, field: seq<Slot>, rest: seq<Slot>,
                      m: seq<Byte>, at: nat)
    returns (more: seq<Slot>)
    requires at + Width(done + ([Pad(pad)] + (field + rest))) <= |m|
    ensures done + ([Pad(pad)] + (field + rest)) == more + rest
    ensures Width(more) == Width(done) + pad + Width(field) && at + Width(more) <= |m|
    ensures Convert(host, field, Convert(host, done, m, at), at + Width(done) + pad) == Convert(host, more, m, at)
  {
    var gap := [Pad(pad)];
    PadWidth(pad);
    more := done + gap + field;
    assert done + (gap + (field + rest)) == more + rest;
    WidthConcat(done, gap);
    WidthConcat(done + gap, field);
    WidthConcat(more, rest);
    TailKept(host, done, pad, m, at);
    ConvertNext(host, done + gap, field, m, at);
  }

  // ---- the generated functions ---------------------------------------------------------

  /** X_raw_encode: the struct is converted where it stands, and then copied if a buffer is wanted. */
  method Encode(host: Order, env: seq<Struct>, id: nat, req: array<Byte>, wanted: bool) returns (buf: Option<seq<Byte>>)
    requires Known(env, Nested(id)) && req.Length == Width(PlanKind(env, Nested(id)))
    modifies req
    ensures req[..] == Convert(host, PlanKind(env, Nested(id)), old(req[..]), 0)
    ensures Crossed(host, Scalars(env, Nested(id), 0), old(req[..]), req[..])
    ensures buf == if wanted then Some(req[..]) else None
  {
    ConvertCrosses(host, env, Nested(id), req[..], 0);
    RunKind(host, env, Nested(id), req, 0);
    buf := if wanted then Some(req[..]) else None;
  }

  /**
   * X_raw_decode: a zeroed block of the size of the struct is filled from the buffer and converted. The
   * copy is as long as the buffer: longer ones run past the struct, shorter ones leave zeros at its end.
   */
  method Decode(host: Order, env: seq<Struct>, id: nat, buf: seq<Byte>) returns (req: array?<Byte>, ghost end: seq<Byte>)
    requires Known(env, Nested(id))
    ensures req == null <==> |buf| > Width(PlanKind(env, Nested(id)))
    ensures req != null ==>
      && fresh(req) && |buf + end| == req.Length == Width(PlanKind(env, Nested(id)))
      && (forall i | 0 <= i < |end| :: end[i] == 0)
      && req[..] == Convert(host, PlanKind(env, Nested(id)), buf + end, 0)
      && Crossed(host, Scalars(env, Nested(id), 0), buf + end, req[..])
  {
    var size := Width(PlanKind(env, Nested(id)));
    if |buf| > size {
      return null, [];
    }
    req := new Byte[size](_ => 0);
    end := req[|buf|..];
    for i := 0 to |buf|
      invariant req[..i] == buf[..i] && req[|buf|..] == end
    {
      req[i] := buf[i];
    }
    assert req[..] == buf + end;
    ConvertCrosses(host, env, Nested(id), req[..], 0);
    RunKind(host, env, Nested(id), req, 0);
  }

  /** Sent from one host and received on another: every field arrives, and the sender's copy is left encoded. */
  method Transfer(sender: Order, receiver: Order, env: seq<Struct>, id: nat, req: array<Byte>)
    returns (arrived: array<Byte>)
    requires Known(env, Nested(id)) && req.Length == Width(PlanKind(env, Nested(id)))
    modifies req
    ensures arrived.Length == req.Length
    ensures Fields(receiver, PlanKind(env, Nested(id)), arrived[..], 0)
         == Fields(sender, PlanKind(env, Nested(id)), old(req[..]), 0)
    ensures sender == receiver ==> arrived[..] == old(req[..])
    ensures Fields(Big, PlanKind(env, Nested(id)), req[..], 0)
         == Fields(sender, PlanKind(env, Nested(id)), old(req[..]), 0)
  {
    ghost var p, m := PlanKind(env, Nested(id)), req[..];
    PlanKindSound(env, Nested(id));
    ConvertReads(sender, p, m, 0);
    FieldsTravel(sender, receiver, p, m, 0);
    ConvertTwice(sender, p, m, 0);
    var buf := Encode(sender, env, id, req, true);
    var block, end := Decode(receiver, env, id, buf.value);
    assert end == [] && buf.value + end == buf.value;
    arrived := block;
  }
}
