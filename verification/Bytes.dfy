/** Bytes as the C code lays them out: single bits by mask, short and int little-endian. */
module Bytes {
  import opened Sums

  type Byte = x: int | 0 <= x < 256

  datatype Option<T> = None | Some(value: T)

  predicate IsInt(n: int) { -0x8000_0000 <= n < 0x8000_0000 }

  function Zeros(n: nat): (z: seq<Byte>)
    ensures |z| == n && forall i :: 0 <= i < n ==> z[i] == 0
  {
    seq(n, _ => 0)
  }

  /** What a 32-bit int holds after n was stored into it. */
  function ToInt(n: int): (r: int)
    ensures IsInt(r) && (IsInt(n) ==> r == n)
  {
    (n + 0x8000_0000) % 0x1_0000_0000 - 0x8000_0000
  }

  /** The byte order of a host. */
  datatype Order = Little | Big

  // ---- bits.c: what the two functions mean ---------------------------------------------

  /** get_bit as a statement about numbers; positions count from 1, the lowest bit. */
  predicate GetBit(ch: nat, pos: nat) {
    if pos <= 1 then ch % 2 == 1 else GetBit(ch / 2, pos - 1)
  }

  /** set_bit as a statement about numbers. */
  function PutBit(ch: nat, pos: nat, bit: bool): nat {
    if pos <= 1 then ch / 2 * 2 + (if bit then 1 else 0) else 2 * PutBit(ch / 2, pos - 1, bit) + ch % 2
  }

  lemma {:induction false} PutBitFits(ch: nat, pos: nat, bit: bool, n: nat)
    requires 1 <= pos <= n && ch < Pow2(n)
    ensures PutBit(ch, pos, bit) < Pow2(n)
  {
    if pos > 1 {
      PutBitFits(ch / 2, pos - 1, bit, n - 1);
    }
  }

  function SetBit(ch: Byte, pos: nat, bit: bool): (r: Byte)
    requires 1 <= pos <= 8
  {
    assert Pow2(4) == 16 && Pow2(8) == 256;
    PutBitFits(ch, pos, bit, 8);
    PutBit(ch, pos, bit)
  }

  /** Writing a bit changes that bit and no other. */
  lemma {:induction false} GetAfterPut(ch: nat, p: nat, q: nat, bit: bool)
    requires 1 <= p && 1 <= q
    ensures GetBit(PutBit(ch, p, bit), q) == if p == q then bit else GetBit(ch, q)
  {
    if p > 1 && q > 1 {
      GetAfterPut(ch / 2, p - 1, q - 1, bit);
    }
  }

  // ---- bits.c: the mask arithmetic ------------------------------------------------------

  function SetMask(ch: bv8, pos: nat, bit: bool): bv8
    requires 1 <= pos <= 8
  {
    if bit then ch | ((1 as bv8) << (pos - 1))
    else ch & (((0xff as bv8) << pos) | ((0xff as bv8) >> (8 - pos + 1)))
  }

  predicate TestMask(ch: bv8, pos: nat)
    requires 1 <= pos <= 8
  {
    ch & ((1 as bv8) << (pos - 1)) != 0
  }

  function Mask(pos: nat): bv8 {
    match pos
    case 1 => 1 case 2 => 2 case 3 => 4 case 4 => 8
    case 5 => 16 case 6 => 32 case 7 => 64 case _ => 128
  }

  lemma ShiftsAreMasks(p: nat)
    requires 1 <= p <= 8
    ensures (1 as bv8) << (p - 1) == Mask(p)
    ensures (((0xff as bv8) << p) | ((0xff as bv8) >> (8 - p + 1))) == 0xff ^ Mask(p)
  {
    if p == 1 {} else if p == 2 {} else if p == 3 {} else if p == 4 {}
    else if p == 5 {} else if p == 6 {} else if p == 7 {} else {
      assert p == 8;
    }
  }

  lemma MasksDisjoint(p: nat, q: nat)
    requires 1 <= p <= 8 && 1 <= q <= 8
    ensures p == q ==> Mask(p) & Mask(q) == Mask(p) != 0
    ensures p != q ==> Mask(p) & Mask(q) == 0
  {
  }

  lemma MaskAlgebra(ch: bv8, m: bv8, n: bv8)
    ensures m & n == 0 ==> (ch | m) & n == ch & n && (ch & (0xff ^ m)) & n == ch & n
    ensures (ch | m) & m == m && (ch & (0xff ^ m)) & m == 0
  {
  }

  lemma TestAfterSet(ch: bv8, p: nat, q: nat, bit: bool)
    requires 1 <= p <= 8 && 1 <= q <= 8
    ensures TestMask(SetMask(ch, p, bit), q) == if p == q then bit else TestMask(ch, q)
  {
    ShiftsAreMasks(p);
    ShiftsAreMasks(q);
    MasksDisjoint(p, q);
    MaskAlgebra(ch, Mask(p), Mask(q));
  }

  /** An eight-bit register and a number hold the same bits. */
  ghost predicate SameBits(reg: bv8, n: Byte) {
    forall q: nat :: 1 <= q <= 8 ==> TestMask(reg, q) == GetBit(n, q)
  }

  /** The shifts and masks of set_bit and get_bit do what SetBit and GetBit say. */
  lemma MaskArithmetic(reg: bv8, n: Byte, pos: nat, bit: bool)
    requires 1 <= pos <= 8 && SameBits(reg, n)
    ensures TestMask(reg, pos) == GetBit(n, pos)
    ensures SameBits(SetMask(reg, pos, bit), SetBit(n, pos, bit))
  {
    forall q: nat | 1 <= q <= 8
      ensures TestMask(SetMask(reg, pos, bit), q) == GetBit(SetBit(n, pos, bit), q)
    {
      TestAfterSet(reg, pos, q, bit);
      GetAfterPut(n, pos, q, bit);
    }
  }

  // ---- A bit cursor over bytes, most significant bit first ------------------------------

  /**
   * What has been written so far: the finished bytes, the byte being filled, and the
   * position of the next bit in it (8 down to 1; 0 means the byte is full).
   */
  datatype Writer = Writer(done: seq<Byte>, cur: Byte, index: nat) {
    predicate Valid() { index <= 8 }
    function Bytes(): seq<Byte> { done + [cur] }
    /** How many bits have been written. */
    function Count(): int { 8 * |done| + 8 - index }
  }

  const START_WRITING := Writer([], 0, 8)

  function WriteBit(w: Writer, bit: bool): (r: Writer)
    requires w.Valid()
    ensures r.Valid() && r.Count() == w.Count() + 1 && r.index < 8
  {
    if w.index == 0 then Writer(w.done + [w.cur], SetBit(0, 8, bit), 7)
    else w.(cur := SetBit(w.cur, w.index, bit), index := w.index - 1)
  }

  function WriteBits(w: Writer, bits: seq<bool>): (r: Writer)
    requires w.Valid()
    ensures r.Valid() && r.Count() == w.Count() + |bits|
    ensures bits != [] ==> r.index < 8
    decreases |bits|
  {
    if bits == [] then w else WriteBits(WriteBit(w, bits[0]), bits[1..])
  }

  lemma {:induction false} WriteBitsConcat(w: Writer, a: seq<bool>, b: seq<bool>)
    requires w.Valid()
    ensures WriteBits(w, a + b) == WriteBits(WriteBits(w, a), b)
    decreases |a|
  {
    if a == [] {
      assert a + b == b;
    } else {
      WriteBitsConcat(WriteBit(w, a[0]), a[1..], b);
      assert (a + b)[1..] == a[1..] + b;
    }
  }

  /** The bits are read back, in order, from the byte `pos` on, the next bit at `index`. */
  predicate Holds(bytes: seq<Byte>, pos: nat, index: nat, bits: seq<bool>)
    requires index <= 8
    decreases |bits|
  {
    bits != [] ==>
      var p, i := if index == 0 then pos + 1 else pos, if index == 0 then 8 else index;
      p < |bytes| && GetBit(bytes[p], i) == bits[0] && Holds(bytes, p, i - 1, bits[1..])
  }

  /** Whatever was written up to w is still there. */
  ghost predicate Kept(w: Writer, bytes: seq<Byte>) {
    && |bytes| > |w.done| && bytes[..|w.done|] == w.done
    && forall q :: w.index < q <= 8 ==> GetBit(bytes[|w.done|], q) == GetBit(w.cur, q)
  }

  lemma KeptBefore(w: Writer, bit: bool, bytes: seq<Byte>)
    requires w.Valid() && Kept(WriteBit(w, bit), bytes)
    ensures Kept(w, bytes)
    ensures var p, i := if w.index == 0 then |w.done| + 1 else |w.done|, if w.index == 0 then 8 else w.index;
            p < |bytes| && GetBit(bytes[p], i) == bit
  {
    var r := WriteBit(w, bit);
    if w.index == 0 {
      assert bytes[|w.done|] == w.cur by {
        assert bytes[..|r.done|][|w.done|] == w.cur;
      }
      assert bytes[..|w.done|] == bytes[..|r.done|][..|w.done|];
      GetAfterPut(0, 8, 8, bit);
    } else {
      forall q | w.index <= q <= 8 ensures GetBit(r.cur, q) == if q == w.index then bit else GetBit(w.cur, q) {
        GetAfterPut(w.cur, w.index, q, bit);
      }
    }
  }

  /** Writing then reading: the cursor gives back every bit, whatever bytes follow. */
  lemma {:induction false} ReadBack(w: Writer, bits: seq<bool>, bytes: seq<Byte>)
    requires w.Valid() && Kept(WriteBits(w, bits), bytes)
    ensures Kept(w, bytes) && Holds(bytes, |w.done|, w.index, bits)
    decreases |bits|
  {
    if bits != [] {
      ReadBack(WriteBit(w, bits[0]), bits[1..], bytes);
      KeptBefore(w, bits[0], bytes);
    }
  }

  lemma KeptNow(w: Writer, rest: seq<Byte>)
    ensures Kept(w, w.Bytes() + rest)
  {
    assert (w.Bytes() + rest)[..|w.done|] == w.done;
  }

  lemma {:induction false} HoldsConcat(bytes: seq<Byte>, pos: nat, index: nat, a: seq<bool>, b: seq<bool>)
    requires index <= 8 && Holds(bytes, pos, index, a + b)
    ensures Holds(bytes, pos, index, a)
    decreases |a|
  {
    if a != [] {
      assert (a + b)[1..] == a[1..] + b;
      HoldsConcat(bytes, if index == 0 then pos + 1 else pos, (if index == 0 then 8 else index) - 1, a[1..], b);
    }
  }

  // ---- Little-endian integers ------------------------------------------------------------

  /** The k low bytes of an int, lowest first; negative numbers in two's complement. */
  function Le(n: int, k: nat): (r: seq<Byte>)
    ensures |r| == k
    decreases k
  {
    if k == 0 then [] else [n % 256] + Le(n / 256, k - 1)
  }

  function FromLe(b: seq<Byte>): nat {
    if b == [] then 0 else b[0] as int + (256 as int) * FromLe(b[1..])
  }

  /** A number of one, two or four bytes, byte by byte. */
  lemma BytewiseLe(b: seq<Byte>)
    requires |b| == 1 || |b| == 2 || |b| == 4
    ensures |b| == 1 ==> FromLe(b) == b[0] as int
    ensures |b| == 2 ==> FromLe(b) == b[0] as int + 256 * b[1] as int
    ensures |b| == 4 ==>
      FromLe(b) == b[0] as int + 0x100 * b[1] as int + 0x1_0000 * b[2] as int + 0x100_0000 * b[3] as int
  {
    if |b| > 1 {
      assert b[1..][1..] == b[2..];
      assert FromLe(b[1..]) == b[1] as int + 256 * FromLe(b[2..]);
      if |b| == 4 {
        assert b[2..][1..] == b[3..] && b[3..][1..] == [];
        assert FromLe(b[3..]) == b[3] as int;
        assert FromLe(b[2..]) == b[2] as int + 256 * FromLe(b[3..]);
      }
    }
  }

  /** The number whose bytes are these, highest first. */
  function FromBe(b: seq<Byte>): nat {
    if b == [] then 0 else (256 as int) * FromBe(b[..|b| - 1]) + b[|b| - 1] as int
  }

  /** A number as a host of the given byte order reads it. */
  function Read(order: Order, b: seq<Byte>): nat {
    if order.Little? then FromLe(b) else FromBe(b)
  }

  lemma BytewiseBe(b: seq<Byte>)
    requires |b| == 1 || |b| == 2 || |b| == 4
    ensures |b| == 1 ==> FromBe(b) == b[0] as int
    ensures |b| == 2 ==> FromBe(b) == 256 * b[0] as int + b[1] as int
    ensures |b| == 4 ==>
      FromBe(b) == 0x100_0000 * b[0] as int + 0x1_0000 * b[1] as int + 0x100 * b[2] as int + b[3] as int
  {
    assert b[..1][..0] == [];
    assert FromBe(b[..1]) == b[0] as int;
    if |b| == 1 {
      assert b[..1] == b;
    } else {
      assert b[..2][..1] == b[..1];
      assert FromBe(b[..2]) == 256 * FromBe(b[..1]) + b[1] as int;
      if |b| == 2 {
        assert b[..2] == b;
      } else {
        assert b[..3][..2] == b[..2];
        assert FromBe(b[..3]) == 256 * FromBe(b[..2]) + b[2] as int;
      }
    }
  }

  lemma Bytewise(b: seq<Byte>)
    requires |b| == 1 || |b| == 2 || |b| == 4
    ensures |b| == 1 ==> FromLe(b) == FromBe(b) == b[0] as int
    ensures |b| == 2 ==> FromLe(b) == b[0] as int + 256 * b[1] as int && FromBe(b) == 256 * b[0] as int + b[1] as int
    ensures |b| == 4 ==>
      && FromLe(b) == b[0] as int + 0x100 * b[1] as int + 0x1_0000 * b[2] as int + 0x100_0000 * b[3] as int
      && FromBe(b) == 0x100_0000 * b[0] as int + 0x1_0000 * b[1] as int + 0x100 * b[2] as int + b[3] as int
  {
    BytewiseLe(b);
    BytewiseBe(b);
  }

  function Power256(k: nat): (r: nat)
    ensures r >= 1
  {
    if k == 0 then 1 else 256 * Power256(k - 1)
  }

  lemma {:induction false} LeIsCongruent(n: int, k: nat) returns (q: int)
    ensures n == FromLe(Le(n, k)) + Power256(k) * q
    ensures FromLe(Le(n, k)) < Power256(k)
    decreases k
  {
    if k == 0 {
      q := n;
    } else {
      q := LeIsCongruent(n / 256, k - 1);
      assert Le(n, k)[1..] == Le(n / 256, k - 1);
      assert 256 * (Power256(k - 1) * q) == Power256(k) * q;
    }
  }

  lemma LeWraps(n: int, k: nat)
    ensures FromLe(Le(n, k)) == n % Power256(k)
  {
    var q := LeIsCongruent(n, k);
    ModUnique(n, Power256(k), q, FromLe(Le(n, k)));
  }

  lemma ModUnique(n: int, m: int, q: int, r: int)
    requires m > 0 && 0 <= r < m && n == r + m * q
    ensures n % m == r
  {
    var d := q - n / m;
    assert m * q == m * (n / m) + m * d;
    assert d >= 1 ==> m * d >= m;
    assert d <= -1 ==> m * d <= -m;
  }

  lemma {:induction false} FromLeInjective(a: seq<Byte>, b: seq<Byte>)
    requires |a| == |b| && FromLe(a) == FromLe(b)
    ensures a == b
  {
    if a != [] {
      FromLeInjective(a[1..], b[1..]);
      assert a == [a[0]] + a[1..] && b == [b[0]] + b[1..];
    }
  }

  /** The only two bytes, lowest first, that stand for a number modulo 2^16. */
  ghost function Le16(n: int): (r: seq<Byte>)
    ensures |r| == 2 && FromLe(r) == n % 0x1_0000
  {
    LeWraps(n, 2);
    assert Power256(2) == 0x1_0000 && |Le(n, 2)| == 2;
    var r: seq<Byte> :| |r| == 2 && FromLe(r) == n % 0x1_0000;
    r
  }

  /** The only four bytes, lowest first, that stand for a number modulo 2^32. */
  ghost function Le32(n: int): (r: seq<Byte>)
    ensures |r| == 4 && FromLe(r) == n % 0x1_0000_0000
  {
    LeWraps(n, 4);
    assert Power256(2) == 0x1_0000 && Power256(4) == 0x1_0000_0000 && |Le(n, 4)| == 4;
    var r: seq<Byte> :| |r| == 4 && FromLe(r) == n % 0x1_0000_0000;
    r
  }

  /** Writing the bytes lowest first gives exactly those. */
  lemma LeWritten(n: int)
    ensures Le(n, 2) == Le16(n) && Le(n, 4) == Le32(n)
  {
    LeWraps(n, 2);
    LeWraps(n, 4);
    assert Power256(2) == 0x1_0000 && Power256(4) == 0x1_0000_0000;
    FromLeInjective(Le(n, 2), Le16(n));
    FromLeInjective(Le(n, 4), Le32(n));
  }

  // ---- Numbers in the memory of a host ---------------------------------------------------

  /** The bytes of a number, lowest first, in the order of the host. */
  function InOrder(host: Order, le: seq<Byte>): (r: seq<Byte>)
    ensures |r| == |le|
  {
    ReversedAt(le);
    if host.Little? then le else Reversed(le)
  }

  /** Highest first is lowest first, reversed. */
  lemma {:induction false} FromBeReversed(b: seq<Byte>)
    ensures FromBe(Reversed(b)) == FromLe(b)
  {
    if b != [] {
      FromBeReversed(b[1..]);
      var r := Reversed(b[1..]);
      assert (r + [b[0]])[..|r|] == r;
    }
  }

  lemma ReadInOrder(host: Order, le: seq<Byte>)
    ensures Read(host, InOrder(host, le)) == FromLe(le)
  {
    FromBeReversed(le);
  }

  /** A short in memory. */
  ghost function ShortBytes(host: Order, n: int): (r: seq<Byte>)
    ensures |r| == 2 && Read(host, r) == n % 0x1_0000
  {
    ReadInOrder(host, Le16(n));
    InOrder(host, Le16(n))
  }

  /** An int in memory. */
  ghost function IntBytes(host: Order, n: int): (r: seq<Byte>)
    ensures |r| == 4 && Read(host, r) == n % 0x1_0000_0000
  {
    ReadInOrder(host, Le32(n));
    InOrder(host, Le32(n))
  }

  /** The k low bytes of an int, as the host lays them out. */
  function Laid(host: Order, n: int, k: nat): (r: seq<Byte>)
    ensures |r| == k
  {
    InOrder(host, Le(n, k))
  }

  lemma LaidOut(host: Order, n: int)
    ensures Laid(host, n, 2) == ShortBytes(host, n) && Laid(host, n, 4) == IntBytes(host, n)
  {
    LeWritten(n);
  }

  /** A short read from two bytes. */
  function Int16(host: Order, b: seq<Byte>): int
    requires |b| == 2
  {
    if Read(host, b) >= 0x8000 then Read(host, b) - 0x1_0000 else Read(host, b)
  }

  /** An int read from four bytes. */
  function Int32(host: Order, b: seq<Byte>): int
    requires |b| == 4
  {
    if Read(host, b) >= 0x8000_0000 then Read(host, b) - 0x1_0000_0000 else Read(host, b)
  }

  lemma Int16RoundTrip(host: Order, n: int)
    requires -0x8000 <= n < 0x8000
    ensures Int16(host, ShortBytes(host, n)) == n
  {
  }

  lemma Int32RoundTrip(host: Order, n: int)
    requires -0x8000_0000 <= n < 0x8000_0000
    ensures Int32(host, IntBytes(host, n)) == n
  {
  }

  /** What a host of the other byte order makes of an int. */
  ghost function Swapped(n: int): (r: int)
    ensures IsInt(r)
  {
    BytewiseBe(IntBytes(Little, n));
    Int32(Big, IntBytes(Little, n))
  }

  /** It makes no difference which of the two is the one that wrote it. */
  lemma SwappedBoth(host: Order, n: int)
    ensures forall other: Order | other != host :: Int32(other, IntBytes(host, n)) == Swapped(n)
  {
    var le := Le32(n);
    FromBeReversed(le);
    ReversedTwice(le);
    FromBeReversed(Reversed(le));
  }

  /** Positive numbers below 2^16 become negative, or 2^16 and more. */
  lemma SwappedSmall(n: int)
    requires 0 < n < 0x1_0000
    ensures Swapped(n) < 0 || Swapped(n) >= 0x1_0000
  {
    var b := Le32(n);
    BytewiseLe(b);
    assert b[2] == 0 && b[3] == 0;
    BytewiseBe(b);
    assert FromBe(b) == 0x1_0000 * (256 * b[0] as int + b[1] as int);
  }
}
