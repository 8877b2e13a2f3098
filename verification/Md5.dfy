/** md5.c: the buffered, chunk-by-chunk digest against the one-shot definition of RFC 1321. */
module Md5 {
  import opened Bytes

  const BLOCK_SIZE := 1024

  type Word = x: int | 0 <= x < 0x1_0000_0000

  datatype State = State(a: Word, b: Word, c: Word, d: Word)

  /** One round of section 3.4 of RFC 1321: the state after taking in one 64-byte block. */
  type Transform = (State, seq<Byte>) -> State

  /** Section 3.3 of RFC 1321. */
  const INIT := State(0x67452301, 0xEFCDAB89, 0x98BADCFE, 0x10325476)

  // ---- the one-shot definition ---------------------------------------------------------

  /** The state after every complete 64-byte block of m, in order; a shorter tail is ignored. */
  function Fold(f: Transform, s: State, m: seq<Byte>): State
    decreases |m|
  {
    if |m| < 64 then s else Fold(f, f(s, m[..64]), m[64..])
  }

  /** Section 3.1: at least one byte of padding, and as few as bring the length to 56 modulo 64. */
  function PadLength(n: nat): (p: nat)
    ensures 1 <= p <= 64 && (n + p) % 64 == 56
  {
    (55 - n) % 64 + 1
  }

  /** MD5Final's way of computing it. */
  lemma PadLengthByIndex(n: nat)
    ensures PadLength(n) == if n % 64 < 56 then 56 - n % 64 else 120 - n % 64
  {
    assert n == 64 * (n / 64) + n % 64;
  }

  function Padding(p: nat): seq<Byte>
    requires p >= 1
  {
    [0x80] + seq(p - 1, _ => 0)
  }

  /** Section 3.2: the length in bits modulo 2^64, lowest byte first. */
  ghost function Le64(n: nat): (r: seq<Byte>)
    ensures |r| == 8 && FromLe(r) == n % 0x1_0000_0000_0000_0000
  {
    LeWraps(n, 8);
    assert Power256(4) == 0x1_0000_0000 && Power256(8) == 0x1_0000_0000_0000_0000 by {
      assert Power256(2) == 0x1_0000;
      assert Power256(6) == 0x1_0000_0000_0000;
    }
    assert |Le(n, 8)| == 8;
    var r: seq<Byte> :| |r| == 8 && FromLe(r) == n % 0x1_0000_0000_0000_0000;
    r
  }

  ghost function Pad(m: seq<Byte>): (r: seq<Byte>)
    ensures |r| % 64 == 0 && m <= r
  {
    m + Padding(PadLength(|m|)) + Le64(8 * |m|)
  }

  ghost function EncodeWords(words: seq<Word>): seq<Byte> {
    if words == [] then [] else Le32(words[0]) + EncodeWords(words[1..])
  }

  function Words(s: State): seq<Word> { [s.a, s.b, s.c, s.d] }

  /** Sections 3.1 to 3.5 of RFC 1321. */
  ghost function Digest(f: Transform, m: seq<Byte>): seq<Byte> {
    EncodeWords(Words(Fold(f, INIT, Pad(m))))
  }

  /**
   * Behind the message a one bit and then zeros, up to the length in the last eight bytes
   * (sections 3.1 and 3.2).
   */
  lemma PadBytes(m: seq<Byte>)
    ensures var p := Pad(m);
      && |p| >= |m| + 9 && p[..|m|] == m && p[|m|] == 0x80
      && (forall i | |m| < i < |p| - 8 :: p[i] == 0)
      && p[|p| - 8..] == Le64(8 * |m|)
      && |p| % 64 == 0 && |p| <= |m| + 72
  {
    var k := PadLength(|m|);
    var p, q := Pad(m), Padding(k);
    assert |q| == k && p[|m|..|m| + k] == q;
    forall i | |m| < i < |p| - 8 ensures p[i] == 0 {
      assert p[i] == q[i - |m|];
    }
    assert p[|m|] == q[0];
  }

  /** The message ends before the last byte that is not zero, of those before the length. */
  lemma MessageEnd(m: seq<Byte>, i: nat)
    requires i < |Pad(m)| - 8 && Pad(m)[i] != 0 && forall j | i < j < |Pad(m)| - 8 :: Pad(m)[j] == 0
    ensures i == |m|
  {
    PadBytes(m);
  }

  /** So messages padded alike are the same, whatever their lengths. */
  lemma PadIsInjective(m: seq<Byte>, n: seq<Byte>)
    requires Pad(m) == Pad(n)
    ensures m == n
  {
    PadBytes(m);
    PadBytes(n);
    MessageEnd(n, |m|);
    assert m == Pad(m)[..|m|] && n == Pad(n)[..|n|];
  }

  /** The one block of the empty message. */
  lemma EmptyBlock(f: Transform, block: seq<Byte>)
    requires block ==
      [0x80, 0, 0, 0, 0, 0, 0, 0] + [0, 0, 0, 0, 0, 0, 0, 0] + [0, 0, 0, 0, 0, 0, 0, 0] + [0, 0, 0, 0, 0, 0, 0, 0] +
      [0, 0, 0, 0, 0, 0, 0, 0] + [0, 0, 0, 0, 0, 0, 0, 0] + [0, 0, 0, 0, 0, 0, 0, 0] + [0, 0, 0, 0, 0, 0, 0, 0]
    ensures Pad([]) == block && Digest(f, []) == EncodeWords(Words(f(INIT, block)))
  {
    var p := Pad([]);
    EmptyPad(p);
    assert p == block;
    assert p[..64] == p && p[64..] == [];
  }

  lemma EmptyPad(p: seq<Byte>)
    requires p == Pad([])
    ensures |p| == 64 && p[0] == 0x80 && forall i | 1 <= i < 64 :: p[i] == 0
  {
    PadBytes([]);
    ZeroLength(p[56..]);
    forall i | 1 <= i < 64 ensures p[i] == 0 {
      assert i >= 56 ==> p[i] == p[56..][i - 56];
    }
  }

  lemma ZeroLength(b: seq<Byte>)
    requires b == Le64(0)
    ensures forall i | 0 <= i < 8 :: b[i] == 0
  {
    var zeros: seq<Byte> := [0, 0, 0, 0, 0, 0, 0, 0];
    AllZero(zeros);
    FromLeInjective(b, zeros);
  }

  lemma {:induction false} AllZero(b: seq<Byte>)
    requires forall i | 0 <= i < |b| :: b[i] == 0
    ensures FromLe(b) == 0
  {
    if b != [] {
      AllZero(b[1..]);
    }
  }

  /** The four words of section 3.3, as that section lists their bytes. */
  lemma InitBytes()
    ensures EncodeWords(Words(INIT)) ==
      [0x01, 0x23, 0x45, 0x67] + [0x89, 0xAB, 0xCD, 0xEF] + [0xFE, 0xDC, 0xBA, 0x98] + [0x76, 0x54, 0x32, 0x10]
  {
    FourBytesAre(0x01, 0x23, 0x45, 0x67, INIT.a);
    FourBytesAre(0x89, 0xAB, 0xCD, 0xEF, INIT.b);
    FourBytesAre(0xFE, 0xDC, 0xBA, 0x98, INIT.c);
    FourBytesAre(0x76, 0x54, 0x32, 0x10, INIT.d);
    FourWords(INIT.a, INIT.b, INIT.c, INIT.d);
  }

  lemma FourWords(a: Word, b: Word, c: Word, d: Word)
    ensures EncodeWords([a, b, c, d]) == Le32(a) + Le32(b) + Le32(c) + Le32(d)
  {
    EncodeAppends([], a);
    assert [] + Le32(a) == Le32(a) && [] + [a] == [a];
    EncodeAppends([a], b);
    assert [a] + [b] == [a, b];
    EncodeAppends([a, b], c);
    assert [a, b] + [c] == [a, b, c];
    EncodeAppends([a, b, c], d);
    assert [a, b, c] + [d] == [a, b, c, d];
  }

  // ---- laws of the fold ----------------------------------------------------------------

  lemma {:induction false} FoldBlock(f: Transform, s: State, m: seq<Byte>, block: seq<Byte>)
    requires |m| % 64 == 0 && |block| == 64
    ensures Fold(f, s, m + block) == f(Fold(f, s, m), block)
    decreases |m|
  {
    if m == [] {
      assert m + block == block && block[..64] == block;
    } else {
      assert (m + block)[..64] == m[..64];
      assert (m + block)[64..] == m[64..] + block;
      FoldBlock(f, f(s, m[..64]), m[64..], block);
    }
  }

  lemma {:induction false} FoldTail(f: Transform, s: State, m: seq<Byte>, tail: seq<Byte>)
    requires |m| % 64 == 0 && |tail| < 64
    ensures Fold(f, s, m + tail) == Fold(f, s, m)
    decreases |m|
  {
    if m != [] {
      assert (m + tail)[..64] == m[..64];
      assert (m + tail)[64..] == m[64..] + tail;
      FoldTail(f, f(s, m[..64]), m[64..], tail);
    }
  }

  /** What is left of m after its complete blocks. */
  function Rest(m: seq<Byte>): (r: seq<Byte>)
    ensures |r| == |m| % 64
  {
    m[|m| - |m| % 64..]
  }

  lemma Whole(m: seq<Byte>) returns (whole: seq<Byte>)
    ensures |whole| % 64 == 0 && m == whole + Rest(m)
  {
    whole := m[..|m| - |m| % 64];
    assert |whole| == 64 * (|m| / 64);
  }

  /** Completing the open block: its bytes are the rest of m and then the head of the input. */
  lemma FoldCompletes(f: Transform, m: seq<Byte>, head: seq<Byte>)
    requires |m| % 64 + |head| == 64
    ensures Fold(f, INIT, m + head) == f(Fold(f, INIT, m), Rest(m) + head)
  {
    var whole := Whole(m);
    FoldSplit(f, whole, Rest(m), head);
  }

  lemma FoldSplit(f: Transform, whole: seq<Byte>, rest: seq<Byte>, head: seq<Byte>)
    requires |whole| % 64 == 0 && |rest| < 64 && |rest| + |head| == 64
    ensures Fold(f, INIT, whole + rest + head) == f(Fold(f, INIT, whole + rest), rest + head)
  {
    assert whole + rest + head == whole + (rest + head);
    FoldBlock(f, INIT, whole, rest + head);
    FoldTail(f, INIT, whole, rest);
  }

  // ---- the two count words -------------------------------------------------------------

  /** The bit count, kept in two 32-bit words with a carry. */
  ghost predicate Counts(low: Word, high: Word, n: nat) {
    low + 0x1_0000_0000 * high == 8 * n % 0x1_0000_0000_0000_0000
  }

  lemma CountIndex(low: Word, high: Word, n: nat)
    requires Counts(low, high, n)
    ensures low / 8 % 64 == n % 64
  {
    var q := 8 * n / 0x1_0000_0000_0000_0000;
    assert 8 * n == low + 0x1_0000_0000 * high + 0x1_0000_0000_0000_0000 * q;
    assert n == low / 8 + 64 * (0x80_0000 * high + 0x80_0000 * 0x1_0000_0000 * q);
  }

  lemma Carries(a: Word, b: Word)
    ensures a + b == (a + b) % 0x1_0000_0000 + (if (a + b) % 0x1_0000_0000 < b then 0x1_0000_0000 else 0)
  {
  }

  lemma Modulo64(n: int, r: int, q: int)
    requires n == r + 0x1_0000_0000_0000_0000 * q && 0 <= r < 0x1_0000_0000_0000_0000
    ensures n % 0x1_0000_0000_0000_0000 == r
  {
  }

  lemma WordsAdvance(low: Word, high: Word, shifted: Word, top: nat, low': Word, high1: Word, high': Word)
    returns (over: int)
    requires low' == (low + shifted) % 0x1_0000_0000
    requires high1 == if low' < shifted then (high + 1) % 0x1_0000_0000 else high
    requires high' == (high1 + top) % 0x1_0000_0000
    ensures low + 0x1_0000_0000 * high + shifted + 0x1_0000_0000 * top
         == low' + 0x1_0000_0000 * high' + 0x1_0000_0000_0000_0000 * over
  {
    Carries(low, shifted);
    var carry := if low' < shifted then 1 else 0;
    over := (high + carry) / 0x1_0000_0000 + (high1 + top) / 0x1_0000_0000;
  }

  lemma ShiftedLength(len: Word)
    ensures 8 * len == 8 * len % 0x1_0000_0000 + 0x1_0000_0000 * (len / 0x2000_0000)
  {
  }

  /** Adding a length of bits word by word, whatever the length, is adding it modulo 2^64. */
  lemma CountAdvances(low: Word, high: Word, n: nat, len: Word, low': Word, high1: Word, high': Word)
    requires Counts(low, high, n)
    requires low' == (low + 8 * len % 0x1_0000_0000) % 0x1_0000_0000
    requires high1 == if low' < 8 * len % 0x1_0000_0000 then (high + 1) % 0x1_0000_0000 else high
    requires high' == (high1 + len / 0x2000_0000) % 0x1_0000_0000
    ensures Counts(low', high', n + len)
  {
    var over := WordsAdvance(low, high, 8 * len % 0x1_0000_0000, len / 0x2000_0000, low', high1, high');
    ShiftedLength(len);
    var q := 8 * n / 0x1_0000_0000_0000_0000;
    assert 8 * n == low + 0x1_0000_0000 * high + 0x1_0000_0000_0000_0000 * q;
    Modulo64(8 * (n + len), low' + 0x1_0000_0000 * high', over + q);
  }

  /** The two words, each written lowest byte first, are the 64-bit length so written. */
  lemma CountEncodes(low: Word, high: Word, n: nat)
    requires Counts(low, high, n)
    ensures EncodeWords([low, high]) == Le64(8 * n)
  {
    assert [low, high][1..] == [high];
    assert EncodeWords([high]) == Le32(high) + [];
    FromLePair(Le32(low), Le32(high));
    FromLeInjective(Le32(low) + Le32(high), Le64(8 * n));
  }

  lemma FromLePair(a: seq<Byte>, b: seq<Byte>)
    requires |a| == 4
    ensures FromLe(a + b) == FromLe(a) + 0x1_0000_0000 * FromLe(b)
  {
    FromLeConcat(a, b);
    assert Power256(2) == 0x1_0000;
    assert Power256(|a|) == 0x1_0000_0000;
  }

  lemma {:induction false} FromLeConcat(a: seq<Byte>, b: seq<Byte>)
    ensures FromLe(a + b) == FromLe(a) + Power256(|a|) * FromLe(b)
  {
    if a == [] {
      assert a + b == b;
    } else {
      assert (a + b)[1..] == a[1..] + b;
      FromLeConcat(a[1..], b);
      assert 256 * (Power256(|a| - 1) * FromLe(b)) == Power256(|a|) * FromLe(b);
    }
  }

  // ---- MD5Encode and MD5Decode ---------------------------------------------------------

  lemma {:induction false} EncodeAppends(words: seq<Word>, w: Word)
    ensures EncodeWords(words + [w]) == EncodeWords(words) + Le32(w)
  {
    if words == [] {
      assert EncodeWords([w][1..]) == [];
      assert words + [w] == [w];
    } else {
      assert (words + [w])[1..] == words[1..] + [w];
      EncodeAppends(words[1..], w);
    }
  }

  lemma DivideTwice(w: nat)
    ensures w / 0x1_0000 == w / 0x100 / 0x100 && w / 0x100_0000 == w / 0x1_0000 / 0x100
  {
  }

  lemma FourBytes(w: Word)
    ensures [w % 0x100, w / 0x100 % 0x100, w / 0x1_0000 % 0x100, w / 0x100_0000 % 0x100] == Le32(w)
  {
    DivideTwice(w);
    var p, q, r, t := w % 0x100, w / 0x100 % 0x100, w / 0x1_0000 % 0x100, w / 0x100_0000 % 0x100;
    assert w == p + 0x100 * q + 0x1_0000 * r + 0x100_0000 * t;
    FourBytesAre(p, q, r, t, w);
  }

  lemma FourBytesAre(p: Byte, q: Byte, r: Byte, t: Byte, w: Word)
    requires w == p as int + 0x100 * q as int + 0x1_0000 * r as int + 0x100_0000 * t as int
    ensures [p, q, r, t] == Le32(w)
  {
    BytewiseLe([p, q, r, t]);
    FromLeInjective([p, q, r, t], Le32(w));
  }

  method MD5Encode(output: array<Byte>, input: seq<Word>, len: nat)
    requires len % 4 == 0 && len <= output.Length && len == 4 * |input|
    modifies output
    ensures output[..len] == EncodeWords(input)
    ensures output[len..] == old(output[len..])
  {
    var i, j := 0, 0;
    while j < len
      invariant 0 <= j <= len && j == 4 * i
      invariant output[..j] == EncodeWords(input[..i])
      invariant output[len..] == old(output[len..])
    {
      var w := input[i];
      output[j] := w % 0x100;
      output[j + 1] := w / 0x100 % 0x100;
      output[j + 2] := w / 0x1_0000 % 0x100;
      output[j + 3] := w / 0x100_0000 % 0x100;
      FourBytes(w);
      EncodeAppends(input[..i], w);
      assert input[..i + 1] == input[..i] + [w];
      assert output[j..j + 4] == Le32(w);
      assert output[..j + 4] == output[..j] + output[j..j + 4];
      i, j := i + 1, j + 4;
    }
    assert input[..i] == input;
  }

  method ReadWord(input: seq<Byte>, j: nat) returns (w: Word)
    requires j + 4 <= |input|
    ensures Le32(w) == input[j..j + 4]
  {
    BytewiseLe(input[j..j + 4]);
    w := input[j] as int + 0x100 * input[j + 1] as int + 0x1_0000 * input[j + 2] as int + 0x100_0000 * input[j + 3] as int;
    FromLeInjective(input[j..j + 4], Le32(w));
  }

  /** MD5Decode is the inverse reading: the words it finds are the ones MD5Encode would write there. */
  method MD5Decode(output: array<Word>, input: seq<Byte>, len: nat)
    requires len % 4 == 0 && len <= |input| && len <= 4 * output.Length
    modifies output
    ensures EncodeWords(output[..len / 4]) == input[..len]
    ensures output[len / 4..] == old(output[len / 4..])
  {
    var i, j := 0, 0;
    while j < len
      invariant 0 <= j <= len && j == 4 * i
      invariant EncodeWords(output[..i]) == input[..j]
      invariant output[len / 4..] == old(output[len / 4..])
    {
      var w := ReadWord(input, j);
      output[i] := w;
      EncodeAppends(output[..i], w);
      assert output[..i + 1] == output[..i] + [w];
      assert input[..j + 4] == input[..j] + input[j..j + 4];
      i, j := i + 1, j + 4;
    }
  }

  lemma Remainders(n: nat, k: nat)
    requires n % 64 + k <= 64
    ensures (n + k) % 64 == if n % 64 + k == 64 then 0 else n % 64 + k
  {
  }

  // ---- the context ---------------------------------------------------------------------

  /**
   * From this length on, the 32-bit test `i + 64 <= inputlen` of MD5Update wraps around and
   * the loop reads past the input. `pending` is the number of bytes waiting in the buffer.
   */
  function UnsafeLength(pending: nat): nat
    requires pending < 64
  {
    0x1_0000_0000 - (if pending == 0 then 64 else pending)
  }

  /** i is where the block loop stands with fewer than 64 bytes left: it wraps exactly here. */
  lemma WrapPoint(n: nat, i: nat, len: Word)
    requires (n + i) % 64 == 0 && i <= len < i + 64
    ensures i + 64 >= 0x1_0000_0000 <==> len >= UnsafeLength(n % 64)
  {
    Remainders(n, 64 - n % 64);
    var k := (n + i) / 64 - n / 64;
    assert i == 64 * k - n % 64;
  }

  method CopyInto(dst: array<Byte>, at: nat, src: seq<Byte>)
    requires at + |src| <= dst.Length
    modifies dst
    ensures dst[..] == old(dst[..at]) + src + old(dst[at + |src|..])
  {
    var i := 0;
    while i < |src|
      invariant 0 <= i <= |src|
      invariant dst[..at] == old(dst[..at])
      invariant dst[at..at + i] == src[..i]
      invariant dst[at + i..] == old(dst[at + i..])
    {
      dst[at + i] := src[i];
      i := i + 1;
    }
  }

  class Context {
    const transform: Transform
    const buffer: array<Byte>
    var low: Word   // count[0]
    var high: Word  // count[1]
    var state: State

    /** The context stands for the message m: blocks folded, rest buffered, bits counted. */
    ghost predicate Absorbed(m: seq<Byte>)
      reads this, buffer
    {
      && buffer.Length == 64
      && Counts(low, high, |m|)
      && state == Fold(transform, INIT, m)
      && buffer[..|m| % 64] == Rest(m)
    }

    constructor (f: Transform)
      ensures Absorbed([]) && transform == f && fresh(buffer)
    {
      transform := f;
      buffer := new Byte[64];
      low, high, state := 0, 0, INIT;
    }

    /** The first half of MD5Update: advance the count. */
    method Count(inputlen: Word, ghost n: nat)
      requires Counts(low, high, n)
      modifies this`low, this`high
      ensures Counts(low, high, n + inputlen)
    {
      var shifted := 8 * inputlen % 0x1_0000_0000;
      low := (low + shifted) % 0x1_0000_0000;
      if low < shifted {
        high := (high + 1) % 0x1_0000_0000;
      }
      ghost var high1 := high;
      high := (high + inputlen / 0x2000_0000) % 0x1_0000_0000;
      CountAdvances(old(low), old(high), n, inputlen, low, high1, high);
    }

    /** The loop of MD5Update over whole blocks of the input, with its 32-bit comparison. */
    method Blocks(input: seq<Byte>, start: nat, ghost m: seq<Byte>) returns (fault: bool, i: nat)
      requires start <= |input| < 0x1_0000_0000 && start <= 64 && (|m| + start) % 64 == 0
      requires 1 <= start
      requires state == Fold(transform, INIT, m + input[..start])
      modifies this`state
      ensures fault <==> |input| >= UnsafeLength(|m| % 64)
      ensures !fault ==>
        && start <= i <= |input| < i + 64 && (|m| + i) % 64 == 0
        && state == Fold(transform, INIT, m + input[..i])
    {
      i := start;
      while (i + 64) % 0x1_0000_0000 <= |input|
        invariant start <= i <= |input| && (|m| + i) % 64 == 0
        invariant state == Fold(transform, INIT, m + input[..i])
        decreases |input| - i
      {
        if i + 64 > |input| {
          WrapPoint(|m|, i, |input|);
          return true, i;
        }
        FoldBlock(transform, INIT, m + input[..i], input[i..i + 64]);
        assert m + input[..i + 64] == m + input[..i] + input[i..i + 64];
        state := transform(state, input[i..i + 64]);
        i := i + 64;
      }
      WrapPoint(|m|, i, |input|);
      fault := false;
    }

    /** MD5Update on an input that completes the open block. */
    method Through(input: seq<Byte>, index: nat, ghost m: seq<Byte>) returns (fault: bool)
      requires index == |m| % 64 && 64 - index <= |input| < 0x1_0000_0000
      requires buffer.Length == 64 && state == Fold(transform, INIT, m) && buffer[..index] == Rest(m)
      modifies this`state, buffer
      ensures fault <==> |input| >= UnsafeLength(index)
      ensures !fault ==> state == Fold(transform, INIT, m + input)
      ensures !fault ==> buffer[..|m + input| % 64] == Rest(m + input)
    {
      var partlen := 64 - index;
      Remainders(|m|, partlen);
      FoldCompletes(transform, m, input[..partlen]);
      CopyInto(buffer, index, input[..partlen]);
      assert buffer[..] == Rest(m) + input[..partlen];
      state := transform(state, buffer[..]);
      var i;
      fault, i := Blocks(input, partlen, m);
      if fault {
        return;
      }
      AbsorbedTail(transform, m + input[..i], input[i..]);
      assert m + input == m + input[..i] + input[i..];
      CopyInto(buffer, 0, input[i..]);
      assert buffer[..|input| - i] == input[i..];
    }

    /** MD5Update: the input joins the message, in every case but the one named. */
    method Update(input: seq<Byte>, ghost m: seq<Byte>) returns (fault: bool)
      requires |input| < 0x1_0000_0000 && Absorbed(m)
      modifies this`low, this`high, this`state, buffer
      ensures fault <==> |input| >= UnsafeLength(|m| % 64)
      ensures !fault ==> Absorbed(m + input)
    {
      CountIndex(low, high, |m|);
      var index := low / 8 % 64;
      var partlen := 64 - index;
      Count(|input|, |m|);
      if |input| >= partlen {
        fault := Through(input, index, m);
      } else {
        CopyInto(buffer, index, input);
        StillPending(transform, m, input);
        fault := false;
      }
    }

    /** MD5Final: the digest of everything taken in. */
    method Final(ghost m: seq<Byte>) returns (digest: seq<Byte>)
      requires Absorbed(m)
      modifies this`low, this`high, this`state, buffer
      ensures digest == Digest(transform, m)
    {
      CountIndex(low, high, |m|);
      var index := low / 8 % 64;
      var padlen := if index < 56 then 56 - index else 120 - index;
      PadLengthByIndex(|m|);
      var bits := new Byte[8];
      CountEncodes(low, high, |m|);
      MD5Encode(bits, [low, high], 8);
      var length := bits[..];
      assert length == bits[..8];
      var fault := Update(Padding(padlen), m);
      fault := Update(length, m + Padding(padlen));
      var out := new Byte[16];
      MD5Encode(out, Words(state), 16);
      digest := out[..16];
    }
  }

  /** A message of whole blocks and a tail: the fold is of the blocks, the rest is the tail. */
  lemma AbsorbedTail(f: Transform, whole: seq<Byte>, tail: seq<Byte>)
    requires |whole| % 64 == 0 && |tail| < 64
    ensures Fold(f, INIT, whole + tail) == Fold(f, INIT, whole)
    ensures |whole + tail| % 64 == |tail| && Rest(whole + tail) == tail
  {
    FoldTail(f, INIT, whole, tail);
    Remainders(|whole|, |tail|);
  }

  lemma StillPending(f: Transform, m: seq<Byte>, input: seq<Byte>)
    requires |m| % 64 + |input| < 64
    ensures Fold(f, INIT, m + input) == Fold(f, INIT, m)
    ensures |m + input| % 64 == |m| % 64 + |input| && Rest(m + input) == Rest(m) + input
  {
    var whole := Whole(m);
    var rest := Rest(m);
    assert m + input == whole + (rest + input);
    AbsorbedTail(f, whole, rest + input);
    FoldTail(f, INIT, whole, rest);
  }

  // ---- any way of cutting the message --------------------------------------------------

  function Flatten(chunks: seq<seq<Byte>>): seq<Byte> {
    if chunks == [] then [] else chunks[0] + Flatten(chunks[1..])
  }

  lemma {:induction false} FlattenAppends(chunks: seq<seq<Byte>>, c: seq<Byte>)
    ensures Flatten(chunks + [c]) == Flatten(chunks) + c
  {
    if chunks == [] {
      assert chunks + [c] == [c] && [c][1..] == [];
    } else {
      assert (chunks + [c])[1..] == chunks[1..] + [c];
      FlattenAppends(chunks[1..], c);
    }
  }

  /** A chunk is read past when it is as long as that, given the bytes pending from the chunks before it. */
  ghost predicate ReadPast(chunks: seq<seq<Byte>>, i: nat)
    requires i < |chunks|
  {
    |chunks[i]| >= UnsafeLength(|Flatten(chunks[..i])| % 64)
  }

  /**
   * However a message is cut into updates, the digest is the one-shot digest, unless some chunk is
   * read past; and every chunk is safe that is not within 64 bytes of 4 GiB.
   */
  method DigestChunks(f: Transform, chunks: seq<seq<Byte>>) returns (fault: bool, digest: seq<Byte>)
    requires forall c | c in chunks :: |c| < 0x1_0000_0000
    ensures fault <==> exists i | 0 <= i < |chunks| :: ReadPast(chunks, i)
    ensures !fault ==> digest == Digest(f, Flatten(chunks))
  {
    var context := new Context(f);
    var i := 0;
    while i < |chunks|
      invariant 0 <= i <= |chunks|
      invariant context.Absorbed(Flatten(chunks[..i])) && forall k | 0 <= k < i :: !ReadPast(chunks, k)
      invariant context.transform == f && fresh(context) && fresh(context.buffer)
    {
      FlattenAppends(chunks[..i], chunks[i]);
      assert chunks[..i + 1] == chunks[..i] + [chunks[i]];
      fault := context.Update(chunks[i], Flatten(chunks[..i]));
      if fault {
        assert ReadPast(chunks, i);
        return true, [];
      }
      i := i + 1;
    }
    assert chunks[..i] == chunks;
    fault := false;
    digest := context.Final(Flatten(chunks));
  }

  /** md5_str: chunks of 1024 bytes, the last one shorter (possibly empty). */
  method Md5Str(f: Transform, str: seq<Byte>) returns (digest: seq<Byte>)
    requires |str| < 0x1_0000_0000
    ensures digest == Digest(f, str)
  {
    var context := new Context(f);
    var at, len := 0, |str|;
    while true
      invariant at + len == |str| && 0 <= len
      invariant context.Absorbed(str[..at])
      invariant context.transform == f && fresh(context) && fresh(context.buffer)
      decreases len
    {
      var ret := if len < BLOCK_SIZE then len else BLOCK_SIZE;
      var _ := context.Update(str[at..at + ret], str[..at]);
      assert str[..at] + str[at..at + ret] == str[..at + ret];
      if ret < BLOCK_SIZE {
        break;
      }
      at, len := at + BLOCK_SIZE, len - BLOCK_SIZE;
    }
    assert str[..at + len] == str;
    digest := context.Final(str);
  }

  /** fread from a regular file: short only at the end of the file. */
  method Fread(file: seq<Byte>, at: nat, n: nat) returns (data: seq<Byte>)
    requires at <= |file|
    ensures data == file[at..if at + n <= |file| then at + n else |file|]
  {
    data := file[at..if at + n <= |file| then at + n else |file|];
  }

  /** One turn of the loop of md5_file. */
  method TakeBlock(context: Context, file: seq<Byte>, at: nat) returns (n: nat)
    requires at <= |file| && context.Absorbed(file[..at])
    modifies context, context.buffer
    ensures at + n <= |file| && context.Absorbed(file[..at + n])
    ensures n < BLOCK_SIZE ==> at + n == |file|
    ensures n >= BLOCK_SIZE ==> n == BLOCK_SIZE
  {
    var data := Fread(file, at, BLOCK_SIZE);
    var _ := context.Update(data, file[..at]);
    n := |data|;
    assert file[..at] + data == file[..at + n];
  }

  /** md5_file: blocks as fread delivers them until a short one. */
  method Md5File(f: Transform, file: seq<Byte>) returns (digest: seq<Byte>)
    ensures digest == Digest(f, file)
  {
    var context := new Context(f);
    var at := 0;
    while true
      invariant 0 <= at <= |file| && context.Absorbed(file[..at])
      invariant context.transform == f && fresh(context) && fresh(context.buffer)
      decreases |file| - at
    {
      var n := TakeBlock(context, file, at);
      at := at + n;
      if n < BLOCK_SIZE {
        break;
      }
    }
    assert file[..at] == file;
    digest := context.Final(file);
  }

  /** The shortest input on which a fresh context reads past the end, and the longest on which it does not. */
  method OverRead(f: Transform, input: seq<Byte>) returns (fault: bool)
    requires 0xFFFF_FFBF <= |input| <= 0xFFFF_FFC0
    ensures fault <==> |input| == 0x1_0000_0000 - 64
  {
    var context := new Context(f);
    fault := context.Update(input, []);
  }
}
