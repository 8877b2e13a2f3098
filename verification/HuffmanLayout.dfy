/** Where everything stands in the output of huffman_compress, byte by byte and bit by bit. */
module HuffmanLayout {
  import opened Bytes
  import opened HuffmanTree
  import opened HuffmanCode
  import opened HuffmanCodec
  import opened HuffmanBounds
  import opened HuffmanOrder

  /** How many different bytes occur. */
  function Different(input: seq<Byte>): nat { |set c: Byte | c in input| }

  /** How many of them are below ch. */
  function Rank(input: seq<Byte>, ch: nat): nat {
    if ch == 0 then 0 else Rank(input, ch - 1) + if Count(input, ch - 1) > 0 then 1 else 0
  }

  lemma {:induction false} RankCounts(input: seq<Byte>, n: nat)
    requires n <= CHARSET_SIZE
    ensures Rank(input, n) == |set c: Byte | c in input && c < n|
  {
    if n > 0 {
      RankCounts(input, n - 1);
      CountPositive(input, n - 1);
      var c: Byte := n - 1;
      var before, now := set c: Byte | c in input && c < n - 1, set c: Byte | c in input && c < n;
      assert now == if c in input then before + {c} else before;
    }
  }

  /** The entry of a byte that occurs: behind one for every smaller such byte, the byte and then its number of occurrences. */
  ghost predicate EntryAt(host: Order, input: seq<Byte>, b: seq<Byte>, ch: nat) {
    var at := 2 + 5 * Rank(input, ch);
    at + 5 <= |b| && b[at] == ch && Int32(host, b[at + 1..at + 5]) == Count(input, ch)
  }

  lemma {:induction false} OccurringRank(input: seq<Byte>, n: nat)
    requires n <= CHARSET_SIZE
    ensures Occurring(Freq(input), n) + Rank(input, n) == Different(input)
    decreases CHARSET_SIZE - n
  {
    if n == CHARSET_SIZE {
      RankCounts(input, n);
      assert (set c: Byte | c in input && c < n) == set c: Byte | c in input;
    } else {
      OccurringRank(input, n + 1);
    }
  }

  ghost predicate Stands(b: seq<Byte>, at: nat, part: seq<Byte>) {
    at + |part| <= |b| && b[at..at + |part|] == part
  }

  lemma StandsParts(b: seq<Byte>, at: nat, first: seq<Byte>, rest: seq<Byte>)
    requires Stands(b, at, first + rest)
    ensures Stands(b, at, first) && Stands(b, at + |first|, rest)
  {
    var all := first + rest;
    assert b[at..at + |all|][..|first|] == first && b[at..at + |all|][|first|..] == rest;
  }

  lemma EntryStands(host: Order, b: seq<Byte>, at: nat, ch: Byte, freq: int)
    requires Stands(b, at, Entry(host, ch, freq)) && IsInt(freq)
    ensures b[at] == ch && Int32(host, b[at + 1..at + 5]) == freq
  {
    var e := Entry(host, ch, freq);
    assert b[at] == e[0];
    assert b[at + 1..at + 5] == e[1..] == IntBytes(host, freq);
    Int32RoundTrip(host, freq);
  }

  ghost predicate Remaining(host: Order, input: seq<Byte>, n: nat, b: seq<Byte>)
    requires n <= CHARSET_SIZE
  {
    Stands(b, 2 + 5 * Rank(input, n), Entries(host, Freq(input), n))
  }

  lemma NextRemains(host: Order, input: seq<Byte>, n: nat, b: seq<Byte>)
    requires n < CHARSET_SIZE && Remaining(host, input, n, b)
    ensures Remaining(host, input, n + 1, b)
    ensures Count(input, n) > 0 ==> Stands(b, 2 + 5 * Rank(input, n), Entry(host, n, Count(input, n)))
  {
    var table := Freq(input);
    assert table[n] == Count(input, n);
    EntriesFrom(host, table, n, b, 2 + 5 * Rank(input, n));
  }

  lemma EntriesFrom(host: Order, table: seq<int>, n: nat, b: seq<Byte>, at: nat)
    requires n < |table| == CHARSET_SIZE && Stands(b, at, Entries(host, table, n))
    ensures table[n] == 0 ==> Stands(b, at, Entries(host, table, n + 1))
    ensures table[n] != 0 ==>
      Stands(b, at, Entry(host, n, table[n])) && Stands(b, at + 5, Entries(host, table, n + 1))
  {
    var rest := Entries(host, table, n + 1);
    if table[n] == 0 {
      assert [] + rest == rest;
    } else {
      StandsParts(b, at, Entry(host, n, table[n]), rest);
    }
  }

  lemma {:induction false} RemainsTo(host: Order, input: seq<Byte>, n: nat, b: seq<Byte>, ch: nat)
    requires n <= ch < CHARSET_SIZE && Remaining(host, input, n, b)
    ensures Remaining(host, input, ch, b)
    decreases ch - n
  {
    if n < ch {
      NextRemains(host, input, n, b);
      RemainsTo(host, input, n + 1, b, ch);
    }
  }

  lemma EntryRemains(host: Order, input: seq<Byte>, n: nat, b: seq<Byte>, ch: Byte)
    requires |input| < 0x8000_0000 && n == 0 && Remaining(host, input, n, b) && ch in input
    ensures EntryAt(host, input, b, ch)
  {
    CountPositive(input, ch);
    RemainsTo(host, input, n, b, ch);
    NextRemains(host, input, ch, b);
    EntryStands(host, b, 2 + 5 * Rank(input, ch), ch, Count(input, ch));
  }

  lemma AllEntries(host: Order, input: seq<Byte>, n: nat, b: seq<Byte>)
    requires |input| < 0x8000_0000 && n == 0 && Stands(b, 2, Entries(host, Freq(input), n))
    ensures forall ch: Byte | ch in input :: EntryAt(host, input, b, ch)
  {
    assert Rank(input, n) == 0;
    forall ch: Byte | ch in input ensures EntryAt(host, input, b, ch) {
      EntryRemains(host, input, n, b, ch);
    }
  }

  /** Bits behind each other, the highest bit of a byte first. */
  ghost predicate BitsAt(b: seq<Byte>, at: nat, bits: seq<bool>) {
    forall i: nat | i < |bits| :: at + i / 8 < |b| && GetBit(b[at + i / 8], 8 - i % 8) == bits[i]
  }

  lemma {:induction false} HeldBit(b: seq<Byte>, pos: nat, index: nat, bits: seq<bool>, i: nat)
    requires index <= 8 && Holds(b, pos, index, bits) && i < |bits|
    ensures var k := 8 - index + i; pos + k / 8 < |b| && GetBit(b[pos + k / 8], 8 - k % 8) == bits[i]
    decreases |bits|
  {
    var p, at := if index == 0 then pos + 1 else pos, if index == 0 then 8 else index;
    if i > 0 {
      HeldBit(b, p, at - 1, bits[1..], i - 1);
    }
  }

  lemma BodyHolds(input: seq<Byte>)
    requires input != []
    ensures Holds(Body(input), 0, 8, Encode(input, Codes(InputTree(input))))
  {
    var bits, body := Encode(input, Codes(InputTree(input))), Body(input);
    KeptNow(WriteBits(START_WRITING, bits), []);
    assert body + [] == body;
    ReadBack(START_WRITING, bits, body);
  }

  lemma OutputParts(host: Order, input: seq<Byte>, b: seq<Byte>) returns (cnt: nat)
    requires input != [] && b == CompressedBytes(host, input)
    ensures cnt == Different(input) <= CHARSET_SIZE && |b| == 6 + 5 * cnt + |Body(input)|
    ensures Stands(b, 0, ShortBytes(host, cnt)) && Stands(b, 2, Entries(host, Freq(input), 0))
    ensures Stands(b, 2 + 5 * cnt, IntBytes(host, |input|)) && Stands(b, 6 + 5 * cnt, Body(input))
  {
    OccurringRank(input, 0);
    cnt := Occurring(Freq(input), 0);
    var entries := Entries(host, Freq(input), 0);
    assert |entries| == 5 * cnt;
    FourParts(ShortBytes(host, cnt), entries, IntBytes(host, |input|), Body(input));
  }

  lemma FourParts(p: seq<Byte>, q: seq<Byte>, r: seq<Byte>, t: seq<Byte>)
    ensures var b := p + q + r + t;
      && Stands(b, 0, p) && Stands(b, |p|, q) && Stands(b, |p| + |q|, r) && Stands(b, |p| + |q| + |r|, t)
  {
  }

  lemma BodyLaid(b: seq<Byte>, at: nat, body: seq<Byte>, bits: seq<bool>)
    requires Stands(b, at, body) && Holds(body, 0, 8, bits)
    ensures BitsAt(b, at, bits)
  {
    forall i: nat | i < |bits| ensures at + i / 8 < |b| && GetBit(b[at + i / 8], 8 - i % 8) == bits[i] {
      HeldBit(body, 0, 8, bits, i);
      assert b[at + i / 8] == b[at..at + |body|][i / 8];
    }
  }

  /**
   * The output: the number of different bytes, an entry for each of them in byte order, the length
   * of the input, and the codewords bit by bit.
   */
  lemma Layout(host: Order, input: seq<Byte>, b: seq<Byte>)
    requires 0 < |input| < 0x8000_0000 && b == CompressedBytes(host, input)
    ensures var at := 2 + 5 * Different(input);
      && |b| >= at + 4
      && Int16(host, b[..2]) == Different(input)
      && (forall ch: Byte | ch in input :: EntryAt(host, input, b, ch))
      && Int32(host, b[at..at + 4]) == |input|
      && BitsAt(b, at + 4, Encode(input, Codes(InputTree(input))))
  {
    var cnt := OutputParts(host, input, b);
    NumbersStand(host, b, cnt, |input|);
    AllEntries(host, input, 0, b);
    BodyHolds(input);
    BodyLaid(b, 6 + 5 * cnt, Body(input), Encode(input, Codes(InputTree(input))));
  }

  lemma NumbersStand(host: Order, b: seq<Byte>, cnt: nat, len: nat)
    requires cnt <= CHARSET_SIZE && len < 0x8000_0000
    requires Stands(b, 0, ShortBytes(host, cnt)) && Stands(b, 2 + 5 * cnt, IntBytes(host, len))
    ensures Int16(host, b[..2]) == cnt && Int32(host, b[2 + 5 * cnt..6 + 5 * cnt]) == len
  {
    Int16RoundTrip(host, cnt);
    Int32RoundTrip(host, len);
    assert b[..2] == b[0..2];
  }

  /** "aab": a is the more frequent one, so b is fetched first and becomes the left child; the three bits are 001. */
  lemma Aab(input: seq<Byte>)
    requires input == [97, 97, 98]
    ensures Codes(InputTree(input)) == map[97 := [false], 98 := [true]]
    ensures Body(input) == [0x20]
  {
    assert input[..2] == [97, 97] && input[..2][..1] == [97] && input[..2][..1][..0] == [];
    var table := Freq(input);
    forall ch | 0 <= ch < |table| ensures table[ch] == if ch == 97 then 2 else if ch == 98 then 1 else 0 {
      assert Count(input[..2][..1], ch) == if ch == 97 then 1 else 0;
      assert Count(input[..2], ch) == if ch == 97 then 2 else 0;
    }
    TwoCodes(table, 97, 98);
    AabBits(input, Codes(InputTree(input)));
    ThreeBits([false, false, true]);
  }

  lemma AabBits(input: seq<Byte>, c: Code)
    requires input == [97, 97, 98] && c == map[97 := [false], 98 := [true]]
    ensures Encode(input, c) == [false, false, true]
  {
    assert input[1..] == [97, 98] && input[1..][1..] == [98] && input[1..][1..][1..] == [];
    assert Encode(input[1..][1..], c) == [true] + [];
    assert Encode(input[1..], c) == [false] + [true];
  }

  lemma ThreeBits(bits: Word)
    requires bits == [false, false, true]
    ensures WriteBits(START_WRITING, bits).Bytes() == [0x20]
  {
    assert bits[1..] == [false, true] && bits[1..][1..] == [true] && bits[1..][1..][1..] == [];
    var w1 := WriteBit(START_WRITING, false);
    assert w1.cur == 0 && w1.index == 7;
    var w2 := WriteBit(w1, false);
    assert w2.cur == 0 && w2.index == 6;
    var w3 := WriteBit(w2, true);
    assert w3.cur == 0x20 && w3.done == [];
    assert WriteBits(w2, bits[1..][1..]) == w3;
    assert WriteBits(w1, bits[1..]) == w3;
  }

  // ---- what decompression does with any bytes -------------------------------------------

  /** The frequency of a byte among the first k entries behind the count: that of its last entry, or 0. */
  function LastFrequency(host: Order, bytes: seq<Byte>, k: nat, ch: int): int
    requires 2 + 5 * k <= |bytes|
  {
    if k == 0 then 0
    else if bytes[5 * k - 3] as int == ch then Int32(host, bytes[5 * k - 2..5 * k + 2])
    else LastFrequency(host, bytes, k - 1, ch)
  }

  ghost predicate IsTable(host: Order, bytes: seq<Byte>, k: nat, table: seq<int>)
    requires 2 + 5 * k <= |bytes|
  {
    |table| == CHARSET_SIZE && forall ch | 0 <= ch < CHARSET_SIZE :: table[ch] == LastFrequency(host, bytes, k, ch)
  }

  /** Reading n more entries behind the first k. */
  lemma {:induction false} ReadsOn(host: Order, bytes: seq<Byte>, k: nat, n: nat, table: seq<int>)
    requires 2 + 5 * k <= |bytes| && IsTable(host, bytes, k, table)
    ensures var r := ReadEntries(host, bytes[2 + 5 * k..], n, table);
      if |bytes| < 2 + 5 * (k + n) then r == None
      else r.Some? && IsTable(host, bytes, k + n, r.value.0) && r.value.1 == bytes[2 + 5 * (k + n)..]
    decreases n
  {
    var rest := bytes[2 + 5 * k..];
    if n > 0 && |rest| >= 5 {
      assert rest[5..] == bytes[2 + 5 * (k + 1)..] && rest[1..5] == bytes[5 * (k + 1) - 2..5 * (k + 1) + 2];
      ReadsOn(host, bytes, k + 1, n - 1, table[rest[0] as int := Int32(host, rest[1..5])]);
    }
  }

  lemma TableUnique(host: Order, bytes: seq<Byte>, k: nat, t: seq<int>, u: seq<int>)
    requires 2 + 5 * k <= |bytes| && IsTable(host, bytes, k, t) && IsTable(host, bytes, k, u)
    ensures t == u
  {
    forall ch | 0 <= ch < |t| ensures t[ch] == u[ch] {
      assert t[ch] == LastFrequency(host, bytes, k, ch);
    }
  }

  lemma {:induction false} NoLeaves(table: seq<int>, n: nat)
    requires n <= |table|
    ensures LeavesTo(table, n) == [] <==> forall ch | 0 <= ch < n :: table[ch] == 0
  {
    if n > 0 {
      NoLeaves(table, n - 1);
    }
  }

  lemma {:induction false} DecodedLength(t: Tree, bytes: seq<Byte>, at: Cursor, n: nat)
    requires at.index <= 8
    ensures DecodeSymbols(t, bytes, at, n).Some? ==> |DecodeSymbols(t, bytes, at, n).value| == n
    decreases n
  {
    if n > 0 {
      var w := Walk(t, bytes, at);
      if w.Some? {
        WalkIndex(t, bytes, at);
        DecodedLength(t, bytes, w.value.1, n - 1);
      }
    }
  }

  /** A walk that comes back has read the code of its symbol, and no bit further. */
  lemma {:induction false} WalkReads(t: Tree, bytes: seq<Byte>, at: Cursor) returns (ch: int, next: Cursor)
    requires Distinct(t) && at.index <= 8 && Walk(t, bytes, at).Some?
    ensures Walk(t, bytes, at) == Some((ch, next)) && ch in Codes(t)
    ensures Holds(bytes, at.pos, at.index, Codes(t)[ch])
    ensures 8 * next.pos - next.index == 8 * at.pos - at.index + |Codes(t)[ch]|
    decreases t
  {
    if t.Leaf? {
      ch, next := t.ch, at;
    } else {
      var p, i := if at.index == 0 then at.pos + 1 else at.pos, if at.index == 0 then 8 else at.index;
      var b := GetBit(bytes[p], i);
      var child := if b then t.left else t.right;
      ch, next := WalkReads(child, bytes, Cursor(p, i - 1));
      CodeHead(t, ch);
      assert ([b] + Codes(child)[ch])[1..] == Codes(child)[ch];
    }
  }

  /** With no entries there is nothing to decompress. */
  lemma NoEntries(host: Order, bytes: seq<Byte>)
    requires |bytes| >= 2 && Int16(host, bytes[..2]) <= 0
    ensures Decompress(host, bytes) == Returned(-1, [])
  {
    NoLeaves(ZeroTable(), CHARSET_SIZE);
  }

  /** Entries that are not all there are read past. */
  lemma MissingEntries(host: Order, bytes: seq<Byte>)
    requires |bytes| < 2 || (Int16(host, bytes[..2]) > 0 && |bytes| < 2 + 5 * Int16(host, bytes[..2]))
    ensures Decompress(host, bytes) == Fault
  {
    if |bytes| >= 2 {
      ReadsOn(host, bytes, 0, Int16(host, bytes[..2]), ZeroTable());
    }
  }

  /**
   * Behind all the entries: frequencies that are all 0 give -1; one whose sum is no int, or a missing
   * length, is a fault; a length that is not positive is handed back; otherwise the tree of the
   * frequencies is walked, and the result is that many bytes, if the walk does not fail.
   */
  lemma BehindEntries(host: Order, bytes: seq<Byte>, cnt: nat, table: seq<int>)
    requires |bytes| >= 2 && cnt == Int16(host, bytes[..2]) > 0
    requires |bytes| >= 2 + 5 * cnt && IsTable(host, bytes, cnt, table)
    ensures
      var r, at := Decompress(host, bytes), 2 + 5 * cnt;
      && (LeavesTo(table, CHARSET_SIZE) == [] ==> r == Returned(-1, []))
      && (LeavesTo(table, CHARSET_SIZE) != [] ==>
            if !SumsFit(Build(table)) || |bytes| < at + 4 then r == Fault
            else Decoded(r, Build(table), bytes[at + 4..], Int32(host, bytes[at..at + 4])))
  {
    var read := ReadEntries(host, bytes[2..], cnt, ZeroTable());
    ReadsOn(host, bytes, 0, cnt, ZeroTable());
    TableUnique(host, bytes, cnt, read.value.0, table);
    var rest := bytes[2 + 5 * cnt..];
    if |rest| >= 4 {
      assert rest[..4] == bytes[2 + 5 * cnt..2 + 5 * cnt + 4] && rest[4..] == bytes[2 + 5 * cnt + 4..];
      if Int32(host, rest[..4]) >= 1 && LeavesTo(table, CHARSET_SIZE) != [] {
        DecodedLength(Build(table), rest[4..], Cursor(0, 8), Int32(host, rest[..4]));
      }
    }
  }

  predicate Decoded(r: Outcome, t: Tree, body: seq<Byte>, len: int) {
    if len < 1 then r == Returned(len, [])
    else
      var out := DecodeSymbols(t, body, Cursor(0, 8), len);
      if out.None? then r == Fault else r == Returned(len, out.value) && |out.value| == len
  }
}
