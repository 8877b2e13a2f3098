/** What huffman_compress writes and huffman_decompress reads, as functions on byte strings. */
module HuffmanCodec {
  import opened Bytes
  import opened Sums
  import opened HuffmanOptimal
  import opened HuffmanTree
  import opened HuffmanCode

  // ---- The frequency table --------------------------------------------------------------

  function Count(input: seq<Byte>, ch: int): nat {
    if input == [] then 0 else Count(input[..|input| - 1], ch) + if input[|input| - 1] == ch then 1 else 0
  }

  function Freq(input: seq<Byte>): (table: seq<int>)
    ensures |table| == CHARSET_SIZE
    ensures forall ch :: 0 <= ch < CHARSET_SIZE ==> table[ch] == Count(input, ch)
  {
    seq(CHARSET_SIZE, ch requires 0 <= ch < CHARSET_SIZE => Count(input, ch))
  }

  /** Five bytes for a byte that occurs: the byte, then its frequency as an int. */
  ghost function Entry(host: Order, ch: Byte, freq: int): (e: seq<Byte>)
    ensures |e| == 5
  {
    [ch] + IntBytes(host, freq)
  }

  /** The entries of the bytes from n on. */
  ghost function Entries(host: Order, table: seq<int>, n: nat): (e: seq<Byte>)
    requires n <= |table| == CHARSET_SIZE
    ensures |e| == 5 * Occurring(table, n)
    decreases |table| - n
  {
    if n == CHARSET_SIZE then [] else
    (if table[n] == 0 then [] else Entry(host, n, table[n])) + Entries(host, table, n + 1)
  }

  function Occurring(table: seq<int>, n: nat): (r: nat)
    requires n <= |table| == CHARSET_SIZE
    ensures r <= CHARSET_SIZE - n
    decreases |table| - n
  {
    if n == CHARSET_SIZE then 0 else (if table[n] == 0 then 0 else 1) + Occurring(table, n + 1)
  }

  ghost function TableBytes(host: Order, table: seq<int>): seq<Byte>
    requires |table| == CHARSET_SIZE
  {
    ShortBytes(host, Occurring(table, 0)) + Entries(host, table, 0)
  }

  /** get_char_freq: k entries into a table, and the bytes after them; None when the input ends first. */
  function ReadEntries(host: Order, bytes: seq<Byte>, k: nat, table: seq<int>): Option<(seq<int>, seq<Byte>)>
    requires |table| == CHARSET_SIZE
    decreases k
  {
    if k == 0 then Some((table, bytes))
    else if |bytes| < 5 then None
    else ReadEntries(host, bytes[5..], k - 1, table[bytes[0] as int := Int32(host, bytes[1..5])])
  }

  function ZeroTable(): (t: seq<int>)
    ensures |t| == CHARSET_SIZE
    ensures forall i :: 0 <= i < |t| ==> t[i] == 0
  {
    seq(CHARSET_SIZE, _ => 0)
  }

  // ---- The bit stream -------------------------------------------------------------------

  predicate Encodable(input: seq<Byte>, c: Code) {
    forall i :: 0 <= i < |input| ==> input[i] as int in c
  }

  function Encode(input: seq<Byte>, c: Code): Word
    requires Encodable(input, c)
  {
    if input == [] then [] else c[input[0] as int] + Encode(input[1..], c)
  }

  datatype Cursor = Cursor(pos: nat, index: nat)

  /** One walk from the root to a leaf; None when the stream ends or a missing child is needed. */
  function Walk(t: Tree, bytes: seq<Byte>, at: Cursor): Option<(int, Cursor)>
    requires at.index <= 8
    decreases t
  {
    if t.Leaf? then Some((t.ch, at)) else
    var p, i := if at.index == 0 then at.pos + 1 else at.pos, if at.index == 0 then 8 else at.index;
    if p >= |bytes| then None
    else if GetBit(bytes[p], i) then Walk(t.left, bytes, Cursor(p, i - 1))
    else if t.Single? then None
    else Walk(t.right, bytes, Cursor(p, i - 1))
  }

  lemma {:induction false} WalkIndex(t: Tree, bytes: seq<Byte>, at: Cursor)
    requires at.index <= 8 && Walk(t, bytes, at).Some?
    ensures Walk(t, bytes, at).value.1.index <= 8
    decreases t
  {
    if !t.Leaf? {
      var p, i := if at.index == 0 then at.pos + 1 else at.pos, if at.index == 0 then 8 else at.index;
      if GetBit(bytes[p], i) {
        WalkIndex(t.left, bytes, Cursor(p, i - 1));
      } else {
        WalkIndex(t.right, bytes, Cursor(p, i - 1));
      }
    }
  }

  /** n symbols, one after the other. */
  function DecodeSymbols(t: Tree, bytes: seq<Byte>, at: Cursor, n: nat): Option<seq<Byte>>
    requires at.index <= 8
    decreases n
  {
    if n == 0 then Some([]) else
    match Walk(t, bytes, at)
    case None => None
    case Some((ch, next)) =>
      WalkIndex(t, bytes, at);
      match DecodeSymbols(t, bytes, next, n - 1)
      case None => None
      case Some(rest) => Some([ch % 256] + rest)
  }

  // ---- The two operations ---------------------------------------------------------------

  /**
   * `code` is the int returned; Fault stands for an access outside the buffers or through NULL,
   * a failed assertion, or a sum of frequencies that overflows.
   */
  datatype Outcome = Returned(code: int, output: seq<Byte>) | Fault

  /** The tree both sides build for an input. */
  ghost function InputTree(input: seq<Byte>): (t: Tree)
    requires input != []
    ensures Distinct(t) && !t.Leaf? && Encodable(input, Codes(t))
  {
    FreqOccurs(input);
    CodesCover(Freq(input), input);
    BuildDistinct(Freq(input));
    Build(Freq(input))
  }

  ghost function Body(input: seq<Byte>): seq<Byte>
    requires input != []
  {
    WriteBits(START_WRITING, Encode(input, Codes(InputTree(input)))).Bytes()
  }

  /** The bits the codewords of an input take. */
  ghost function BodyBits(input: seq<Byte>): nat
    requires input != []
  {
    |Encode(input, Codes(InputTree(input)))|
  }

  /** The bit count, rounded up to a multiple of eight, is still an int. */
  ghost predicate SizeIsInt(input: seq<Byte>)
    requires input != []
  {
    IsInt(BodyBits(input) + 7)
  }

  /** Table, length and bit stream: what the two writers write, given room. */
  ghost function CompressedBytes(host: Order, input: seq<Byte>): seq<Byte>
    requires input != []
  {
    TableBytes(host, Freq(input)) + IntBytes(host, |input|) + Body(input)
  }

  /**
   * huffman_compress. Its buffer has room for what it writes exactly when the bit count it is
   * sized by is an int; otherwise a write leaves the buffer or the final assertion fails.
   */
  ghost function Compress(host: Order, input: seq<Byte>): Outcome {
    if input == [] then Returned(-1, [])
    else if !SizeIsInt(input) then Fault
    else Returned(|CompressedBytes(host, input)|, CompressedBytes(host, input))
  }

  ghost function Decompress(host: Order, bytes: seq<Byte>): Outcome {
    if |bytes| < 2 then Fault else
    var cnt := Int16(host, bytes[..2]);
    match ReadEntries(host, bytes[2..], if cnt < 0 then 0 else cnt, ZeroTable())
    case None => Fault
    case Some((table, rest)) =>
      if cnt == 0 || LeavesTo(table, |table|) == [] then Returned(-1, [])
      else if !SumsFit(Build(table)) || |rest| < 4 then Fault
      else
        var len := Int32(host, rest[..4]);
        if len < 1 then Returned(len, []) else
        match DecodeSymbols(Build(table), rest[4..], Cursor(0, 8), len)
        case None => Fault
        case Some(out) => Returned(len, out)
  }

  // ---- The table of an input covers it --------------------------------------------------

  lemma {:induction false} CountPositive(input: seq<Byte>, ch: int)
    ensures Count(input, ch) > 0 <==> ch in input
    ensures Count(input, ch) <= |input|
  {
    if input != [] {
      CountPositive(input[..|input| - 1], ch);
      assert input == input[..|input| - 1] + [input[|input| - 1]];
    }
  }

  lemma FreqOccurs(input: seq<Byte>)
    ensures forall b :: b in input ==> Freq(input)[b as int] != 0
    ensures forall ch :: 0 <= ch < CHARSET_SIZE && Freq(input)[ch] != 0 ==> ch in input
    ensures input != [] ==> LeavesTo(Freq(input), CHARSET_SIZE) != []
    ensures NonNegative(Freq(input))
  {
    forall b | b in input ensures Freq(input)[b as int] != 0 {
      CountPositive(input, b as int);
    }
    forall ch | 0 <= ch < CHARSET_SIZE && Freq(input)[ch] != 0 ensures ch in input {
      CountPositive(input, ch);
    }
    LeavesProper(Freq(input), CHARSET_SIZE);
    if input != [] {
      assert input[0] in input;
      assert input[0] as int in ForestSymbols(LeavesTo(Freq(input), CHARSET_SIZE));
    }
  }

  lemma CodesCover(table: seq<int>, input: seq<Byte>)
    requires |table| == CHARSET_SIZE && LeavesTo(table, CHARSET_SIZE) != []
    requires forall b :: b in input ==> table[b as int] != 0
    ensures Encodable(input, Codes(Build(table)))
  {
    BuildSymbols(table);
    forall i | 0 <= i < |input| ensures input[i] as int in Codes(Build(table)) {
      assert input[i] in input;
    }
  }

  lemma BuildDistinct(table: seq<int>)
    requires LeavesTo(table, |table|) != []
    ensures Distinct(Build(table))
  {
    BuildLaws(table);
    ProperIsDistinct(BuildForest(LeavesTo(table, |table|)), table);
  }

  // ---- Round trip -----------------------------------------------------------------------

  ghost predicate IntRange(table: seq<int>) {
    forall i :: 0 <= i < |table| ==> -0x8000_0000 <= table[i] < 0x8000_0000
  }

  /** The first n places as in the table, zero from there on. */
  ghost predicate Agrees(t: seq<int>, table: seq<int>, n: nat) {
    && |t| == CHARSET_SIZE == |table|
    && forall i :: 0 <= i < CHARSET_SIZE ==> t[i] == if i < n then table[i] else 0
  }

  lemma ReadOne(host: Order, ch: Byte, freq: int, bytes: seq<Byte>, tail: seq<Byte>, k: nat, t: seq<int>)
    requires |t| == CHARSET_SIZE && -0x8000_0000 <= freq < 0x8000_0000 && k > 0
    requires bytes == Entry(host, ch, freq) + tail
    ensures ReadEntries(host, bytes, k, t) == ReadEntries(host, tail, k - 1, t[ch as int := freq])
  {
    assert bytes[1..5] == IntBytes(host, freq) && bytes[5..] == tail;
    Int32RoundTrip(host, freq);
  }

  lemma FirstEntry(host: Order, table: seq<int>, n: nat, bytes: seq<Byte>, tail: seq<Byte>)
    requires n < |table| == CHARSET_SIZE && bytes == Entries(host, table, n) + tail
    ensures var rest := Entries(host, table, n + 1) + tail;
            bytes == if table[n] == 0 then rest else Entry(host, n, table[n]) + rest
  {
    if table[n] == 0 {
      assert [] + Entries(host, table, n + 1) == Entries(host, table, n + 1);
    } else {
      Assoc(Entry(host, n, table[n]), Entries(host, table, n + 1), tail);
    }
  }

  lemma Assoc(a: seq<Byte>, b: seq<Byte>, c: seq<Byte>)
    ensures (a + b) + c == a + (b + c)
  {
  }

  /** The table round trip: reading back the entries written for a table gives that table. */
  lemma {:induction false} ReadTable(host: Order, table: seq<int>, n: nat, t: seq<int>, bytes: seq<Byte>, k: nat, tail: seq<Byte>)
    requires n <= |table| == CHARSET_SIZE && IntRange(table) && Agrees(t, table, n)
    requires bytes == Entries(host, table, n) + tail && k == Occurring(table, n)
    ensures ReadEntries(host, bytes, k, t) == Some((table, tail))
    decreases |table| - n
  {
    if n == CHARSET_SIZE {
      assert t == table && bytes == tail;
    } else {
      FirstEntry(host, table, n, bytes, tail);
      var rest := Entries(host, table, n + 1) + tail;
      if table[n] == 0 {
        ReadTable(host, table, n + 1, t, rest, k, tail);
      } else {
        ReadOne(host, n, table[n], bytes, rest, k, t);
        ReadTable(host, table, n + 1, t[n := table[n]], rest, k - 1, tail);
      }
    }
  }

  // ---- The bit stream round trip --------------------------------------------------------

  function Advance(at: Cursor): Cursor {
    if at.index == 0 then Cursor(at.pos + 1, 7) else Cursor(at.pos, at.index - 1)
  }

  lemma HoldsHead(bytes: seq<Byte>, at: Cursor, b: bool, rest: Word)
    requires at.index <= 8 && Holds(bytes, at.pos, at.index, [b] + rest)
    ensures var p, i := if at.index == 0 then at.pos + 1 else at.pos, if at.index == 0 then 8 else at.index;
            p < |bytes| && GetBit(bytes[p], i) == b && Advance(at) == Cursor(p, i - 1)
    ensures Holds(bytes, Advance(at).pos, Advance(at).index, rest)
  {
    assert ([b] + rest)[1..] == rest;
  }

  /** From the root, the code of a symbol leads to that symbol's leaf and no bit further. */
  lemma {:induction false} WalkCode(t: Tree, ch: int, bytes: seq<Byte>, at: Cursor, rest: Word) returns (next: Cursor)
    requires Distinct(t) && ch in Symbols(t) && at.index <= 8
    requires Holds(bytes, at.pos, at.index, Codes(t)[ch] + rest)
    ensures Walk(t, bytes, at) == Some((ch, next))
    ensures next.index <= 8 && Holds(bytes, next.pos, next.index, rest)
    decreases t
  {
    if t.Leaf? {
      next := at;
      assert Codes(t)[ch] + rest == rest;
    } else {
      CodeHead(t, ch);
      var b := ch in Symbols(t.left);
      var child := if b then t.left else t.right;
      Prefixed(b, Codes(child)[ch], rest);
      HoldsHead(bytes, at, b, Codes(child)[ch] + rest);
      next := WalkCode(child, ch, bytes, Advance(at), rest);
    }
  }

  lemma Prefixed(b: bool, u: Word, v: Word)
    ensures ([b] + u) + v == [b] + (u + v)
  {
  }

  /** Decoding the bits of an encoding gives the symbols back. */
  lemma {:induction false} DecodeEncoded(t: Tree, input: seq<Byte>, bytes: seq<Byte>, at: Cursor)
    requires Distinct(t) && Encodable(input, Codes(t)) && at.index <= 8
    requires Holds(bytes, at.pos, at.index, Encode(input, Codes(t)))
    ensures DecodeSymbols(t, bytes, at, |input|) == Some(input)
    decreases |input|
  {
    if input != [] {
      var next := WalkCode(t, input[0], bytes, at, Encode(input[1..], Codes(t)));
      DecodeEncoded(t, input[1..], bytes, next);
      assert [input[0] % 256] + input[1..] == input;
    }
  }

  // ---- The whole ------------------------------------------------------------------------

  lemma FreqRange(input: seq<Byte>)
    requires |input| < 0x8000_0000
    ensures IntRange(Freq(input))
  {
    forall ch | 0 <= ch < CHARSET_SIZE ensures Freq(input)[ch] <= |input| {
      CountPositive(input, ch);
    }
  }

  lemma {:induction false} OccurringPositive(table: seq<int>, n: nat, ch: nat)
    requires n <= ch < |table| == CHARSET_SIZE && table[ch] != 0
    ensures Occurring(table, n) > 0
    decreases ch - n
  {
    if n < ch {
      OccurringPositive(table, n + 1, ch);
    }
  }

  /** The body decodes to the input, whatever bytes follow it. */
  lemma BodyDecodes(input: seq<Byte>, tail: seq<Byte>)
    requires input != []
    ensures DecodeSymbols(InputTree(input), Body(input) + tail, Cursor(0, 8), |input|) == Some(input)
  {
    var t := InputTree(input);
    var bits := Encode(input, Codes(t));
    KeptNow(WriteBits(START_WRITING, bits), tail);
    ReadBack(START_WRITING, bits, Body(input) + tail);
    DecodeEncoded(t, input, Body(input) + tail, Cursor(0, 8));
  }

  lemma HeaderParts(a: seq<Byte>, e: seq<Byte>, l: seq<Byte>, body: seq<Byte>)
    requires |a| == 2 && |l| == 4
    ensures var bytes := a + e + l + body;
            && bytes[..2] == a && bytes[2..] == e + (l + body)
            && (l + body)[..4] == l && (l + body)[4..] == body
  {
  }

  /** What decompression does with a well-formed header. */
  lemma DecompressParts(host: Order, table: seq<int>, len: int, body: seq<Byte>)
    requires |table| == CHARSET_SIZE && IntRange(table) && LeavesTo(table, CHARSET_SIZE) != []
    requires 0 < len < 0x8000_0000 && Occurring(table, 0) > 0 && SumsFit(Build(table))
    ensures Decompress(host, TableBytes(host, table) + IntBytes(host, len) + body)
         == match DecodeSymbols(Build(table), body, Cursor(0, 8), len)
            case None => Fault
            case Some(out) => Returned(len, out)
  {
    var cnt := Occurring(table, 0);
    var bytes := TableBytes(host, table) + IntBytes(host, len) + body;
    HeaderParts(ShortBytes(host, cnt), Entries(host, table, 0), IntBytes(host, len), body);
    Int16RoundTrip(host, cnt);
    Int32RoundTrip(host, len);
    ReadTable(host, table, 0, ZeroTable(), bytes[2..], cnt, IntBytes(host, len) + body);
  }

  lemma {:induction false} CountSum(input: seq<Byte>, symbols: set<int>)
    ensures 0 <= Mass(Freq(input), symbols, CHARSET_SIZE) <= |input|
  {
    if input == [] {
      EmptyMass(symbols, CHARSET_SIZE);
    } else {
      var init, x := input[..|input| - 1], input[|input| - 1];
      CountSum(init, symbols);
      assert input == init + [x];
      MassAddOne(init, x, symbols, CHARSET_SIZE);
    }
  }

  lemma {:induction false} EmptyMass(symbols: set<int>, n: nat)
    requires n <= CHARSET_SIZE
    ensures Mass(Freq([]), symbols, n) == 0
  {
    if n > 0 {
      EmptyMass(symbols, n - 1);
    }
  }

  lemma {:induction false} MassAddOne(input: seq<Byte>, x: Byte, symbols: set<int>, n: nat)
    requires n <= CHARSET_SIZE
    ensures Mass(Freq(input + [x]), symbols, n) ==
              Mass(Freq(input), symbols, n) + if x < n && x as int in symbols then 1 else 0
  {
    if n > 0 {
      MassAddOne(input, x, symbols, n - 1);
      assert (input + [x])[..|input|] == input;
      assert Freq(input + [x])[n - 1] == Freq(input)[n - 1] + if x == n - 1 then 1 else 0;
    }
  }

  /** In a tree of non-negative frequencies no sum is larger than that of the root. */
  lemma {:induction false} ProperFits(t: Tree, table: seq<int>)
    requires Proper(t, table) && NonNegative(table) && t.freq < 0x8000_0000
    ensures SumsFit(t) && t.freq >= 0
    decreases t
  {
    if t.Node? {
      FreqNonNegative(t.left, table);
      FreqNonNegative(t.right, table);
      ProperFits(t.left, table);
      ProperFits(t.right, table);
    }
  }

  lemma {:induction false} FreqNonNegative(t: Tree, table: seq<int>)
    requires Proper(t, table) && NonNegative(table)
    ensures t.freq >= 0
  {
    if t.Node? {
      FreqNonNegative(t.left, table);
      FreqNonNegative(t.right, table);
    }
  }

  /** For an input whose length is an int, the frequencies and all their sums are ints. */
  lemma InputSumsFit(input: seq<Byte>)
    requires 0 < |input| < 0x8000_0000
    ensures LeavesTo(Freq(input), CHARSET_SIZE) != [] && SumsFit(Build(Freq(input)))
  {
    var table := Freq(input);
    FreqOccurs(input);
    BuildLaws(table);
    var t := BuildForest(LeavesTo(table, CHARSET_SIZE));
    MassIsFreq(t, table);
    CountSum(input, Symbols(t));
    ProperFits(t, table);
  }

  /**
   * Round trip: for every non-empty input whose length is an int, compression comes back exactly
   * when the bit count is an int, and then decompressing what it wrote, whatever bytes follow,
   * gives back the input and its length.
   */
  lemma RoundTrip(host: Order, input: seq<Byte>, tail: seq<Byte>)
    requires 0 < |input| < 0x8000_0000
    ensures Compress(host, input).Returned? <==> SizeIsInt(input)
    ensures SizeIsInt(input) ==>
      && Compress(host, input).code == |Compress(host, input).output|
      && Decompress(host, Compress(host, input).output + tail) == Returned(|input|, input)
  {
    DecompressWritten(host, input, tail);
  }

  /** Decompression would undo what the writers write, were there always room for it. */
  lemma DecompressWritten(host: Order, input: seq<Byte>, tail: seq<Byte>)
    requires 0 < |input| < 0x8000_0000
    ensures Decompress(host, CompressedBytes(host, input) + tail) == Returned(|input|, input)
  {
    var table := Freq(input);
    FreqOccurs(input);
    FreqRange(input);
    InputSumsFit(input);
    assert input[0] in input;
    OccurringPositive(table, 0, input[0]);
    Assoc(TableBytes(host, table) + IntBytes(host, |input|), Body(input), tail);
    DecompressParts(host, table, |input|, Body(input) + tail);
    BodyDecodes(input, tail);
  }

  /** Exact size of what is written: two bytes, five for each symbol, four, and the bits rounded up to bytes. */
  lemma CompressedSize(host: Order, input: seq<Byte>)
    requires input != []
    ensures |CompressedBytes(host, input)| == 2 + 5 * Occurring(Freq(input), 0) + 4 + (BodyBits(input) + 7) / 8
    ensures SizeIsInt(input) ==> IsInt(|CompressedBytes(host, input)|)
  {
    var bits := Encode(input, Codes(InputTree(input)));
    NoEmptyCode(InputTree(input), input[0]);
    var w := WriteBits(START_WRITING, bits);
    assert 8 * |w.done| + 8 - w.index == |bits| && w.index < 8;
  }

  /** No codeword is empty, so every input spends at least one bit. */
  lemma NoEmptyCode(t: Tree, ch: int)
    requires !t.Leaf? && ch in Codes(t)
    ensures Codes(t)[ch] != []
  {
  }
}
