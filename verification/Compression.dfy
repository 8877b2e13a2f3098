/** compress.c as it runs: buffers written in place through a byte position and a bit index. */
module Compression {
  import opened Bytes
  import opened Sums
  import opened HuffmanTree
  import opened HuffmanCode
  import opened HuffmanCodec
  import opened HuffmanBounds
  import opened HuffmanNodes
  import opened HuffmanSearch

  /** calc_char_freq */
  method CalcCharFreq(input: seq<Byte>, charFreq: array<int>) returns (cnt: int)
    requires charFreq.Length == CHARSET_SIZE
    modifies charFreq
    ensures input == [] ==> cnt == -1 && charFreq[..] == old(charFreq[..])
    ensures input != [] ==> charFreq[..] == Freq(input) && cnt == Occurring(Freq(input), 0)
  {
    if input == [] {
      return -1;
    }
    for i := 0 to CHARSET_SIZE
      invariant forall k :: 0 <= k < i ==> charFreq[k] == 0
    {
      charFreq[i] := 0;
    }
    for i := 0 to |input|
      invariant forall k :: 0 <= k < CHARSET_SIZE ==> charFreq[k] == Count(input[..i], k)
    {
      assert input[..i + 1][..i] == input[..i];
      charFreq[input[i]] := charFreq[input[i]] + 1;
    }
    assert input[..|input|] == input;
    assert charFreq[..] == Freq(input);
    cnt := 0;
    for i := 0 to CHARSET_SIZE
      invariant cnt + Occurring(charFreq[..], i) == Occurring(charFreq[..], 0)
    {
      if charFreq[i] != 0 {
        cnt := cnt + 1;
      }
    }
  }

  /** memcpy of the low bytes of an int into the buffer, in the order of the host. */
  method PutNumber(host: Order, out: array<Byte>, pos: nat, n: int, width: nat)
    requires pos + width <= out.Length
    modifies out
    ensures out[..pos] == old(out[..pos]) && out[pos + width..] == old(out[pos + width..])
    ensures out[pos..pos + width] == Laid(host, n, width)
  {
    var rest := n;
    ghost var le := Le(n, width);
    for i := 0 to width
      invariant le[i..] == Le(rest, width - i)
      invariant forall k :: 0 <= k < i ==> out[Place(host, pos, k, width)] == le[k]
      invariant forall k :: 0 <= k < pos || pos + width <= k < out.Length ==> out[k] == old(out[k])
    {
      assert le[i] == le[i..][0] == rest % 256;
      assert le[i + 1..] == le[i..][1..];
      out[Place(host, pos, i, width)] := rest % 256;
      rest := rest / 256;
    }
    ReversedAt(le);
    ghost var laid := Laid(host, n, width);
    forall k | 0 <= k < width ensures out[pos + k] == laid[k] {
      var j := if host.Little? then k else width - 1 - k;
      assert out[Place(host, pos, j, width)] == le[j];
    }
  }

  /** Where the byte goes that is the k-th when the lowest is first. */
  function Place(host: Order, pos: nat, k: nat, width: nat): (i: nat)
    requires k < width
    ensures pos <= i < pos + width
  {
    if host.Little? then pos + k else pos + width - 1 - k
  }

  /** One table entry: the byte and its frequency. */
  method PutEntry(host: Order, out: array<Byte>, pos: nat, ch: Byte, freq: int)
    requires pos + 5 <= out.Length
    modifies out
    ensures out[..pos] == old(out[..pos]) && out[pos + 5..] == old(out[pos + 5..])
    ensures out[pos..pos + 5] == Entry(host, ch, freq)
  {
    out[pos] := ch;
    PutNumber(host, out, pos + 1, freq, 4);
    LaidOut(host, freq);
    assert out[..pos] == out[..pos + 1][..pos];
    assert out[pos] == out[..pos + 1][pos];
  }

  lemma NextEntry(host: Order, table: seq<int>, i: nat, entries: seq<Byte>, at: nat)
    requires i < |table| == CHARSET_SIZE && at <= |entries| && entries[at..] == Entries(host, table, i)
    ensures table[i] == 0 ==> entries[at..] == Entries(host, table, i + 1)
    ensures table[i] != 0 ==>
              && at + 5 <= |entries| && entries[at..at + 5] == Entry(host, i, table[i])
              && entries[at + 5..] == Entries(host, table, i + 1)
  {
    if table[i] != 0 {
      assert entries[at..at + 5] == entries[at..][..5];
      assert entries[at + 5..] == entries[at..][5..];
    }
  }

  lemma Glue(a: seq<Byte>, lo: nat, mid: nat, hi: nat, entries: seq<Byte>)
    requires lo <= mid <= hi <= |a| && hi - lo <= |entries|
    requires a[lo..mid] == entries[..mid - lo] && a[mid..hi] == entries[mid - lo..hi - lo]
    ensures a[lo..hi] == entries[..hi - lo]
  {
    assert a[lo..hi] == a[lo..mid] + a[mid..hi];
    assert entries[..hi - lo] == entries[..mid - lo] + entries[mid - lo..hi - lo];
  }

  /** An entry that continues the entries already in the buffer from byte 2 on. */
  method PutEntryAt(host: Order, out: array<Byte>, pos: nat, ch: Byte, freq: int, ghost entries: seq<Byte>)
    requires 2 <= pos && pos + 5 <= 2 + |entries| && pos + 5 <= out.Length && out[2..pos] == entries[..pos - 2]
    requires entries[pos - 2..pos + 3] == Entry(host, ch, freq)
    modifies out
    ensures out[2..pos + 5] == entries[..pos + 3]
    ensures out[pos + 5..] == old(out[pos + 5..])
  {
    ghost var before := out[..pos];
    PutEntry(host, out, pos, ch, freq);
    assert out[2..pos] == before[2..];
    Glue(out[..], 2, pos, pos + 5, entries);
  }

  /** The loop of copy_char_freq over the table; a fault where an entry does not fit the buffer. */
  method PutEntries(host: Order, out: array<Byte>, charFreq: seq<int>) returns (fault: bool, pos: nat, cnt: nat)
    requires |charFreq| == CHARSET_SIZE && out.Length >= 2
    modifies out
    ensures fault <==> out.Length < 2 + |Entries(host, charFreq, 0)|
    ensures !fault ==>
      && cnt == Occurring(charFreq, 0) && pos == 2 + |Entries(host, charFreq, 0)|
      && out[2..pos] == Entries(host, charFreq, 0) && out[pos..] == old(out[pos..])
  {
    pos, cnt := 2, 0;
    ghost var entries, before := Entries(host, charFreq, 0), out[..];
    for i := 0 to CHARSET_SIZE
      invariant 2 <= pos <= 2 + |entries| && pos <= out.Length
      invariant cnt + Occurring(charFreq, i) == Occurring(charFreq, 0)
      invariant entries[pos - 2..] == Entries(host, charFreq, i)
      invariant out[2..pos] == entries[..pos - 2]
      invariant out[pos..] == before[pos..]
    {
      NextEntry(host, charFreq, i, entries, pos - 2);
      if charFreq[i] != 0 {
        if pos + 5 > out.Length {
          return true, pos, cnt;
        }
        ghost var behind := out[pos + 5..];
        assert behind == out[pos..][5..];
        PutEntryAt(host, out, pos, i, charFreq[i], entries);
        pos := pos + 5;
        cnt := cnt + 1;
      }
    }
    fault := false;
  }

  /** copy_char_freq: the table at the start of the buffer; its length is returned, or it leaves the buffer. */
  method CopyCharFreq(host: Order, out: array<Byte>, charFreq: seq<int>) returns (fault: bool, len: nat)
    requires |charFreq| == CHARSET_SIZE
    modifies out
    ensures fault <==> out.Length < |TableBytes(host, charFreq)|
    ensures !fault ==>
      && len == |TableBytes(host, charFreq)| && out[..len] == TableBytes(host, charFreq) && out[len..] == old(out[len..])
  {
    if out.Length < 2 {
      return true, 0;
    }
    var pos, cnt;
    fault, pos, cnt := PutEntries(host, out, charFreq);
    if fault {
      return true, 0;
    }
    ghost var tail := out[2..];
    PutNumber(host, out, 0, cnt, 2);
    LaidOut(host, cnt);
    assert out[2..] == tail;
    assert out[2..pos] == tail[..pos - 2] && out[pos..] == tail[pos - 2..];
    assert out[..pos] == out[0..2] + out[2..pos];
    len := pos;
  }

  // ---- huffman_encode --------------------------------------------------------------------

  /** The buffer from `base` on holds what w has written, and zeros after that. */
  ghost predicate Written(buffer: seq<Byte>, base: nat, w: Writer) {
    && base + |w.done| < |buffer|
    && buffer[base..base + |w.done|] == w.done
    && buffer[base + |w.done|] == w.cur
    && forall k :: base + |w.done| < k < |buffer| ==> buffer[k] == 0
  }

  /**
   * One turn of the inner loop: step to the next byte when the current one is full, then set a bit;
   * a fault where that byte is behind the buffer.
   */
  method PutBitAt(out: array<Byte>, base: nat, pos: nat, index: nat, bit: bool, ghost w: Writer)
    returns (fault: bool, pos': nat, index': nat)
    requires w.Valid() && pos == base + |w.done| && index == w.index && Written(out[..], base, w)
    modifies out
    ensures var r := WriteBit(w, bit);
      && (fault <==> base + |r.done| >= out.Length)
      && (!fault ==> Written(out[..], base, r) && pos' == base + |r.done| && index' == r.index)
    ensures out[..base] == old(out[..base])
  {
    pos', index' := pos, index;
    if index' == 0 {
      pos' := pos' + 1;
      index' := 8;
    }
    if pos' >= out.Length {
      return true, pos', index';
    }
    fault := false;
    out[pos'] := SetBit(out[pos'], index', bit);
    index' := index' - 1;
    assert out[..][base..base + |w.done|] == w.done;
  }

  lemma {:induction false} WriteBitsGrows(w: Writer, bits: seq<bool>)
    requires w.Valid()
    ensures |WriteBits(w, bits).done| >= |w.done|
    decreases |bits|
  {
    if bits != [] {
      WriteBitsGrows(WriteBit(w, bits[0]), bits[1..]);
    }
  }

  /** The inner loop of huffman_encode: one codeword. */
  method PutWord(out: array<Byte>, base: nat, pos: nat, index: nat, word: Word, ghost w: Writer)
    returns (fault: bool, pos': nat, index': nat)
    requires w.Valid() && pos == base + |w.done| && index == w.index && Written(out[..], base, w)
    modifies out
    ensures var r := WriteBits(w, word);
      && (fault <==> base + |r.done| >= out.Length)
      && (!fault ==> Written(out[..], base, r) && pos' == base + |r.done| && index' == r.index)
    ensures out[..base] == old(out[..base])
  {
    fault, pos', index' := false, pos, index;
    ghost var cur := w;
    for j := 0 to |word|
      invariant cur.Valid() && WriteBits(cur, word[j..]) == WriteBits(w, word)
      invariant Written(out[..], base, cur) && pos' == base + |cur.done| && index' == cur.index
      invariant out[..base] == old(out[..base])
    {
      assert word[j..][0] == word[j] && word[j..][1..] == word[j + 1..];
      WriteBitsGrows(WriteBit(cur, word[j]), word[j + 1..]);
      fault, pos', index' := PutBitAt(out, base, pos', index', word[j], cur);
      if fault {
        return;
      }
      cur := WriteBit(cur, word[j]);
    }
    assert word[|word|..] == [];
    fault := false;
  }

  lemma StillZero(a: seq<Byte>, zeros: seq<Byte>, from: nat)
    requires |a| == |zeros| && from <= |a| && a[from..] == zeros[from..]
    requires forall k :: from <= k < |zeros| ==> zeros[k] == 0
    ensures forall k :: from <= k < |a| ==> a[k] == 0
  {
    forall k | from <= k < |a| ensures a[k] == 0 {
      assert a[k] == a[from..][k - from] == zeros[from..][k - from];
    }
  }

  /** The outer loop of huffman_encode: one codeword after another, on zeroed memory from `base` on. */
  method PutWords(input: seq<Byte>, codes: Code, out: array<Byte>, base: nat) returns (fault: bool, pos: nat)
    requires Encodable(input, codes) && base < out.Length
    requires forall k :: base <= k < out.Length ==> out[k] == 0
    modifies out
    ensures out[..base] == old(out[..base])
    ensures var w := WriteBits(START_WRITING, Encode(input, codes));
      && (fault <==> base + |w.done| >= out.Length)
      && (!fault ==> Written(out[..], base, w) && pos == base + |w.done|)
  {
    var index;
    fault, pos, index := false, base, 8;
    ghost var w := START_WRITING;
    for i := 0 to |input|
      invariant w.Valid() && WriteBits(w, Encode(input[i..], codes)) == WriteBits(START_WRITING, Encode(input, codes))
      invariant Written(out[..], base, w) && pos == base + |w.done| && index == w.index
      invariant out[..base] == old(out[..base])
    {
      var word := codes[input[i] as int];
      ghost var rest := Encode(input[i + 1..], codes);
      assert input[i..][1..] == input[i + 1..];
      WriteBitsConcat(w, word, rest);
      WriteBitsGrows(WriteBits(w, word), rest);
      fault, pos, index := PutWord(out, base, pos, index, word, w);
      if fault {
        return;
      }
      w := WriteBits(w, word);
    }
    fault := false;
  }

  lemma ThreeParts(a: seq<Byte>, i: nat, j: nat, k: nat)
    requires i <= j <= k < |a|
    ensures a[i..k + 1] == a[i..j] + a[j..k] + [a[k]]
  {
  }

  /**
   * huffman_encode: the input length, then the codewords; the number of bytes is returned, or it
   * leaves the buffer. The byte behind the length is written as soon as there is one bit.
   */
  method HuffmanEncode(host: Order, input: seq<Byte>, codes: Code, out: array<Byte>, head: nat) returns (fault: bool, len: nat)
    requires Encodable(input, codes) && Encode(input, codes) != [] && head <= out.Length
    requires forall k :: head <= k < out.Length ==> out[k] == 0
    modifies out
    ensures var body := IntBytes(host, |input|) + WriteBits(START_WRITING, Encode(input, codes)).Bytes();
      && (fault <==> head + |body| > out.Length)
      && (!fault ==> len == |body| && out[..head] == old(out[..head]) && out[head..head + len] == body)
  {
    if head + 4 >= out.Length {
      return true, 0;
    }
    ghost var zeros := out[..];
    PutNumber(host, out, head, |input|, 4);
    LaidOut(host, |input|);
    StillZero(out[..], zeros, head + 4);
    ghost var before := out[..head + 4];
    var pos;
    fault, pos := PutWords(input, codes, out, head + 4);
    if fault {
      return true, 0;
    }
    assert out[head..head + 4] == before[head..head + 4] == IntBytes(host, |input|);
    ThreeParts(out[..], head, head + 4, pos);
    assert out[..head] == before[..head];
    len := pos - head + 1;
  }

  /**
   * get_compress_output_len: the size of the buffer, before anything is written. The bits are
   * added up in an int, so the result is the true size exactly while bits + 7 is an int.
   */
  method GetCompressOutputLen(input: seq<Byte>, charFreq: seq<int>, codes: Code) returns (len: int)
    requires |charFreq| == CHARSET_SIZE && Encodable(input, codes)
    ensures var n := |Encode(input, codes)|; var size := 2 + 5 * Occurring(charFreq, 0) + 4 + (n + 7) / 8;
            && len == size - 0x2000_0000 * ((n + 7 + 0x8000_0000) / 0x1_0000_0000)
            && (len == size <==> IsInt(n + 7))
  {
    len := 2;
    for i := 0 to CHARSET_SIZE
      invariant len + 5 * Occurring(charFreq, i) == 2 + 5 * Occurring(charFreq, 0)
    {
      if charFreq[i] != 0 {
        len := len + 5;
      }
    }
    len := len + 4;
    var bits := 0;
    ghost var n := 0;
    for i := 0 to |input|
      invariant n + |Encode(input[i..], codes)| == |Encode(input, codes)|
      invariant bits == ToInt(n)
    {
      assert input[i..][1..] == input[i + 1..];
      var word := codes[input[i] as int];
      ToIntAdd(n, |word|);
      bits := ToInt(bits + |word|);
      n := n + |word|;
    }
    ToIntAdd(n, 7);
    WrappedEighth(n);
    len := ToInt(len + AlignCeil(bits) / 8);
  }

  /** ALIGN_CEIL(val, 8) on an int. */
  function AlignCeil(val: int): (r: int)
    ensures r / 8 == ToInt(val + 7) / 8
  {
    var v := ToInt(val + 7);
    v - v % 8
  }

  lemma ToIntAdd(n: int, k: int)
    ensures ToInt(ToInt(n) + k) == ToInt(n + k)
  {
    var q := (n + 0x8000_0000) / 0x1_0000_0000;
    assert ToInt(n) == n - 0x1_0000_0000 * q;
  }

  lemma WrappedEighth(n: nat)
    ensures ToInt(n + 7) / 8 == (n + 7) / 8 - 0x2000_0000 * ((n + 7 + 0x8000_0000) / 0x1_0000_0000)
    ensures -0x1000_0000 <= ToInt(n + 7) / 8 < 0x1000_0000
    ensures (n + 7 + 0x8000_0000) / 0x1_0000_0000 == 0 <==> IsInt(n + 7)
  {
    var q := (n + 7 + 0x8000_0000) / 0x1_0000_0000;
    assert ToInt(n + 7) == n + 7 - 8 * (0x2000_0000 * q);
  }

  /** huffman_compress: a fault, or the code it returns and the buffer it hands out. */
  method HuffmanCompress(host: Order, input: seq<Byte>) returns (fault: bool, code: int, output: array?<Byte>)
    requires |input| < 0x8000_0000
    ensures input == [] ==> !fault && code == -1 && output == null
    ensures fault <==> Compress(host, input).Fault?
    ensures input != [] && !fault ==> output != null && fresh(output) && Compress(host, input) == Returned(code, output[..])
  {
    if input == [] {
      return false, -1, null;
    }
    var charFreq := new int[CHARSET_SIZE];
    var cnt := CalcCharFreq(input, charFreq);
    var table := charFreq[..];
    FreqOccurs(input);
    InputSumsFit(input);
    var _, root := GenerateHuffmanTree(table);
    ghost var t := InputTree(input);
    var codes := GetCharCodes(root);
    code, output := WriteOutput(host, input, table, codes);
    fault := output == null;
  }

  /**
   * The second half of huffman_compress: size the buffer, then write the table and the codewords
   * into it. There is no buffer of negative size, and one that is too small is left by a write;
   * the assertion behind the writers never finds anything.
   */
  method WriteOutput(host: Order, input: seq<Byte>, table: seq<int>, codes: Code) returns (outputLen: int, out: array?<Byte>)
    requires input != [] && table == Freq(input) && codes == Codes(InputTree(input))
    ensures out == null <==> Compress(host, input).Fault?
    ensures out != null ==> fresh(out) && Compress(host, input) == Returned(outputLen, out[..])
  {
    outputLen := GetCompressOutputLen(input, table, codes);
    SizeDecides(host, input, outputLen);
    if outputLen < 0 {
      return outputLen, null;
    }
    var written: nat;
    written, out := WriteBoth(host, input, table, codes, outputLen);
    if out != null {
      assert written == outputLen && out[..written] == out[..];
    }
  }

  /** The precomputed size is that of the output, or it is too small. */
  lemma SizeDecides(host: Order, input: seq<Byte>, len: int)
    requires input != []
    requires var n := BodyBits(input); var size := 2 + 5 * Occurring(Freq(input), 0) + 4 + (n + 7) / 8;
      len == size - 0x2000_0000 * ((n + 7 + 0x8000_0000) / 0x1_0000_0000)
    ensures len <= |CompressedBytes(host, input)|
    ensures len == |CompressedBytes(host, input)| <==> Compress(host, input).Returned?
    ensures Compress(host, input).Returned? ==> Compress(host, input) == Returned(len, CompressedBytes(host, input))
  {
    SizeMatches(host, input);
    WrappedEighth(BodyBits(input));
  }

  /** The two writers on a zeroed buffer of any size. */
  method WriteBoth(host: Order, input: seq<Byte>, table: seq<int>, codes: Code, size: nat) returns (written: nat, out: array?<Byte>)
    requires input != [] && table == Freq(input) && codes == Codes(InputTree(input))
    ensures out == null <==> size < |CompressedBytes(host, input)|
    ensures out != null ==>
      && fresh(out) && out.Length == size && written == |CompressedBytes(host, input)|
      && out[..written] == CompressedBytes(host, input)
  {
    SizeMatches(host, input);
    SomeBits(input);
    out := new Byte[size](_ => 0);
    ghost var zeros := out[..];
    var fault, freqLen := CopyCharFreq(host, out, table);
    if fault {
      return 0, null;
    }
    StillZero(out[..], zeros, freqLen);
    ghost var header := out[..freqLen];
    var codeLen;
    fault, codeLen := HuffmanEncode(host, input, codes, out, freqLen);
    if fault {
      return 0, null;
    }
    written := freqLen + codeLen;
    Assemble(host, input, out[..written], freqLen);
  }

  lemma SomeBits(input: seq<Byte>)
    requires input != []
    ensures Encodable(input, Codes(InputTree(input))) && Encode(input, Codes(InputTree(input))) != []
  {
    NoEmptyCode(InputTree(input), input[0]);
  }

  lemma SizeMatches(host: Order, input: seq<Byte>)
    requires input != []
    ensures 2 + 5 * Occurring(Freq(input), 0) + 4 + (BodyBits(input) + 7) / 8
         == |TableBytes(host, Freq(input))| + 4 + |Body(input)| == |CompressedBytes(host, input)|
  {
    CompressedSize(host, input);
  }

  lemma Assemble(host: Order, input: seq<Byte>, out: seq<Byte>, freqLen: nat)
    requires input != [] && freqLen <= |out|
    requires out[..freqLen] == TableBytes(host, Freq(input)) && out[freqLen..] == IntBytes(host, |input|) + Body(input)
    ensures CompressedBytes(host, input) == out
  {
    assert out == out[..freqLen] + out[freqLen..];
    Assoc(TableBytes(host, Freq(input)), IntBytes(host, |input|), Body(input));
  }

  // ---- Decompression ---------------------------------------------------------------------

  /** get_char_freq: the table, or None where it would read past the input. */
  method GetCharFreq(host: Order, bytes: seq<Byte>, cnt: int) returns (r: Option<(seq<int>, seq<Byte>)>)
    ensures r == ReadEntries(host, bytes, if cnt < 0 then 0 else cnt, ZeroTable())
  {
    var table := ZeroTable();
    var rest := bytes;
    var i := 0;
    while i < cnt
      invariant 0 <= i && (cnt >= 0 ==> i <= cnt) && |table| == CHARSET_SIZE
      invariant ReadEntries(host, rest, if cnt < i then 0 else cnt - i, table)
             == ReadEntries(host, bytes, if cnt < 0 then 0 else cnt, ZeroTable())
    {
      if |rest| < 5 {
        return None;
      }
      table := table[rest[0] as int := Int32(host, rest[1..5])];
      rest := rest[5..];
      i := i + 1;
    }
    return Some((table, rest));
  }

  /** The walk of huffman_decode down the linked nodes, bit by bit. */
  method WalkNodes(root: BTreeNode, bytes: seq<Byte>, pos: nat, index: nat)
    returns (found: bool, ch: int, pos': nat, index': nat)
    requires root.Valid() && index <= 8
    ensures index' <= 8
    ensures Walk(root.shape, bytes, Cursor(pos, index)) == if found then Some((ch, Cursor(pos', index'))) else None
  {
    found, ch, pos', index' := true, 0, pos, index;
    var tn: BTreeNode := root;
    while !tn.IsLeaf()
      invariant tn.Valid() && index' <= 8
      invariant Walk(tn.shape, bytes, Cursor(pos', index')) == Walk(root.shape, bytes, Cursor(pos, index))
      decreases tn.shape
    {
      if index' == 0 {
        index' := 8;
        pos' := pos' + 1;
      }
      if pos' >= |bytes| {
        found := false;
        return;
      }
      var bit := GetBit(bytes[pos'], index');
      index' := index' - 1;
      var next := if !bit then tn.right else tn.left;
      if next == null {
        found := false;
        return;
      }
      tn := next;
    }
    ch := tn.ch;
  }

  /** huffman_decode: n symbols, or None where it would leave the input or follow a missing child. */
  method HuffmanDecode(root: BTreeNode, bytes: seq<Byte>, n: nat) returns (r: Option<seq<Byte>>)
    requires root.Valid()
    ensures r == DecodeSymbols(root.shape, bytes, Cursor(0, 8), n)
  {
    var pos: nat, index: nat := 0, 8;
    var output: seq<Byte> := [];
    JoinedEmpty(DecodeSymbols(root.shape, bytes, Cursor(0, 8), n));
    for i := 0 to n
      invariant index <= 8
      invariant DecodeSymbols(root.shape, bytes, Cursor(0, 8), n)
             == Joined(output, DecodeSymbols(root.shape, bytes, Cursor(pos, index), n - i))
    {
      ghost var at := Cursor(pos, index);
      var found, ch, pos', index' := WalkNodes(root, bytes, pos, index);
      if !found {
        return None;
      }
      JoinedAssoc(output, ch % 256, DecodeSymbols(root.shape, bytes, Cursor(pos', index'), n - i - 1));
      output := output + [ch % 256];
      pos, index := pos', index';
    }
    assert output + [] == output;
    return Some(output);
  }

  function Joined(a: seq<Byte>, r: Option<seq<Byte>>): Option<seq<Byte>> {
    match r
    case None => None
    case Some(b) => Some(a + b)
  }

  lemma JoinedEmpty(r: Option<seq<Byte>>)
    ensures Joined([], r) == r
  {
    if r.Some? {
      assert [] + r.value == r.value;
    }
  }

  lemma JoinedAssoc(a: seq<Byte>, x: Byte, r: Option<seq<Byte>>)
    ensures Joined(a, Joined([x], r)) == Joined(a + [x], r)
  {
    if r.Some? {
      assert a + ([x] + r.value) == a + [x] + r.value;
    }
  }

  /** huffman_decompress */
  method HuffmanDecompress(host: Order, bytes: seq<Byte>) returns (r: Outcome)
    ensures r == Decompress(host, bytes)
  {
    if |bytes| < 2 {
      return Fault;
    }
    var cnt := Int16(host, bytes[..2]);
    var read := GetCharFreq(host, bytes[2..], cnt);
    if read.None? {
      return Fault;
    }
    var (table, rest) := read.value;
    if cnt == 0 {
      return Returned(-1, []);
    }
    var overflow, root := GenerateHuffmanTree(table);
    if overflow {
      return Fault;
    }
    if root == null {
      return Returned(-1, []);
    }
    if |rest| < 4 {
      return Fault;
    }
    var len := Int32(host, rest[..4]);
    if len < 1 {
      return Returned(len, []);
    }
    var out := HuffmanDecode(root, rest[4..], len);
    if out.None? {
      return Fault;
    }
    return Returned(len, out.value);
  }
}
