/** What the code laws mean for an input: shortest among prefix-free codes, and never longer than the input itself. */
module HuffmanBounds {
  import opened Bytes
  import opened Sums
  import opened HuffmanOptimal
  import opened HuffmanTree
  import opened HuffmanCode
  import opened HuffmanCodec

  lemma {:induction false} EncodeSnoc(input: seq<Byte>, x: Byte, c: Code)
    requires Encodable(input, c) && x as int in c
    ensures Encodable(input + [x], c) && Encode(input + [x], c) == Encode(input, c) + c[x as int]
  {
    if input == [] {
      assert (input + [x])[1..] == [];
    } else {
      assert (input + [x])[1..] == input[1..] + [x];
      EncodeSnoc(input[1..], x, c);
    }
  }

  lemma {:induction false} AddOne(input: seq<Byte>, x: Byte, c: Code, n: nat)
    requires n <= CHARSET_SIZE && x as int in c
    ensures WeightedLength(Freq(input + [x]), c, n) ==
              WeightedLength(Freq(input), c, n) + if x < n then |c[x as int]| else 0
  {
    if n > 0 {
      AddOne(input, x, c, n - 1);
      assert (input + [x])[..|input|] == input;
      var k := n - 1;
      assert Freq(input + [x])[k] == Freq(input)[k] + if x == k then 1 else 0;
      if x == k {
        assert (Freq(input)[k] + 1) * |c[k]| == Freq(input)[k] * |c[k]| + |c[k]|;
      }
    }
  }

  lemma {:induction false} EmptyLength(c: Code, n: nat)
    requires n <= CHARSET_SIZE
    ensures WeightedLength(Freq([]), c, n) == 0
  {
    if n > 0 {
      EmptyLength(c, n - 1);
    }
  }

  /** The bits spent on an input are the frequency-weighted code lengths, whatever the code. */
  lemma {:induction false} BitsAreWeightedLength(input: seq<Byte>, c: Code)
    requires Encodable(input, c)
    ensures |Encode(input, c)| == WeightedLength(Freq(input), c, CHARSET_SIZE)
  {
    if input == [] {
      EmptyLength(c, CHARSET_SIZE);
    } else {
      var init, x := input[..|input| - 1], input[|input| - 1];
      assert input == init + [x];
      assert input[|input| - 1] as int in c;
      EncodeSnoc(init, x, c);
      BitsAreWeightedLength(init, c);
      AddOne(init, x, c, CHARSET_SIZE);
    }
  }

  lemma {:induction false} LeavesCounted(table: seq<int>, n: nat)
    requires n <= |table| == CHARSET_SIZE
    ensures |LeavesTo(table, n)| + Occurring(table, n) == Occurring(table, 0)
  {
    if n > 0 {
      LeavesCounted(table, n - 1);
    }
  }

  /** Optimality on inputs: with two or more distinct bytes, no prefix-free code needs fewer bits. */
  lemma InputIsOptimal(input: seq<Byte>, c: Code)
    requires Occurring(Freq(input), 0) >= 2 && input != []
    requires PrefixFree(c) && Encodable(input, c)
    ensures BodyBits(input) <= |Encode(input, c)|
  {
    var table := Freq(input);
    FreqOccurs(input);
    LeavesCounted(table, CHARSET_SIZE);
    forall k | 0 <= k < CHARSET_SIZE && table[k] != 0 ensures k in c {
      var i :| 0 <= i < |input| && input[i] == k;
      assert input[i] as int in c;
    }
    CodeIsOptimal(table, c);
    BitsAreWeightedLength(input, Codes(InputTree(input)));
    BitsAreWeightedLength(input, c);
  }

  // ---- Never more than eight bits for a byte ---------------------------------------------

  function Digits(n: nat, k: nat): (w: Word)
    ensures |w| == k
    decreases k, n
  {
    if k == 0 then [] else Digits(n / 2, k - 1) + [n % 2 == 1]
  }

  lemma {:induction false} DigitsInjective(m: nat, n: nat, k: nat)
    requires m < Pow2(k) && n < Pow2(k) && Digits(m, k) == Digits(n, k)
    ensures m == n
    decreases k
  {
    if k > 0 {
      var u, v := Digits(m / 2, k - 1), Digits(n / 2, k - 1);
      assert (u + [m % 2 == 1])[..k - 1] == u && (v + [n % 2 == 1])[..k - 1] == v;
      assert (u + [m % 2 == 1])[k - 1] == (v + [n % 2 == 1])[k - 1];
      DigitsInjective(m / 2, n / 2, k - 1);
    }
  }

  /** The code that leaves every byte as it is. */
  function PlainCode(): Code { map ch: int | 0 <= ch < CHARSET_SIZE :: Digits(ch, 8) }

  lemma PlainIsPrefixFree()
    ensures PrefixFree(PlainCode())
  {
    assert Pow2(4) == 16 && Pow2(8) == 256;
    var c := PlainCode();
    forall a, b | a in c && b in c && c[a] <= c[b] ensures a == b {
      assert c[a] == c[b];
      DigitsInjective(a, b, 8);
    }
  }

  lemma {:induction false} PlainLength(input: seq<Byte>, c: Code, k: nat)
    requires Encodable(input, c) && forall ch :: ch in c ==> |c[ch]| == k
    ensures |Encode(input, c)| == k * |input|
    decreases |input|
  {
    if input != [] {
      PlainLength(input[1..], c, k);
      assert k * |input| == k + k * |input[1..]|;
    }
  }

  /** With one distinct byte the tree is a one-child root over that byte's leaf, and its code is "1". */
  lemma SingleShape(table: seq<int>)
    requires |table| == CHARSET_SIZE && Occurring(table, 0) == 1
    ensures LeavesTo(table, CHARSET_SIZE) != [] && Build(table).Single? && Build(table).left.Leaf?
    ensures forall ch :: ch in Codes(Build(table)) ==> Codes(Build(table))[ch] == [true]
  {
    LeavesCounted(table, CHARSET_SIZE);
    LeavesAreLeaves(table, CHARSET_SIZE);
  }

  lemma {:induction false} LeavesAreLeaves(table: seq<int>, n: nat)
    requires n <= |table|
    ensures forall i :: 0 <= i < |LeavesTo(table, n)| ==> LeavesTo(table, n)[i].Leaf?
  {
    if n > 0 {
      LeavesAreLeaves(table, n - 1);
    }
  }

  lemma ManyWithinEight(input: seq<Byte>)
    requires input != [] && Occurring(Freq(input), 0) >= 2
    ensures BodyBits(input) <= 8 * |input|
  {
    PlainIsPrefixFree();
    InputIsOptimal(input, PlainCode());
    PlainLength(input, PlainCode(), 8);
  }

  /** Compression never spends more than eight bits on a byte. */
  lemma NeverExpands(input: seq<Byte>)
    requires input != []
    ensures BodyBits(input) <= 8 * |input|
  {
    FreqOccurs(input);
    LeavesCounted(Freq(input), CHARSET_SIZE);
    if Occurring(Freq(input), 0) == 1 {
      SingleShape(Freq(input));
      PlainLength(input, Codes(InputTree(input)), 1);
    } else {
      ManyWithinEight(input);
    }
  }

  /** Inputs below 2^28 bytes are always small enough for the bit count. */
  lemma SmallInputs(host: Order, input: seq<Byte>)
    requires 0 < |input| < 0x1000_0000
    ensures SizeIsInt(input) && Compress(host, input).Returned?
  {
    NeverExpands(input);
  }

  /** When compression comes back, the output is an int long, and at most the input plus the header. */
  lemma OutputBound(host: Order, input: seq<Byte>)
    requires input != [] && Compress(host, input).Returned?
    ensures 12 <= Compress(host, input).code <= |input| + 1286 && IsInt(Compress(host, input).code)
  {
    CompressedSize(host, input);
    NeverExpands(input);
    FreqOccurs(input);
    LeavesCounted(Freq(input), CHARSET_SIZE);
    NoEmptyCode(InputTree(input), input[0]);
    assert Encode(input, Codes(InputTree(input))) != [];
  }

  // ---- The bound is tight ------------------------------------------------------------------

  /** All 256 bytes in turn, over and over. */
  function Cycle(n: nat): (input: seq<Byte>)
    ensures |input| == n
  {
    seq(n, i requires 0 <= i < n => i % 256)
  }

  lemma {:induction false} CycleCount(n: nat, ch: Byte)
    ensures Count(Cycle(n), ch as int) == (n + 255 - ch) / 256
    decreases n
  {
    if n > 0 {
      assert Cycle(n)[..n - 1] == Cycle(n - 1);
      CycleCount(n - 1, ch);
      NextInCycle(n - 1, ch);
    }
  }

  lemma NextInCycle(m: nat, ch: Byte)
    ensures (m + 256 - ch) / 256 == (m + 255 - ch) / 256 + if m % 256 == ch then 1 else 0
  {
    var q, r := m / 256, m % 256;
    assert m + 256 - ch == 256 * q + (r + 256 - ch) && 0 < r + 256 - ch < 512;
  }

  /** The code lengths over the first n symbols, added up. */
  function LengthSum(c: Code, n: nat): nat
    decreases n, |c|
  {
    if n == 0 then 0 else LengthSum(c, n - 1) + if n - 1 in c then |c[n - 1]| else 0
  }

  lemma {:induction false} EqualWeights(table: seq<int>, c: Code, n: nat, f: int)
    requires n <= |table| && forall ch :: 0 <= ch < n ==> table[ch] == f
    ensures WeightedLength(table, c, n) == f * LengthSum(c, n)
  {
    if n > 0 {
      EqualWeights(table, c, n - 1, f);
      var l := if n - 1 in c then |c[n - 1]| else 0;
      assert f * (LengthSum(c, n - 1) + l) == f * LengthSum(c, n - 1) + f * l;
    }
  }

  /** The line 9 - l lies below 2^(8 - l). */
  lemma Tangent(l: nat, bound: nat)
    requires l <= bound
    ensures 256 * Pow2(bound - l) >= Pow2(bound) * (9 - l)
  {
    var p := Pow2(bound - l);
    if l <= 8 {
      Pow2Add(l, bound - l);
      var m := Pow2(l) * (9 - l);
      SmallTangent(l);
      ScaleLe(m, 256, p);
      Rearrange(Pow2(l), p, 9 - l);
    } else {
      NonPositive(Pow2(bound), 9 - l);
    }
  }

  lemma Rearrange(a: int, p: int, k: int)
    ensures a * p * k == (a * k) * p
  {
    assert a * p * k == a * (p * k) == a * (k * p);
  }

  lemma NonPositive(p: nat, d: int)
    requires d <= 0
    ensures p * d <= 0
  {
  }

  lemma SmallTangent(l: nat)
    requires l <= 8
    ensures Pow2(l) * (9 - l) <= 256
  {
    SmallPowers();
    assert l == 0 || l == 1 || l == 2 || l == 3 || l == 4 || l == 5 || l == 6 || l == 7 || l == 8;
  }

  lemma SmallPowers()
    ensures Pow2(0) == 1 && Pow2(1) == 2 && Pow2(2) == 4 && Pow2(3) == 8 && Pow2(4) == 16
    ensures Pow2(5) == 32 && Pow2(6) == 64 && Pow2(7) == 128 && Pow2(8) == 256
  {
    assert Pow2(4) == 16;
    assert Pow2(8) == 256;
  }

  lemma {:induction false} LengthsAgainstKraft(c: Code, n: nat, bound: nat)
    requires NoLonger(c, bound) && forall ch :: 0 <= ch < n ==> ch in c
    ensures 256 * CodeKraft(c, n, bound) >= Pow2(bound) * (9 * n - LengthSum(c, n))
  {
    if n > 0 {
      LengthsAgainstKraft(c, n - 1, bound);
      var l := |c[n - 1]|;
      Tangent(l, bound);
      var m := 9 * (n - 1) - LengthSum(c, n - 1);
      assert Pow2(bound) * (m + (9 - l)) == Pow2(bound) * m + Pow2(bound) * (9 - l);
    }
  }

  /** No code built for all 256 bytes is shorter on average than eight bits. */
  lemma FullCodeLength(table: seq<int>)
    requires |table| == CHARSET_SIZE && forall ch :: 0 <= ch < CHARSET_SIZE ==> table[ch] != 0
    ensures LeavesTo(table, |table|) != [] && LengthSum(Codes(Build(table)), CHARSET_SIZE) >= 2048
  {
    AllOccur(table, 0);
    BuiltLengths(table, CHARSET_SIZE);
    BuildSymbols(table);
    FullCodeWithin(table, CHARSET_SIZE - 1);
  }

  lemma FullCodeWithin(table: seq<int>, bound: nat)
    requires |table| == CHARSET_SIZE && Occurring(table, 0) == CHARSET_SIZE
    requires LeavesTo(table, |table|) != [] && NoLonger(Codes(Build(table)), bound)
    requires forall ch :: 0 <= ch < CHARSET_SIZE ==> ch in Codes(Build(table))
    ensures LengthSum(Codes(Build(table)), CHARSET_SIZE) >= 2048
  {
    var c := Codes(Build(table));
    BuiltKraft(table, bound);
    LengthsAgainstKraft(c, CHARSET_SIZE, bound);
    Cancel(Pow2(bound), 256, 9 * CHARSET_SIZE - LengthSum(c, CHARSET_SIZE));
  }

  lemma Cancel(p: int, x: int, y: int)
    requires p >= 1 && x * p >= p * y
    ensures x >= y
  {
    var d := x - y;
    assert p * d == x * p - p * y;
    assert d <= -1 ==> p * d <= -p;
  }

  lemma {:induction false} AllOccur(table: seq<int>, n: nat)
    requires n <= |table| == CHARSET_SIZE && forall ch :: 0 <= ch < CHARSET_SIZE ==> table[ch] != 0
    ensures Occurring(table, n) == CHARSET_SIZE - n
    decreases CHARSET_SIZE - n
  {
    if n < CHARSET_SIZE {
      AllOccur(table, n + 1);
    }
  }

  /** 2^28 bytes in which all values are equally frequent take 2^31 bits, and compressing them fails. */
  lemma CycleOverflows(host: Order, n: nat)
    requires n == 0x1000_0000
    ensures BodyBits(Cycle(n)) >= 0x8000_0000 && Compress(host, Cycle(n)) == Fault
  {
    var input := Cycle(n);
    var table := Freq(input);
    forall ch | 0 <= ch < CHARSET_SIZE ensures table[ch] == 0x10_0000 {
      CycleCount(n, ch);
    }
    FullCodeLength(table);
    var c := Codes(InputTree(input));
    BitsAreWeightedLength(input, c);
    EqualWeights(table, c, CHARSET_SIZE, 0x10_0000);
  }

  lemma {:induction false} SymbolsCounted(table: seq<int>, n: nat)
    requires n <= |table|
    ensures |ForestSymbols(LeavesTo(table, n))| == |LeavesTo(table, n)|
  {
    if n > 0 {
      SymbolsCounted(table, n - 1);
      if table[n - 1] != 0 {
        LeafIsNew(table, n);
        LeafAppended(LeavesTo(table, n - 1), n - 1, table[n - 1], table);
      } else {
        assert LeavesTo(table, n) == LeavesTo(table, n - 1);
      }
    }
  }

  lemma LeafIsNew(table: seq<int>, n: nat)
    requires 0 < n <= |table|
    ensures n - 1 !in ForestSymbols(LeavesTo(table, n - 1))
  {
    LeavesProper(table, n - 1);
  }

  lemma LeafAppended(forest: seq<Tree>, ch: int, freq: int, table: seq<int>)
    requires ch !in ForestSymbols(forest)
    ensures |ForestSymbols(forest + [Leaf(ch, freq)])| == |ForestSymbols(forest)| + 1
  {
    assert [Leaf(ch, freq)][1..] == [];
    ForestConcat(forest, [Leaf(ch, freq)], table);
    assert ForestSymbols(forest + [Leaf(ch, freq)]) == ForestSymbols(forest) + {ch};
  }

  lemma BuiltTree(table: seq<int>)
    requires |table| == CHARSET_SIZE && Occurring(table, 0) >= 2
    ensures LeavesTo(table, CHARSET_SIZE) != [] && Proper(Build(table), table)
    ensures |Symbols(Build(table))| == Occurring(table, 0)
  {
    var forest := LeavesTo(table, CHARSET_SIZE);
    LeavesCounted(table, CHARSET_SIZE);
    LeavesProper(table, CHARSET_SIZE);
    BuildForestLaws(forest, table);
    BuildIsNode(forest);
    SymbolsCounted(table, CHARSET_SIZE);
  }

  /** The built code is prefix-free; with one distinct byte it is the single word "1". */
  lemma BuiltPrefixFree(table: seq<int>)
    requires |table| == CHARSET_SIZE && Occurring(table, 0) >= 1
    ensures LeavesTo(table, |table|) != [] && PrefixFree(Codes(Build(table)))
  {
    if Occurring(table, 0) == 1 {
      SingleShape(table);
    } else {
      BuiltTree(table);
      CodesPrefixFree(Build(table), table);
    }
  }

  /** With k >= 2 symbols no word is longer than k - 1 bits. */
  lemma BuiltLengths(table: seq<int>, k: nat)
    requires |table| == CHARSET_SIZE && Occurring(table, 0) == k >= 2
    ensures LeavesTo(table, |table|) != [] && NoLonger(Codes(Build(table)), k - 1)
  {
    BuiltTree(table);
    CodeLengthBound(Build(table), table);
  }

  /** With two or more symbols the Kraft sum is exactly one, measured at any common bound. */
  lemma BuiltKraft(table: seq<int>, bound: nat)
    requires |table| == CHARSET_SIZE && Occurring(table, 0) >= 2
    requires LeavesTo(table, |table|) != [] && NoLonger(Codes(Build(table)), bound)
    ensures CodeKraft(Codes(Build(table)), |table|, bound) == Pow2(bound)
  {
    BuiltTree(table);
    KraftEquality(Build(table), table, bound);
  }
}
