/** Laws of the codes read off a Huffman tree, and their optimality among all prefix-free codes. */
module HuffmanCode {
  import opened Sums
  import opened HuffmanOptimal
  import opened HuffmanTree

  ghost predicate PrefixFree(c: Code) {
    forall a, b :: a in c && b in c && a != b ==> !(c[a] <= c[b])
  }

  /** No code is a prefix of another. */
  lemma {:induction false} CodesPrefixFree(t: Tree, table: seq<int>)
    requires Proper(t, table)
    ensures PrefixFree(Codes(t))
  {
    match t
    case Leaf(_, _) =>
    case Node(_, l, r) =>
      CodesPrefixFree(l, table);
      CodesPrefixFree(r, table);
      forall a, b | a in Codes(t) && b in Codes(t) && a != b
        ensures !(Codes(t)[a] <= Codes(t)[b])
      {
        ProperDisjoint(t, table, a);
        ProperDisjoint(t, table, b);
        var u := if a in Symbols(l) then Codes(l)[a] else Codes(r)[a];
        var v := if b in Symbols(l) then Codes(l)[b] else Codes(r)[b];
        PrefixCons(a in Symbols(l), u, b in Symbols(l), v);
      }
  }

  lemma PrefixCons(x: bool, u: Word, y: bool, v: Word)
    ensures [x] + u <= [y] + v ==> x == y && u <= v
  {
    assert ([x] + u)[1..] == u && ([y] + v)[1..] == v;
    assert ([x] + u)[0] == x && ([y] + v)[0] == y;
  }

  ghost predicate NoLonger(c: Code, bound: nat) {
    forall ch :: ch in c ==> |c[ch]| <= bound
  }

  /** With k symbols no code is longer than k - 1 bits. */
  lemma {:induction false} CodeLengthBound(t: Tree, table: seq<int>)
    requires Proper(t, table)
    ensures |Symbols(t)| >= 1
    ensures NoLonger(Codes(t), |Symbols(t)| - 1)
  {
    match t
    case Leaf(_, _) =>
    case Node(_, l, r) =>
      CodeLengthBound(l, table);
      CodeLengthBound(r, table);
      assert |Symbols(t)| == |Symbols(l)| + |Symbols(r)|;
      forall ch | ch in Symbols(t)
        ensures |Codes(t)[ch]| <= |Symbols(t)| - 1
      {
        ProperDisjoint(t, table, ch);
      }
  }

  // ---- Sums over a code ---------------------------------------------------------------

  /** The sum over the first n symbols of frequency times code length. */
  function WeightedLength(table: seq<int>, c: Code, n: nat): int
    requires n <= |table|
    decreases n, |table|
  {
    if n == 0 then 0 else
    WeightedLength(table, c, n - 1) + if n - 1 in c then table[n - 1] * |c[n - 1]| else 0
  }

  function Mass(table: seq<int>, symbols: set<int>, n: nat): int
    requires n <= |table|
    decreases n, |table|
  {
    if n == 0 then 0 else
    Mass(table, symbols, n - 1) + if n - 1 in symbols then table[n - 1] else 0
  }

  /** The Kraft sum of a code over the first n symbols, scaled by 2^bound. */
  function CodeKraft(c: Code, n: nat, bound: nat): int
    decreases n, |c|
  {
    if n == 0 then 0 else
    CodeKraft(c, n - 1, bound) + if n - 1 in c && |c[n - 1]| <= bound then Pow2(bound - |c[n - 1]|) else 0
  }

  lemma {:induction false} MassUnion(table: seq<int>, s: set<int>, r: set<int>, n: nat)
    requires n <= |table| && s !! r
    ensures Mass(table, s + r, n) == Mass(table, s, n) + Mass(table, r, n)
  {
    if n > 0 { MassUnion(table, s, r, n - 1); }
  }

  lemma {:induction false} MassOne(table: seq<int>, ch: nat, n: nat)
    requires n <= |table| && ch < |table|
    ensures Mass(table, {ch}, n) == if ch < n then table[ch] else 0
  {
    if n > 0 { MassOne(table, ch, n - 1); }
  }

  lemma {:induction false} MassIsFreq(t: Tree, table: seq<int>)
    requires Proper(t, table)
    ensures Mass(table, Symbols(t), |table|) == t.freq
  {
    match t
    case Leaf(ch, _) => MassOne(table, ch, |table|);
    case Node(_, l, r) =>
      MassIsFreq(l, table);
      MassIsFreq(r, table);
      MassUnion(table, Symbols(l), Symbols(r), |table|);
  }

  lemma {:induction false} PrependLength(table: seq<int>, b: bool, c: Code, n: nat)
    requires n <= |table|
    ensures WeightedLength(table, Prepend(b, c), n) == WeightedLength(table, c, n) + Mass(table, c.Keys, n)
  {
    if n > 0 {
      PrependLength(table, b, c, n - 1);
      if n - 1 in c {
        assert |Prepend(b, c)[n - 1]| == |c[n - 1]| + 1;
        assert table[n - 1] * (|c[n - 1]| + 1) == table[n - 1] * |c[n - 1]| + table[n - 1];
      }
    }
  }

  lemma {:induction false} UnionLength(table: seq<int>, c: Code, d: Code, n: nat)
    requires n <= |table| && c.Keys !! d.Keys
    ensures WeightedLength(table, c + d, n) == WeightedLength(table, c, n) + WeightedLength(table, d, n)
  {
    if n > 0 { UnionLength(table, c, d, n - 1); }
  }

  lemma {:induction false} EmptyWordLength(table: seq<int>, ch: int, n: nat)
    requires n <= |table|
    ensures WeightedLength(table, map[ch := []], n) == 0
  {
    if n > 0 { EmptyWordLength(table, ch, n - 1); }
  }

  /** The weighted code length of a tree is the sum of the weights of its merges. */
  lemma {:induction false} WeightedLengthIsBits(t: Tree, table: seq<int>)
    requires Proper(t, table)
    ensures WeightedLength(table, Codes(t), |table|) == Bits(t)
  {
    match t
    case Leaf(ch, _) => EmptyWordLength(table, ch, |table|);
    case Node(_, l, r) =>
      WeightedLengthIsBits(l, table);
      WeightedLengthIsBits(r, table);
      MassIsFreq(l, table);
      MassIsFreq(r, table);
      PrependLength(table, true, Codes(l), |table|);
      PrependLength(table, false, Codes(r), |table|);
      UnionLength(table, Prepend(true, Codes(l)), Prepend(false, Codes(r)), |table|);
  }

  lemma {:induction false} LeafKraft(ch: nat, n: nat, bound: nat)
    ensures CodeKraft(map[ch := []], n, bound) == if ch < n then Pow2(bound) else 0
  {
    if n > 0 { LeafKraft(ch, n - 1, bound); }
  }

  lemma {:induction false} NodeKraft(c: Code, d: Code, n: nat, bound: nat)
    requires c.Keys !! d.Keys
    ensures CodeKraft(Prepend(true, c) + Prepend(false, d), n, bound + 1) == CodeKraft(c, n, bound) + CodeKraft(d, n, bound)
  {
    if n > 0 {
      NodeKraft(c, d, n - 1, bound);
    }
  }

  /** Kraft equality: over all symbols the sum of 2^-length is exactly 1. */
  lemma {:induction false} KraftEquality(t: Tree, table: seq<int>, bound: nat)
    requires Proper(t, table) && NoLonger(Codes(t), bound)
    ensures CodeKraft(Codes(t), |table|, bound) == Pow2(bound)
  {
    match t
    case Leaf(ch, _) => LeafKraft(ch, |table|, bound);
    case Node(_, l, r) =>
      ChildrenShorter(t, table, bound);
      KraftEquality(l, table, bound - 1);
      KraftEquality(r, table, bound - 1);
      NodeKraft(Codes(l), Codes(r), |table|, bound - 1);
  }

  lemma ChildrenShorter(t: Tree, table: seq<int>, bound: nat)
    requires t.Node? && Proper(t, table) && NoLonger(Codes(t), bound)
    ensures bound > 0 && NoLonger(Codes(t.left), bound - 1) && NoLonger(Codes(t.right), bound - 1)
  {
    SymbolsNonEmpty(t.left);
    var any :| any in Symbols(t.left);
    ProperDisjoint(t, table, any);
    forall ch | ch in Symbols(t)
      ensures ch in Symbols(t.left) ==> |Codes(t.left)[ch]| <= bound - 1
      ensures ch in Symbols(t.right) ==> |Codes(t.right)[ch]| <= bound - 1
    {
      ProperDisjoint(t, table, ch);
    }
  }

  lemma SymbolsNonEmpty(t: Tree)
    ensures exists ch :: ch in Symbols(t)
  {
    if t.Leaf? {
      assert t.ch in Symbols(t);
    } else {
      SymbolsNonEmpty(t.left);
      var ch :| ch in Symbols(t.left);
      assert ch in Symbols(t);
    }
  }

  lemma ProperDisjoint(t: Tree, table: seq<int>, ch: int)
    requires t.Node? && Proper(t, table) && ch in Symbols(t)
    ensures Codes(t)[ch] == if ch in Symbols(t.left) then [true] + Codes(t.left)[ch] else [false] + Codes(t.right)[ch]
  {
  }

  // ---- Any prefix-free code meets the Kraft inequality ----------------------------------

  predicate Incomparable(u: Word, v: Word) { !(u <= v) && !(v <= u) }

  predicate PrefixFreeWords(words: seq<Word>) {
    words != [] ==>
      var last := words[|words| - 1];
      && PrefixFreeWords(words[..|words| - 1])
      && forall w :: w in words[..|words| - 1] ==> Incomparable(w, last)
  }

  function WordKraft(words: seq<Word>, bound: nat): int {
    if words == [] then 0 else
    var last := words[|words| - 1];
    WordKraft(words[..|words| - 1], bound) + if |last| <= bound then Pow2(bound - |last|) else 0
  }

  /** What is left of the words starting with b once that bit is dropped. */
  function Tails(words: seq<Word>, b: bool): seq<Word> {
    if words == [] then [] else
    var last := words[|words| - 1];
    Tails(words[..|words| - 1], b) + if last != [] && last[0] == b then [last[1..]] else []
  }

  lemma {:induction false} TailsIn(words: seq<Word>, b: bool)
    ensures forall w :: w in Tails(words, b) ==> [b] + w in words
  {
    if words != [] {
      var last := words[|words| - 1];
      TailsIn(words[..|words| - 1], b);
      assert last != [] && last[0] == b ==> last == [b] + last[1..];
    }
  }

  lemma {:induction false} TailsPrefixFree(words: seq<Word>, b: bool)
    requires PrefixFreeWords(words)
    ensures PrefixFreeWords(Tails(words, b))
  {
    if words != [] {
      var init, last := words[..|words| - 1], words[|words| - 1];
      TailsPrefixFree(init, b);
      var t := Tails(init, b);
      if last != [] && last[0] == b {
        assert (t + [last[1..]])[..|t|] == t;
        TailsIn(init, b);
        forall w | w in t ensures Incomparable(w, last[1..]) {
          assert last == [b] + last[1..] && Incomparable([b] + w, last);
        }
      } else {
        assert Tails(words, b) == t;
      }
    }
  }

  predicate Fits(words: seq<Word>, bound: nat) {
    forall w :: w in words ==> |w| <= bound
  }

  lemma TailsFit(words: seq<Word>, b: bool, bound: nat)
    requires bound > 0 && Fits(words, bound)
    ensures Fits(Tails(words, b), bound - 1)
  {
    TailsIn(words, b);
    forall w | w in Tails(words, b) ensures |w| <= bound - 1 {
      assert [b] + w in words;
    }
  }

  lemma TailsLaws(words: seq<Word>, b: bool, bound: nat)
    requires bound > 0 && PrefixFreeWords(words) && Fits(words, bound)
    ensures PrefixFreeWords(Tails(words, b)) && Fits(Tails(words, b), bound - 1)
  {
    TailsPrefixFree(words, b);
    TailsFit(words, b, bound);
  }

  lemma {:induction false} KraftSplit(words: seq<Word>, bound: nat)
    requires bound > 0 && forall w :: w in words ==> w != []
    ensures WordKraft(words, bound) == WordKraft(Tails(words, true), bound - 1) + WordKraft(Tails(words, false), bound - 1)
  {
    if words != [] {
      var init, last := words[..|words| - 1], words[|words| - 1];
      assert forall w :: w in init ==> w in words;
      assert last in words;
      KraftSplit(init, bound);
      var t := Tails(init, last[0]);
      assert (t + [last[1..]])[..|t|] == t;
      assert Tails(words, !last[0]) == Tails(init, !last[0]);
    }
  }

  lemma {:induction false} Pow2Monotone(m: nat, n: nat)
    requires m <= n
    ensures Pow2(m) <= Pow2(n)
  {
    if m < n { Pow2Monotone(m, n - 1); }
  }

  /** The Kraft inequality for every prefix-free list of words. */
  lemma {:induction false} KraftInequality(words: seq<Word>, bound: nat)
    requires PrefixFreeWords(words) && Fits(words, bound)
    ensures WordKraft(words, bound) <= Pow2(bound)
    decreases bound
  {
    if |words| <= 1 {
      FewWords(words, bound);
    } else {
      var ones, zeros := Halves(words, bound);
      KraftInequality(ones, bound - 1);
      KraftInequality(zeros, bound - 1);
    }
  }

  /** Two or more words split by their first bit into two prefix-free lists that share the Kraft sum. */
  lemma Halves(words: seq<Word>, bound: nat) returns (ones: seq<Word>, zeros: seq<Word>)
    requires |words| >= 2 && PrefixFreeWords(words) && Fits(words, bound)
    ensures bound > 0
    ensures PrefixFreeWords(ones) && Fits(ones, bound - 1)
    ensures PrefixFreeWords(zeros) && Fits(zeros, bound - 1)
    ensures WordKraft(words, bound) == WordKraft(ones, bound - 1) + WordKraft(zeros, bound - 1)
  {
    ones, zeros := Tails(words, true), Tails(words, false);
    WordsNonEmpty(words);
    assert words[0] in words;
    TailsLaws(words, true, bound);
    TailsLaws(words, false, bound);
    KraftSplit(words, bound);
  }

  lemma FewWords(words: seq<Word>, bound: nat)
    requires |words| <= 1 && Fits(words, bound)
    ensures WordKraft(words, bound) <= Pow2(bound)
  {
    if |words| == 1 {
      assert words[..0] == [] && words[0] in words;
      Pow2Monotone(bound - |words[0]|, bound);
    }
  }

  lemma WordsNonEmpty(words: seq<Word>)
    requires PrefixFreeWords(words) && |words| >= 2
    ensures forall w :: w in words ==> w != []
  {
    var init, last := words[..|words| - 1], words[|words| - 1];
    assert init[0] in init;
    forall w | w in words ensures w != [] {
      if w in init {
        assert Incomparable(w, last);
      } else {
        assert w == last;
        assert Incomparable(init[0], last);
      }
    }
  }

  // ---- Optimality ---------------------------------------------------------------------

  /** A code that has a word for every byte that occurs. */
  ghost predicate Covers(c: Code, table: seq<int>) {
    forall k :: 0 <= k < |table| && table[k] != 0 ==> k in c
  }

  ghost predicate NonNegative(table: seq<int>) {
    forall k :: 0 <= k < |table| ==> table[k] >= 0
  }

  ghost function WordsTo(table: seq<int>, c: Code, n: nat): seq<Word>
    requires n <= |table| && Covers(c, table)
    decreases n, |table|
  {
    if n == 0 then [] else
    WordsTo(table, c, n - 1) + if table[n - 1] == 0 then [] else [c[n - 1]]
  }

  ghost function ItemsTo(table: seq<int>, c: Code, n: nat): seq<Item>
    requires n <= |table| && Covers(c, table) && NonNegative(table)
    decreases n, |table|
  {
    if n == 0 then [] else
    ItemsTo(table, c, n - 1) + if table[n - 1] == 0 then [] else [Item(table[n - 1], |c[n - 1]|)]
  }

  lemma {:induction false} WordsLaws(table: seq<int>, c: Code, n: nat)
    requires n <= |table| && Covers(c, table) && PrefixFree(c)
    ensures forall w :: w in WordsTo(table, c, n) ==> exists k :: 0 <= k < n && k in c && c[k] == w
    ensures PrefixFreeWords(WordsTo(table, c, n))
  {
    if n > 0 {
      WordsLaws(table, c, n - 1);
      var before := WordsTo(table, c, n - 1);
      if table[n - 1] == 0 {
        assert WordsTo(table, c, n) == before;
      } else {
        assert (before + [c[n - 1]])[..|before|] == before;
        assert c[n - 1] == c[n - 1] && n - 1 in c;
        forall w | w in before ensures Incomparable(w, c[n - 1]) {
          var k :| 0 <= k < n - 1 && k in c && c[k] == w;
        }
      }
    }
  }

  lemma {:induction false} ItemsWeights(table: seq<int>, c: Code, n: nat)
    requires n <= |table| && Covers(c, table) && NonNegative(table)
    ensures Weights(ItemsTo(table, c, n)) == Freqs(LeavesTo(table, n))
  {
    if n > 0 {
      ItemsWeights(table, c, n - 1);
      if table[n - 1] == 0 {
        assert LeavesTo(table, n) == LeavesTo(table, n - 1) && ItemsTo(table, c, n) == ItemsTo(table, c, n - 1);
      } else {
        MapAppend(ItemsTo(table, c, n - 1), Item(table[n - 1], |c[n - 1]|), WeightOf());
        MapAppend(LeavesTo(table, n - 1), Leaf(n - 1, table[n - 1]), FreqOf());
      }
    }
  }

  lemma {:induction false} ItemsCost(table: seq<int>, c: Code, n: nat)
    requires n <= |table| && Covers(c, table) && NonNegative(table)
    ensures Cost(ItemsTo(table, c, n)) == WeightedLength(table, c, n)
  {
    if n > 0 {
      ItemsCost(table, c, n - 1);
      if table[n - 1] == 0 {
        assert ItemsTo(table, c, n) == ItemsTo(table, c, n - 1);
      } else {
        SumAppend(ItemsTo(table, c, n - 1), Item(table[n - 1], |c[n - 1]|), CostTerm());
      }
    }
  }

  lemma {:induction false} ItemsFit(table: seq<int>, c: Code, n: nat, bound: nat)
    requires n <= |table| && Covers(c, table) && NonNegative(table)
    requires forall ch :: 0 <= ch < n && ch in c ==> |c[ch]| <= bound
    ensures Bounded(ItemsTo(table, c, n), bound) && Fits(WordsTo(table, c, n), bound)
  {
    if n > 0 {
      ItemsFit(table, c, n - 1, bound);
    }
  }

  lemma {:induction false} ItemsKraft(table: seq<int>, c: Code, n: nat, bound: nat)
    requires n <= |table| && Covers(c, table) && NonNegative(table)
    ensures Kraft(ItemsTo(table, c, n), bound) == WordKraft(WordsTo(table, c, n), bound)
  {
    if n > 0 {
      ItemsKraft(table, c, n - 1, bound);
      var items, words := ItemsTo(table, c, n - 1), WordsTo(table, c, n - 1);
      if table[n - 1] == 0 {
        assert ItemsTo(table, c, n) == items && WordsTo(table, c, n) == words;
      } else {
        SumAppend(items, Item(table[n - 1], |c[n - 1]|), KraftTerm(bound));
        assert (words + [c[n - 1]])[..|words|] == words;
      }
    }
  }

  ghost function LongestWord(c: Code, n: nat): (b: nat)
    ensures forall ch :: 0 <= ch < n && ch in c ==> |c[ch]| <= b
    decreases n, |c|
  {
    if n == 0 then 0 else
    var b := LongestWord(c, n - 1);
    if n - 1 in c && |c[n - 1]| > b then |c[n - 1]| else b
  }

  /** Building gives a proper tree whose symbols are exactly the bytes that occur. */
  lemma BuildLaws(table: seq<int>)
    requires LeavesTo(table, |table|) != []
    ensures var t := BuildForest(LeavesTo(table, |table|));
            && Proper(t, table)
            && (forall ch :: ch in Symbols(t) <==> 0 <= ch < |table| && table[ch] != 0)
            && Bits(t) == MergeCost(Freqs(LeavesTo(table, |table|)))
  {
    LeavesProper(table, |table|);
    BuildForestLaws(LeavesTo(table, |table|), table);
  }

  lemma BuildSymbols(table: seq<int>)
    requires LeavesTo(table, |table|) != []
    ensures forall ch :: ch in Codes(Build(table)) <==> 0 <= ch < |table| && table[ch] != 0
  {
    BuildLaws(table);
    var t := BuildForest(LeavesTo(table, |table|));
    assert Symbols(Rooted(t)) == Symbols(t);
  }

  lemma {:induction false} BuildIsNode(forest: seq<Tree>)
    requires |forest| >= 2
    ensures BuildForest(forest).Node?
    decreases |forest|
  {
    if |forest| > 2 {
      BuildIsNode(MergedForest(forest));
    }
  }

  /**
   * Optimality: no prefix-free code for the bytes that occur has a smaller weighted length
   * than the code of the tree built by merging the two lightest entries.
   */
  lemma CodeIsOptimal(table: seq<int>, c: Code)
    requires NonNegative(table) && |LeavesTo(table, |table|)| >= 2
    requires PrefixFree(c) && Covers(c, table)
    ensures WeightedLength(table, Codes(Build(table)), |table|) <= WeightedLength(table, c, |table|)
  {
    var n, bound := |table|, LongestWord(c, |table|);
    BuildLaws(table);
    BuildIsNode(LeavesTo(table, n));
    WeightedLengthIsBits(Build(table), table);
    WordsLaws(table, c, n);
    ItemsFit(table, c, n, bound);
    ItemsKraft(table, c, n, bound);
    KraftInequality(WordsTo(table, c, n), bound);
    MergeCostIsOptimal(ItemsTo(table, c, n), bound);
    ItemsWeights(table, c, n);
    ItemsCost(table, c, n);
  }

  /** In terms of trees: no binary tree over the same weighted leaves has a smaller weighted path length. */
  lemma TreeIsOptimal(table: seq<int>, other: Tree)
    requires NonNegative(table) && |LeavesTo(table, |table|)| >= 2
    requires Proper(other, table) && Covers(Codes(other), table)
    ensures Bits(Build(table)) <= Bits(other)
  {
    BuildLaws(table);
    BuildIsNode(LeavesTo(table, |table|));
    WeightedLengthIsBits(Build(table), table);
    CodesPrefixFree(other, table);
    WeightedLengthIsBits(other, table);
    CodeIsOptimal(table, Codes(other));
  }
}
