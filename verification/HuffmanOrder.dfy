/** Which way the tree of generate_huffman_tree is put together: who becomes the left child, and so gets the bit 1. */
module HuffmanOrder {
  import opened Sums
  import opened HuffmanOptimal
  import opened HuffmanTree
  import opened HuffmanCode

  /** Tree a is fetched before tree b: it weighs less, or as much and stands earlier. */
  predicate Before(forest: seq<Tree>, a: nat, b: nat)
    requires a < |forest| && b < |forest|
  {
    forest[a].freq < forest[b].freq || (forest[a].freq == forest[b].freq && a < b)
  }

  /** The forest without two of its trees, the others in their order. */
  function Without(forest: seq<Tree>, a: nat, b: nat): seq<Tree>
    requires a < |forest| && b < |forest| && a != b
  {
    if a < b then forest[..a] + forest[a + 1..b] + forest[b + 1..] else forest[..b] + forest[b + 1..a] + forest[a + 1..]
  }

  /**
   * One round: the tree fetched before all others becomes the left child, the one fetched before
   * all but that one the right child, and their parent goes behind the others.
   */
  lemma OneRound(forest: seq<Tree>) returns (a: nat, b: nat)
    requires |forest| >= 2
    ensures a < |forest| && b < |forest| && a != b
    ensures forall k: nat | k < |forest| && k != a :: Before(forest, a, k)
    ensures forall k: nat | k < |forest| && k != a && k != b :: Before(forest, b, k)
    ensures MergedForest(forest) ==
      Without(forest, a, b) + [Node(forest[a].freq + forest[b].freq, forest[a], forest[b])]
  {
    a := MinIndex(Freqs(forest));
    var j := MinIndex(Freqs(RemoveAt(forest, a)));
    b := if j < a then j else j + 1;
    SecondFetched(forest, a, j);
    RemovedTwice(forest, a, j);
  }

  lemma SecondFetched(forest: seq<Tree>, a: nat, j: nat)
    requires a < |forest| && IsMinIndex(Freqs(RemoveAt(forest, a)), j)
    ensures var b := if j < a then j else j + 1;
      b < |forest| && forall k: nat | k < |forest| && k != a && k != b :: Before(forest, b, k)
  {
    var b, rest := if j < a then j else j + 1, RemoveAt(forest, a);
    forall k: nat | k < |forest| && k != a && k != b ensures Before(forest, b, k) {
      var i := if k < a then k else k - 1;
      assert rest[i] == forest[k] && Freqs(rest)[i] == forest[k].freq;
    }
  }

  lemma RemovedTwice(forest: seq<Tree>, a: nat, j: nat)
    requires a < |forest| && j < |forest| - 1
    ensures var b := if j < a then j else j + 1;
      RemoveAt(RemoveAt(forest, a), j) == Without(forest, a, b) && RemoveAt(forest, a)[j] == forest[b]
  {
  }

  /**
   * In every pair of siblings the left one is no heavier; where both weigh the same, a right leaf
   * has a left leaf of a smaller byte beside it.
   */
  predicate Siblings(t: Tree) {
    match t
    case Leaf(_, _) => true
    case Node(_, l, r) => Siblings(l) && Siblings(r) && LeftFirst(l, r)
    case Single(_, l) => Siblings(l)
  }

  predicate LeftFirst(l: Tree, r: Tree) {
    l.freq <= r.freq && (l.freq == r.freq && r.Leaf? ==> l.Leaf? && l.ch < r.ch)
  }

  /** The leaves stand in front, in byte order. */
  predicate LeavesFirst(forest: seq<Tree>) {
    forall i, j | 0 <= i < j < |forest| && forest[j].Leaf? :: forest[i].Leaf? && forest[i].ch < forest[j].ch
  }

  predicate AllSiblings(forest: seq<Tree>) { forall i | 0 <= i < |forest| :: Siblings(forest[i]) }

  lemma WithoutKeeps(forest: seq<Tree>, a: nat, b: nat)
    requires a < |forest| && b < |forest| && a != b && LeavesFirst(forest) && AllSiblings(forest)
    ensures LeavesFirst(Without(forest, a, b)) && AllSiblings(Without(forest, a, b))
  {
    var lo, hi := if a < b then a else b, if a < b then b else a;
    var rest := Without(forest, a, b);
    forall i | 0 <= i < |rest| ensures rest[i] == forest[Place(i, lo, hi)] {
    }
  }

  /** Where the i-th of the others stood. */
  function Place(i: nat, lo: nat, hi: nat): nat {
    if i < lo then i else if i + 1 < hi then i + 1 else i + 2
  }

  lemma RoundKeeps(forest: seq<Tree>)
    requires |forest| >= 2 && LeavesFirst(forest) && AllSiblings(forest)
    ensures LeavesFirst(MergedForest(forest)) && AllSiblings(MergedForest(forest))
  {
    var a, b := OneRound(forest);
    WithoutKeeps(forest, a, b);
    assert Before(forest, a, b);
  }

  lemma {:induction false} BuildForestSiblings(forest: seq<Tree>)
    requires forest != [] && LeavesFirst(forest) && AllSiblings(forest)
    ensures Siblings(BuildForest(forest))
    decreases |forest|
  {
    if |forest| > 1 {
      RoundKeeps(forest);
      BuildForestSiblings(MergedForest(forest));
    }
  }

  lemma {:induction false} LeavesInOrder(table: seq<int>, n: nat)
    requires n <= |table|
    ensures var f := LeavesTo(table, n);
      LeavesFirst(f) && AllSiblings(f) && forall i | 0 <= i < |f| :: f[i].Leaf? && f[i].ch < n
  {
    if n > 0 {
      LeavesInOrder(table, n - 1);
    }
  }

  /** So it is in the tree of every table. */
  lemma BuildSiblings(table: seq<int>)
    requires LeavesTo(table, |table|) != []
    ensures Siblings(Build(table))
  {
    LeavesInOrder(table, |table|);
    BuildForestSiblings(LeavesTo(table, |table|));
  }

  // ---- two symbols ---------------------------------------------------------------------

  lemma {:induction false} SymbolCount(t: Tree, table: seq<int>)
    requires Proper(t, table)
    ensures |Symbols(t)| >= 1 && (t.Leaf? <==> |Symbols(t)| == 1)
    ensures t.Node? ==> |Symbols(t)| == |Symbols(t.left)| + |Symbols(t.right)|
  {
    if t.Node? {
      SymbolCount(t.left, table);
      SymbolCount(t.right, table);
    }
  }

  /** A proper tree with one symbol is its leaf. */
  lemma OneSymbol(t: Tree, table: seq<int>) returns (ch: int)
    requires Proper(t, table) && |Symbols(t)| == 1
    ensures Symbols(t) == {ch} && 0 <= ch < |table| && t == Leaf(ch, table[ch])
  {
    SymbolCount(t, table);
    ch := t.ch;
  }

  lemma TwoLeaves(t: Tree, table: seq<int>, a: nat, b: nat)
    requires a < b < |table| && Proper(t, table) && Symbols(t) == {a, b} && Siblings(t)
    ensures t == if table[b] < table[a] then Node(table[a] + table[b], Leaf(b, table[b]), Leaf(a, table[a]))
                 else Node(table[a] + table[b], Leaf(a, table[a]), Leaf(b, table[b]))
  {
    SymbolCount(t, table);
    assert |{a, b}| == 2;
    SymbolCount(t.left, table);
    SymbolCount(t.right, table);
    var x := OneSymbol(t.left, table);
    var y := OneSymbol(t.right, table);
    assert x in Symbols(t) && y in Symbols(t);
  }

  lemma PairCodes(t: Tree)
    requires t.Node? && t.left.Leaf? && t.right.Leaf? && t.left.ch != t.right.ch
    ensures Codes(t) == map[t.left.ch := [true], t.right.ch := [false]]
  {
    var c := map[t.left.ch := [true], t.right.ch := [false]];
    assert forall k | k in c :: Codes(t)[k] == c[k];
  }

  /** Of two symbols a < b, b gets the code 1 exactly when it is the rarer one, and the other gets 0. */
  lemma TwoCodes(table: seq<int>, a: nat, b: nat)
    requires a < b < |table| && forall ch | 0 <= ch < |table| :: table[ch] != 0 <==> ch == a || ch == b
    ensures LeavesTo(table, |table|) != []
    ensures Codes(Build(table)) == map[a := [table[b] >= table[a]], b := [table[b] < table[a]]]
  {
    var t := TwoSymbolTree(table, a, b);
    PairCodes(t);
  }

  lemma TwoSymbolTree(table: seq<int>, a: nat, b: nat) returns (t: Tree)
    requires a < b < |table| && forall ch | 0 <= ch < |table| :: table[ch] != 0 <==> ch == a || ch == b
    ensures LeavesTo(table, |table|) != [] && t == Build(table)
    ensures t == if table[b] < table[a] then Node(table[a] + table[b], Leaf(b, table[b]), Leaf(a, table[a]))
                 else Node(table[a] + table[b], Leaf(a, table[a]), Leaf(b, table[b]))
  {
    var leaves := LeavesTo(table, |table|);
    LeavesProper(table, |table|);
    assert a in ForestSymbols(leaves);
    BuildLaws(table);
    LeavesInOrder(table, |table|);
    BuildForestSiblings(leaves);
    t := BuildForest(leaves);
    assert Symbols(t) == {a, b};
    TwoLeaves(t, table, a, b);
  }
}
