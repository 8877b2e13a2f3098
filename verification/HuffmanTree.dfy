/** The tree that generate_huffman_tree builds, the codes it stands for, and their laws. */
module HuffmanTree {
  import opened Bytes
  import opened Sums
  import opened HuffmanOptimal

  const CHARSET_SIZE: nat := 256

  type Word = seq<bool>
  type Code = map<int, Word>

  /**
   * A tree of btree_nodes by value. `Single` is the one-child root given to an input
   * with one distinct byte.
   */
  datatype Tree =
    | Leaf(ch: int, freq: int)
    | Node(freq: int, left: Tree, right: Tree)
    | Single(freq: int, left: Tree)

  function FreqOf(): Tree -> int { (t: Tree) => t.freq }
  function Freqs(forest: seq<Tree>): seq<int> { Map(forest, FreqOf()) }

  function Symbols(t: Tree): set<int> {
    match t
    case Leaf(ch, _) => {ch}
    case Node(_, l, r) => Symbols(l) + Symbols(r)
    case Single(_, l) => Symbols(l)
  }

  function Prepend(b: bool, c: Code): (r: Code)
    ensures r.Keys == c.Keys
    ensures forall k :: k in c ==> r[k] == [b] + c[k]
  {
    map k | k in c :: [b] + c[k]
  }

  /** The root-to-leaf path of every symbol: true ('1') for left, false ('0') for right. */
  function Codes(t: Tree): (c: Code)
    ensures c.Keys == Symbols(t)
  {
    match t
    case Leaf(ch, _) => map[ch := []]
    case Node(_, l, r) => Prepend(true, Codes(l)) + Prepend(false, Codes(r))
    case Single(_, l) => Prepend(true, Codes(l))
  }

  /** A tree whose leaves carry the table's frequencies, whose inner nodes carry sums, with no symbol twice. */
  predicate Proper(t: Tree, table: seq<int>) {
    match t
    case Leaf(ch, f) => 0 <= ch < |table| && f == table[ch]
    case Node(f, l, r) =>
      Proper(l, table) && Proper(r, table) && f == l.freq + r.freq && Symbols(l) !! Symbols(r)
    case Single(_, _) => false
  }

  /** No symbol hangs at two leaves. */
  predicate Distinct(t: Tree) {
    match t
    case Leaf(_, _) => true
    case Node(_, l, r) => Distinct(l) && Distinct(r) && Symbols(l) !! Symbols(r)
    case Single(_, l) => Distinct(l)
  }

  lemma {:induction false} ProperIsDistinct(t: Tree, table: seq<int>)
    requires Proper(t, table)
    ensures Distinct(t) && Distinct(Rooted(t))
  {
    if t.Node? {
      ProperIsDistinct(t.left, table);
      ProperIsDistinct(t.right, table);
    }
  }

  /** The first bit of a code picks the child, the rest is the child's code. */
  lemma CodeHead(t: Tree, ch: int)
    requires Distinct(t) && !t.Leaf? && ch in Symbols(t)
    ensures var b := ch in Symbols(t.left);
            && (t.Single? ==> b)
            && var child := if b then t.left else t.right;
               ch in Symbols(child) && Distinct(child) && Codes(t)[ch] == [b] + Codes(child)[ch]
  {
  }

  // ---- Building the tree from a table -------------------------------------------------

  /** One leaf per byte that occurs, in byte order. */
  function LeavesTo(table: seq<int>, n: nat): seq<Tree>
    requires n <= |table|
    decreases n, |table|
  {
    if n == 0 then [] else
    LeavesTo(table, n - 1) + if table[n - 1] == 0 then [] else [Leaf(n - 1, table[n - 1])]
  }

  /** Entry i is taken out, then entry j of what is left; their parent goes to the end. */
  function MergeAt(forest: seq<Tree>, i: nat, j: nat): (r: seq<Tree>)
    requires i < |forest| && j < |forest| - 1
    ensures |r| == |forest| - 1
  {
    var f1 := RemoveAt(forest, i);
    RemoveAt(f1, j) + [Node(forest[i].freq + f1[j].freq, forest[i], f1[j])]
  }

  ghost function MergedForest(forest: seq<Tree>): (r: seq<Tree>)
    requires |forest| >= 2
    ensures |r| == |forest| - 1
  {
    var i := MinIndex(Freqs(forest));
    MergeAt(forest, i, MinIndex(Freqs(RemoveAt(forest, i))))
  }

  ghost function BuildForest(forest: seq<Tree>): Tree
    requires forest != []
    decreases |forest|
  {
    if |forest| == 1 then forest[0] else BuildForest(MergedForest(forest))
  }

  /** A lone leaf is put under a one-child root. */
  function Rooted(t: Tree): Tree {
    if t.Leaf? then Single(t.freq, t) else t
  }

  ghost function Build(table: seq<int>): Tree
    requires LeavesTo(table, |table|) != []
  {
    Rooted(BuildForest(LeavesTo(table, |table|)))
  }

  // ---- What building preserves ---------------------------------------------------------

  /** Weighted path length: every merge adds its own weight once. */
  function Bits(t: Tree): int {
    match t
    case Leaf(_, _) => 0
    case Node(_, l, r) => Bits(l) + Bits(r) + l.freq + r.freq
    case Single(_, l) => Bits(l) + l.freq
  }

  function ForestBits(forest: seq<Tree>): int {
    if forest == [] then 0 else Bits(forest[0]) + ForestBits(forest[1..])
  }

  function ForestSymbols(forest: seq<Tree>): set<int> {
    if forest == [] then {} else Symbols(forest[0]) + ForestSymbols(forest[1..])
  }

  /** Proper trees over disjoint symbols. */
  predicate ProperForest(forest: seq<Tree>, table: seq<int>) {
    forest != [] ==>
      && Proper(forest[0], table)
      && Symbols(forest[0]) !! ForestSymbols(forest[1..])
      && ProperForest(forest[1..], table)
  }

  lemma {:induction false} ForestConcat(f: seq<Tree>, g: seq<Tree>, table: seq<int>)
    ensures ForestBits(f + g) == ForestBits(f) + ForestBits(g)
    ensures ForestSymbols(f + g) == ForestSymbols(f) + ForestSymbols(g)
    ensures ProperForest(f + g, table) <==>
            ProperForest(f, table) && ProperForest(g, table) && ForestSymbols(f) !! ForestSymbols(g)
  {
    if f == [] {
      assert f + g == g;
    } else {
      ForestConcat(f[1..], g, table);
      assert (f + g)[1..] == f[1..] + g;
    }
  }

  lemma RemoveKeeps(forest: seq<Tree>, i: nat, table: seq<int>)
    requires i < |forest| && ProperForest(forest, table)
    ensures Proper(forest[i], table) && ProperForest(RemoveAt(forest, i), table)
    ensures ForestSymbols(RemoveAt(forest, i)) !! Symbols(forest[i])
    ensures ForestSymbols(forest) == ForestSymbols(RemoveAt(forest, i)) + Symbols(forest[i])
    ensures ForestBits(forest) == ForestBits(RemoveAt(forest, i)) + Bits(forest[i])
  {
    var f, g := forest[..i], forest[i + 1..];
    SplitAt(forest, i);
    assert ([forest[i]] + g)[1..] == g;
    ForestConcat(f, [forest[i]] + g, table);
    ForestConcat(f, g, table);
  }

  lemma AppendKeeps(forest: seq<Tree>, t: Tree, table: seq<int>)
    requires ProperForest(forest, table) && Proper(t, table)
    requires ForestSymbols(forest) !! Symbols(t)
    ensures ProperForest(forest + [t], table)
    ensures ForestSymbols(forest + [t]) == ForestSymbols(forest) + Symbols(t)
    ensures ForestBits(forest + [t]) == ForestBits(forest) + Bits(t)
  {
    assert [t][1..] == [];
    ForestConcat(forest, [t], table);
  }

  lemma MergeAtKeeps(forest: seq<Tree>, i: nat, j: nat, table: seq<int>)
    requires i < |forest| && j < |forest| - 1 && ProperForest(forest, table)
    ensures ProperForest(MergeAt(forest, i, j), table)
    ensures ForestSymbols(MergeAt(forest, i, j)) == ForestSymbols(forest)
    ensures ForestBits(MergeAt(forest, i, j)) == ForestBits(forest) + forest[i].freq + RemoveAt(forest, i)[j].freq
  {
    var f1 := RemoveAt(forest, i);
    RemoveKeeps(forest, i, table);
    RemoveKeeps(f1, j, table);
    AppendKeeps(RemoveAt(f1, j), Node(forest[i].freq + f1[j].freq, forest[i], f1[j]), table);
  }

  lemma MergeAtFreqs(forest: seq<Tree>, i: nat, j: nat)
    requires i < |forest| && j < |forest| - 1
    ensures Freqs(RemoveAt(forest, i)) == RemoveAt(Freqs(forest), i)
    ensures var ws := RemoveAt(Freqs(forest), i);
            Freqs(MergeAt(forest, i, j)) == RemoveAt(ws, j) + [Freqs(forest)[i] + ws[j]]
  {
    MapRemove(forest, FreqOf(), i);
    MapRemove(RemoveAt(forest, i), FreqOf(), j);
  }

  lemma MergedForestLaws(forest: seq<Tree>, table: seq<int>)
    requires |forest| >= 2 && ProperForest(forest, table)
    ensures ProperForest(MergedForest(forest), table)
    ensures ForestSymbols(MergedForest(forest)) == ForestSymbols(forest)
    ensures Freqs(MergedForest(forest)) == Merged(Freqs(forest))
    ensures ForestBits(MergedForest(forest)) == ForestBits(forest) + MergedWeight(Freqs(forest))
  {
    var i := MinIndex(Freqs(forest));
    var j := MinIndex(Freqs(RemoveAt(forest, i)));
    MergeAtKeeps(forest, i, j, table);
    MergeAtFreqs(forest, i, j);
  }

  lemma {:induction false} BuildForestLaws(forest: seq<Tree>, table: seq<int>)
    requires forest != [] && ProperForest(forest, table)
    ensures Proper(BuildForest(forest), table)
    ensures Symbols(BuildForest(forest)) == ForestSymbols(forest)
    ensures Bits(BuildForest(forest)) == ForestBits(forest) + MergeCost(Freqs(forest))
    decreases |forest|
  {
    if |forest| == 1 {
      assert forest[1..] == [];
    } else {
      MergedForestLaws(forest, table);
      BuildForestLaws(MergedForest(forest), table);
    }
  }

  lemma {:induction false} LeavesProper(table: seq<int>, n: nat)
    requires n <= |table|
    ensures ProperForest(LeavesTo(table, n), table) && ForestBits(LeavesTo(table, n)) == 0
    ensures forall ch :: ch in ForestSymbols(LeavesTo(table, n)) ==> 0 <= ch < n && table[ch] != 0
    ensures forall ch :: 0 <= ch < n && table[ch] != 0 ==> ch in ForestSymbols(LeavesTo(table, n))
  {
    if n > 0 {
      LeavesProper(table, n - 1);
      var before := LeavesTo(table, n - 1);
      if table[n - 1] != 0 {
        AppendKeeps(before, Leaf(n - 1, table[n - 1]), table);
      } else {
        assert LeavesTo(table, n) == before;
      }
    }
  }

  // ---- Sums as ints --------------------------------------------------------------------

  /** Every sum of frequencies computed while building fits an int; otherwise adding overflows. */
  predicate SumsFit(t: Tree) {
    match t
    case Leaf(_, _) => true
    case Node(f, l, r) => IsInt(f) && SumsFit(l) && SumsFit(r)
    case Single(_, l) => SumsFit(l)
  }

  predicate ForestFits(forest: seq<Tree>) { forall i :: 0 <= i < |forest| ==> SumsFit(forest[i]) }

  lemma MergeAtFits(forest: seq<Tree>, i: nat, j: nat)
    requires i < |forest| && j < |forest| - 1
    ensures ForestFits(MergeAt(forest, i, j)) <==>
              ForestFits(forest) && IsInt(forest[i].freq + RemoveAt(forest, i)[j].freq)
  {
    var f1 := RemoveAt(forest, i);
    var f2 := RemoveAt(f1, j);
    var parent := Node(forest[i].freq + f1[j].freq, forest[i], f1[j]);
    RemoveFits(forest, i);
    RemoveFits(f1, j);
    AppendFits(f2, parent);
  }

  lemma RemoveFits(forest: seq<Tree>, i: nat)
    requires i < |forest|
    ensures ForestFits(forest) <==> ForestFits(RemoveAt(forest, i)) && SumsFit(forest[i])
  {
    var f := RemoveAt(forest, i);
    forall k | 0 <= k < |forest| && k != i ensures forest[k] == f[if k < i then k else k - 1] {
    }
  }

  lemma AppendFits(forest: seq<Tree>, t: Tree)
    ensures ForestFits(forest + [t]) <==> ForestFits(forest) && SumsFit(t)
  {
    assert (forest + [t])[|forest|] == t;
    assert forall k :: 0 <= k < |forest| ==> (forest + [t])[k] == forest[k];
  }

  /** If some tree of the forest has a sum that does not fit, so has the tree built from it. */
  lemma {:induction false} BuildFits(forest: seq<Tree>)
    requires forest != [] && SumsFit(BuildForest(forest))
    ensures ForestFits(forest)
    decreases |forest|
  {
    if |forest| > 1 {
      BuildFits(MergedForest(forest));
      var i := MinIndex(Freqs(forest));
      MergeAtFits(forest, i, MinIndex(Freqs(RemoveAt(forest, i))));
    }
  }
}
