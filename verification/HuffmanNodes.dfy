/** The linked binary tree of btree.c, and generate_huffman_tree, which builds it from a linked list of nodes. */
module HuffmanNodes {
  import opened Bytes
  import opened Sums
  import D = DList
  import opened HuffmanOptimal
  import opened HuffmanTree

  /** A btree_node with its char_stat_node; `shape` is the tree hanging below it. */
  class BTreeNode {
    const ch: int
    const freq: int
    const left: BTreeNode?
    const right: BTreeNode?
    ghost const shape: Tree
    ghost const nodes: set<BTreeNode>

    ghost predicate Valid()
      decreases shape
    {
      && freq == shape.freq && this in nodes
      && match shape
         case Leaf(c, _) => left == null && right == null && ch == c && nodes == {this}
         case Single(_, l) =>
           && left != null && right == null && left.shape == l && left.Valid()
           && nodes == {this} + left.nodes && this !in left.nodes
         case Node(_, l, r) =>
           && left != null && right != null
           && left.shape == l && left.Valid() && right.shape == r && right.Valid()
           && nodes == {this} + left.nodes + right.nodes
           && this !in left.nodes && this !in right.nodes && left.nodes !! right.nodes
    }

    predicate IsLeaf() { left == null && right == null }

    constructor MakeLeaf(ch: int, freq: int)
      ensures Valid() && shape == Leaf(ch, freq) && fresh(this) && nodes == {this}
    {
      this.ch, this.freq, left, right := ch, freq, null, null;
      shape, nodes := Leaf(ch, freq), {this};
    }

    /** btree_node_gen_parent: a fresh parent over one or two subtrees. */
    constructor GenParent(freq: int, l: BTreeNode, r: BTreeNode?)
      requires l.Valid() && (r != null ==> r.Valid() && l.nodes !! r.nodes)
      ensures Valid() && fresh(this)
      ensures shape == if r == null then Single(freq, l.shape) else Node(freq, l.shape, r.shape)
      ensures nodes == {this} + l.nodes + if r == null then {} else r.nodes
    {
      this.ch, this.freq, left, right := -1, freq, l, r;
      shape := if r == null then Single(freq, l.shape) else Node(freq, l.shape, r.shape);
      nodes := {this} + l.nodes + if r == null then {} else r.nodes;
    }

    /** btree_node_count */
    method Count() returns (n: nat)
      requires Valid()
      ensures n == |nodes|
      decreases shape
    {
      n := 1;
      if left != null {
        var l := left.Count();
        n := n + l;
      }
      if right != null {
        var r := right.Count();
        n := n + r;
      }
    }
  }

  /** Separate trees with the given shapes: each valid, none sharing a node with another. */
  ghost predicate ValidList(list: seq<BTreeNode>, shapes: seq<Tree>) {
    && |list| == |shapes|
    && (forall i :: 0 <= i < |list| ==> list[i].Valid() && list[i].shape == shapes[i])
    && (forall i, j :: 0 <= i < j < |list| ==> list[i].nodes !! list[j].nodes)
  }

  lemma RemoveKeepsValid(list: seq<BTreeNode>, shapes: seq<Tree>, i: nat)
    requires i < |list| && ValidList(list, shapes)
    ensures ValidList(RemoveAt(list, i), RemoveAt(shapes, i))
    ensures forall k :: 0 <= k < |list| - 1 ==> RemoveAt(list, i)[k].nodes !! list[i].nodes
  {
  }

  lemma AppendKeepsValid(list: seq<BTreeNode>, shapes: seq<Tree>, n: BTreeNode)
    requires ValidList(list, shapes) && n.Valid()
    requires forall k :: 0 <= k < |list| ==> list[k].nodes !! n.nodes
    ensures ValidList(list + [n], shapes + [n.shape])
  {
  }

  /** The linked list of generate_huffman_tree. */
  class NodeList {
    const list: D.DList<BTreeNode>
    ghost var entries: seq<BTreeNode>
    ghost var repr: set<object>

    ghost predicate Valid()
      reads this, repr
    {
      && this in repr && list in repr && (forall i | 0 <= i < |list.nodes| :: list.nodes[i] in repr)
      && list.Valid() && |entries| == |list.nodes|
      && forall i | 0 <= i < |entries| :: list.nodes[i].data == entries[i]
    }

    constructor ()
      ensures Valid() && entries == [] && fresh(repr)
    {
      list := new D.DList();
      entries := [];
      new;
      repr := {this, list};
    }

    method Append(n: BTreeNode)
      requires Valid()
      modifies repr
      ensures Valid() && entries == old(entries) + [n] && fresh(repr - old(repr))
    {
      var _ := list.Append(n);
      entries, repr := entries + [n], repr + {list.nodes[|entries|]};
    }

    /** The scan of fetch_min_btree_node. */
    method ScanMin(ghost ws: seq<int>) returns (min: D.Node<BTreeNode>, ghost m: nat)
      requires Valid() && entries != [] && |entries| == |ws| && forall k :: 0 <= k < |ws| ==> entries[k].freq == ws[k]
      ensures IsMinIndex(ws, m) && min == list.nodes[m]
    {
      min, m := list.head, 0;
      assert D.LinkAt(list.nodes, 0);
      var p: D.Node?<BTreeNode> := list.head.next;
      ghost var k := 1;
      while p != null
        invariant 1 <= k <= |entries| && m < k && min == list.nodes[m]
        invariant p == if k == |entries| then null else list.nodes[k]
        invariant IsMinIndex(ws[..k], m)
        decreases |entries| - k
      {
        assert D.LinkAt(list.nodes, k);
        if p.data.freq < min.data.freq {
          min, m := p, k;
        }
        p, k := p.next, k + 1;
      }
      assert ws[..k] == ws;
    }

    /** fetch_min_btree_node: the first of the lightest entries leaves the list. */
    method FetchMin(ghost shapes: seq<Tree>) returns (min: BTreeNode?, ghost i: nat)
      requires Valid() && ValidList(entries, shapes)
      modifies repr
      ensures Valid() && repr == old(repr)
      ensures old(entries) == [] ==> min == null && entries == []
      ensures old(entries) != [] ==>
                && i == MinIndex(Freqs(shapes)) && min == old(entries)[i] && entries == RemoveAt(old(entries), i)
                && ValidList(entries, RemoveAt(shapes, i))
                && forall k :: 0 <= k < |entries| ==> entries[k].nodes !! min.nodes
    {
      if list.head == null {
        return null, 0;
      }
      var node;
      node, i := ScanMin(Freqs(shapes));
      RemoveKeepsValid(entries, shapes, i);
      min := node.data;
      var _, _ := list.Remove(node, true, i);
      entries := RemoveAt(entries, i);
    }
  }

  /** The first loop of generate_huffman_tree: a leaf for each byte that occurs. */
  method MakeLeaves(table: seq<int>) returns (list: NodeList)
    ensures list.Valid() && fresh(list.repr) && ValidList(list.entries, LeavesTo(table, |table|))
  {
    list := new NodeList();
    for i := 0 to |table|
      invariant list.Valid() && fresh(list.repr) && ValidList(list.entries, LeavesTo(table, i))
    {
      if table[i] != 0 {
        var leaf := new BTreeNode.MakeLeaf(i, table[i]);
        AppendKeepsValid(list.entries, LeavesTo(table, i), leaf);
        list.Append(leaf);
      }
    }
  }

  /** The two fetched nodes go back to the end of the list under a fresh parent, unless their sum overflows. */
  method AppendParent(list: NodeList, ghost shapes: seq<Tree>, node1: BTreeNode, node2: BTreeNode) returns (overflow: bool)
    requires list.Valid() && ValidList(list.entries, shapes) && node1.Valid() && node2.Valid() && node1.nodes !! node2.nodes
    requires forall k :: 0 <= k < |list.entries| ==>
      list.entries[k].nodes !! node1.nodes && list.entries[k].nodes !! node2.nodes
    modifies list.repr
    ensures overflow <==> !IsInt(node1.shape.freq + node2.shape.freq)
    ensures list.Valid() && fresh(list.repr - old(list.repr))
    ensures !overflow ==>
      && ValidList(list.entries, shapes + [Node(node1.shape.freq + node2.shape.freq, node1.shape, node2.shape)])
      && |list.entries| == |old(list.entries)| + 1
  {
    if !IsInt(node1.freq + node2.freq) {
      return true;
    }
    overflow := false;
    var parent := new BTreeNode.GenParent(node1.freq + node2.freq, node1, node2);
    AppendKeepsValid(list.entries, shapes, parent);
    list.Append(parent);
  }

  /** The two fetches of one turn of the loop. */
  method FetchTwo(list: NodeList, ghost shapes: seq<Tree>) returns (node1: BTreeNode, node2: BTreeNode?, ghost i: nat, ghost j: nat)
    requires list.Valid() && ValidList(list.entries, shapes) && list.entries != []
    modifies list.repr
    ensures list.Valid() && list.repr == old(list.repr)
    ensures i == MinIndex(Freqs(shapes)) && node1 == old(list.entries)[i]
    ensures |shapes| == 1 ==> node2 == null
    ensures |shapes| >= 2 ==>
      && j == MinIndex(Freqs(RemoveAt(shapes, i))) && node2 == RemoveAt(old(list.entries), i)[j]
      && list.entries == RemoveAt(RemoveAt(old(list.entries), i), j)
      && ValidList(list.entries, RemoveAt(RemoveAt(shapes, i), j)) && node1.nodes !! node2.nodes
      && forall k :: 0 <= k < |list.entries| ==>
           list.entries[k].nodes !! node1.nodes && list.entries[k].nodes !! node2.nodes
  {
    node1, i := list.FetchMin(shapes);
    node2, j := list.FetchMin(RemoveAt(shapes, i));
  }

  /**
   * One turn of the loop of generate_huffman_tree: two fetches, then either the last node
   * left or the list with their parent at the end.
   */
  method MergeTwo(list: NodeList, ghost shapes: seq<Tree>) returns (last: BTreeNode?, overflow: bool)
    requires list.Valid() && ValidList(list.entries, shapes) && list.entries != [] && ForestFits(shapes)
    modifies list.repr
    ensures list.Valid() && fresh(list.repr - old(list.repr))
    ensures |shapes| == 1 ==> last == old(list.entries)[0] && !overflow
    ensures |shapes| >= 2 ==> last == null && (overflow <==> !ForestFits(MergedForest(shapes)))
    ensures |shapes| >= 2 && !overflow ==>
      ValidList(list.entries, MergedForest(shapes)) && |list.entries| == |old(list.entries)| - 1
  {
    var node1, node2, i, j := FetchTwo(list, shapes);
    if node2 == null {
      return node1, false;
    }
    MergeAtFits(shapes, i, j);
    last := null;
    overflow := AppendParent(list, RemoveAt(RemoveAt(shapes, i), j), node1, node2);
  }

  /** The last node left is the root, unless it is a leaf: then a one-child root goes above it. */
  method RootOf(last: BTreeNode) returns (root: BTreeNode)
    requires last.Valid()
    ensures root.Valid() && root.shape == Rooted(last.shape)
  {
    root := last;
    if last.IsLeaf() {
      root := new BTreeNode.GenParent(last.freq, last, null);
    }
  }

  /**
   * generate_huffman_tree: null for an all-zero table, otherwise the tree of `Build`; adding
   * frequencies overflows exactly when some sum in that tree is not an int.
   */
  method GenerateHuffmanTree(table: seq<int>) returns (overflow: bool, root: BTreeNode?)
    ensures LeavesTo(table, |table|) == [] ==> root == null && !overflow
    ensures LeavesTo(table, |table|) != [] ==> (overflow <==> !SumsFit(Build(table)))
    ensures LeavesTo(table, |table|) != [] && !overflow ==>
      root != null && root.Valid() && root.shape == Build(table)
  {
    var list := MakeLeaves(table);
    if list.list.head == null {
      return false, null;
    }
    ghost var shapes := LeavesTo(table, |table|);
    LeavesFit(table, |table|);
    while true
      invariant list.Valid() && fresh(list.repr)
      invariant list.entries != [] && ValidList(list.entries, shapes) && ForestFits(shapes)
      invariant BuildForest(shapes) == BuildForest(LeavesTo(table, |table|))
      decreases |list.entries|
    {
      var last, over := MergeTwo(list, shapes);
      if last != null {
        overflow := false;
        root := RootOf(last);
        return;
      }
      if over {
        overflow, root := true, null;
        if SumsFit(Build(table)) {
          BuildFits(MergedForest(shapes));
        }
        return;
      }
      shapes := MergedForest(shapes);
    }
  }

  lemma {:induction false} LeavesFit(table: seq<int>, n: nat)
    requires n <= |table|
    ensures ForestFits(LeavesTo(table, n))
  {
    if n > 0 {
      LeavesFit(table, n - 1);
    }
  }
}
