/**
 * get_char_codes: a depth-first search with an explicit stack of nodes, a parallel stack
 * of code characters and a map of the nodes visited, all three linked lists on the heap.
 */
module HuffmanSearch {
  import opened Sums
  import opened HuffmanTree
  import opened HuffmanNodes
  import opened Stacks

  /** get_char_code: the stack is copied top first into an array and written out backwards. */
  method GetCharCode(sc: Stack<bool>) returns (code: Word)
    requires sc.Valid()
    ensures code == Reversed(sc.contents)
  {
    var len := sc.Size();
    var a := new bool[len];
    sc.PeekAll(a);
    var c := new bool[len];
    for i := 0 to len
      invariant a[..] == sc.contents
      invariant forall k :: 0 <= k < i ==> c[len - 1 - k] == sc.contents[k]
    {
      c[len - 1 - i] := a[i];
    }
    ReversedAt(sc.contents);
    code := c[..];
    forall k | 0 <= k < len ensures code[k] == Reversed(sc.contents)[k] {
      assert c[len - 1 - (len - 1 - k)] == sc.contents[len - 1 - k];
    }
  }

  // ---- What the stacks stand for -------------------------------------------------------

  /** A node on the stack and how many of its children have been pushed so far. */
  datatype Frame = Frame(node: BTreeNode, phase: nat)

  ghost function NodesOf(n: BTreeNode?): set<BTreeNode> { if n == null then {} else n.nodes }

  ghost function SymbolsOf(n: BTreeNode?): set<int> { if n == null then {} else Symbols(n.shape) }

  /** The path to the top node: one bit for each frame below it. */
  ghost function PathTo(frames: seq<Frame>): Word {
    if |frames| <= 1 then [] else PathTo(frames[1..]) + [frames[1].phase == 1]
  }

  /** Addresses visited because of the frames below the top one. */
  ghost function VisitedBelow(frames: seq<Frame>): set<BTreeNode> {
    if |frames| <= 1 then {} else
    var f := frames[1];
    VisitedBelow(frames[1..]) +
    (if f.phase == 1 then {frames[0].node} else NodesOf(f.node.left) + {frames[0].node})
  }

  /** Symbols recorded because of the frames below the top one. */
  ghost function RecordedBelow(frames: seq<Frame>): set<int> {
    if |frames| <= 1 then {} else
    var f := frames[1];
    RecordedBelow(frames[1..]) + (if f.phase == 1 then {} else SymbolsOf(f.node.left))
  }

  ghost function Visited(frames: seq<Frame>): set<BTreeNode>
    requires frames != []
  {
    var f := frames[0];
    VisitedBelow(frames)
    + (if f.phase >= 1 then NodesOf(f.node.left) else {})
    + (if f.phase >= 2 then NodesOf(f.node.right) else {})
  }

  ghost function Recorded(frames: seq<Frame>): set<int>
    requires frames != []
  {
    var f := frames[0];
    RecordedBelow(frames)
    + (if f.phase >= 1 then SymbolsOf(f.node.left) else {})
    + (if f.phase >= 2 then SymbolsOf(f.node.right) else {})
  }

  /** The frames form a root-to-top path, and nothing inside the top subtree has been visited from below. */
  ghost predicate Stacked(frames: seq<Frame>, root: BTreeNode) {
    && frames != []
    && var top := frames[0];
       && top.node.Valid() && top.node.nodes <= root.nodes
       && top.phase <= 2 && (top.node.left == null ==> top.phase == 0) && (top.node.right == null ==> top.phase <= 1)
       && VisitedBelow(frames) !! top.node.nodes - {top.node}
       && VisitedBelow(frames) <= root.nodes
       && if |frames| == 1 then top.node == root
          else
            && frames[1].phase >= 1
            && top.node == (if frames[1].phase == 1 then frames[1].node.left else frames[1].node.right)
            && Stacked(frames[1..], root)
  }

  ghost function Nodes(frames: seq<Frame>): (s: seq<BTreeNode>)
    ensures |s| == |frames|
    ensures forall i :: 0 <= i < |s| ==> s[i] == frames[i].node
  {
    seq(|frames|, i requires 0 <= i < |frames| => frames[i].node)
  }

  ghost predicate HasNext(frames: seq<Frame>) {
    && frames != [] && frames[0].phase <= 1
    && (if frames[0].phase == 0 then frames[0].node.left else frames[0].node.right) != null
  }

  /** The top frame with one more child pushed. */
  ghost function Bumped(frames: seq<Frame>): seq<Frame>
    requires frames != []
  {
    [frames[0].(phase := frames[0].phase + 1)] + frames[1..]
  }

  /** A new frame for the next child on top of the bumped frames. */
  ghost function PushChild(frames: seq<Frame>): seq<Frame>
    requires HasNext(frames)
  {
    var f := frames[0];
    [Frame(if f.phase == 0 then f.node.left else f.node.right, 0)] + Bumped(frames)
  }

  lemma PushTail(frames: seq<Frame>)
    requires HasNext(frames)
    ensures PushChild(frames)[1..] == Bumped(frames) && Bumped(frames)[1..] == frames[1..]
  {
  }

  /** Nothing below the top depends on how far the top has got. */
  lemma Bump(frames: seq<Frame>)
    requires frames != []
    ensures PathTo(Bumped(frames)) == PathTo(frames)
    ensures VisitedBelow(Bumped(frames)) == VisitedBelow(frames)
    ensures RecordedBelow(Bumped(frames)) == RecordedBelow(frames)
  {
    assert Bumped(frames)[1..] == frames[1..];
  }

  lemma PushBelow(frames: seq<Frame>)
    requires HasNext(frames)
    ensures VisitedBelow(PushChild(frames)) == VisitedBelow(frames) + {PushChild(frames)[0].node}
                 + if frames[0].phase == 0 then {} else NodesOf(frames[0].node.left)
  {
    Bump(frames);
    PushTail(frames);
  }

  lemma PushVisited(frames: seq<Frame>)
    requires HasNext(frames)
    ensures Visited(PushChild(frames)) == Visited(frames) + {PushChild(frames)[0].node}
  {
    PushBelow(frames);
  }

  lemma PushNodes(frames: seq<Frame>)
    requires HasNext(frames)
    ensures Nodes(PushChild(frames)) == [PushChild(frames)[0].node] + Nodes(frames)
  {
  }

  lemma PushPath(frames: seq<Frame>)
    requires HasNext(frames)
    ensures PathTo(PushChild(frames)) == PathTo(frames) + [frames[0].phase == 0]
  {
    Bump(frames);
    PushTail(frames);
  }

  lemma PushRecorded(frames: seq<Frame>)
    requires HasNext(frames)
    ensures Recorded(PushChild(frames)) == Recorded(frames)
  {
    Bump(frames);
    PushTail(frames);
  }

  lemma PushStacked(frames: seq<Frame>, root: BTreeNode)
    requires Stacked(frames, root) && HasNext(frames)
    ensures Stacked(PushChild(frames), root)
  {
    Bump(frames);
    PushTail(frames);
    assert Stacked(Bumped(frames), root);
    PushBelow(frames);
  }

  // ---- Popping -----------------------------------------------------------------------

  /** Every child of the top node has been pushed. */
  ghost predicate Complete(f: Frame) {
    (f.node.left != null ==> f.phase >= 1) && (f.node.right != null ==> f.phase >= 2)
  }

  lemma PopVisited(frames: seq<Frame>, root: BTreeNode)
    requires Stacked(frames, root) && Complete(frames[0]) && |frames| >= 2
    ensures Visited(frames[1..]) == Visited(frames)
    ensures Nodes(frames[1..]) == Nodes(frames)[1..]
  {
    CompleteVisited(frames[0]);
  }

  lemma CompleteVisited(f: Frame)
    requires f.node.Valid() && f.phase <= 2 && Complete(f)
    ensures {f.node} + (if f.phase >= 1 then NodesOf(f.node.left) else {})
            + (if f.phase >= 2 then NodesOf(f.node.right) else {}) == f.node.nodes
  {
  }

  lemma CompleteSymbols(f: Frame)
    requires f.node.Valid() && f.phase <= 2 && Complete(f)
    ensures (if f.phase >= 1 then SymbolsOf(f.node.left) else {})
            + (if f.phase >= 2 then SymbolsOf(f.node.right) else {})
            + (if f.node.IsLeaf() then {f.node.ch} else {})
         == Symbols(f.node.shape)
  {
  }

  lemma PopRecorded(frames: seq<Frame>, root: BTreeNode)
    requires Stacked(frames, root) && Complete(frames[0]) && |frames| >= 2
    ensures Recorded(frames[1..]) == Recorded(frames) + if frames[0].node.IsLeaf() then {frames[0].node.ch} else {}
  {
    CompleteSymbols(frames[0]);
  }

  // ---- The path on the stack is the code -----------------------------------------------

  predicate IsChild(parent: Tree, b: bool, child: Tree) {
    match parent
    case Leaf(_, _) => false
    case Node(_, l, r) => child == if b then l else r
    case Single(_, l) => b && child == l
  }

  lemma ChildCode(parent: Tree, b: bool, child: Tree, ch: int)
    requires Distinct(parent) && IsChild(parent, b, child) && ch in Symbols(child)
    ensures ch in Symbols(parent) && Codes(parent)[ch] == [b] + Codes(child)[ch]
  {
  }

  lemma StackedChild(frames: seq<Frame>, root: BTreeNode)
    requires Stacked(frames, root) && |frames| > 1
    ensures IsChild(frames[1].node.shape, frames[1].phase == 1, frames[0].node.shape)
  {
  }

  lemma ChildSymbols(parent: Tree, b: bool, child: Tree)
    requires IsChild(parent, b, child)
    ensures Symbols(child) <= Symbols(parent)
    ensures Distinct(parent) ==> Distinct(child)
  {
  }

  lemma {:induction false} TopDistinct(frames: seq<Frame>, root: BTreeNode)
    requires Stacked(frames, root) && Distinct(root.shape)
    ensures Distinct(frames[0].node.shape) && Symbols(frames[0].node.shape) <= Symbols(root.shape)
  {
    if |frames| > 1 {
      TopDistinct(frames[1..], root);
      StackedChild(frames, root);
      ChildSymbols(frames[1].node.shape, frames[1].phase == 1, frames[0].node.shape);
    }
  }

  lemma {:induction false} PathIsCode(frames: seq<Frame>, root: BTreeNode, ch: int)
    requires Stacked(frames, root) && Distinct(root.shape) && ch in Symbols(frames[0].node.shape)
    ensures ch in Symbols(root.shape)
    ensures Codes(root.shape)[ch] == PathTo(frames) + Codes(frames[0].node.shape)[ch]
  {
    if |frames| > 1 {
      StackedChild(frames, root);
      TopDistinct(frames[1..], root);
      var b := frames[1].phase == 1;
      ChildCode(frames[1].node.shape, b, frames[0].node.shape, ch);
      PathIsCode(frames[1..], root, ch);
      AppendAssoc(PathTo(frames[1..]), b, Codes(frames[0].node.shape)[ch]);
    }
  }

  lemma AppendAssoc(u: Word, b: bool, v: Word)
    ensures u + ([b] + v) == (u + [b]) + v
  {
  }

  // ---- The search ----------------------------------------------------------------------

  /** The state of the loop of get_char_codes, read off the frames. */
  ghost predicate Searching(frames: seq<Frame>, root: BTreeNode,
                            sc: seq<bool>, stn: seq<BTreeNode>, visited: set<BTreeNode>, codes: Code) {
    && Stacked(frames, root)
    && stn == Nodes(frames) && Reversed(sc) == PathTo(frames) && |sc| == |stn| - 1
    && visited == Visited(frames)
    && codes.Keys == Recorded(frames)
    && codes.Keys <= Symbols(root.shape)
    && forall ch :: ch in codes ==> codes[ch] == Codes(root.shape)[ch]
  }

  lemma ChildrenIn(n: BTreeNode)
    requires n.Valid()
    ensures n in n.nodes
    ensures n.left != null ==> n.left.Valid() && n.left in n.left.nodes && n.left.nodes <= n.nodes && n !in n.left.nodes
    ensures n.right != null ==> n.right.Valid() && n.right in n.right.nodes && n.right.nodes <= n.nodes && n !in n.right.nodes
    ensures NodesOf(n.left) !! NodesOf(n.right)
  {
  }

  /** The visited test of the loop finds out how far the top frame has got. */
  lemma NextUnvisited(frames: seq<Frame>, root: BTreeNode)
    requires Stacked(frames, root)
    ensures var n := frames[0].node;
            && n in root.nodes && NodesOf(n.left) <= root.nodes && NodesOf(n.right) <= root.nodes
            && (n.left != null ==> (n.left in Visited(frames) <==> frames[0].phase >= 1))
            && (n.right != null ==> (n.right in Visited(frames) <==> frames[0].phase >= 2))
            && Visited(frames) <= root.nodes
  {
    ChildrenIn(frames[0].node);
  }

  lemma PushStep(frames: seq<Frame>, root: BTreeNode,
                 sc: seq<bool>, stn: seq<BTreeNode>, visited: set<BTreeNode>, codes: Code)
    requires Searching(frames, root, sc, stn, visited, codes) && HasNext(frames)
    ensures var pushed := PushChild(frames);
            Searching(pushed, root, [frames[0].phase == 0] + sc, [pushed[0].node] + stn, visited + {pushed[0].node}, codes)
  {
    PushNodes(frames);
    PushPath(frames);
    PushVisited(frames);
    PushRecorded(frames);
    PushStacked(frames, root);
    assert ([frames[0].phase == 0] + sc)[1..] == sc;
  }

  /** The code table after the top node has been dealt with: a leaf records its path. */
  ghost function Record(n: BTreeNode, sc: seq<bool>, codes: Code): Code {
    if n.IsLeaf() then codes[n.ch := Reversed(sc)] else codes
  }

  /** Popping a completed node keeps the table a part of the codes, and complete below that node. */
  lemma RecordStep(frames: seq<Frame>, root: BTreeNode,
                   sc: seq<bool>, stn: seq<BTreeNode>, visited: set<BTreeNode>, codes: Code)
    requires Searching(frames, root, sc, stn, visited, codes) && Complete(frames[0]) && Distinct(root.shape)
    ensures var n := frames[0].node; var codes' := Record(n, sc, codes);
            && codes'.Keys == Recorded(frames) + (if n.IsLeaf() then {n.ch} else {})
            && codes'.Keys <= Symbols(root.shape)
            && codes'.Keys == RecordedBelow(frames) + Symbols(n.shape)
            && forall ch :: ch in codes' ==> codes'[ch] == Codes(root.shape)[ch]
  {
    var n := frames[0].node;
    CompleteSymbols(frames[0]);
    if n.IsLeaf() {
      PathIsCode(frames, root, n.ch);
    }
  }

  lemma CodeExtensional(c: Code, d: Code)
    requires c.Keys == d.Keys && forall ch :: ch in c ==> c[ch] == d[ch]
    ensures c == d
  {
    assert forall k | k in c :: c[k] == d[k];
  }

  lemma PopLast(frames: seq<Frame>, root: BTreeNode,
                sc: seq<bool>, stn: seq<BTreeNode>, visited: set<BTreeNode>, codes: Code)
    requires Searching(frames, root, sc, stn, visited, codes) && Complete(frames[0]) && Distinct(root.shape)
    requires |stn| == 1
    ensures Record(frames[0].node, sc, codes) == Codes(root.shape)
  {
    RecordStep(frames, root, sc, stn, visited, codes);
    assert |frames| == |Nodes(frames)| == 1;
    var c, d := Record(frames[0].node, sc, codes), Codes(root.shape);
    CodeExtensional(c, d);
  }

  lemma PopStep(frames: seq<Frame>, root: BTreeNode,
                sc: seq<bool>, stn: seq<BTreeNode>, visited: set<BTreeNode>, codes: Code)
    requires Searching(frames, root, sc, stn, visited, codes) && Complete(frames[0]) && Distinct(root.shape)
    requires |stn| > 1
    ensures Searching(frames[1..], root, sc[1..], stn[1..], visited, Record(frames[0].node, sc, codes))
  {
    RecordStep(frames, root, sc, stn, visited, codes);
    PopVisited(frames, root);
    PopRecorded(frames, root);
    SnocInjective(Reversed(sc[1..]), sc[0], PathTo(frames[1..]), frames[1].phase == 1);
  }

  lemma SnocInjective(u: Word, x: bool, v: Word, y: bool)
    requires u + [x] == v + [y]
    ensures u == v
  {
    assert |u| == |v|;
    forall i | 0 <= i < |u| ensures u[i] == v[i] {
      assert (u + [x])[i] == (v + [y])[i];
    }
  }

  /** Where both children have been visited, or there are none: the last frame is popped. */
  lemma PopEither(frames: seq<Frame>, root: BTreeNode,
                  sc: seq<bool>, stn: seq<BTreeNode>, visited: set<BTreeNode>, codes: Code)
    requires Searching(frames, root, sc, stn, visited, codes) && Complete(frames[0]) && Distinct(root.shape)
    ensures var done := Record(frames[0].node, sc, codes); var below := if sc == [] then [] else sc[1..];
      && (|stn| > 1 ==> Searching(frames[1..], root, below, stn[1..], visited, done))
      && (|stn| == 1 ==> done == Codes(root.shape))
  {
    if |stn| == 1 {
      PopLast(frames, root, sc, stn, visited, codes);
    } else {
      PopStep(frames, root, sc, stn, visited, codes);
    }
  }

  /** The local variables of get_char_codes: two stacks and a map that share nothing. */
  class Search {
    const sc: Stack<bool>
    const stn: Stack<BTreeNode>
    const m: Map<BTreeNode, ()>
    ghost var repr: set<object>

    ghost predicate Valid()
      reads this, repr
    {
      && this in repr && sc in repr && stn in repr && m in repr
      && sc.repr <= repr && stn.repr <= repr && m.repr <= repr
      && this !in sc.repr && this !in stn.repr && this !in m.repr
      && sc.repr !! stn.repr && sc.repr !! m.repr && stn.repr !! m.repr
      && sc.Valid() && stn.Valid() && m.Valid()
    }

    /** What has been visited. */
    ghost function Seen(): set<BTreeNode>
      reads this, m
    {
      Bound(m.pairs).Keys
    }

    constructor ()
      ensures Valid() && sc.contents == [] && stn.contents == [] && m.pairs == [] && fresh(repr)
    {
      m := new Map();
      sc := new Stack();
      stn := new Stack();
      new;
      repr := {this} + sc.repr + stn.repr + m.repr;
    }

    /** The two tests of the loop: the first child that is there and has not been visited, and its bit. */
    method NextChild(tn: BTreeNode) returns (child: BTreeNode?, bit: bool)
      requires Valid()
      ensures bit <==> tn.left != null && tn.left !in Seen()
      ensures child == if bit then tn.left else if tn.right != null && tn.right !in Seen() then tn.right else null
    {
      if tn.left != null {
        var found := m.Find(tn.left);
        if found.None? {
          return tn.left, true;
        }
      }
      if tn.right != null {
        var found := m.Find(tn.right);
        if found.None? {
          return tn.right, false;
        }
      }
      return null, false;
    }

    /** Down to a child: its bit and its node are pushed, and it has been visited. */
    method Down(child: BTreeNode, bit: bool)
      requires Valid()
      modifies repr
      ensures Valid() && fresh(repr - old(repr))
      ensures sc.contents == [bit] + old(sc.contents) && stn.contents == [child] + old(stn.contents)
      ensures Seen() == old(Seen()) + {child}
    {
      PushBit(bit);
      PushNode(child);
      Visit(child);
    }

    method PushBit(bit: bool)
      requires Valid()
      modifies this`repr, sc.repr
      ensures Valid() && fresh(repr - old(repr)) && sc.contents == [bit] + old(sc.contents)
      ensures stn.contents == old(stn.contents) && m.pairs == old(m.pairs)
    {
      sc.Push(bit);
      repr := repr + sc.repr;
    }

    method PushNode(child: BTreeNode)
      requires Valid()
      modifies this`repr, stn.repr
      ensures Valid() && fresh(repr - old(repr)) && stn.contents == [child] + old(stn.contents)
      ensures sc.contents == old(sc.contents) && m.pairs == old(m.pairs)
    {
      stn.Push(child);
      repr := repr + stn.repr;
    }

    method Visit(child: BTreeNode)
      requires Valid()
      modifies this`repr, m.repr
      ensures Valid() && fresh(repr - old(repr)) && Seen() == old(Seen()) + {child}
      ensures sc.contents == old(sc.contents) && stn.contents == old(stn.contents)
    {
      m.Add(child, ());
      repr := repr + m.repr;
    }

    /** Back up: both stacks are popped. */
    method Up()
      requires Valid() && stn.contents != []
      modifies repr
      ensures Valid() && repr == old(repr) && m.pairs == old(m.pairs)
      ensures sc.contents == if old(sc.contents) == [] then [] else old(sc.contents)[1..]
      ensures stn.contents == old(stn.contents)[1..]
    {
      var _ := sc.Pop();
      var _ := stn.Pop();
    }

    /** A node with no unvisited child: the code of a leaf is recorded, and the search goes back up. */
    method Leave(tn: BTreeNode, codes: Code) returns (codes': Code)
      requires Valid() && stn.contents != []
      modifies repr
      ensures Valid() && repr == old(repr) && m.pairs == old(m.pairs)
      ensures sc.contents == if old(sc.contents) == [] then [] else old(sc.contents)[1..]
      ensures stn.contents == old(stn.contents)[1..]
      ensures codes' == Record(tn, old(sc.contents), codes)
    {
      codes' := codes;
      if tn.IsLeaf() {
        var code := GetCharCode(sc);
        codes' := codes[tn.ch := code];
      }
      Up();
    }

    /** The body of the loop, at a node: down to its next child, or, with no child left to visit, back up. */
    method Step(tn: BTreeNode, codes: Code) returns (codes': Code, child: BTreeNode?, bit: bool)
      requires Valid() && stn.contents != []
      modifies repr
      ensures Valid() && fresh(repr - old(repr))
      ensures bit <==> tn.left != null && tn.left !in old(Seen())
      ensures child == if bit then tn.left else if tn.right != null && tn.right !in old(Seen()) then tn.right else null
      ensures child != null ==>
        && sc.contents == [bit] + old(sc.contents) && stn.contents == [child] + old(stn.contents)
        && Seen() == old(Seen()) + {child} && codes' == codes
      ensures child == null ==>
        && sc.contents == (if old(sc.contents) == [] then [] else old(sc.contents)[1..])
        && stn.contents == old(stn.contents)[1..]
        && Seen() == old(Seen()) && codes' == Record(tn, old(sc.contents), codes)
    {
      child, bit := NextChild(tn);
      codes' := codes;
      if child != null {
        Down(child, bit);
      } else {
        codes' := Leave(tn, codes);
      }
    }
  }

  /** The state of the search between two turns of the loop. */
  ghost predicate Looping(frames: seq<Frame>, root: BTreeNode,
                          sc: seq<bool>, stn: seq<BTreeNode>, visited: set<BTreeNode>, codes: Code) {
    && visited <= root.nodes
    && (stn != [] ==> Searching(frames, root, sc, stn, visited, codes))
    && (stn == [] ==> codes == Codes(root.shape))
  }

  lemma SearchStarts(root: BTreeNode)
    requires root.Valid()
    ensures Looping([Frame(root, 0)], root, [], [root], {}, map[])
  {
  }

  /** One turn of the loop: the search gets further, by a visit or by a step back up. */
  method Turn(root: BTreeNode, s: Search, codes: Code, ghost frames: seq<Frame>) returns (codes': Code, ghost frames': seq<Frame>)
    requires s.Valid() && Distinct(root.shape) && s.stn.contents != []
    requires Looping(frames, root, s.sc.contents, s.stn.contents, s.Seen(), codes)
    modifies s.repr
    ensures s.Valid() && fresh(s.repr - old(s.repr))
    ensures Looping(frames', root, s.sc.contents, s.stn.contents, s.Seen(), codes')
    ensures root.nodes - s.Seen() < root.nodes - old(s.Seen())
      || (s.Seen() == old(s.Seen()) && |s.stn.contents| < |old(s.stn.contents)|)
  {
    ghost var sc, stn, visited := s.sc.contents, s.stn.contents, s.Seen();
    var tn := s.stn.Peek().value;
    NextUnvisited(frames, root);
    var child, bit;
    codes', child, bit := s.Step(tn, codes);
    if child != null {
      PushStep(frames, root, sc, stn, visited, codes);
      frames' := PushChild(frames);
    } else {
      PopEither(frames, root, sc, stn, visited, codes);
      frames' := frames[1..];
    }
  }

  /** get_char_codes: every leaf gets exactly its root-to-leaf path. */
  method GetCharCodes(root: BTreeNode) returns (codes: Code)
    requires root.Valid() && Distinct(root.shape)
    ensures codes == Codes(root.shape)
  {
    codes := map[];
    var s := new Search();
    s.PushNode(root);
    ghost var frames := [Frame(root, 0)];
    SearchStarts(root);
    assert s.Seen() == {};
    while s.stn.Size() != 0
      invariant s.Valid() && fresh(s.repr) && Looping(frames, root, s.sc.contents, s.stn.contents, s.Seen(), codes)
      decreases root.nodes - s.Seen(), |s.stn.contents|
    {
      codes, frames := Turn(root, s, codes, frames);
    }
  }
}
