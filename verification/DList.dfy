/** dlist.c: the doubly linked list on the heap, against sequences of its nodes. */
module DList {
  import opened Bytes
  import opened StableSort
  import opened Sums

  class Node<T> {
    var data: T
    var prev: Node?<T>
    var next: Node?<T>

    /** dlist_node_create */
    constructor (d: T)
      ensures data == d && prev == null && next == null
    {
      data, prev, next := d, null, null;
    }
  }

  function Before<T>(ns: seq<Node<T>>, i: nat): Node?<T>
    requires i < |ns|
  {
    if i == 0 then null else ns[i - 1]
  }

  function After<T>(ns: seq<Node<T>>, i: nat): Node?<T>
    requires i < |ns|
  {
    if i + 1 == |ns| then null else ns[i + 1]
  }

  predicate Distinct<X(==)>(xs: seq<X>) {
    forall i, j | 0 <= i < j < |xs| :: xs[i] != xs[j]
  }

  predicate LinkAt<T>(ns: seq<Node<T>>, i: nat)
    requires i < |ns|
    reads ns[i]
  {
    ns[i].prev == Before(ns, i) && ns[i].next == After(ns, i)
  }

  /** The prev and next pointers of the nodes are exactly the order of the sequence. */
  ghost predicate Linked<T>(ns: seq<Node<T>>)
    reads ns
  {
    Distinct(ns) && forall i: nat | i < |ns| :: LinkAt(ns, i)
  }

  lemma DistinctWithout<X>(xs: seq<X>, k: nat)
    requires Distinct(xs) && k < |xs|
    ensures Distinct(RemoveAt(xs, k))
    ensures forall i | 0 <= i < |xs| && i != k :: xs[i] != xs[k]
  {
  }

  lemma DistinctWith<X>(xs: seq<X>, k: nat, x: X)
    requires Distinct(xs) && k <= |xs| && x !in xs
    ensures Distinct(xs[..k] + [x] + xs[k..])
  {
  }

  /** The pointers of node j once those around node k lead past it. */
  predicate BypassAt<T>(ns: seq<Node<T>>, j: nat, k: nat)
    requires j < |ns| && k < |ns|
    reads ns[j]
  {
    && ns[j].prev == (if j == k + 1 then Before(ns, k) else Before(ns, j))
    && ns[j].next == (if j + 1 == k then After(ns, k) else After(ns, j))
  }

  lemma Bypassed<T>(ns: seq<Node<T>>, k: nat)
    requires k < |ns| && Distinct(ns)
    requires forall j: nat | j < |ns| && j != k :: BypassAt(ns, j, k)
    ensures Linked(RemoveAt(ns, k))
  {
    DistinctWithout(ns, k);
    var without := RemoveAt(ns, k);
    forall i: nat | i < |without| ensures LinkAt(without, i) {
      var j := if i < k then i else i + 1;
      assert without[i] == ns[j] && BypassAt(ns, j, k);
    }
  }

  class DList<T> {
    var size: int
    var head: Node?<T>
    var tail: Node?<T>
    ghost var nodes: seq<Node<T>>

    ghost predicate Valid()
      reads this, nodes
    {
      && Linked(nodes)
      && size == |nodes|
      && head == (if nodes == [] then null else nodes[0])
      && tail == (if nodes == [] then null else nodes[|nodes| - 1])
    }

    /** dlist_init */
    constructor ()
      ensures Valid() && nodes == []
    {
      size, head, tail, nodes := 0, null, null, [];
    }

    method InsNext(elem: Node<T>, data: T, ghost k: nat) returns (r: int)
      requires Valid() && k < |nodes| && nodes[k] == elem
      modifies this, nodes
      ensures Valid() && r == size
      ensures |nodes| == |old(nodes)| + 1 && fresh(nodes[k + 1]) && nodes[k + 1].data == data
      ensures nodes == old(nodes)[..k + 1] + [nodes[k + 1]] + old(nodes)[k + 1..]
      ensures forall n | n in old(nodes) :: n.data == old(n.data)
    {
      assert LinkAt(nodes, k);
      var node := new Node(data);
      DistinctWith(nodes, k + 1, node);
      var next := elem.next;
      node.next := next;
      if next != null {
        next.prev := node;
      }
      node.prev := elem;
      elem.next := node;
      size := size + 1;
      if tail == elem {
        tail := node;
      }
      nodes := nodes[..k + 1] + [node] + nodes[k + 1..];
      forall i: nat | i < |nodes| ensures LinkAt(nodes, i) {
        assert i <= k ==> old(LinkAt(nodes, i));
        assert i > k + 1 ==> old(LinkAt(nodes, i - 1));
      }
      return size;
    }

    method InsPrev(elem: Node<T>, data: T, ghost k: nat) returns (r: int)
      requires Valid() && k < |nodes| && nodes[k] == elem
      modifies this, nodes
      ensures Valid() && r == size
      ensures |nodes| == |old(nodes)| + 1 && fresh(nodes[k]) && nodes[k].data == data
      ensures nodes == old(nodes)[..k] + [nodes[k]] + old(nodes)[k..]
      ensures forall n | n in old(nodes) :: n.data == old(n.data)
    {
      assert LinkAt(nodes, k);
      var node := new Node(data);
      DistinctWith(nodes, k, node);
      var prev := elem.prev;
      node.prev := prev;
      if prev != null {
        prev.next := node;
      }
      node.next := elem;
      elem.prev := node;
      size := size + 1;
      if head == elem {
        head := node;
      }
      nodes := nodes[..k] + [node] + nodes[k..];
      forall i: nat | i < |nodes| ensures LinkAt(nodes, i) {
        assert i < k ==> old(LinkAt(nodes, i));
        assert i > k ==> old(LinkAt(nodes, i - 1));
      }
      return size;
    }

    /** The first half of dlist_remove: the pointers on either side lead past the node. */
    method Bypass(elem: Node<T>, ghost k: nat)
      requires Valid() && k < |nodes| && nodes[k] == elem
      modifies this`head, this`tail, nodes
      ensures forall j: nat | j < |nodes| && j != k :: BypassAt(nodes, j, k)
      ensures head == if k == 0 then After(nodes, k) else nodes[0]
      ensures tail == if k + 1 == |nodes| then Before(nodes, k) else nodes[|nodes| - 1]
      ensures forall n | n in nodes :: n.data == old(n.data)
    {
      assert LinkAt(nodes, k);
      DistinctWithout(nodes, k);
      var prev, next := elem.prev, elem.next;
      if prev != null {
        prev.next := next;
      }
      if next != null {
        next.prev := prev;
      }
      if elem == head {
        head := next;
      }
      if elem == tail {
        tail := prev;
      }
      forall j: nat | j < |nodes| && j != k ensures BypassAt(nodes, j, k) {
        assert old(LinkAt(nodes, j)) && nodes[j] != elem;
      }
    }

    method Remove(elem: Node<T>, needFree: bool, ghost k: nat) returns (r: int, data: T)
      requires Valid() && k < |nodes| && nodes[k] == elem
      modifies this, nodes
      ensures Valid() && r == size && data == old(elem.data)
      ensures nodes == RemoveAt(old(nodes), k)
      ensures !needFree ==> elem.prev == null && elem.next == null
      ensures forall n | n in old(nodes) :: n.data == old(n.data)
    {
      Bypass(elem, k);
      data := elem.data;
      Bypassed(nodes, k);
      DistinctWithout(nodes, k);
      ghost var rest := RemoveAt(nodes, k);
      assert elem !in rest;
      if !needFree {
        elem.prev, elem.next := null, null;
      }
      assert Linked(rest);
      size := size - 1;
      nodes := rest;
      return size, data;
    }

    /** dlist_empty */
    method Empty() returns (r: bool)
      requires Valid()
      ensures r <==> nodes == []
    {
      return size == 0;
    }

    method Prepend(data: T) returns (r: int)
      requires Valid()
      modifies this, nodes
      ensures Valid() && r == size
      ensures nodes != [] && fresh(nodes[0]) && nodes[0].data == data
      ensures nodes == [nodes[0]] + old(nodes)
      ensures forall n | n in old(nodes) :: n.data == old(n.data)
    {
      if head == null {
        var node := new Node(data);
        head, tail, size := node, node, size + 1;
        nodes := [node];
        return size;
      }
      r := InsPrev(head, data, 0);
    }

    method Append(data: T) returns (r: int)
      requires Valid()
      modifies this, nodes
      ensures Valid() && r == size
      ensures |nodes| == |old(nodes)| + 1 && fresh(nodes[|nodes| - 1]) && nodes[|nodes| - 1].data == data
      ensures nodes == old(nodes) + [nodes[|nodes| - 1]]
      ensures forall n | n in old(nodes) :: n.data == old(n.data)
    {
      if tail == null {
        var node := new Node(data);
        head, tail, size := node, node, size + 1;
        nodes := [node];
        return size;
      }
      r := InsNext(tail, data, |nodes| - 1);
    }

    method PopFront() returns (r: int, data: Option<T>)
      requires Valid()
      modifies this, nodes
      ensures Valid() && r == size
      ensures old(nodes) == [] ==> nodes == [] && data.None?
      ensures old(nodes) != [] ==> nodes == old(nodes)[1..] && data == Some(old(nodes[0].data))
      ensures forall n | n in old(nodes) :: n.data == old(n.data)
    {
      if head == null {
        return size, None;
      }
      var d;
      r, d := Remove(head, true, 0);
      data := Some(d);
    }

    method PopBack() returns (r: int, data: Option<T>)
      requires Valid()
      modifies this, nodes
      ensures Valid() && r == size
      ensures old(nodes) == [] ==> nodes == [] && data.None?
      ensures old(nodes) != [] ==>
        nodes == old(nodes)[..|old(nodes)| - 1] && data == Some(old(nodes[|nodes| - 1].data))
      ensures forall n | n in old(nodes) :: n.data == old(n.data)
    {
      if tail == null {
        return size, None;
      }
      var d;
      r, d := Remove(tail, true, |nodes| - 1);
      data := Some(d);
    }

    // ---- traversals ----------------------------------------------------------------------

    /** dlist_for_each */
    method Forward() returns (r: seq<Node<T>>)
      requires Valid()
      ensures r == nodes
    {
      r := [];
      var p := head;
      while p != null
        invariant |r| <= |nodes| && r == nodes[..|r|]
        invariant p == if |r| == |nodes| then null else nodes[|r|]
        decreases |nodes| - |r|
      {
        assert LinkAt(nodes, |r|);
        r := r + [p];
        p := p.next;
      }
    }

    method Backward() returns (r: seq<Node<T>>)
      requires Valid()
      ensures Reversed(r) == nodes
    {
      r := [];
      var p := tail;
      ghost var n := |nodes|;
      while p != null
        invariant 0 <= n <= |nodes|
        invariant Reversed(r) == nodes[n..]
        invariant p == if n == 0 then null else nodes[n - 1]
        decreases n
      {
        assert LinkAt(nodes, n - 1);
        var q: Node<T> := p;
        ReversedAppend(r, q);
        assert nodes[n - 1..] == [q] + nodes[n..];
        r := r + [q];
        p := p.prev;
        n := n - 1;
      }
    }

    // ---- selection and sorting -----------------------------------------------------------

    method GetMin(cmp: (T, T) -> int, ghost items: seq<Item<T, Node<T>>>) returns (node: Node?<T>)
      requires Valid() && Shows(nodes, items)
      ensures node == if nodes == [] then null else nodes[Best(cmp, true, items)]
    {
      node := null;
      var p := head;
      ghost var i := 0;
      while p != null
        invariant 0 <= i <= |nodes|
        invariant p == if i == |nodes| then null else nodes[i]
        invariant node == if i == 0 then null else nodes[Scan(cmp, true, items, i)]
        decreases |nodes| - i
      {
        assert LinkAt(nodes, i) && ItemAt(nodes, items, i);
        if node == null {
          node := p;
        } else {
          assert ItemAt(nodes, items, Scan(cmp, true, items, i));
          if cmp(node.data, p.data) > 0 {
            node := p;
          }
        }
        p := p.next;
        i := i + 1;
      }
    }

    method GetMax(cmp: (T, T) -> int, ghost items: seq<Item<T, Node<T>>>) returns (node: Node?<T>)
      requires Valid() && Shows(nodes, items)
      ensures node == if nodes == [] then null else nodes[Best(cmp, false, items)]
    {
      node := null;
      var p := head;
      ghost var i := 0;
      while p != null
        invariant 0 <= i <= |nodes|
        invariant p == if i == |nodes| then null else nodes[i]
        invariant node == if i == 0 then null else nodes[Scan(cmp, false, items, i)]
        decreases |nodes| - i
      {
        assert LinkAt(nodes, i) && ItemAt(nodes, items, i);
        if node == null {
          node := p;
        } else {
          assert ItemAt(nodes, items, Scan(cmp, false, items, i));
          if cmp(node.data, p.data) < 0 {
            node := p;
          }
        }
        p := p.next;
        i := i + 1;
      }
    }

    /** One round of dlist_sort, first half: find the best entry and take it out. */
    method TakeBest(cmp: (T, T) -> int, asc: bool, ghost items: seq<Item<T, Node<T>>>) returns (node: Node<T>)
      requires Valid() && Shows(nodes, items) && nodes != []
      modifies this, nodes
      ensures Valid() && node == old(nodes)[Best(cmp, asc, items)]
      ensures nodes == RemoveAt(old(nodes), Best(cmp, asc, items))
      ensures Shows(nodes, RemoveAt(items, Best(cmp, asc, items)))
      ensures node.prev == null && node.next == null
      ensures items[Best(cmp, asc, items)] == Item(node.data, node)
    {
      var best;
      if asc {
        best := GetMin(cmp, items);
      } else {
        best := GetMax(cmp, items);
      }
      node := best;
      ghost var k := Best(cmp, asc, items);
      assert ItemAt(nodes, items, k);
      var _, _ := Remove(node, false, k);
      forall i: nat | i < |nodes| ensures ItemAt(nodes, RemoveAt(items, k), i) {
        assert old(ItemAt(nodes, items, if i < k then i else i + 1));
      }
    }

    /** One round of dlist_sort: the best entry moves from this list to the end of the new chain. */
    method Round(cmp: (T, T) -> int, asc: bool, newHead: Node?<T>, newTail: Node?<T>,
                 ghost done: seq<Node<T>>, ghost sorted: seq<Item<T, Node<T>>>, ghost rest: seq<Item<T, Node<T>>>)
      returns (newHead': Node?<T>, newTail': Node?<T>)
      requires Valid() && Shows(nodes, rest) && nodes != []
      requires Placed(newHead, newTail, done, sorted)
      requires forall i | 0 <= i < |done| :: done[i] !in nodes
      modifies this, nodes, newTail
      ensures
        var k := Best(cmp, asc, rest);
        var done' := done + [old(nodes)[k]];
        && Valid() && nodes == RemoveAt(old(nodes), k) && Shows(nodes, RemoveAt(rest, k))
        && Placed(newHead', newTail', done', sorted + [rest[k]])
        && forall i | 0 <= i < |done'| :: done'[i] !in nodes
    {
      Taken(nodes, Best(cmp, asc, rest));
      var node := TakeBest(cmp, asc, rest);
      Attach(newTail, node, done, sorted);
      newHead' := if newHead == null then node else newHead;
      newTail' := node;
    }

    /** The loop of dlist_sort: every node moves over, and the list is left empty. */
    method Rebuild(cmp: (T, T) -> int, asc: bool, ghost all: seq<Item<T, Node<T>>>)
      returns (newHead: Node?<T>, newTail: Node?<T>, ghost done: seq<Node<T>>)
      requires Valid() && Shows(nodes, all)
      modifies this, nodes
      ensures |done| == old(size) && Placed(newHead, newTail, done, StableSort.Sort(cmp, asc, all))
      ensures nodes == [] && Valid()
    {
      newHead, newTail, done := null, null, [];
      ghost var sorted: seq<Item<T, Node<T>>>, rest := [], all;
      while size > 0
        invariant Valid() && Shows(nodes, rest)
        invariant Placed(newHead, newTail, done, sorted) && |done| + |nodes| == old(size)
        invariant forall i | 0 <= i < |done| :: done[i] !in nodes
        invariant Within(done, old(nodes)) && Within(nodes, old(nodes))
        invariant sorted + StableSort.Sort(cmp, asc, rest) == StableSort.Sort(cmp, asc, all)
        decreases size
      {
        ghost var k := Best(cmp, asc, rest);
        ghost var node := nodes[k];
        SortStep(cmp, asc, sorted, rest);
        StillWithin(done, nodes, k, old(nodes));
        newHead, newTail := Round(cmp, asc, newHead, newTail, done, sorted, rest);
        done, sorted, rest := done + [node], sorted + [rest[k]], RemoveAt(rest, k);
      }
      assert rest == [] && sorted + [] == sorted;
    }

    /** dlist_sort: the same nodes, relinked in the order of repeated selection. */
    method Sort(cmp: (T, T) -> int, asc: bool, ghost all: seq<Item<T, Node<T>>>)
      requires Valid() && Shows(nodes, all)
      modifies this, nodes
      ensures Valid() && Shows(nodes, StableSort.Sort(cmp, asc, all))
    {
      var count := size;
      var newHead, newTail;
      ghost var done;
      newHead, newTail, done := Rebuild(cmp, asc, all);
      head, tail, size := newHead, newTail, count;
      nodes := done;
    }
  }

  /**
   * dlist_merge: b's nodes are appended to a; b, still pointing at them, is a list no more. A list
   * merged with itself becomes a ring of twice the size it says.
   */
  method Merge<T>(a: DList?<T>, b: DList?<T>) returns (r: DList?<T>)
    requires a != null ==> a.Valid()
    requires b != null ==> b.Valid()
    requires a != null && b != null && a != b ==> Disjoint(a.nodes, b.nodes)
    modifies a, if a == null then null else a.tail, if b == null then null else b.head
    ensures a == null || old(a.nodes) == [] ==> r == b && (b != null ==> b.Valid() && b.nodes == old(b.nodes))
    ensures a != null && old(a.nodes) != [] ==> r == a
    ensures a != null && old(a.nodes) != [] && a != b ==>
      a.Valid() && a.nodes == old(a.nodes) + (if b == null then [] else old(b.nodes))
    ensures a != null && b != null && old(a.nodes) != [] && old(b.nodes) != [] ==> !b.Valid()
    ensures a != null && a == b && old(a.nodes) != [] ==>
      && a.head == old(a.head) && a.tail == old(a.tail) && a.size == 2 * old(a.size) && a.nodes == old(a.nodes)
      && a.head != null && a.tail != null && a.tail.next == a.head && a.head.prev == a.tail
    ensures r != null ==> forall n | n in r.nodes :: n.data == old(n.data)
  {
    if a == null && b == null {
      return null;
    }
    if a == null {
      return b;
    }
    var empty := a.Empty();
    if empty {
      return b;
    }
    if b == null {
      return a;
    }
    empty := b.Empty();
    if empty {
      return a;
    }
    Link(a, b);
    r := a;
  }

  /** The pointer work of dlist_merge. */
  method Link<T>(a: DList<T>, b: DList<T>)
    requires a.Valid() && b.Valid() && a.nodes != [] && b.nodes != []
    requires a != b ==> Disjoint(a.nodes, b.nodes)
    modifies a, a.tail, b.head
    ensures a != b ==> a.Valid() && a.nodes == old(a.nodes) + old(b.nodes)
    ensures !b.Valid()
    ensures a == b ==>
      && a.head == old(a.head) && a.tail == old(a.tail) && a.size == 2 * old(a.size) && a.nodes == old(a.nodes)
      && a.head != null && a.tail != null && a.tail.next == a.head && a.head.prev == a.tail
    ensures forall n | n in a.nodes :: n.data == old(n.data)
  {
    a.tail.next := b.head;
    b.head.prev := a.tail;
    a.tail := b.tail;
    a.size := a.size + b.size;
    if a != b {
      ghost var was := a.nodes;
      a.nodes := was + b.nodes;
      forall i: nat | i < |a.nodes| ensures LinkAt(a.nodes, i) {
        if i < |was| {
          assert a.nodes[i] == was[i] && was[i] != b.nodes[0] && old(LinkAt(was, i));
        } else {
          var j := i - |was|;
          assert a.nodes[i] == b.nodes[j] && was[|was| - 1] != b.nodes[j] && old(LinkAt(b.nodes, j));
        }
      }
      DistinctJoin(was, b.nodes);
    }
    assert !LinkAt(b.nodes, 0);
  }

  predicate Disjoint<X(==)>(a: seq<X>, b: seq<X>) {
    forall i, j | 0 <= i < |a| && 0 <= j < |b| :: a[i] != b[j]
  }

  lemma DistinctJoin<X>(a: seq<X>, b: seq<X>)
    requires Distinct(a) && Distinct(b) && Disjoint(a, b)
    ensures Distinct(a + b)
  {
  }

  predicate Within<X(==)>(a: seq<X>, b: seq<X>) { forall i | 0 <= i < |a| :: a[i] in b }

  lemma StillWithin<X>(done: seq<X>, rest: seq<X>, k: nat, all: seq<X>)
    requires k < |rest| && Within(done, all) && Within(rest, all)
    ensures Within(done + [rest[k]], all) && Within(RemoveAt(rest, k), all)
  {
  }

  lemma SortStep<T, X>(cmp: (T, T) -> int, asc: bool, sorted: seq<Item<T, X>>, rest: seq<Item<T, X>>)
    requires rest != []
    ensures
      var k := Best(cmp, asc, rest);
      sorted + StableSort.Sort(cmp, asc, rest) == sorted + [rest[k]] + StableSort.Sort(cmp, asc, RemoveAt(rest, k))
  {
  }

  /** The chain dlist_sort has built so far. */
  ghost predicate Placed<T>(head: Node?<T>, tail: Node?<T>, done: seq<Node<T>>, items: seq<Item<T, Node<T>>>)
    reads done
  {
    && Linked(done) && Shows(done, items)
    && head == (if done == [] then null else done[0])
    && tail == (if done == [] then null else done[|done| - 1])
  }

  /** Read with the data they carry, sorted nodes are the old ones in an order that is ordered and stable. */
  method SortStably<T(!new)>(list: DList<T>, cmp: (T, T) -> int, asc: bool, ghost all: seq<Item<T, Node<T>>>)
    returns (ghost sorted: seq<Item<T, Node<T>>>)
    requires list.Valid() && Shows(list.nodes, all) && Comparison(cmp)
    modifies list, list.nodes
    ensures list.Valid() && Shows(list.nodes, sorted)
    ensures Ordered(cmp, asc, sorted)
    ensures multiset(sorted) == multiset(all) && multiset(list.nodes) == multiset(old(list.nodes))
    ensures forall x :: Class(cmp, sorted, x) == Class(cmp, all, x)
  {
    ghost var were := list.nodes;
    ShownTags(were, all);
    list.Sort(cmp, asc, all);
    sorted := StableSort.Sort(cmp, asc, all);
    SortIsOrdered(cmp, asc, all);
    SortPermutes(cmp, asc, all);
    forall x ensures Class(cmp, sorted, x) == Class(cmp, all, x) {
      SortIsStable(cmp, asc, all, x);
    }
    SortKeepsTags(cmp, asc, all);
    assert multiset(list.nodes) == multiset(were) by {
      ShownTags(list.nodes, sorted);
    }
  }

  lemma ShownTags<T>(ns: seq<Node<T>>, items: seq<Item<T, Node<T>>>)
    requires Shows(ns, items)
    ensures Tags(items) == ns
  {
    forall i: nat | i < |ns| ensures Tags(items)[i] == ns[i] {
      assert ItemAt(ns, items, i);
    }
  }

  /** One round of dlist_sort, second half: the entry goes behind those already placed. */
  method Attach<T>(tail: Node?<T>, node: Node<T>, ghost done: seq<Node<T>>, ghost items: seq<Item<T, Node<T>>>)
    requires Linked(done) && Shows(done, items)
    requires tail == if done == [] then null else done[|done| - 1]
    requires node !in done && node.prev == null && node.next == null
    modifies tail, node
    ensures Linked(done + [node]) && Shows(done + [node], items + [Item(node.data, node)])
    ensures node.data == old(node.data)
  {
    if tail != null {
      tail.next := node;
      node.prev := tail;
    }
    forall i: nat | i < |done + [node]|
      ensures LinkAt(done + [node], i) && ItemAt(done + [node], items + [Item(node.data, node)], i)
    {
      assert i < |done| ==> old(LinkAt(done, i)) && old(ItemAt(done, items, i));
    }
  }

  lemma Taken<T>(ns: seq<Node<T>>, k: nat)
    requires Distinct(ns) && k < |ns|
    ensures forall n | n in RemoveAt(ns, k) :: n in ns && n != ns[k]
  {
    DistinctWithout(ns, k);
  }

  ghost predicate ItemAt<T>(ns: seq<Node<T>>, items: seq<Item<T, Node<T>>>, i: nat)
    requires i < |ns| && i < |items|
    reads ns[i]
  {
    items[i] == Item(ns[i].data, ns[i])
  }

  /** The nodes with their data, as plain values. */
  ghost predicate Shows<T>(ns: seq<Node<T>>, items: seq<Item<T, Node<T>>>)
    reads ns
  {
    |items| == |ns| && forall i: nat | i < |ns| :: ItemAt(ns, items, i)
  }
}
