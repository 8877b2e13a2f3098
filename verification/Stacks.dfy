/** stack.c and map.c: a stack and an association list, each over the doubly linked list of dlist.c. */
module Stacks {
  import opened Bytes
  import D = DList

  class Stack<T> {
    const list: D.DList<T>
    /** What is on the stack, top first. */
    ghost var contents: seq<T>
    ghost var repr: set<object>

    ghost predicate Valid()
      reads this, repr
    {
      && this in repr && list in repr && (forall i | 0 <= i < |list.nodes| :: list.nodes[i] in repr)
      && list.Valid() && |contents| == |list.nodes|
      && forall i | 0 <= i < |contents| :: list.nodes[i].data == contents[i]
    }

    /** stack_create */
    constructor ()
      ensures Valid() && contents == [] && fresh(repr)
    {
      list := new D.DList();
      contents := [];
      new;
      repr := {this, list};
    }

    /** stack_push */
    method Push(x: T)
      requires Valid()
      modifies repr
      ensures Valid() && contents == [x] + old(contents) && fresh(repr - old(repr))
    {
      var _ := list.Prepend(x);
      contents, repr := [x] + contents, repr + {list.nodes[0]};
    }

    /** stack_pop; an empty stack stays as it is. */
    method Pop() returns (x: Option<T>)
      requires Valid()
      modifies repr
      ensures Valid() && repr == old(repr)
      ensures old(contents) == [] ==> x == None && contents == []
      ensures old(contents) != [] ==> x == Some(old(contents[0])) && contents == old(contents)[1..]
    {
      var r;
      r, x := list.PopFront();
      contents := if contents == [] then [] else contents[1..];
    }

    /** stack_peek */
    function Peek(): (x: Option<T>)
      requires Valid()
      reads this, repr
      ensures x == if contents == [] then None else Some(contents[0])
    {
      if list.head == null then None else Some(list.head.data)
    }

    /** stack_size; stack_is_empty compares it with zero. */
    function Size(): (n: int)
      requires Valid()
      reads this, repr
      ensures n == |contents|
    {
      list.size
    }

    /** stack_peek_all, into an array. */
    method PeekAll(a: array<T>)
      requires Valid() && a.Length == |contents| && a !in repr
      modifies a
      ensures a[..] == contents
    {
      var p, i := list.head, 0;
      while p != null
        invariant 0 <= i <= a.Length && Valid()
        invariant p == if i == |contents| then null else list.nodes[i]
        invariant a[..i] == contents[..i]
        decreases a.Length - i
      {
        assert D.LinkAt(list.nodes, i);
        a[i] := p.data;
        p, i := p.next, i + 1;
      }
    }
  }

  // ---- map.c ---------------------------------------------------------------------------

  class KvNode<K, V> {
    const key: K
    var value: V

    constructor (key: K, value: V)
      ensures this.key == key && this.value == value
    {
      this.key, this.value := key, value;
    }
  }

  /** What some pairs bind; the first pair of a key counts. */
  function Bound<K, V>(pairs: seq<(K, V)>): map<K, V> {
    if pairs == [] then map[] else Bound(pairs[1..])[pairs[0].0 := pairs[0].1]
  }

  lemma {:induction false} BoundFrom<K, V>(pairs: seq<(K, V)>, i: nat, k: K)
    requires i <= |pairs| && forall j | 0 <= j < i :: pairs[j].0 != k
    ensures k in Bound(pairs) <==> i < |pairs| && k in Bound(pairs[i..])
    ensures k in Bound(pairs) ==> Bound(pairs)[k] == Bound(pairs[i..])[k]
  {
    if i > 0 {
      BoundFrom(pairs[1..], i - 1, k);
      assert pairs[1..][i - 1..] == pairs[i..];
    }
  }

  /** A pair added behind all others, under a key none of them has. */
  lemma {:induction false} BoundAppend<K, V>(pairs: seq<(K, V)>, k: K, v: V)
    requires forall j | 0 <= j < |pairs| :: pairs[j].0 != k
    ensures Bound(pairs + [(k, v)]) == Bound(pairs)[k := v]
  {
    if pairs == [] {
      assert [(k, v)][1..] == [];
    } else {
      assert (pairs + [(k, v)])[1..] == pairs[1..] + [(k, v)];
      BoundAppend(pairs[1..], k, v);
    }
  }

  /** The value of the first pair of a key replaced. */
  lemma {:induction false} BoundUpdate<K, V>(pairs: seq<(K, V)>, i: nat, k: K, v: V)
    requires i < |pairs| && pairs[i].0 == k && forall j | 0 <= j < i :: pairs[j].0 != k
    ensures Bound(pairs[i := (k, v)]) == Bound(pairs)[k := v]
  {
    if i > 0 {
      assert pairs[i := (k, v)][1..] == pairs[1..][i - 1 := (k, v)];
      BoundUpdate(pairs[1..], i - 1, k, v);
    } else {
      assert pairs[0 := (k, v)][1..] == pairs[1..];
    }
  }

  class Map<K(==), V> {
    const list: D.DList<KvNode<K, V>>
    ghost var kvs: seq<KvNode<K, V>>
    /** Keys and values, in list order. */
    ghost var pairs: seq<(K, V)>
    ghost var repr: set<object>

    ghost predicate Valid()
      reads this, repr
    {
      && this in repr && list in repr
      && (forall i | 0 <= i < |list.nodes| :: list.nodes[i] in repr)
      && (forall i | 0 <= i < |kvs| :: kvs[i] in repr)
      && list.Valid() && D.Distinct(kvs)
      && |pairs| == |kvs| == |list.nodes|
      && (forall i | 0 <= i < |kvs| :: list.nodes[i].data == kvs[i])
      && (forall i | 0 <= i < |kvs| :: pairs[i] == (kvs[i].key, kvs[i].value))
    }

    /** map_create */
    constructor ()
      ensures Valid() && pairs == [] && fresh(repr)
    {
      list := new D.DList();
      kvs, pairs := [], [];
      new;
      repr := {this, list};
    }

    /** The loop of map_find and map_add: the first node with a key, if there is one. */
    method Seek(k: K) returns (p: D.Node?<KvNode<K, V>>, ghost i: nat)
      requires Valid()
      ensures i <= |kvs| && forall j | 0 <= j < i :: pairs[j].0 != k
      ensures if i == |kvs| then p == null else p == list.nodes[i] && p.data == kvs[i] && kvs[i].key == k
    {
      p, i := list.head, 0;
      while p != null && p.data.key != k
        invariant i <= |kvs|
        invariant p == if i == |kvs| then null else list.nodes[i]
        invariant forall j | 0 <= j < i :: pairs[j].0 != k
        decreases |kvs| - i
      {
        assert D.LinkAt(list.nodes, i);
        p, i := p.next, i + 1;
      }
    }

    /** map_find */
    method Find(k: K) returns (v: Option<V>)
      requires Valid()
      ensures v == if k in Bound(pairs) then Some(Bound(pairs)[k]) else None
    {
      var p, i := Seek(k);
      BoundFrom(pairs, i, k);
      v := if p == null then None else Some(p.data.value);
    }

    /** map_add: the value of a key that is there is replaced in place, a new key goes to the end. */
    method Add(k: K, v: V)
      requires Valid()
      modifies repr
      ensures Valid() && fresh(repr - old(repr))
      ensures Bound(pairs) == old(Bound(pairs))[k := v]
    {
      ghost var before := pairs;
      var data := new KvNode(k, v);
      var p, i := Seek(k);
      if p != null {
        Replace(p, i, v);
        BoundUpdate(before, i, k, v);
      } else {
        AddLast(data);
        BoundAppend(before, k, v);
      }
    }

    method Replace(p: D.Node<KvNode<K, V>>, ghost i: nat, v: V)
      requires Valid() && i < |kvs| && p.data == kvs[i]
      modifies this`pairs, p.data
      ensures Valid() && pairs == old(pairs)[i := (p.data.key, v)]
    {
      p.data.value := v;
      pairs := pairs[i := (p.data.key, v)];
    }

    /** A new node at the end of the list. */
    method AddLast(data: KvNode<K, V>)
      requires Valid() && data !in repr
      modifies this, list, list.nodes
      ensures Valid() && fresh(repr - old(repr) - {data})
      ensures pairs == old(pairs) + [(data.key, data.value)]
    {
      ghost var before := list.nodes;
      var _ := list.Append(data);
      ghost var node := list.nodes[|before|];
      assert list.nodes == before + [node];
      D.DistinctWith(kvs, |kvs|, data);
      assert kvs[..|kvs|] + [data] + kvs[|kvs|..] == kvs + [data];
      kvs, pairs, repr := kvs + [data], pairs + [(data.key, data.value)], repr + {data, node};
    }
  }
}
