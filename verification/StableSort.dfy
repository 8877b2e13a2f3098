/** What dlist_sort computes, as a function on sequences, and what makes it a stable sort. */
module StableSort {
  import opened Sums

  /** A list entry: its data, and what tells it from other entries with equal data. */
  datatype Item<T, X> = Item(key: T, tag: X)

  /** dlist_get_min and dlist_get_max drop their candidate a for b. */
  predicate Beaten<T>(cmp: (T, T) -> int, asc: bool, a: T, b: T) {
    if asc then cmp(a, b) > 0 else cmp(a, b) < 0
  }

  predicate Tied<T>(cmp: (T, T) -> int, a: T, b: T) { cmp(a, b) == 0 }

  /** cmp is a comparison: it orders all values, possibly with ties. */
  ghost predicate Comparison<T(!new)>(cmp: (T, T) -> int) {
    && (forall a, b :: cmp(a, b) <= 0 <==> cmp(b, a) >= 0)
    && (forall a, b, c :: cmp(a, b) <= 0 && cmp(b, c) <= 0 ==> cmp(a, c) <= 0)
  }

  /** The candidate after scanning the first n entries. */
  function Scan<T, X>(cmp: (T, T) -> int, asc: bool, items: seq<Item<T, X>>, n: nat): (k: nat)
    requires 1 <= n <= |items|
    ensures k < n
  {
    if n == 1 then 0 else
      var k := Scan(cmp, asc, items, n - 1);
      if Beaten(cmp, asc, items[k].key, items[n - 1].key) then n - 1 else k
  }

  function Best<T, X>(cmp: (T, T) -> int, asc: bool, items: seq<Item<T, X>>): (k: nat)
    requires items != []
    ensures k < |items|
  {
    Scan(cmp, asc, items, |items|)
  }

  /** Repeated selection. */
  function Sort<T, X>(cmp: (T, T) -> int, asc: bool, items: seq<Item<T, X>>): (r: seq<Item<T, X>>)
    ensures |r| == |items|
    decreases |items|
  {
    if items == [] then [] else
      var k := Best(cmp, asc, items);
      [items[k]] + Sort(cmp, asc, RemoveAt(items, k))
  }

  // ---- a stable sorted permutation -----------------------------------------------------

  /** No entry is beaten by a later one: ascending, or descending. */
  predicate Ordered<T, X>(cmp: (T, T) -> int, asc: bool, items: seq<Item<T, X>>) {
    forall i, j | 0 <= i < j < |items| :: !Beaten(cmp, asc, items[i].key, items[j].key)
  }

  /** The entries tied with x, in the order in which they stand. */
  function Class<T, X>(cmp: (T, T) -> int, items: seq<Item<T, X>>, x: T): seq<Item<T, X>> {
    if items == [] then []
    else (if Tied(cmp, x, items[0].key) then [items[0]] else []) + Class(cmp, items[1..], x)
  }

  lemma {:induction false} ClassConcat<T, X>(cmp: (T, T) -> int, a: seq<Item<T, X>>, b: seq<Item<T, X>>, x: T)
    ensures Class(cmp, a + b, x) == Class(cmp, a, x) + Class(cmp, b, x)
  {
    if a == [] {
      assert a + b == b;
    } else {
      assert (a + b)[1..] == a[1..] + b && (a + b)[0] == a[0];
      ClassConcat(cmp, a[1..], b, x);
      var h := if Tied(cmp, x, a[0].key) then [a[0]] else [];
      assert Class(cmp, a + b, x) == h + Class(cmp, a[1..] + b, x);
      assert Class(cmp, a, x) == h + Class(cmp, a[1..], x);
    }
  }

  lemma {:induction false} ClassHas<T, X>(cmp: (T, T) -> int, items: seq<Item<T, X>>, x: T, y: Item<T, X>)
    ensures y in Class(cmp, items, x) <==> y in items && Tied(cmp, x, y.key)
  {
    if items != [] {
      ClassHas(cmp, items[1..], x, y);
      assert items == [items[0]] + items[1..];
    }
  }

  lemma BeatenToo<T(!new)>(cmp: (T, T) -> int, asc: bool, k: T, j: T, b: T)
    requires Comparison(cmp) && !Beaten(cmp, asc, k, j) && Beaten(cmp, asc, k, b)
    ensures Beaten(cmp, asc, j, b) && !Beaten(cmp, asc, b, j)
  {
    assert cmp(j, k) >= 0 <==> cmp(k, j) <= 0;
    assert cmp(j, b) <= 0 <==> cmp(b, j) >= 0;
  }

  /** The candidate beats every entry before it and is beaten by none. */
  lemma {:induction false} ScanIsFirstBest<T(!new), X>(
    cmp: (T, T) -> int, asc: bool, items: seq<Item<T, X>>, n: nat)
    requires Comparison(cmp) && 1 <= n <= |items|
    ensures
      var k := Scan(cmp, asc, items, n);
      && (forall j | 0 <= j < n :: !Beaten(cmp, asc, items[k].key, items[j].key))
      && (forall j | 0 <= j < k :: Beaten(cmp, asc, items[j].key, items[k].key))
  {
    if n > 1 {
      ScanIsFirstBest(cmp, asc, items, n - 1);
      var k, b := Scan(cmp, asc, items, n - 1), items[n - 1].key;
      if Beaten(cmp, asc, items[k].key, b) {
        forall j | 0 <= j < n - 1
          ensures Beaten(cmp, asc, items[j].key, b) && !Beaten(cmp, asc, b, items[j].key)
        {
          BeatenToo(cmp, asc, items[k].key, items[j].key, b);
        }
        assert cmp(b, b) == 0;
      }
    } else {
      assert cmp(items[0].key, items[0].key) == 0;
    }
  }

  /** The list with its best entry moved to the front: every class stands as before. */
  lemma BestToFront<T(!new), X>(cmp: (T, T) -> int, asc: bool, items: seq<Item<T, X>>, x: T)
    requires Comparison(cmp) && items != []
    ensures
      var k := Best(cmp, asc, items);
      Class(cmp, [items[k]] + RemoveAt(items, k), x) == Class(cmp, items, x)
  {
    var k := Best(cmp, asc, items);
    var b, before, after := items[k], items[..k], items[k + 1..];
    SplitAt(items, k);
    ClassConcat(cmp, before, after, x);
    ClassConcat(cmp, before, [b] + after, x);
    ClassCons(cmp, b, before + after, x);
    ClassCons(cmp, b, after, x);
    if Tied(cmp, x, b.key) {
      NoneTiedBefore(cmp, asc, items, x);
    }
    Swap(Class(cmp, before, x), if Tied(cmp, x, b.key) then [b] else [], Class(cmp, after, x));
  }

  lemma Swap<Y>(a: seq<Y>, h: seq<Y>, b: seq<Y>)
    requires a == [] || h == []
    ensures h + (a + b) == a + (h + b)
  {
  }

  lemma NoneTiedBefore<T(!new), X>(cmp: (T, T) -> int, asc: bool, items: seq<Item<T, X>>, x: T)
    requires Comparison(cmp) && items != [] && Tied(cmp, x, items[Best(cmp, asc, items)].key)
    ensures Class(cmp, items[..Best(cmp, asc, items)], x) == []
  {
    var k := Best(cmp, asc, items);
    ScanIsFirstBest(cmp, asc, items, |items|);
    NoneTied(cmp, items[..k], x, items[k].key, asc);
  }

  lemma ClassCons<T, X>(cmp: (T, T) -> int, b: Item<T, X>, items: seq<Item<T, X>>, x: T)
    ensures Class(cmp, [b] + items, x) == (if Tied(cmp, x, b.key) then [b] else []) + Class(cmp, items, x)
  {
    assert ([b] + items)[1..] == items;
  }

  lemma {:induction false} NoneTied<T(!new), X>(
    cmp: (T, T) -> int, items: seq<Item<T, X>>, x: T, b: T, asc: bool)
    requires Comparison(cmp) && Tied(cmp, x, b)
    requires forall j | 0 <= j < |items| :: Beaten(cmp, asc, items[j].key, b)
    ensures Class(cmp, items, x) == []
  {
    if items != [] {
      NoneTied(cmp, items[1..], x, b, asc);
      var y := items[0].key;
      assert Beaten(cmp, asc, y, b);
      assert cmp(b, x) == 0;
    }
  }

  /** Stability: entries with equal data keep their order, and none is lost or made up. */
  lemma {:induction false} SortIsStable<T(!new), X>(cmp: (T, T) -> int, asc: bool, items: seq<Item<T, X>>, x: T)
    requires Comparison(cmp)
    ensures Class(cmp, Sort(cmp, asc, items), x) == Class(cmp, items, x)
    decreases |items|
  {
    if items != [] {
      var k := Best(cmp, asc, items);
      var rest := RemoveAt(items, k);
      SortIsStable(cmp, asc, rest, x);
      BestToFront(cmp, asc, items, x);
      ClassCons(cmp, items[k], rest, x);
      ClassCons(cmp, items[k], Sort(cmp, asc, rest), x);
    }
  }

  lemma {:induction false} SortPermutes<T, X>(cmp: (T, T) -> int, asc: bool, items: seq<Item<T, X>>)
    ensures multiset(Sort(cmp, asc, items)) == multiset(items)
    decreases |items|
  {
    if items != [] {
      var k := Best(cmp, asc, items);
      SortPermutes(cmp, asc, RemoveAt(items, k));
      SplitAt(items, k);
      assert multiset(items[..k] + items[k + 1..]) == multiset(items[..k]) + multiset(items[k + 1..]);
    }
  }

  function Tags<T, X>(items: seq<Item<T, X>>): (r: seq<X>)
    ensures |r| == |items|
  {
    seq(|items|, i requires 0 <= i < |items| => items[i].tag)
  }

  lemma {:induction false} SortKeepsTags<T, X>(cmp: (T, T) -> int, asc: bool, items: seq<Item<T, X>>)
    ensures multiset(Tags(Sort(cmp, asc, items))) == multiset(Tags(items))
    decreases |items|
  {
    if items != [] {
      var k := Best(cmp, asc, items);
      var rest := RemoveAt(items, k);
      SortKeepsTags(cmp, asc, rest);
      TagsWithout(items, k);
      TagsCons(items[k], Sort(cmp, asc, rest));
    }
  }

  lemma TagsCons<T, X>(b: Item<T, X>, items: seq<Item<T, X>>)
    ensures Tags([b] + items) == [b.tag] + Tags(items)
  {
  }

  lemma TagsWithout<T, X>(items: seq<Item<T, X>>, k: nat)
    requires k < |items|
    ensures multiset(Tags(items)) == multiset{items[k].tag} + multiset(Tags(RemoveAt(items, k)))
  {
    assert Tags(RemoveAt(items, k)) == RemoveAt(Tags(items), k);
    MultisetWithout(Tags(items), k);
  }

  lemma MultisetWithout<X>(xs: seq<X>, k: nat)
    requires k < |xs|
    ensures multiset(xs) == multiset{xs[k]} + multiset(RemoveAt(xs, k))
  {
    SplitAt(xs, k);
    assert multiset(xs[..k] + xs[k + 1..]) == multiset(xs[..k]) + multiset(xs[k + 1..]);
  }

  lemma {:induction false} SortIsOrdered<T(!new), X>(cmp: (T, T) -> int, asc: bool, items: seq<Item<T, X>>)
    requires Comparison(cmp)
    ensures Ordered(cmp, asc, Sort(cmp, asc, items))
    decreases |items|
  {
    if items != [] {
      var k := Best(cmp, asc, items);
      SortIsOrdered(cmp, asc, RemoveAt(items, k));
      forall j | 0 <= j < |items| - 1
        ensures !Beaten(cmp, asc, items[k].key, Sort(cmp, asc, RemoveAt(items, k))[j].key)
      {
        BestStaysBest(cmp, asc, items, j);
      }
      OrderedCons(cmp, asc, items[k], Sort(cmp, asc, RemoveAt(items, k)));
    }
  }

  lemma OrderedCons<T, X>(cmp: (T, T) -> int, asc: bool, b: Item<T, X>, r: seq<Item<T, X>>)
    requires Ordered(cmp, asc, r) && forall j | 0 <= j < |r| :: !Beaten(cmp, asc, b.key, r[j].key)
    ensures Ordered(cmp, asc, [b] + r)
  {
  }

  lemma StillAmong<T, X>(cmp: (T, T) -> int, asc: bool, items: seq<Item<T, X>>, j: nat) returns (i: nat)
    requires j + 1 < |items|
    ensures i < |items| && items[i] == Sort(cmp, asc, RemoveAt(items, Best(cmp, asc, items)))[j]
  {
    var k := Best(cmp, asc, items);
    var rest := RemoveAt(items, k);
    SortMakesUpNothing(cmp, asc, rest, j);
    i :| 0 <= i < |rest| && rest[i] == Sort(cmp, asc, rest)[j];
    i := if i < k then i else i + 1;
  }

  lemma BestStaysBest<T(!new), X>(cmp: (T, T) -> int, asc: bool, items: seq<Item<T, X>>, j: nat)
    requires Comparison(cmp) && j + 1 < |items|
    ensures
      var k := Best(cmp, asc, items);
      !Beaten(cmp, asc, items[k].key, Sort(cmp, asc, RemoveAt(items, k))[j].key)
  {
    var i := StillAmong(cmp, asc, items, j);
    ScanIsFirstBest(cmp, asc, items, |items|);
  }

  lemma {:induction false} SortMakesUpNothing<T, X>(cmp: (T, T) -> int, asc: bool, items: seq<Item<T, X>>, j: nat)
    requires j < |items|
    ensures exists i | 0 <= i < |items| :: items[i] == Sort(cmp, asc, items)[j]
    decreases |items|
  {
    var k := Best(cmp, asc, items);
    if j > 0 {
      SortMakesUpNothing(cmp, asc, RemoveAt(items, k), j - 1);
      var i :| 0 <= i < |items| - 1 && RemoveAt(items, k)[i] == Sort(cmp, asc, items)[j];
      assert items[if i < k then i else i + 1] == Sort(cmp, asc, items)[j];
    }
  }

  /** There is only one stable sort: an ordered list with the same classes is the one computed. */
  lemma {:induction false} StableSortIsUnique<T(!new), X>(
    cmp: (T, T) -> int, asc: bool, items: seq<Item<T, X>>, s: seq<Item<T, X>>)
    requires Comparison(cmp) && Ordered(cmp, asc, s)
    requires forall x :: Class(cmp, s, x) == Class(cmp, items, x)
    ensures s == Sort(cmp, asc, items)
    decreases |items|
  {
    if items == [] {
      if s != [] {
        SomeClass(cmp, s);
      }
    } else {
      var k := Best(cmp, asc, items);
      var b := items[k];
      HeadIsBest(cmp, asc, items, s);
      var rest := RemoveAt(items, k);
      forall x ensures Class(cmp, s[1..], x) == Class(cmp, rest, x) {
        BestToFront(cmp, asc, items, x);
        ClassCons(cmp, b, rest, x);
        ClassCons(cmp, b, s[1..], x);
        assert s == [b] + s[1..];
        assert Class(cmp, s, x) == Class(cmp, items, x);
        var h := if Tied(cmp, x, b.key) then [b] else [];
        SameTail(h, Class(cmp, s[1..], x), Class(cmp, rest, x));
      }
      StableSortIsUnique(cmp, asc, rest, s[1..]);
    }
  }

  lemma SomeClass<T(!new), X>(cmp: (T, T) -> int, s: seq<Item<T, X>>)
    requires Comparison(cmp) && s != []
    ensures exists x :: Class(cmp, s, x) != []
  {
    assert cmp(s[0].key, s[0].key) == 0;
    ClassHas(cmp, s, s[0].key, s[0]);
    assert Class(cmp, s, s[0].key) != [];
  }

  lemma SameTail<Y>(h: seq<Y>, a: seq<Y>, b: seq<Y>)
    requires h + a == h + b
    ensures a == b
  {
    assert (h + a)[|h|..] == a && (h + b)[|h|..] == b;
  }

  lemma HeadIsBest<T(!new), X>(cmp: (T, T) -> int, asc: bool, items: seq<Item<T, X>>, s: seq<Item<T, X>>)
    requires Comparison(cmp) && Ordered(cmp, asc, s) && items != []
    requires forall x :: Class(cmp, s, x) == Class(cmp, items, x)
    ensures s != [] && s[0] == items[Best(cmp, asc, items)]
  {
    var k := Best(cmp, asc, items);
    var b := items[k];
    ScanIsFirstBest(cmp, asc, items, |items|);
    assert Class(cmp, s, b.key) == Class(cmp, items, b.key);
    ClassHas(cmp, items, b.key, b);
    ClassHas(cmp, s, b.key, b);
    assert cmp(b.key, b.key) == 0;
    var h := s[0];
    assert cmp(h.key, h.key) == 0;
    assert Class(cmp, s, h.key) == Class(cmp, items, h.key);
    ClassHas(cmp, s, h.key, h);
    ClassHas(cmp, items, h.key, h);
    assert h in items && !Beaten(cmp, asc, b.key, h.key);
    assert !Beaten(cmp, asc, h.key, b.key) by {
      var i :| 0 <= i < |s| && s[i] == b;
    }
    assert Tied(cmp, b.key, h.key);
    BestToFront(cmp, asc, items, b.key);
    assert Class(cmp, s, b.key)[0] == h;
    assert ([b] + RemoveAt(items, k))[0] == b;
  }
}
