/**
 * Why merging the two lightest entries is optimal, stated on code lengths alone:
 * any assignment of lengths that meets the Kraft inequality costs at least as much
 * as the merges do.
 */
module HuffmanOptimal {
  import opened Sums

  /** One symbol of a code: how often it occurs and how long its codeword is. */
  datatype Item = Item(weight: nat, len: nat)

  function WeightOf(): Item -> int { (it: Item) => it.weight }
  function CostTerm(): Item -> int { (it: Item) => it.weight * it.len }
  function KraftTerm(bound: nat): Item -> int {
    (it: Item) => if it.len <= bound then Pow2(bound - it.len) else 0
  }

  function Weights(items: seq<Item>): seq<int> { Map(items, WeightOf()) }

  /** Total weighted length: the number of bits the code spends. */
  function Cost(items: seq<Item>): int { Sum(items, CostTerm()) }

  /** The Kraft sum scaled by 2^bound. */
  function Kraft(items: seq<Item>, bound: nat): int { Sum(items, KraftTerm(bound)) }

  predicate Bounded(items: seq<Item>, bound: nat) {
    forall i :: 0 <= i < |items| ==> items[i].len <= bound
  }

  /** The Kraft inequality: the sum of 2^-len is at most one. */
  predicate KraftHolds(items: seq<Item>, bound: nat) {
    Bounded(items, bound) && Kraft(items, bound) <= Pow2(bound)
  }

  /** The index a left-to-right scan with a strict comparison settles on. */
  predicate IsMinIndex(ws: seq<int>, i: nat) {
    && i < |ws|
    && (forall k :: 0 <= k < |ws| ==> ws[i] <= ws[k])
    && (forall k :: 0 <= k < i ==> ws[i] < ws[k])
  }

  lemma {:induction false} MinIndexExists(ws: seq<int>)
    requires ws != []
    ensures exists i: nat :: IsMinIndex(ws, i)
  {
    var n := |ws| - 1;
    if n == 0 {
      assert IsMinIndex(ws, 0);
    } else {
      MinIndexExists(ws[..n]);
      var p: nat :| IsMinIndex(ws[..n], p);
      assert IsMinIndex(ws, if ws[n] < ws[p] then n else p);
    }
  }

  ghost function MinIndex(ws: seq<int>): (i: nat)
    requires ws != []
    ensures IsMinIndex(ws, i)
  {
    MinIndexExists(ws);
    var i: nat :| IsMinIndex(ws, i);
    i
  }

  /** What the two lightest entries weigh together. */
  ghost function MergedWeight(ws: seq<int>): int
    requires |ws| >= 2
  {
    var i := MinIndex(ws);
    ws[i] + RemoveAt(ws, i)[MinIndex(RemoveAt(ws, i))]
  }

  /** The list after the two lightest entries are taken out and their merge is appended. */
  ghost function Merged(ws: seq<int>): (r: seq<int>)
    requires |ws| >= 2
    ensures |r| == |ws| - 1
  {
    var ws1 := RemoveAt(ws, MinIndex(ws));
    RemoveAt(ws1, MinIndex(ws1)) + [MergedWeight(ws)]
  }

  /** The sum of all the weights created by merging the two lightest entries until one is left. */
  ghost function MergeCost(ws: seq<int>): int
    decreases |ws|
  {
    if |ws| <= 1 then 0 else MergedWeight(ws) + MergeCost(Merged(ws))
  }

  lemma {:induction false} Longest(items: seq<Item>) returns (m: nat)
    requires items != []
    ensures m < |items| && Bounded(items, items[m].len)
  {
    var n := |items| - 1;
    if n == 0 {
      m := 0;
    } else {
      m := Longest(items[..n]);
      m := if items[n].len > items[m].len then n else m;
    }
  }

  function SwapLengths(items: seq<Item>, i: nat, m: nat): seq<Item>
    requires i < |items| && m < |items|
  {
    items[i := items[i].(len := items[m].len)][m := items[m].(len := items[i].len)]
  }

  /** Giving the lightest symbol the longest codeword never costs more. */
  lemma SwapLengthsCheaper(items: seq<Item>, i: nat, m: nat)
    requires i < |items| && m < |items|
    requires items[i].weight <= items[m].weight && items[i].len <= items[m].len
    ensures Cost(SwapLengths(items, i, m)) <= Cost(items)
    ensures Weights(SwapLengths(items, i, m)) == Weights(items)
    ensures forall b: nat :: Kraft(SwapLengths(items, i, m), b) == Kraft(items, b)
  {
    var a := items[i].(len := items[m].len);
    var z := items[m].(len := items[i].len);
    var s1 := items[i := a];
    SumUpdate(items, i, a, CostTerm());
    SumUpdate(s1, m, z, CostTerm());
    forall b: nat ensures Kraft(SwapLengths(items, i, m), b) == Kraft(items, b) {
      SumUpdate(items, i, a, KraftTerm(b));
      SumUpdate(s1, m, z, KraftTerm(b));
    }
    if i != m {
      SwapArithmetic(items[i].weight, items[m].weight, items[i].len, items[m].len);
    }
  }

  lemma SwapArithmetic(v: nat, w: nat, k: nat, l: nat)
    requires v <= w && k <= l
    ensures v * l + w * k <= v * k + w * l
  {
    assert (w - v) * (l - k) >= 0;
  }

  lemma {:induction false} KraftScale(items: seq<Item>, bound: nat, up: nat)
    requires Bounded(items, bound)
    ensures Kraft(items, bound + up) == Kraft(items, bound) * Pow2(up)
  {
    if items != [] {
      KraftScale(items[1..], bound, up);
      Pow2Add(bound - items[0].len, up);
    }
  }

  lemma KraftLoosen(items: seq<Item>, bound: nat, up: nat)
    requires KraftHolds(items, bound)
    ensures Kraft(items, bound + up) <= Pow2(bound + up)
  {
    KraftScale(items, bound, up);
    Pow2Add(bound, up);
    ScaleLe(Kraft(items, bound), Pow2(bound), Pow2(up));
  }

  lemma KraftTighten(items: seq<Item>, bound: nat, up: nat)
    requires Bounded(items, bound) && Kraft(items, bound + up) <= Pow2(bound + up)
    ensures KraftHolds(items, bound)
  {
    KraftScale(items, bound, up);
    Pow2Add(bound, up);
    CancelLe(Kraft(items, bound), Pow2(bound), Pow2(up));
  }

  lemma KraftRescale(items: seq<Item>, bound: nat, tight: nat)
    requires KraftHolds(items, bound) && Bounded(items, tight)
    ensures KraftHolds(items, tight)
  {
    if tight <= bound {
      KraftTighten(items, tight, bound - tight);
    } else {
      KraftLoosen(items, bound, tight - bound);
    }
  }

  lemma ScaleLe(x: int, y: int, c: int)
    requires c > 0 && x <= y
    ensures x * c <= y * c
  {
  }

  lemma CancelLe(x: int, y: int, c: int)
    requires c > 0 && x * c <= y * c
    ensures x <= y
  {
    assert x > y ==> (x - y) * c > 0;
  }

  lemma CancelLt(x: int, y: int, c: int)
    requires c > 0 && x * c < y * c
    ensures x < y
  {
    assert x >= y ==> (x - y) * c >= 0;
  }

  /**
   * If one symbol has the longest codeword and every other is at most `tight`,
   * then that symbol could be shortened to `tight` as well.
   */
  lemma Shorten(items: seq<Item>, i: nat, tight: nat)
    requires i < |items| && KraftHolds(items, items[i].len) && tight <= items[i].len
    requires Bounded(RemoveAt(items, i), tight)
    ensures Kraft(RemoveAt(items, i), tight) + 1 <= Pow2(tight)
  {
    var top := items[i].len;
    SumRemove(items, i, KraftTerm(top));
    KraftScale(RemoveAt(items, i), tight, top - tight);
    Pow2Add(tight, top - tight);
    CancelLt(Kraft(RemoveAt(items, i), tight), Pow2(tight), Pow2(top - tight));
  }

  /** The lightest symbol moved to the longest codeword: its weight and the weights left behind are unchanged. */
  lemma Lightest(items: seq<Item>) returns (swapped: seq<Item>)
    requires items != []
    ensures |swapped| == |items| && Weights(swapped) == Weights(items) && Cost(swapped) <= Cost(items)
    ensures forall b: nat :: Kraft(swapped, b) == Kraft(items, b)
    ensures var i := MinIndex(Weights(items));
            && Bounded(swapped, swapped[i].len) && Bounded(items, swapped[i].len)
            && (forall b: nat :: Bounded(items, b) ==> swapped[i].len <= b)
            && Weights(RemoveAt(swapped, i)) == RemoveAt(Weights(items), i)
            && swapped[i].weight == Weights(items)[i]
  {
    var i := MinIndex(Weights(items));
    var m := Longest(items);
    swapped := SwapLengths(items, i, m);
    SwapLengthsCheaper(items, i, m);
    MapRemove(swapped, WeightOf(), i);
  }

  /** The two lightest symbols, in merge order, brought to the two longest codewords. */
  lemma TwoLightest(items: seq<Item>, bound: nat) returns (items1: seq<Item>, rest1: seq<Item>)
    requires |items| >= 2 && KraftHolds(items, bound)
    ensures |items1| == |items| && |rest1| == |items| - 1
    ensures var ws := Weights(items); var i := MinIndex(ws); var j := MinIndex(RemoveAt(ws, i));
            && items1[i].weight == ws[i] && Weights(rest1) == RemoveAt(ws, i)
            && rest1[j].len <= items1[i].len && Bounded(rest1, rest1[j].len)
            && Kraft(rest1, rest1[j].len) + 1 <= Pow2(rest1[j].len)
            && Cost(items1) <= Cost(items) && Cost(rest1) <= Cost(RemoveAt(items1, i))
  {
    var i := MinIndex(Weights(items));
    items1 := Lightest(items);
    rest1 := Lightest(RemoveAt(items1, i));
    KraftAfterLightest(items, bound, items1, i);
    Shorten(items1, i, rest1[MinIndex(Weights(RemoveAt(items1, i)))].len);
  }

  lemma KraftAfterLightest(items: seq<Item>, bound: nat, items1: seq<Item>, i: nat)
    requires KraftHolds(items, bound) && |items1| == |items| && i < |items|
    requires Bounded(items1, items1[i].len) && Bounded(items, items1[i].len)
    requires forall b: nat :: Kraft(items1, b) == Kraft(items, b)
    ensures KraftHolds(items1, items1[i].len)
    ensures Bounded(RemoveAt(items1, i), items1[i].len)
  {
    KraftRescale(items, bound, items1[i].len);
  }

  /** One merge: a code for the merged list exists that is cheaper by exactly the merged weight. */
  lemma MergeStep(items: seq<Item>, bound: nat) returns (merged: seq<Item>, tight: nat)
    requires |items| >= 2 && KraftHolds(items, bound)
    ensures KraftHolds(merged, tight) && Weights(merged) == Merged(Weights(items))
    ensures Cost(items) >= Cost(merged) + MergedWeight(Weights(items))
  {
    var ws := Weights(items);
    var i := MinIndex(ws);
    var j := MinIndex(RemoveAt(ws, i));
    var items1, rest1 := TwoLightest(items, bound);
    assert rest1[j].weight == RemoveAt(ws, i)[j];
    merged := MergePair(items1, i, rest1, j);
    tight := rest1[j].len;
  }

  lemma MergePair(items: seq<Item>, i: nat, rest: seq<Item>, j: nat) returns (merged: seq<Item>)
    requires i < |items| && |rest| == |items| - 1 && j < |rest| && rest[j].len <= items[i].len
    requires Bounded(rest, rest[j].len) && Kraft(rest, rest[j].len) + 1 <= Pow2(rest[j].len)
    requires Cost(rest) <= Cost(RemoveAt(items, i))
    ensures KraftHolds(merged, rest[j].len)
    ensures Weights(merged) == RemoveAt(Weights(rest), j) + [items[i].weight + rest[j].weight]
    ensures Cost(items) >= Cost(merged) + items[i].weight + rest[j].weight
  {
    var tight := rest[j].len;
    var heavy := Item(items[i].weight + rest[j].weight, if tight == 0 then 0 else tight - 1);
    merged := RemoveAt(rest, j) + [heavy];
    MergeKraft(rest, j, tight, heavy);
    MergeCosts(items, i, rest, j, tight, heavy);
    assert Weights(merged) == RemoveAt(Weights(rest), j) + [heavy.weight];
  }

  lemma MergeKraft(rest: seq<Item>, j: nat, tight: nat, heavy: Item)
    requires j < |rest| && rest[j].len == tight && Bounded(rest, tight)
    requires Kraft(rest, tight) + 1 <= Pow2(tight)
    requires heavy.len == if tight == 0 then 0 else tight - 1
    ensures tight >= 1
    ensures KraftHolds(RemoveAt(rest, j) + [heavy], tight)
  {
    SumRemove(rest, j, KraftTerm(tight));
    SumNonNegative(RemoveAt(rest, j), KraftTerm(tight));
    SumAppend(RemoveAt(rest, j), heavy, KraftTerm(tight));
  }

  lemma MergeCosts(items: seq<Item>, i: nat, rest: seq<Item>, j: nat, tight: nat, heavy: Item)
    requires i < |items| && j < |rest| && tight >= 1 && rest[j].len == tight <= items[i].len
    requires heavy == Item(items[i].weight + rest[j].weight, tight - 1)
    requires Cost(rest) <= Cost(RemoveAt(items, i))
    ensures Cost(items) >= Cost(RemoveAt(rest, j) + [heavy]) + items[i].weight + rest[j].weight
  {
    SumRemove(items, i, CostTerm());
    SumRemove(rest, j, CostTerm());
    SumAppend(RemoveAt(rest, j), heavy, CostTerm());
    MergeArithmetic(items[i].weight, rest[j].weight, items[i].len, tight);
  }

  lemma MergeArithmetic(v: nat, w: nat, top: nat, tight: nat)
    requires 1 <= tight <= top
    ensures v * top + w * tight >= (v + w) * (tight - 1) + v + w
  {
    assert v * (top - tight) >= 0;
    assert (v + w) * (tight - 1) == v * tight + w * tight - v - w;
  }

  lemma CostNonNegative(items: seq<Item>)
    ensures Cost(items) >= 0
  {
    forall it: Item ensures CostTerm()(it) >= 0 {
      assert it.weight * it.len >= 0;
    }
    SumNonNegative(items, CostTerm());
  }

  /** Every code meeting the Kraft inequality costs at least what the merges cost. */
  lemma {:induction false} MergeCostIsOptimal(items: seq<Item>, bound: nat)
    requires KraftHolds(items, bound)
    ensures MergeCost(Weights(items)) <= Cost(items)
    decreases |items|
  {
    if |items| <= 1 {
      CostNonNegative(items);
    } else {
      var merged, tight := MergeStep(items, bound);
      MergeCostIsOptimal(merged, tight);
    }
  }
}
