/** The best-fit memory pool of mem_pool.c: a transition system over its lists and counters, and its laws. */
module PoolSpec {
  import opened Bytes

  /** A mem_node; `bytes` is the memory at its address. */
  datatype MemNode = MemNode(address: int, size: nat, isUsing: bool, purpose: string, usedCnt: nat, bytes: seq<Byte>)

  datatype PurposeNode = PurposeNode(purpose: string, count: int)

  /** The two lists, newest entry first, and the four statistics. */
  datatype Pool = Pool(nodes: seq<MemNode>, purposes: seq<PurposeNode>,
                       totalSize: int, totalNodes: int, usingNodes: int, freeNodes: int)

  // ---- Purposes --------------------------------------------------------------------------

  /** find_purpose: the index of the first entry with this name, or the length of the list. */
  function FindPurpose(ps: seq<PurposeNode>, purpose: string): (i: nat)
    ensures i <= |ps|
    ensures i < |ps| ==> ps[i].purpose == purpose
    ensures forall k :: 0 <= k < i ==> ps[k].purpose != purpose
  {
    if ps == [] || ps[0].purpose == purpose then 0 else 1 + FindPurpose(ps[1..], purpose)
  }

  function AddPurpose(ps: seq<PurposeNode>, purpose: string): seq<PurposeNode> {
    var i := FindPurpose(ps, purpose);
    if i == |ps| then [PurposeNode(purpose, 1)] + ps
    else ps[i := ps[i].(count := ps[i].count + 1)]
  }

  function SubPurpose(ps: seq<PurposeNode>, purpose: string): seq<PurposeNode> {
    var i := FindPurpose(ps, purpose);
    if i == |ps| then ps
    else if ps[i].count == 1 then ps[..i] + ps[i + 1..]
    else ps[i := ps[i].(count := ps[i].count - 1)]
  }

  // ---- Nodes -----------------------------------------------------------------------------

  predicate Fits(node: MemNode, n: nat) { !node.isUsing && node.size >= n }

  /** The index a scan with a strict size comparison settles on; the length when nothing fits. */
  ghost predicate IsBestFit(nodes: seq<MemNode>, n: nat, i: nat) {
    if i < |nodes| then
      && Fits(nodes[i], n)
      && (forall k :: 0 <= k < |nodes| && Fits(nodes[k], n) ==> nodes[i].size <= nodes[k].size)
      && (forall k :: 0 <= k < i && Fits(nodes[k], n) ==> nodes[i].size < nodes[k].size)
    else i == |nodes| && forall k :: 0 <= k < |nodes| ==> !Fits(nodes[k], n)
  }

  lemma {:induction false} BestFitExists(nodes: seq<MemNode>, n: nat)
    ensures exists i: nat :: IsBestFit(nodes, n, i)
  {
    if nodes == [] {
      assert IsBestFit(nodes, n, 0);
    } else {
      var k := |nodes| - 1;
      BestFitExists(nodes[..k], n);
      var p: nat :| IsBestFit(nodes[..k], n, p);
      if p < k && !(Fits(nodes[k], n) && nodes[k].size < nodes[p].size) {
        assert IsBestFit(nodes, n, p);
      } else {
        assert IsBestFit(nodes, n, if Fits(nodes[k], n) then k else k + 1);
      }
    }
  }

  ghost function BestFit(nodes: seq<MemNode>, n: nat): (i: nat)
    ensures IsBestFit(nodes, n, i) && i <= |nodes|
  {
    BestFitExists(nodes, n);
    var i: nat :| IsBestFit(nodes, n, i);
    i
  }

  /** The index of the first node at an address, or the length of the list. */
  function FindNode(nodes: seq<MemNode>, address: int): (i: nat)
    ensures i <= |nodes|
    ensures i < |nodes| ==> nodes[i].address == address
    ensures forall k :: 0 <= k < i ==> nodes[k].address != address
  {
    if nodes == [] || nodes[0].address == address then 0 else 1 + FindNode(nodes[1..], address)
  }

  // ---- Operations ------------------------------------------------------------------------

  /** The chosen node as mp_malloc leaves it: marked, counted, and its first n bytes zeroed. */
  function Taken(node: MemNode, purpose: string, n: nat): MemNode
    requires n <= |node.bytes|
  {
    node.(isUsing := true, usedCnt := node.usedCnt + 1, purpose := purpose, bytes := Zeros(n) + node.bytes[n..])
  }

  /** mp_malloc; `address` is where the C library puts a new block, should one be needed. */
  ghost function Malloc(p: Pool, purpose: string, n: nat, address: int): (Pool, Option<int>)
    requires Inv(p)
  {
    if n == 0 then (p, None) else
    var i := BestFit(p.nodes, n);
    if i < |p.nodes| then
      (p.(nodes := p.nodes[i := Taken(p.nodes[i], purpose, n)],
          purposes := AddPurpose(p.purposes, purpose),
          freeNodes := p.freeNodes - 1, usingNodes := p.usingNodes + 1),
       Some(p.nodes[i].address))
    else
      (p.(nodes := [MemNode(address, n, true, purpose, 1, Zeros(n))] + p.nodes,
          purposes := AddPurpose(p.purposes, purpose),
          totalNodes := p.totalNodes + 1, totalSize := p.totalSize + n, usingNodes := p.usingNodes + 1),
       Some(address))
  }

  /** mp_free: nothing for an unknown address or a block already free. */
  function Free(p: Pool, address: int): Pool {
    var i := FindNode(p.nodes, address);
    if i == |p.nodes| || !p.nodes[i].isUsing then p else
    p.(nodes := p.nodes[i := p.nodes[i].(isUsing := false)],
       purposes := SubPurpose(p.purposes, p.nodes[i].purpose),
       freeNodes := p.freeNodes + 1, usingNodes := p.usingNodes - 1)
  }

  /** The first k bytes of the block at one address copied to another. */
  function CopyBytes(p: Pool, to: int, from: int, k: nat): Pool {
    var i, j := FindNode(p.nodes, to), FindNode(p.nodes, from);
    if i < |p.nodes| && j < |p.nodes| && k <= |p.nodes[i].bytes| && k <= |p.nodes[j].bytes| then
      p.(nodes := p.nodes[i := p.nodes[i].(bytes := p.nodes[j].bytes[..k] + p.nodes[i].bytes[k..])])
    else p
  }

  /** mp_realloc */
  ghost function Realloc(p: Pool, address: int, n: nat, newAddress: int): (Pool, Option<int>)
    requires Inv(p)
  {
    var i := FindNode(p.nodes, address);
    if i == |p.nodes| then (p, None) else
    var (p1, tmp) := Malloc(p, "mp_realloc", n, newAddress);
    if tmp.None? then (p1, None) else
    var size := p.nodes[i].size;
    (Free(CopyBytes(p1, tmp.value, address, if n < size then n else size), address), tmp)
  }

  // ---- The invariant -----------------------------------------------------------------------

  datatype Measure = Using | Size | For(purpose: string)

  function Weight(node: MemNode, m: Measure): nat {
    match m
    case Using => if node.isUsing then 1 else 0
    case Size => node.size
    case For(s) => if node.isUsing && node.purpose == s then 1 else 0
  }

  /** The number of nodes in use, the sum of sizes, or the number of nodes in use for a purpose. */
  function Tally(nodes: seq<MemNode>, m: Measure): nat {
    if nodes == [] then 0 else Weight(nodes[0], m) + Tally(nodes[1..], m)
  }

  /** The count kept for a purpose; zero when it has no entry. */
  function PurposeCount(ps: seq<PurposeNode>, s: string): int {
    var i := FindPurpose(ps, s);
    if i < |ps| then ps[i].count else 0
  }

  ghost predicate DistinctAddresses(nodes: seq<MemNode>) {
    forall i, j :: 0 <= i < j < |nodes| ==> nodes[i].address != nodes[j].address
  }

  ghost predicate PurposesOk(ps: seq<PurposeNode>) {
    && (forall i :: 0 <= i < |ps| ==> ps[i].count > 0)
    && (forall i, j :: 0 <= i < j < |ps| ==> ps[i].purpose != ps[j].purpose)
  }

  ghost predicate Inv(p: Pool) {
    && DistinctAddresses(p.nodes)
    && (forall i :: 0 <= i < |p.nodes| ==> |p.nodes[i].bytes| == p.nodes[i].size)
    && p.totalNodes == |p.nodes|
    && p.usingNodes == Tally(p.nodes, Using)
    && p.usingNodes + p.freeNodes == p.totalNodes
    && p.totalSize == Tally(p.nodes, Size)
    && PurposesOk(p.purposes)
    && forall s :: PurposeCount(p.purposes, s) == Tally(p.nodes, For(s))
  }

  lemma {:induction false} TallyUpdate(nodes: seq<MemNode>, i: nat, x: MemNode, m: Measure)
    requires i < |nodes|
    ensures Tally(nodes[i := x], m) == Tally(nodes, m) - Weight(nodes[i], m) + Weight(x, m)
    ensures Tally(nodes, m) >= Weight(nodes[i], m)
  {
    if i > 0 {
      TallyUpdate(nodes[1..], i - 1, x, m);
      assert nodes[i := x][1..] == nodes[1..][i - 1 := x];
    } else {
      assert nodes[0 := x][1..] == nodes[1..];
    }
  }

  lemma {:induction false} TallyAtMost(nodes: seq<MemNode>)
    ensures Tally(nodes, Using) <= |nodes|
    ensures Tally(nodes, Using) == |nodes| <==> forall i :: 0 <= i < |nodes| ==> nodes[i].isUsing
  {
    if nodes != [] {
      TallyAtMost(nodes[1..]);
      if Tally(nodes, Using) == |nodes| {
        forall i | 0 <= i < |nodes| ensures nodes[i].isUsing {
          assert i > 0 ==> nodes[i] == nodes[1..][i - 1];
        }
      } else if Tally(nodes[1..], Using) < |nodes[1..]| {
        var k :| 0 <= k < |nodes[1..]| && !nodes[1..][k].isUsing;
        assert !nodes[k + 1].isUsing;
      } else {
        assert !nodes[0].isUsing;
      }
    }
  }

  lemma {:induction false} SameNames(ps: seq<PurposeNode>, qs: seq<PurposeNode>, t: string)
    requires |ps| == |qs| && forall i :: 0 <= i < |ps| ==> ps[i].purpose == qs[i].purpose
    ensures FindPurpose(ps, t) == FindPurpose(qs, t)
  {
    if ps != [] && ps[0].purpose != t {
      SameNames(ps[1..], qs[1..], t);
    }
  }

  lemma AddPurposeCount(ps: seq<PurposeNode>, s: string, t: string)
    ensures PurposeCount(AddPurpose(ps, s), t) == PurposeCount(ps, t) + if t == s then 1 else 0
  {
    var i := FindPurpose(ps, s);
    if i == |ps| {
      assert ([PurposeNode(s, 1)] + ps)[1..] == ps;
    } else {
      SameNames(ps, ps[i := ps[i].(count := ps[i].count + 1)], t);
    }
  }

  lemma AddPurposeOk(ps: seq<PurposeNode>, s: string)
    requires PurposesOk(ps)
    ensures PurposesOk(AddPurpose(ps, s))
  {
  }

  /** Cutting out an entry whose name occurs once: every other name is found as before. */
  lemma {:induction false} CutFind(ps: seq<PurposeNode>, i: nat, t: string)
    requires i < |ps| && ps[i].purpose != t
    ensures FindPurpose(ps[..i] + ps[i + 1..], t) == if FindPurpose(ps, t) < i then FindPurpose(ps, t) else FindPurpose(ps, t) - 1
    ensures FindPurpose(ps, t) != i
  {
    var cut := ps[..i] + ps[i + 1..];
    if i == 0 {
      assert cut == ps[1..];
    } else {
      assert cut[0] == ps[0] && cut[1..] == ps[1..][..i - 1] + ps[1..][i..];
      if ps[0].purpose != t {
        CutFind(ps[1..], i - 1, t);
      }
    }
  }

  lemma CutKeeps(ps: seq<PurposeNode>, i: nat, t: string)
    requires i < |ps| && ps[i].purpose != t
    ensures PurposeCount(ps[..i] + ps[i + 1..], t) == PurposeCount(ps, t)
  {
    CutFind(ps, i, t);
    var cut, j := ps[..i] + ps[i + 1..], FindPurpose(ps, t);
    assert j < |ps| ==> cut[if j < i then j else j - 1] == ps[j];
  }

  lemma SubPurposeCount(ps: seq<PurposeNode>, s: string, t: string)
    requires PurposesOk(ps) && PurposeCount(ps, s) > 0
    ensures PurposeCount(SubPurpose(ps, s), t) == PurposeCount(ps, t) - if t == s then 1 else 0
  {
    var i := FindPurpose(ps, s);
    if ps[i].count != 1 {
      SameNames(ps, ps[i := ps[i].(count := ps[i].count - 1)], t);
    } else if t != s {
      CutKeeps(ps, i, t);
    } else {
      CutOut(ps, i);
    }
  }

  /** With the entry whose name occurs once, the name is gone. */
  lemma CutOut(ps: seq<PurposeNode>, i: nat)
    requires PurposesOk(ps) && i < |ps|
    ensures PurposeCount(ps[..i] + ps[i + 1..], ps[i].purpose) == 0
  {
    var cut := ps[..i] + ps[i + 1..];
    assert forall k :: 0 <= k < |cut| ==> cut[k] == ps[if k < i then k else k + 1];
  }

  lemma SubPurposeOk(ps: seq<PurposeNode>, s: string)
    requires PurposesOk(ps)
    ensures PurposesOk(SubPurpose(ps, s))
  {
    var i := FindPurpose(ps, s);
    if i < |ps| && ps[i].count == 1 {
      var cut := ps[..i] + ps[i + 1..];
      assert forall k :: 0 <= k < |cut| ==> cut[k] == ps[if k < i then k else k + 1];
    }
  }

  // ---- Every operation keeps the invariant ----------------------------------------------------

  /** A block the C library hands out is none of those the pool already holds. */
  predicate FreshAddress(p: Pool, address: int) {
    forall i :: 0 <= i < |p.nodes| ==> p.nodes[i].address != address
  }

  lemma MallocPurposes(p: Pool, purpose: string, nodes: seq<MemNode>)
    requires Inv(p) && forall s :: Tally(nodes, For(s)) == Tally(p.nodes, For(s)) + if s == purpose then 1 else 0
    ensures PurposesOk(AddPurpose(p.purposes, purpose))
    ensures forall s :: PurposeCount(AddPurpose(p.purposes, purpose), s) == Tally(nodes, For(s))
  {
    AddPurposeOk(p.purposes, purpose);
    forall s ensures PurposeCount(AddPurpose(p.purposes, purpose), s) == Tally(nodes, For(s)) {
      AddPurposeCount(p.purposes, purpose, s);
    }
  }

  lemma MallocKeeps(p: Pool, purpose: string, n: nat, address: int)
    requires Inv(p) && FreshAddress(p, address)
    ensures Inv(Malloc(p, purpose, n, address).0)
  {
    if n > 0 {
      var i := BestFit(p.nodes, n);
      var q := Malloc(p, purpose, n, address).0;
      if i < |p.nodes| {
        forall m ensures Tally(q.nodes, m) == Tally(p.nodes, m) - Weight(p.nodes[i], m) + Weight(q.nodes[i], m) {
          TallyUpdate(p.nodes, i, q.nodes[i], m);
        }
      } else {
        assert q.nodes[1..] == p.nodes;
      }
      MallocPurposes(p, purpose, q.nodes);
    }
  }

  lemma FreeKeeps(p: Pool, address: int)
    requires Inv(p)
    ensures Inv(Free(p, address))
  {
    var i := FindNode(p.nodes, address);
    if i < |p.nodes| && p.nodes[i].isUsing {
      var q := Free(p, address);
      var s0 := p.nodes[i].purpose;
      forall m ensures Tally(q.nodes, m) == Tally(p.nodes, m) - Weight(p.nodes[i], m) + Weight(q.nodes[i], m) {
        TallyUpdate(p.nodes, i, q.nodes[i], m);
      }
      TallyUpdate(p.nodes, i, q.nodes[i], For(s0));
      assert PurposeCount(p.purposes, s0) > 0;
      SubPurposeOk(p.purposes, s0);
      forall s ensures PurposeCount(q.purposes, s) == Tally(q.nodes, For(s)) {
        SubPurposeCount(p.purposes, s0, s);
      }
    }
  }

  lemma CopyKeeps(p: Pool, to: int, from: int, k: nat)
    requires Inv(p)
    ensures Inv(CopyBytes(p, to, from, k))
  {
    var q := CopyBytes(p, to, from, k);
    var i := FindNode(p.nodes, to);
    if q != p {
      forall m ensures Tally(q.nodes, m) == Tally(p.nodes, m) {
        TallyUpdate(p.nodes, i, q.nodes[i], m);
      }
    }
  }

  lemma ReallocKeeps(p: Pool, address: int, n: nat, newAddress: int)
    requires Inv(p) && FreshAddress(p, newAddress)
    ensures Inv(Realloc(p, address, n, newAddress).0)
  {
    var i := FindNode(p.nodes, address);
    if i < |p.nodes| {
      var (p1, tmp) := Malloc(p, "mp_realloc", n, newAddress);
      MallocKeeps(p, "mp_realloc", n, newAddress);
      if tmp.Some? {
        var size := p.nodes[i].size;
        var k := if n < size then n else size;
        CopyKeeps(p1, tmp.value, address, k);
        FreeKeeps(CopyBytes(p1, tmp.value, address, k), address);
      }
    }
  }

  // ---- What the operations mean for the caller --------------------------------------------------

  /** The node at an address. */
  function At(p: Pool, address: int): Option<MemNode> {
    var i := FindNode(p.nodes, address);
    if i < |p.nodes| then Some(p.nodes[i]) else None
  }

  /** The block at this address has been handed out and not freed. */
  predicate Live(p: Pool, address: int) { At(p, address).Some? && At(p, address).value.isUsing }

  lemma {:induction false} SameAddresses(a: seq<MemNode>, b: seq<MemNode>, address: int)
    requires |a| == |b| && forall i :: 0 <= i < |a| ==> a[i].address == b[i].address
    ensures FindNode(a, address) == FindNode(b, address)
  {
    if a != [] && a[0].address != address {
      SameAddresses(a[1..], b[1..], address);
    }
  }

  lemma FindAt(p: Pool, i: nat)
    requires DistinctAddresses(p.nodes) && i < |p.nodes|
    ensures FindNode(p.nodes, p.nodes[i].address) == i
  {
  }

  /** Replacing one node changes what is at its address and nowhere else. */
  lemma AtUpdate(p: Pool, q: Pool, i: nat, x: MemNode, address: int)
    requires DistinctAddresses(p.nodes) && i < |p.nodes| && x.address == p.nodes[i].address
    requires q.nodes == p.nodes[i := x]
    ensures At(q, address) == if address == x.address then Some(x) else At(p, address)
  {
    SameAddresses(p.nodes, q.nodes, address);
    FindAt(p, i);
  }

  /**
   * mp_malloc hands out a block that was not in use, zeroed as far as it was asked for; it is in
   * use afterwards, and nothing else has changed.
   */
  lemma MallocHandsOut(p: Pool, purpose: string, n: nat, address: int)
    requires Inv(p) && FreshAddress(p, address) && n > 0
    ensures var (q, r) := Malloc(p, purpose, n, address);
            && r.Some? && !Live(p, r.value) && Live(q, r.value)
            && At(q, r.value).value.purpose == purpose
            && At(q, r.value).value.size >= n && At(q, r.value).value.bytes[..n] == Zeros(n)
            && forall a :: a != r.value ==> At(q, a) == At(p, a)
  {
    var i := BestFit(p.nodes, n);
    var (q, r) := Malloc(p, purpose, n, address);
    if i < |p.nodes| {
      FindAt(p, i);
      forall a ensures At(q, a) == if a == r.value then Some(q.nodes[i]) else At(p, a) {
        AtUpdate(p, q, i, q.nodes[i], a);
      }
    } else {
      assert q.nodes[1..] == p.nodes;
    }
  }

  /** Best fit: the smallest free block that fits is reused; a new one is made exactly when none fits. */
  lemma MallocBestFit(p: Pool, purpose: string, n: nat, address: int)
    requires Inv(p) && FreshAddress(p, address) && n > 0
    ensures var (q, r) := Malloc(p, purpose, n, address);
            if exists k :: 0 <= k < |p.nodes| && Fits(p.nodes[k], n) then
              && |q.nodes| == |p.nodes| && At(p, r.value).Some? && Fits(At(p, r.value).value, n)
              && forall k :: 0 <= k < |p.nodes| && Fits(p.nodes[k], n) ==> At(p, r.value).value.size <= p.nodes[k].size
            else
              |q.nodes| == |p.nodes| + 1 && r == Some(address)
  {
    var i := BestFit(p.nodes, n);
    if i < |p.nodes| {
      FindAt(p, i);
    }
  }

  /** Freeing a live block changes only that block, and freeing it again changes nothing. */
  lemma FreeOnce(p: Pool, address: int)
    requires Inv(p)
    ensures !Live(p, address) ==> Free(p, address) == p
    ensures !Live(Free(p, address), address) && Free(Free(p, address), address) == Free(p, address)
    ensures forall a :: a != address ==> At(Free(p, address), a) == At(p, a)
  {
    var q := Free(p, address);
    if Live(p, address) {
      var i := FindNode(p.nodes, address);
      forall a ensures At(q, a) == if a == address then Some(q.nodes[i]) else At(p, a) {
        AtUpdate(p, q, i, q.nodes[i], a);
      }
    }
  }

  /**
   * A malloc that is freed again leaves every other block, the number of blocks in use and every
   * purpose count as they were; a node made for it stays behind as a free one.
   */
  lemma FreeUndoesMalloc(p: Pool, purpose: string, n: nat, address: int)
    requires Inv(p) && FreshAddress(p, address) && n > 0
    ensures var (q, r) := Malloc(p, purpose, n, address);
            var u := Free(q, r.value);
            && u.usingNodes == p.usingNodes
            && (forall s :: PurposeCount(u.purposes, s) == PurposeCount(p.purposes, s))
            && (forall a :: Live(u, a) == Live(p, a))
            && (forall a :: a != r.value ==> At(u, a) == At(p, a))
            && var made := if BestFit(p.nodes, n) == |p.nodes| then 1 else 0;
               && u.totalNodes == p.totalNodes + made && u.freeNodes == p.freeNodes + made
               && u.totalSize == p.totalSize + made * n
  {
    var (q, r) := Malloc(p, purpose, n, address);
    var u := Free(q, r.value);
    MallocHandsOut(p, purpose, n, address);
    MallocKeeps(p, purpose, n, address);
    FreeOnce(q, r.value);
    forall s ensures PurposeCount(u.purposes, s) == PurposeCount(p.purposes, s) {
      AddPurposeCount(p.purposes, purpose, s);
      AddPurposeCount(p.purposes, purpose, purpose);
      SubPurposeCount(q.purposes, purpose, s);
    }
  }

  lemma CopyLaws(p: Pool, to: int, from: int, k: nat)
    requires Inv(p) && At(p, to).Some? && At(p, from).Some?
    requires k <= At(p, to).value.size && k <= At(p, from).value.size
    ensures var q := CopyBytes(p, to, from, k);
            && At(q, to) == Some(At(p, to).value.(bytes := At(p, from).value.bytes[..k] + At(p, to).value.bytes[k..]))
            && forall a :: a != to ==> At(q, a) == At(p, a)
  {
    var q := CopyBytes(p, to, from, k);
    var i := FindNode(p.nodes, to);
    forall a ensures At(q, a) == if a == to then Some(q.nodes[i]) else At(p, a) {
      AtUpdate(p, q, i, q.nodes[i], a);
    }
  }

  function Head(b: seq<Byte>, k: nat): seq<Byte> { if k <= |b| then b[..k] else b }

  /**
   * mp_realloc of a live block: a block in use comes back that starts with the first
   * min(n, size) bytes of the old one, the old one is free, and no other live block is touched.
   */
  lemma ReallocMoves(p: Pool, address: int, n: nat, newAddress: int)
    requires Inv(p) && FreshAddress(p, newAddress) && n > 0 && Live(p, address)
    ensures var (q, r) := Realloc(p, address, n, newAddress);
            var size := At(p, address).value.size; var k := if n < size then n else size;
            && r.Some? && r.value != address && Live(q, r.value) && !Live(q, address)
            && At(q, r.value).value.size >= n
            && Head(At(q, r.value).value.bytes, k) == Head(At(p, address).value.bytes, k)
            && forall a :: a != r.value && a != address ==> At(q, a) == At(p, a)
  {
    var (p1, tmp) := Malloc(p, "mp_realloc", n, newAddress);
    MallocHandsOut(p, "mp_realloc", n, newAddress);
    MallocKeeps(p, "mp_realloc", n, newAddress);
    assert At(p1, address) == At(p, address);
    var size := At(p, address).value.size;
    var k := if n < size then n else size;
    CopyLaws(p1, tmp.value, address, k);
    CopyKeeps(p1, tmp.value, address, k);
    FreeOnce(CopyBytes(p1, tmp.value, address, k), address);
  }

  /**
   * For any block the pool knows, the pointer mp_realloc returns is in use if and only if the
   * block was live or the best fit for the new size is some other block. When a freed block is
   * passed and is itself the best fit, mp_realloc takes it, frees it again and still returns it.
   */
  lemma ReallocUsable(p: Pool, address: int, n: nat, newAddress: int)
    requires Inv(p) && FreshAddress(p, newAddress) && n > 0 && At(p, address).Some?
    ensures var (q, r) := Realloc(p, address, n, newAddress);
            r.Some? && (Live(q, r.value) <==> Live(p, address) || BestFit(p.nodes, n) != FindNode(p.nodes, address))
  {
    var (p1, tmp) := Malloc(p, "mp_realloc", n, newAddress);
    MallocHandsOut(p, "mp_realloc", n, newAddress);
    MallocKeeps(p, "mp_realloc", n, newAddress);
    var size := At(p, address).value.size;
    var k := if n < size then n else size;
    var i := BestFit(p.nodes, n);
    if i < |p.nodes| {
      FindAt(p, i);
    }
    assert tmp.value == address <==> i == FindNode(p.nodes, address);
    SizeKept(p, "mp_realloc", n, newAddress, address);
    CopyLaws(p1, tmp.value, address, k);
    CopyKeeps(p1, tmp.value, address, k);
    FreeOnce(CopyBytes(p1, tmp.value, address, k), address);
  }

  lemma SizeKept(p: Pool, purpose: string, n: nat, newAddress: int, address: int)
    requires Inv(p) && FreshAddress(p, newAddress) && n > 0 && At(p, address).Some?
    ensures var q := Malloc(p, purpose, n, newAddress).0;
            At(q, address).Some? && At(q, address).value.size == At(p, address).value.size
  {
    var i := BestFit(p.nodes, n);
    var q := Malloc(p, purpose, n, newAddress).0;
    if i < |p.nodes| {
      AtUpdate(p, q, i, q.nodes[i], address);
    } else {
      assert q.nodes[1..] == p.nodes;
    }
  }

  /** One block of eight bytes at address 100, handed out once and freed. */
  const FREED_BLOCK: MemNode := MemNode(100, 8, false, "a", 1, Zeros(8))

  /** A concrete pool where reallocating a freed block returns a block that is not in use. */
  lemma ReallocOfFreed()
    ensures var p := Pool([FREED_BLOCK], [], 8, 1, 0, 1);
            Inv(p) && var (q, r) := Realloc(p, 100, 8, 200); r == Some(100) && !Live(q, 100)
  {
    var p := Pool([FREED_BLOCK], [], 8, 1, 0, 1);
    assert p.nodes[1..] == [];
    forall m ensures Tally(p.nodes, m) == Weight(p.nodes[0], m) {
      assert Tally(p.nodes, m) == Weight(p.nodes[0], m) + Tally(p.nodes[1..], m);
    }
    assert Inv(p);
    assert Fits(p.nodes[0], 8);
    ReallocUsable(p, 100, 8, 200);
  }

  // ---- Runs --------------------------------------------------------------------------------------

  /** What a client does: the three calls, or a store into a block it was given. */
  datatype Op =
    | DoMalloc(purpose: string, n: nat, address: int)
    | DoFree(address: int)
    | DoRealloc(address: int, n: nat, newAddress: int)
    | DoStore(address: int, offset: nat, value: Byte)

  function Store(p: Pool, address: int, offset: nat, value: Byte): Pool {
    var i := FindNode(p.nodes, address);
    if i < |p.nodes| && p.nodes[i].isUsing && offset < |p.nodes[i].bytes| then
      p.(nodes := p.nodes[i := p.nodes[i].(bytes := p.nodes[i].bytes[offset := value])])
    else p
  }

  /** The C library never hands out memory that is still the pool's. */
  predicate Enabled(p: Pool, op: Op) {
    match op
    case DoMalloc(_, _, a) => FreshAddress(p, a)
    case DoRealloc(_, _, a) => FreshAddress(p, a)
    case _ => true
  }

  ghost function Step(p: Pool, op: Op): Pool
    requires Inv(p)
  {
    match op
    case DoMalloc(purpose, n, a) => Malloc(p, purpose, n, a).0
    case DoFree(a) => Free(p, a)
    case DoRealloc(a, n, b) => Realloc(p, a, n, b).0
    case DoStore(a, k, v) => Store(p, a, k, v)
  }

  lemma StoreKeeps(p: Pool, address: int, offset: nat, value: Byte)
    requires Inv(p)
    ensures Inv(Store(p, address, offset, value))
  {
    var q := Store(p, address, offset, value);
    var i := FindNode(p.nodes, address);
    if q != p {
      forall m ensures Tally(q.nodes, m) == Tally(p.nodes, m) {
        TallyUpdate(p.nodes, i, q.nodes[i], m);
      }
    }
  }

  lemma StepKeeps(p: Pool, op: Op)
    requires Inv(p) && Enabled(p, op)
    ensures Inv(Step(p, op))
  {
    match op
    case DoMalloc(purpose, n, a) => MallocKeeps(p, purpose, n, a);
    case DoFree(a) => FreeKeeps(p, a);
    case DoRealloc(a, n, b) => ReallocKeeps(p, a, n, b);
    case DoStore(a, k, v) => StoreKeeps(p, a, k, v);
  }

  /** The operations can be done in this order: every new address is fresh when it is needed. */
  ghost predicate CanRun(p: Pool, ops: seq<Op>)
    requires Inv(p)
    decreases |ops|
  {
    ops != [] ==>
      Enabled(p, ops[0]) && (StepKeeps(p, ops[0]); CanRun(Step(p, ops[0]), ops[1..]))
  }

  /** The invariant holds after every run: it is this function's postcondition. */
  ghost function After(p: Pool, ops: seq<Op>): (q: Pool)
    requires Inv(p) && CanRun(p, ops)
    ensures Inv(q)
    decreases |ops|
  {
    if ops == [] then p else
    StepKeeps(p, ops[0]);
    After(Step(p, ops[0]), ops[1..])
  }

  /** The largest number of simultaneously live blocks in the course of a run. */
  ghost function Peak(p: Pool, ops: seq<Op>): int
    requires Inv(p) && CanRun(p, ops)
    decreases |ops|
  {
    if ops == [] then p.usingNodes else
    StepKeeps(p, ops[0]);
    Max(p.usingNodes, Peak(Step(p, ops[0]), ops[1..]))
  }

  function Max(a: int, b: int): int { if a >= b then a else b }

  /** Every request asks for the same size; nothing is reallocated. */
  predicate EqualRequests(ops: seq<Op>, n: nat) {
    forall i :: 0 <= i < |ops| ==> EqualRequest(ops[i], n)
  }

  predicate EqualRequest(op: Op, n: nat) { (op.DoMalloc? ==> op.n == n) && !op.DoRealloc? }

  ghost predicate AllOfSize(p: Pool, n: nat) {
    forall i :: 0 <= i < |p.nodes| ==> p.nodes[i].size == n
  }

  /** One operation with equal sizes: the pool grows only when every block it has is live. */
  lemma GrowthStep(p: Pool, op: Op, n: nat)
    requires Inv(p) && Enabled(p, op) && AllOfSize(p, n) && n > 0
    requires EqualRequest(op, n)
    ensures var q := Step(p, op);
            && AllOfSize(q, n) && q.usingNodes <= q.totalNodes
            && (q.totalNodes == p.totalNodes || q.totalNodes == q.usingNodes == p.totalNodes + 1)
  {
    StepKeeps(p, op);
    TallyAtMost(Step(p, op).nodes);
    TallyAtMost(p.nodes);
  }

  lemma {:induction false} GrowthFrom(p: Pool, ops: seq<Op>, n: nat)
    requires Inv(p) && CanRun(p, ops) && AllOfSize(p, n) && EqualRequests(ops, n) && n > 0
    ensures After(p, ops).totalNodes == Max(p.totalNodes, Peak(p, ops))
    decreases |ops|
  {
    TallyAtMost(p.nodes);
    if ops != [] {
      StepKeeps(p, ops[0]);
      GrowthStep(p, ops[0], n);
      GrowthFrom(Step(p, ops[0]), ops[1..], n);
      PeakAtLeast(Step(p, ops[0]), ops[1..]);
    }
  }

  lemma PeakAtLeast(p: Pool, ops: seq<Op>)
    requires Inv(p) && CanRun(p, ops)
    ensures Peak(p, ops) >= p.usingNodes
  {
  }

  /** A pool as mp_create leaves it, before the first request. */
  predicate IsEmpty(p: Pool) {
    p.nodes == [] && p.purposes == [] && p.totalSize == p.totalNodes == p.usingNodes == p.freeNodes == 0
  }

  lemma EmptyInv(p: Pool)
    requires IsEmpty(p)
    ensures Inv(p)
  {
  }

  /**
   * Growth: after any run of equal-sized requests, the number of blocks the pool owns is the
   * peak number of simultaneously live blocks.
   */
  lemma GrowthIsPeak(p: Pool, ops: seq<Op>, n: nat)
    requires IsEmpty(p) && (EmptyInv(p); CanRun(p, ops)) && EqualRequests(ops, n) && n > 0
    ensures |After(p, ops).nodes| == Peak(p, ops)
  {
    GrowthFrom(p, ops, n);
    PeakAtLeast(p, ops);
  }
}
