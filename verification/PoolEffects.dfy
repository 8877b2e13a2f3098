/** mem_pool.c, call by call: everything a call does to the block it is about, to the statistics and to the lists. */
module PoolEffects {
  import opened Bytes
  import opened PoolSpec

  /** A block made or reused by mp_malloc: how large it is, how often it was handed out, and what it holds. */
  predicate HandedOut(b: MemNode, was: Option<MemNode>, address: int, purpose: string, n: nat) {
    && b.address == address && b.isUsing && b.purpose == purpose && |b.bytes| == b.size >= n
    && b.bytes[..n] == Zeros(n)
    && b.usedCnt == (if was.Some? then was.value.usedCnt + 1 else 1)
    && b.size == (if was.Some? then was.value.size else n)
    && (was.Some? && |was.value.bytes| == b.size ==> b.bytes[n..] == was.value.bytes[n..])
  }

  lemma MallocExactly(p: Pool, purpose: string, n: nat, address: int)
    requires Inv(p) && FreshAddress(p, address)
    ensures n == 0 ==> Malloc(p, purpose, n, address) == (p, None)
    ensures n > 0 ==>
      var (q, r) := Malloc(p, purpose, n, address);
      && r.Some? && At(q, r.value).Some? && HandedOut(At(q, r.value).value, At(p, r.value), r.value, purpose, n)
      && q.usingNodes == p.usingNodes + 1
      && (if At(p, r.value).Some? then q.totalNodes == p.totalNodes && q.totalSize == p.totalSize && q.freeNodes == p.freeNodes - 1
          else r == Some(address) && q.totalNodes == p.totalNodes + 1 && q.totalSize == p.totalSize + n && q.freeNodes == p.freeNodes)
  {
    if n > 0 {
      MallocHandsOut(p, purpose, n, address);
      var i := BestFit(p.nodes, n);
      if i < |p.nodes| {
        FindAt(p, i);
        var q := Malloc(p, purpose, n, address).0;
        AtUpdate(p, q, i, q.nodes[i], p.nodes[i].address);
      }
    }
  }

  /** Where the block at an address stands in the list. */
  function Position(p: Pool, address: int): nat { FindNode(p.nodes, address) }

  /** A new block stands before all others; a reused one stays, as they do. */
  lemma NewestFirst(p: Pool, purpose: string, n: nat, address: int, other: int)
    requires Inv(p) && FreshAddress(p, address) && n > 0
    ensures
      var (q, r) := Malloc(p, purpose, n, address);
      if At(p, r.value).None? then Position(q, r.value) == 0 && (other != r.value ==> Position(q, other) == Position(p, other) + 1)
      else Position(q, other) == Position(p, other)
  {
    var i := BestFit(p.nodes, n);
    var q := Malloc(p, purpose, n, address).0;
    if i < |p.nodes| {
      FindAt(p, i);
      SameAddresses(p.nodes, q.nodes, other);
    } else {
      assert q.nodes[1..] == p.nodes;
    }
  }

  /** So of the smallest free blocks that fit, the one made last is reused. */
  lemma LatestOfEquals(p: Pool, purpose: string, n: nat, address: int, other: int)
    requires Inv(p) && FreshAddress(p, address) && n > 0
    requires At(p, other).Some? && Fits(At(p, other).value, n)
    ensures
      var r := Malloc(p, purpose, n, address).1;
      && r.Some? && At(p, r.value).Some?
      && (At(p, other).value.size == At(p, r.value).value.size ==> Position(p, r.value) <= Position(p, other))
  {
    var i, k := BestFit(p.nodes, n), FindNode(p.nodes, other);
    assert Fits(p.nodes[k], n);
    FindAt(p, i);
  }

  /** mp_free of a block in use: it is no longer in use, and otherwise as it was. */
  lemma FreeExactly(p: Pool, address: int, other: int)
    requires Inv(p) && Live(p, address)
    ensures
      var q := Free(p, address);
      && At(q, address) == Some(At(p, address).value.(isUsing := false))
      && (other != address ==> At(q, other) == At(p, other)) && Position(q, other) == Position(p, other)
      && q.usingNodes == p.usingNodes - 1 && q.freeNodes == p.freeNodes + 1
      && q.totalNodes == p.totalNodes && q.totalSize == p.totalSize
      && forall s :: PurposeCount(q.purposes, s) ==
           PurposeCount(p.purposes, s) - if s == At(p, address).value.purpose then 1 else 0
  {
    var i, q := FindNode(p.nodes, address), Free(p, address);
    AtUpdate(p, q, i, q.nodes[i], address);
    AtUpdate(p, q, i, q.nodes[i], other);
    SameAddresses(p.nodes, q.nodes, other);
    var s0 := p.nodes[i].purpose;
    TallyUpdate(p.nodes, i, q.nodes[i], For(s0));
    forall s ensures PurposeCount(q.purposes, s) == PurposeCount(p.purposes, s) - if s == s0 then 1 else 0 {
      SubPurposeCount(p.purposes, s0, s);
    }
  }

  /** mp_realloc of an unknown block, or to no bytes, does nothing. */
  lemma ReallocRefuses(p: Pool, address: int, n: nat, newAddress: int)
    requires Inv(p) && (At(p, address).None? || n == 0)
    ensures Realloc(p, address, n, newAddress) == (p, None)
  {
  }

  /** mp_realloc of a block in use: one block more for the purpose mp_realloc, one less for that of the old block. */
  lemma ReallocStatistics(p: Pool, address: int, n: nat, newAddress: int)
    requires Inv(p) && FreshAddress(p, newAddress) && n > 0 && Live(p, address)
    ensures
      var (q, r) := Realloc(p, address, n, newAddress);
      && r.Some? && At(q, r.value).Some? && At(q, r.value).value.purpose == "mp_realloc"
      && At(q, address) == Some(At(p, address).value.(isUsing := false))
      && q.usingNodes == p.usingNodes
      && forall s :: PurposeCount(q.purposes, s) ==
           PurposeCount(p.purposes, s) + (if s == "mp_realloc" then 1 else 0)
             - if s == At(p, address).value.purpose then 1 else 0
  {
    var (p1, tmp) := Malloc(p, "mp_realloc", n, newAddress);
    MallocHandsOut(p, "mp_realloc", n, newAddress);
    MallocKeeps(p, "mp_realloc", n, newAddress);
    assert At(p1, address) == At(p, address);
    var size := At(p, address).value.size;
    var k := if n < size then n else size;
    CopyLaws(p1, tmp.value, address, k);
    CopyKeeps(p1, tmp.value, address, k);
    var p2 := CopyBytes(p1, tmp.value, address, k);
    FreeExactly(p2, address, tmp.value);
    forall s ensures PurposeCount(p2.purposes, s) == PurposeCount(p.purposes, s) + if s == "mp_realloc" then 1 else 0 {
      AddPurposeCount(p.purposes, "mp_realloc", s);
    }
  }

  /** A purpose seen for the first time stands before all others; one already listed stays where it is. */
  lemma NewPurposeFirst(ps: seq<PurposeNode>, purpose: string, other: string)
    requires other != purpose
    ensures FindPurpose(AddPurpose(ps, purpose), purpose) == if FindPurpose(ps, purpose) == |ps| then 0 else FindPurpose(ps, purpose)
    ensures FindPurpose(AddPurpose(ps, purpose), other) ==
      FindPurpose(ps, other) + if FindPurpose(ps, purpose) == |ps| then 1 else 0
  {
    var i := FindPurpose(ps, purpose);
    if i == |ps| {
      assert ([PurposeNode(purpose, 1)] + ps)[1..] == ps;
    } else {
      var qs := ps[i := ps[i].(count := ps[i].count + 1)];
      SameNames(ps, qs, purpose);
      SameNames(ps, qs, other);
    }
  }
}
