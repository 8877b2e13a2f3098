/** mem_pool.c as it runs: the node list, the purpose list and the statistics, updated in place. */
module MemPool {
  import opened Bytes
  import opened PoolSpec

  class MemoryPool {
    var nodes: seq<MemNode>
    var purposes: seq<PurposeNode>
    var totalSize: int
    var totalNodes: int
    var usingNodes: int
    var freeNodes: int

    /** The pool as a value. */
    ghost function State(): Pool
      reads this
    {
      Pool(nodes, purposes, totalSize, totalNodes, usingNodes, freeNodes)
    }

    /** mp_create, before anything is reserved */
    constructor ()
      ensures IsEmpty(State()) && Inv(State())
    {
      nodes, purposes := [], [];
      totalSize, totalNodes, usingNodes, freeNodes := 0, 0, 0, 0;
      new;
      EmptyInv(State());
    }

    /** find_purpose */
    method SearchPurpose(purpose: string) returns (i: nat)
      ensures i == FindPurpose(purposes, purpose)
    {
      i := 0;
      while i < |purposes| && purposes[i].purpose != purpose
        invariant i <= |purposes|
        invariant FindPurpose(purposes, purpose) == i + FindPurpose(purposes[i..], purpose)
      {
        assert purposes[i..][1..] == purposes[i + 1..];
        i := i + 1;
      }
    }

    /** add_purpose */
    method CountUp(purpose: string)
      modifies this
      ensures State() == old(State()).(purposes := AddPurpose(old(purposes), purpose))
    {
      var i := SearchPurpose(purpose);
      if i == |purposes| {
        purposes := [PurposeNode(purpose, 1)] + purposes;
      } else {
        purposes := purposes[i := purposes[i].(count := purposes[i].count + 1)];
      }
    }

    /** sub_purpose */
    method CountDown(purpose: string)
      modifies this
      ensures State() == old(State()).(purposes := SubPurpose(old(purposes), purpose))
    {
      var i := SearchPurpose(purpose);
      if i == |purposes| {
        return;
      }
      var count := purposes[i].count - 1;
      if count == 0 {
        purposes := purposes[..i] + purposes[i + 1..];
      } else {
        purposes := purposes[i := purposes[i].(count := count)];
      }
    }

    /** The scan of mp_malloc over the free blocks. */
    method ScanBestFit(n: nat) returns (best: nat)
      ensures best == BestFit(nodes, n)
    {
      best := |nodes|;
      for k := 0 to |nodes|
        invariant best == |nodes| || best < k
        invariant IsBestFit(nodes[..k], n, if best == |nodes| then k else best)
      {
        if !nodes[k].isUsing && nodes[k].size >= n {
          if best == |nodes| {
            best := k;
          } else if nodes[k].size < nodes[best].size {
            best := k;
          }
        }
      }
      assert nodes[..|nodes|] == nodes;
    }

    /** mp_malloc */
    method MpMalloc(purpose: string, n: nat, address: int) returns (r: Option<int>)
      requires Inv(State()) && FreshAddress(State(), address)
      modifies this
      ensures (State(), r) == Malloc(old(State()), purpose, n, address)
      ensures Inv(State())
    {
      MallocKeeps(State(), purpose, n, address);
      if n == 0 {
        return None;
      }
      var i := ScanBestFit(n);
      if i == |nodes| {
        nodes := [MemNode(address, n, true, purpose, 1, Zeros(n))] + nodes;
        totalNodes := totalNodes + 1;
        totalSize := totalSize + n;
        r := Some(address);
      } else {
        freeNodes := freeNodes - 1;
        nodes := nodes[i := Taken(nodes[i], purpose, n)];
        r := Some(nodes[i].address);
      }
      usingNodes := usingNodes + 1;
      CountUp(purpose);
    }

    /** The search for an address in mp_free and mp_realloc. */
    method SearchNode(address: int) returns (i: nat)
      ensures i == FindNode(nodes, address)
    {
      i := 0;
      while i < |nodes| && nodes[i].address != address
        invariant i <= |nodes|
        invariant FindNode(nodes, address) == i + FindNode(nodes[i..], address)
      {
        assert nodes[i..][1..] == nodes[i + 1..];
        i := i + 1;
      }
    }

    /** mp_free */
    method MpFree(address: int)
      requires Inv(State())
      modifies this
      ensures State() == Free(old(State()), address)
      ensures Inv(State())
    {
      FreeKeeps(State(), address);
      var i := SearchNode(address);
      if i == |nodes| || !nodes[i].isUsing {
        return;
      }
      nodes := nodes[i := nodes[i].(isUsing := false)];
      freeNodes := freeNodes + 1;
      usingNodes := usingNodes - 1;
      CountDown(nodes[i].purpose);
    }

    /** mp_realloc */
    method MpRealloc(address: int, n: nat, newAddress: int) returns (r: Option<int>)
      requires Inv(State()) && FreshAddress(State(), newAddress)
      modifies this
      ensures (State(), r) == Realloc(old(State()), address, n, newAddress)
      ensures Inv(State())
    {
      ReallocKeeps(State(), address, n, newAddress);
      var i := SearchNode(address);
      if i == |nodes| {
        return None;
      }
      var size := nodes[i].size;
      r := MpMalloc("mp_realloc", n, newAddress);
      if r.None? {
        return;
      }
      CopyKeeps(State(), r.value, address, if n < size then n else size);
      CopyBlock(r.value, address, if n < size then n else size);
      MpFree(address);
    }

    /** The memcpy of mp_realloc. */
    method CopyBlock(to: int, from: int, k: nat)
      modifies this
      ensures State() == CopyBytes(old(State()), to, from, k)
    {
      var i := SearchNode(to);
      var j := SearchNode(from);
      if i < |nodes| && j < |nodes| && k <= |nodes[i].bytes| && k <= |nodes[j].bytes| {
        nodes := nodes[i := nodes[i].(bytes := nodes[j].bytes[..k] + nodes[i].bytes[k..])];
      }
    }
  }
}
