/**
 * rwlock.h: any number of threads taking and releasing one lock word, interleaved step by step.
 * A load, a compare-and-swap, a decrement and a store of cnt are one step each.
 */
module RwLock {
  import opened Bytes

  /** Where a thread stands. `try` marks the trylock variants, which give up instead of looping. */
  datatype Thread =
    | Outside
    | ReadLoad(try: bool)
    | ReadSwap(x: int, try: bool)
    | Reading
    | WriteLoad(try: bool)
    | WriteSwap(x: int, try: bool)
    | Writing

  datatype System = System(cnt: int, threads: seq<Thread>)

  /** What a thread can do next; `spurious` lets the weak compare-and-swap fail although cnt matches. */
  datatype Action =
    | Begin(i: nat, write: bool, try: bool)
    | Go(i: nat, spurious: bool)
    | ReadUnlock(i: nat)
    | WriteUnlock(i: nat)

  /** A release is only a function call, so the lock itself never refuses one, of whatever kind. */
  predicate Enabled(s: System, a: Action) {
    && a.i < |s.threads|
    && match a
       case Begin(i, _, _) => s.threads[i].Outside?
       case Go(i, _) => !Settled(s.threads[i])
       case ReadUnlock(i) => Settled(s.threads[i])
       case WriteUnlock(i) => Settled(s.threads[i])
  }

  /** Not in the middle of a lock or trylock. */
  predicate Settled(t: Thread) { t.Outside? || t.Reading? || t.Writing? }

  /** The caller releases what it holds. */
  predicate Holds(s: System, a: Action)
    requires Enabled(s, a)
  {
    (a.ReadUnlock? ==> s.threads[a.i].Reading?) && (a.WriteUnlock? ==> s.threads[a.i].Writing?)
  }

  /** One iteration step of a lock or trylock: where the thread goes, and the new cnt. */
  function Attempt(t: Thread, cnt: int, spurious: bool): (Thread, int) {
    match t
    case ReadLoad(try) =>
      if cnt < 0 then (if try then Outside else t, cnt) else (ReadSwap(cnt, try), cnt)
    case ReadSwap(x, try) =>
      if cnt == x && !spurious then (Reading, ToInt(x + 1)) else (ReadLoad(try), cnt)
    case WriteLoad(try) =>
      if cnt != 0 then (if try then Outside else t, cnt) else (WriteSwap(cnt, try), cnt)
    case WriteSwap(x, try) =>
      if cnt == x && !spurious then (Writing, -1)
      else (if try then Outside else WriteLoad(try), cnt)
    case _ => (t, cnt)
  }

  /** A thread that releases what it does not hold goes on holding what it held. */
  function Released(s: System, a: Action): Thread
    requires Enabled(s, a)
  {
    if Holds(s, a) then Outside else s.threads[a.i]
  }

  function Apply(s: System, a: Action): System
    requires Enabled(s, a)
  {
    match a
    case Begin(i, write, try) =>
      s.(threads := s.threads[i := if write then WriteLoad(try) else ReadLoad(try)])
    case Go(i, spurious) =>
      var (t, cnt) := Attempt(s.threads[i], s.cnt, spurious);
      System(cnt, s.threads[i := t])
    case ReadUnlock(i) => System(ToInt(s.cnt - 1), s.threads[i := Released(s, a)])
    case WriteUnlock(i) => System(0, s.threads[i := Released(s, a)])
  }

  // ---- the invariant -------------------------------------------------------------------

  function Readers(ts: seq<Thread>): (n: nat)
    ensures n <= |ts|
  {
    if ts == [] then 0 else (if ts[0].Reading? then 1 else 0) + Readers(ts[1..])
  }

  function Writers(ts: seq<Thread>): (n: nat)
    ensures n <= |ts|
  {
    if ts == [] then 0 else (if ts[0].Writing? then 1 else 0) + Writers(ts[1..])
  }

  predicate ThreadOk(t: Thread) { (t.ReadSwap? ==> 0 <= t.x < 0x7fff_ffff) && (t.WriteSwap? ==> t.x == 0) }

  /** cnt counts the readers, or is -1 for one writer alone. */
  predicate Counted(s: System) {
    if Writers(s.threads) == 0 then s.cnt == Readers(s.threads)
    else s.cnt == -1 && Writers(s.threads) == 1 && Readers(s.threads) == 0
  }

  predicate Inv(s: System) {
    && |s.threads| < 0x8000_0000
    && Counted(s)
    && forall t | t in s.threads :: ThreadOk(t)
  }

  lemma {:induction false} CountsAfter(ts: seq<Thread>, i: nat, t: Thread)
    requires i < |ts|
    ensures Readers(ts[i := t]) ==
            Readers(ts) - (if ts[i].Reading? then 1 else 0) + (if t.Reading? then 1 else 0)
    ensures Writers(ts[i := t]) ==
            Writers(ts) - (if ts[i].Writing? then 1 else 0) + (if t.Writing? then 1 else 0)
  {
    if i == 0 {
      assert ts[i := t][1..] == ts[1..];
    } else {
      assert ts[i := t][1..] == ts[1..][i - 1 := t];
      CountsAfter(ts[1..], i - 1, t);
    }
  }

  lemma {:induction false} ReadersBelow(ts: seq<Thread>, i: nat)
    requires i < |ts| && !ts[i].Reading?
    ensures Readers(ts) < |ts|
  {
    if i > 0 {
      ReadersBelow(ts[1..], i - 1);
    }
  }

  lemma {:induction false} HolderCounts(ts: seq<Thread>, i: nat)
    requires i < |ts|
    ensures ts[i].Reading? ==> Readers(ts) >= 1
    ensures ts[i].Writing? ==> Writers(ts) >= 1
  {
    if i > 0 {
      HolderCounts(ts[1..], i - 1);
    }
  }

  lemma ThreadsOkAfter(ts: seq<Thread>, i: nat, t: Thread)
    requires i < |ts| && ThreadOk(t) && forall u | u in ts :: ThreadOk(u)
    ensures forall u | u in ts[i := t] :: ThreadOk(u)
  {
  }

  lemma BeginKeeps(s: System, a: Action)
    requires Inv(s) && Enabled(s, a) && a.Begin?
    ensures Inv(Apply(s, a))
  {
    var t := if a.write then WriteLoad(a.try) else ReadLoad(a.try);
    CountsAfter(s.threads, a.i, t);
    ThreadsOkAfter(s.threads, a.i, t);
  }

  lemma GoKeeps(s: System, a: Action)
    requires Inv(s) && Enabled(s, a) && a.Go?
    ensures Inv(Apply(s, a))
  {
    var t := s.threads[a.i];
    assert ThreadOk(t);
    var (t', cnt) := Attempt(t, s.cnt, a.spurious);
    CountsAfter(s.threads, a.i, t');
    ReadersBelow(s.threads, a.i);
    ThreadsOkAfter(s.threads, a.i, t');
  }

  /**
   * Releasing keeps the count exactly when the caller held what it releases, or stores the
   * zero of rwlock_write_unlock over a lock that is free anyway.
   */
  lemma ReleaseExactly(s: System, a: Action)
    requires Inv(s) && Enabled(s, a) && (a.ReadUnlock? || a.WriteUnlock?)
    ensures Inv(Apply(s, a)) <==> Holds(s, a) || (a.WriteUnlock? && s.cnt == 0)
  {
    CountsAfter(s.threads, a.i, Released(s, a));
    HolderCounts(s.threads, a.i);
    ThreadsOkAfter(s.threads, a.i, Released(s, a));
  }

  lemma StepKeeps(s: System, a: Action)
    requires Inv(s) && Enabled(s, a) && Holds(s, a)
    ensures Inv(Apply(s, a))
  {
    match a
    case Begin(_, _, _) => BeginKeeps(s, a);
    case Go(_, _) => GoKeeps(s, a);
    case ReadUnlock(_) => ReleaseExactly(s, a);
    case WriteUnlock(_) => ReleaseExactly(s, a);
  }

  // ---- whole runs ----------------------------------------------------------------------

  predicate CanRun(s: System, acts: seq<Action>)
    decreases |acts|
  {
    acts == [] || (Enabled(s, acts[0]) && CanRun(Apply(s, acts[0]), acts[1..]))
  }

  /** Every release in the run is by a holder. */
  predicate Disciplined(s: System, acts: seq<Action>)
    requires CanRun(s, acts)
    decreases |acts|
  {
    acts == [] || (Holds(s, acts[0]) && Disciplined(Apply(s, acts[0]), acts[1..]))
  }

  function Run(s: System, acts: seq<Action>): System
    requires CanRun(s, acts)
    decreases |acts|
  {
    if acts == [] then s else Run(Apply(s, acts[0]), acts[1..])
  }

  /** After rwlock_init, before any thread has called anything. */
  predicate Initial(s: System) {
    s.cnt == 0 && |s.threads| < 0x8000_0000 && forall t | t in s.threads :: t.Outside?
  }

  lemma {:induction false} NobodyHolds(ts: seq<Thread>)
    requires forall t | t in ts :: t.Outside?
    ensures Readers(ts) == 0 && Writers(ts) == 0
  {
    if ts != [] {
      assert ts[0] in ts;
      NobodyHolds(ts[1..]);
    }
  }

  lemma {:induction false} RunKeeps(s: System, acts: seq<Action>)
    requires Inv(s) && CanRun(s, acts) && Disciplined(s, acts)
    ensures Inv(Run(s, acts))
    decreases |acts|
  {
    if acts != [] {
      StepKeeps(s, acts[0]);
      RunKeeps(Apply(s, acts[0]), acts[1..]);
    }
  }

  /** A writer holds the lock alone. */
  predicate Exclusive(ts: seq<Thread>) {
    forall i, j | 0 <= i < |ts| && 0 <= j < |ts| && i != j && ts[i].Writing? :: !ts[j].Writing? && !ts[j].Reading?
  }

  lemma {:induction false} TwoHolders(ts: seq<Thread>, i: nat, j: nat)
    requires i < j < |ts|
    ensures (if ts[i].Writing? then 1 else 0) + (if ts[j].Writing? then 1 else 0) <= Writers(ts)
  {
    if i == 0 {
      HolderCounts(ts[1..], j - 1);
    } else {
      TwoHolders(ts[1..], i - 1, j - 1);
    }
  }

  /** Lock safety, in every interleaving of threads that release only what they hold. */
  lemma Safety(s: System, acts: seq<Action>)
    requires Initial(s) && CanRun(s, acts) && Disciplined(s, acts)
    ensures Counted(Run(s, acts)) && Exclusive(Run(s, acts).threads)
  {
    NobodyHolds(s.threads);
    RunKeeps(s, acts);
    var ts := Run(s, acts).threads;
    forall i, j | 0 <= i < |ts| && 0 <= j < |ts| && i != j && ts[i].Writing?
      ensures !ts[j].Writing? && !ts[j].Reading?
    {
      HolderCounts(ts, i);
      HolderCounts(ts, j);
      TwoHolders(ts, if i < j then i else j, if i < j then j else i);
    }
  }

  // ---- taking and giving back ----------------------------------------------------------

  /** A thread that has begun to read gets the lock in two undisturbed steps exactly if nobody writes. */
  lemma ReadAcquires(s: System, i: nat, try: bool) returns (acts: seq<Action>)
    requires Inv(s) && i < |s.threads| && s.threads[i] == ReadLoad(try)
    ensures acts == [Go(i, false), Go(i, false)]
    ensures
      if Writers(s.threads) == 0 then CanRun(s, acts) && Run(s, acts) == System(s.cnt + 1, s.threads[i := Reading])
      else Apply(s, Go(i, false)) == System(s.cnt, s.threads[i := if try then Outside else ReadLoad(false)])
  {
    acts := [Go(i, false), Go(i, false)];
    if Writers(s.threads) == 0 {
      ReadersBelow(s.threads, i);
      var swapping, held := System(s.cnt, s.threads[i := ReadSwap(s.cnt, try)]), System(s.cnt + 1, s.threads[i := Reading]);
      assert swapping.threads[i := Reading] == held.threads;
      acts := Then(swapping, Go(i, false), held, []);
      acts := Then(s, Go(i, false), swapping, acts);
    }
  }

  /** One that has begun to write gets it exactly if nobody holds it. */
  lemma WriteAcquires(s: System, i: nat, try: bool) returns (acts: seq<Action>)
    requires Inv(s) && i < |s.threads| && s.threads[i] == WriteLoad(try)
    ensures acts == [Go(i, false), Go(i, false)]
    ensures
      if Writers(s.threads) + Readers(s.threads) == 0 then CanRun(s, acts) && Run(s, acts) == System(-1, s.threads[i := Writing])
      else Apply(s, Go(i, false)) == System(s.cnt, s.threads[i := if try then Outside else WriteLoad(false)])
  {
    acts := [Go(i, false), Go(i, false)];
    if Writers(s.threads) + Readers(s.threads) == 0 {
      var swapping, held := System(s.cnt, s.threads[i := WriteSwap(s.cnt, try)]), System(-1, s.threads[i := Writing]);
      assert swapping.threads[i := Writing] == held.threads;
      acts := Then(swapping, Go(i, false), held, []);
      acts := Then(s, Go(i, false), swapping, acts);
    }
  }

  /** A lock that is not a trylock is never given up before it is had; a swap that fails starts over. */
  lemma NeverGivesUp(s: System, i: nat, spurious: bool)
    requires Enabled(s, Go(i, spurious)) && !s.threads[i].try
    ensures
      var t, after := s.threads[i], Apply(s, Go(i, spurious));
      && !after.threads[i].Outside?
      && (t.ReadSwap? && (spurious || s.cnt != t.x) ==> after == System(s.cnt, s.threads[i := ReadLoad(false)]))
      && (t.WriteSwap? && (spurious || s.cnt != t.x) ==> after == System(s.cnt, s.threads[i := WriteLoad(false)]))
  {
  }

  /** Taking a read lock that can be had and giving it back leaves everything as it was. */
  lemma ReadAndUnlock(s: System, i: nat, try: bool) returns (acts: seq<Action>)
    requires Inv(s) && i < |s.threads| && s.threads[i].Outside? && Writers(s.threads) == 0
    ensures acts == [Begin(i, false, try), Go(i, false), Go(i, false), ReadUnlock(i)]
    ensures CanRun(s, acts) && Run(s, acts) == s
  {
    ReadersBelow(s.threads, i);
    var begun, swapping := System(s.cnt, s.threads[i := ReadLoad(try)]), System(s.cnt, s.threads[i := ReadSwap(s.cnt, try)]);
    var held := System(s.cnt + 1, s.threads[i := Reading]);
    assert held.threads[i := Outside] == s.threads && swapping.threads[i := Reading] == held.threads;
    assert begun.threads[i := ReadSwap(s.cnt, try)] == swapping.threads;
    acts := Then(held, ReadUnlock(i), s, []);
    acts := Then(swapping, Go(i, false), held, acts);
    acts := Then(begun, Go(i, false), swapping, acts);
    acts := Then(s, Begin(i, false, try), begun, acts);
  }

  /** So does taking a free write lock. */
  lemma WriteAndUnlock(s: System, i: nat, try: bool) returns (acts: seq<Action>)
    requires Inv(s) && i < |s.threads| && s.threads[i].Outside? && Writers(s.threads) + Readers(s.threads) == 0
    ensures acts == [Begin(i, true, try), Go(i, false), Go(i, false), WriteUnlock(i)]
    ensures CanRun(s, acts) && Run(s, acts) == s
  {
    var begun, swapping := System(0, s.threads[i := WriteLoad(try)]), System(0, s.threads[i := WriteSwap(0, try)]);
    var held := System(-1, s.threads[i := Writing]);
    assert held.threads[i := Outside] == s.threads && swapping.threads[i := Writing] == held.threads;
    assert begun.threads[i := WriteSwap(0, try)] == swapping.threads;
    acts := Then(held, WriteUnlock(i), s, []);
    acts := Then(swapping, Go(i, false), held, acts);
    acts := Then(begun, Go(i, false), swapping, acts);
    acts := Then(s, Begin(i, true, try), begun, acts);
  }

  // ---- what the trylocks answer --------------------------------------------------------

  /**
   * A read trylock refuses exactly when it saw a writer. A write trylock refuses when it saw a
   * holder, and also when its one weak compare-and-swap fails, be it only spuriously.
   */
  lemma TryAnswers(s: System, a: Action)
    requires Inv(s) && Enabled(s, a) && a.Go? && s.threads[a.i].try
    ensures
      var t := s.threads[a.i];
      var refused := Apply(s, a).threads[a.i].Outside?;
      && (t.ReadLoad? || t.ReadSwap? ==> (refused <==> t.ReadLoad? && Writers(s.threads) == 1))
      && (t.WriteLoad? ==> (refused <==> Writers(s.threads) + Readers(s.threads) > 0))
      && (t.WriteSwap? ==> (refused <==> a.spurious || Writers(s.threads) + Readers(s.threads) > 0))
  {
    assert ThreadOk(s.threads[a.i]);
  }

  /** So rwlock_write_trylock can answer -EBUSY on a lock nobody has ever touched. */
  lemma WriteTrylockOnAFreeLock(s: System) returns (acts: seq<Action>)
    requires s == System(0, [Outside])
    ensures acts == [Begin(0, true, true), Go(0, false), Go(0, true)]
    ensures CanRun(s, acts) && Run(s, acts) == s
  {
    acts := Then(System(0, [WriteSwap(0, true)]), Go(0, true), s, []);
    acts := Then(System(0, [WriteLoad(true)]), Go(0, false), System(0, [WriteSwap(0, true)]), acts);
    acts := Then(s, Begin(0, true, true), System(0, [WriteLoad(true)]), acts);
  }

  lemma Then(s: System, a: Action, t: System, rest: seq<Action>) returns (acts: seq<Action>)
    requires Enabled(s, a) && Apply(s, a) == t && CanRun(t, rest)
    ensures acts == [a] + rest && CanRun(s, acts) && Run(s, acts) == Run(t, rest)
  {
    acts := [a] + rest;
    assert acts[1..] == rest;
  }

  /** A release by a thread that holds nothing, while another reads, lets a writer in beside the reader. */
  lemma StrayUnlock(s: System) returns (acts: seq<Action>)
    requires s == System(0, [Outside, Outside, Outside])
    ensures CanRun(s, acts) && Run(s, acts) == System(-1, [Writing, Outside, Reading])
    ensures !Exclusive(Run(s, acts).threads)
  {
    var end := System(-1, [Writing, Outside, Reading]);
    acts := Then(System(0, [WriteSwap(0, false), Outside, Reading]), Go(0, false), end, []);
    acts := Then(System(0, [WriteLoad(false), Outside, Reading]), Go(0, false),
                 System(0, [WriteSwap(0, false), Outside, Reading]), acts);
    acts := Then(System(0, [Outside, Outside, Reading]), Begin(0, true, false),
                 System(0, [WriteLoad(false), Outside, Reading]), acts);
    acts := Then(System(1, [Outside, Outside, Reading]), ReadUnlock(1),
                 System(0, [Outside, Outside, Reading]), acts);
    acts := Then(System(0, [Outside, Outside, ReadSwap(0, false)]), Go(2, false),
                 System(1, [Outside, Outside, Reading]), acts);
    acts := Then(System(0, [Outside, Outside, ReadLoad(false)]), Go(2, false),
                 System(0, [Outside, Outside, ReadSwap(0, false)]), acts);
    acts := Then(s, Begin(2, false, false), System(0, [Outside, Outside, ReadLoad(false)]), acts);
    assert end.threads[0].Writing? && end.threads[2].Reading?;
  }

  /**
   * handle_client_session unlocks even after its read trylock failed. With three threads: 0 writes,
   * 1 is refused, 0 leaves, 2 reads, 1 unlocks what it never held, and 0 writes beside the reader.
   */
  lemma UnlockAfterRefusal(s: System) returns (acts: seq<Action>)
    requires s == System(0, [Outside, Outside, Outside])
    ensures |acts| > 5 && acts[3] == Begin(1, false, true) && acts[4] == Go(1, false)
    ensures CanRun(s, acts) && !Exclusive(Run(s, acts).threads)
  {
    acts := StrayUnlock(s);
    acts := Then(System(-1, [Writing, Outside, Outside]), WriteUnlock(0), s, acts);
    acts := Then(System(-1, [Writing, ReadLoad(true), Outside]), Go(1, false),
                 System(-1, [Writing, Outside, Outside]), acts);
    acts := Then(System(-1, [Writing, Outside, Outside]), Begin(1, false, true),
                 System(-1, [Writing, ReadLoad(true), Outside]), acts);
    acts := Then(System(0, [WriteSwap(0, true), Outside, Outside]), Go(0, false),
                 System(-1, [Writing, Outside, Outside]), acts);
    acts := Then(System(0, [WriteLoad(true), Outside, Outside]), Go(0, false),
                 System(0, [WriteSwap(0, true), Outside, Outside]), acts);
    acts := Then(s, Begin(0, true, true), System(0, [WriteLoad(true), Outside, Outside]), acts);
  }
}
