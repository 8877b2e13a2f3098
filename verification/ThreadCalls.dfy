/** thread_pool.c from the side of its caller: which answer each call gets, and which thread an unnamed launch goes to. */
module ThreadCalls {
  import opened ThreadPool

  // ---- every call is answered for what it asked ----------------------------------------

  /** The calls begun in a run, in order. */
  function Commands(acts: seq<Action>): seq<Command> {
    if acts == [] then [] else
      var a := acts[|acts| - 1];
      Commands(acts[..|acts| - 1]) + (if a.Begin? then [a.command] else [])
  }

  /** A launch on a thread gives that job to that thread, or finds it busy; any other thread only by choice; a wait reports its thread. */
  predicate Answers(c: Command, e: Event) {
    match c
    case LaunchOn(tid, job) => e == Launched(tid, job) || e == Busy(tid, false)
    case LaunchAny(job) => e == NoIdle || (e.Launched? && e.job == job)
    case Wait(tid) => e.Waited? && e.tid == tid
  }

  /** The launching thread is inside that call. */
  predicate Serves(pc: LauncherPc, c: Command) {
    match pc
    case Idle => false
    case Scan(_, job) => c == LaunchAny(job)
    case Check(tid, job, any) => c == if any then LaunchAny(job) else LaunchOn(tid, job)
    case StoreArg(tid, job) => c == LaunchAny(job) || c == LaunchOn(tid, job)
    case StoreF(tid, job) => c == LaunchAny(job) || c == LaunchOn(tid, job)
    case Wake(tid, job) => c == LaunchAny(job) || c == LaunchOn(tid, job)
    case AwaitAck(tid, job) => c == LaunchAny(job) || c == LaunchOn(tid, job)
    case Poll(tid) => c == Wait(tid)
    case FetchRet(tid) => c == Wait(tid)
  }

  /** The events in the log answer the calls one by one; the last call may still be open. */
  predicate Answered(s: System, cs: seq<Command>) {
    && |cs| == |s.log| + (if s.pc.Idle? then 0 else 1)
    && (forall k | 0 <= k < |s.log| :: Answers(cs[k], s.log[k]))
    && (!s.pc.Idle? ==> Serves(s.pc, cs[|cs| - 1]))
  }

  lemma StepAnswers(s: System, a: Action, cs: seq<Command>)
    requires Inv(s) && Enabled(s, a) && Answered(s, cs)
    ensures Answered(Apply(s, a), cs + if a.Begin? then [a.command] else [])
  {
  }

  lemma {:induction false} RunAnswers(s: System, acts: seq<Action>)
    requires Created(s) && CanRun(s, acts)
    ensures Answered(Run(s, acts), Commands(acts))
    decreases |acts|
  {
    if acts != [] {
      var most, last := acts[..|acts| - 1], acts[|acts| - 1];
      RunSplit(s, most, [last]);
      assert most + [last] == acts;
      RunAnswers(s, most);
      CreatedIsOk(s);
      RunKeeps(s, most);
      StepAnswers(Run(s, most), last, Commands(most));
      if !last.Begin? {
        assert Commands(most) + [] == Commands(most);
      }
    }
  }

  /** A run in two parts. */
  lemma {:induction false} RunSplit(s: System, a: seq<Action>, b: seq<Action>)
    ensures CanRun(s, a + b) <==> CanRun(s, a) && CanRun(Run(s, a), b)
    ensures CanRun(s, a + b) ==> Run(s, a + b) == Run(Run(s, a), b)
    decreases |a|
  {
    if a == [] {
      assert a + b == b;
    } else {
      assert (a + b)[1..] == a[1..] + b;
      if Enabled(s, a[0]) {
        RunSplit(Apply(s, a[0]), a[1..], b);
      }
    }
  }

  /** Between launches, a thread that waits and has run something has nothing of it left but the result. */
  lemma NothingLeft(s: System, acts: seq<Action>, i: nat)
    requires Created(s) && CanRun(s, acts) && i < |Run(s, acts).workers|
    requires Run(s, acts).pc.Idle? && Run(s, acts).workers[i].state.WAIT? && RunsOf(Run(s, acts).runs, i) != []
    ensures
      var w, r := Run(s, acts).workers[i], RunsOf(Run(s, acts).runs, i);
      w.f == NULL && w.arg == NULL && w.ret == r[|r| - 1].ret && w.main2worker == 0 && w.worker2main == 0
  {
    CreatedIsOk(s);
    RunKeeps(s, acts);
    var t := Run(s, acts);
    assert WorkerOk(t.workers[i], t.pc, i, Jobs(t, i), RunsOf(t.runs, i));
  }

  // ---- which thread get_one_idle_thread picks --------------------------------------------

  predicate Waits(s: System, i: nat) { i < |s.workers| && s.workers[i].state.WAIT? }

  predicate NoneBelow(s: System, i: nat) { forall j: nat | j < i :: !Waits(s, j) }

  /** A worker that waited before still does, with nothing to wake it. */
  predicate StillWaits(w: Worker) { w.state.WAIT? && w.pc.ReadCommand? && w.main2worker == 0 }

  /** All that waited in s still wait in t, but for one. */
  ghost predicate OthersWait(s: System, t: System, but: int) {
    |t.workers| == |s.workers| && forall i: nat | Waits(s, i) && i != but :: StillWaits(t.workers[i])
  }

  /** Where a launch without a named thread stands that began in s. */
  ghost predicate Searching(s: System, job: Job, t: System) {
    match t.pc
    case Scan(i, j) => j == job && t.log == s.log && i <= |s.workers| && NoneBelow(s, i) && OthersWait(s, t, -1)
    case Check(i, j, any) => any && j == job && t.log == s.log && NoneBelow(s, i) && OthersWait(s, t, -1)
    case StoreArg(i, j) => j == job && t.log == s.log && NoneBelow(s, i) && OthersWait(s, t, i)
    case StoreF(i, j) => j == job && t.log == s.log && NoneBelow(s, i) && OthersWait(s, t, i)
    case Wake(i, j) => j == job && t.log == s.log && NoneBelow(s, i) && OthersWait(s, t, i)
    case AwaitAck(i, j) => j == job && t.log == s.log && NoneBelow(s, i) && OthersWait(s, t, i)
    case Idle =>
      || (t.log == s.log + [NoIdle] && NoneBelow(s, |s.workers|) && OthersWait(s, t, -1))
      || (|t.log| == |s.log| + 1 && t.log == s.log + [t.log[|s.log|]] && t.log[|s.log|].Launched?
          && t.log[|s.log|].job == job && NoneBelow(s, t.log[|s.log|].tid) && OthersWait(s, t, t.log[|s.log|].tid))
    case _ => false
  }

  lemma SearchBegins(s: System, job: Job)
    requires Inv(s) && s.pc.Idle?
    ensures Enabled(s, Begin(LaunchAny(job))) && Searching(s, job, Apply(s, Begin(LaunchAny(job))))
  {
    forall i: nat | Waits(s, i) ensures StillWaits(s.workers[i]) {
      assert WorkerOk(s.workers[i], s.pc, i, Jobs(s, i), RunsOf(s.runs, i));
    }
  }

  lemma SearchLauncher(s: System, job: Job, t: System)
    requires Inv(t) && Searching(s, job, t) && Enabled(t, Launcher)
    ensures Searching(s, job, LauncherStep(t))
  {
  }

  lemma SearchWork(s: System, job: Job, t: System, i: nat, result: int)
    requires Searching(s, job, t) && Enabled(t, Work(i, result))
    ensures Searching(s, job, Apply(t, Work(i, result)))
  {
  }

  predicate NoCalls(acts: seq<Action>) { forall a | a in acts :: !a.Begin? }

  lemma {:induction false} SearchRuns(s: System, job: Job, t: System, more: seq<Action>)
    requires Inv(t) && Searching(s, job, t) && CanRun(t, more) && NoCalls(more)
    ensures Searching(s, job, Run(t, more))
    decreases |more|
  {
    if more != [] {
      var a := more[0];
      if a.Launcher? {
        SearchLauncher(s, job, t);
      } else {
        SearchWork(s, job, t, a.i, a.result);
      }
      StepKeeps(t, a);
      SearchRuns(s, job, Apply(t, a), more[1..]);
    }
  }

  /**
   * In every run, from the call of a launch without a named thread to its answer: whoever waited when
   * it was called still waits, unless launched on. It reports that no thread is idle only if none
   * waited then, and the thread it launches on has no smaller one that waited then.
   */
  lemma AnyPicks(s: System, acts: seq<Action>, job: Job, more: seq<Action>)
    requires Created(s) && CanRun(s, acts) && Run(s, acts).pc.Idle?
    requires CanRun(Apply(Run(s, acts), Begin(LaunchAny(job))), more) && NoCalls(more)
    ensures
      var before := Run(s, acts);
      var after := Run(Apply(before, Begin(LaunchAny(job))), more);
      && |after.workers| == |before.workers|
      && (after.pc.Idle? ==>
            && |after.log| == |before.log| + 1 && before.log <= after.log
            && var e := after.log[|before.log|];
               && (e == NoIdle || (e.Launched? && e.job == job))
               && (e == NoIdle ==> NoneBelow(before, |before.workers|))
               && (e.Launched? ==> NoneBelow(before, e.tid))
               && forall i: nat | Waits(before, i) && !(e.Launched? && e.tid == i) :: after.workers[i].state.WAIT?)
  {
    var before := Run(s, acts);
    CreatedIsOk(s);
    RunKeeps(s, acts);
    SearchBegins(before, job);
    StepKeeps(before, Begin(LaunchAny(job)));
    SearchRuns(before, job, Apply(before, Begin(LaunchAny(job))), more);
  }

  // ---- every call can be answered ------------------------------------------------------

  lemma Then(s: System, a: Action, t: System, rest: seq<Action>) returns (acts: seq<Action>)
    requires Enabled(s, a) && !a.Begin? && Apply(s, a) == t && CanRun(t, rest) && NoCalls(rest)
    ensures acts == [a] + rest && CanRun(s, acts) && NoCalls(acts) && Run(s, acts) == Run(t, rest)
  {
    acts := [a] + rest;
    assert acts[1..] == rest;
  }

  /** The scan stops at the first waiting thread from i on, or reports that there is none. */
  lemma {:induction false} ScanAlone(s: System, i: nat, job: Job) returns (acts: seq<Action>, k: nat)
    requires s.pc == Scan(i, job) && i <= |s.workers|
    ensures CanRun(s, acts) && NoCalls(acts)
    ensures i <= k <= |s.workers| && (forall j: nat | i <= j < k :: !Waits(s, j)) && (k < |s.workers| ==> Waits(s, k))
    ensures Run(s, acts) ==
      if k == |s.workers| then s.(pc := Idle, log := s.log + [NoIdle]) else s.(pc := Check(k, job, true))
    decreases |s.workers| - i
  {
    if i == |s.workers| || Waits(s, i) {
      k := i;
      acts := Then(s, Launcher, LauncherStep(s), []);
    } else {
      var t := s.(pc := Scan(i + 1, job));
      acts, k := ScanAlone(t, i + 1, job);
      assert forall j: nat :: Waits(t, j) == Waits(s, j);
      acts := Then(s, Launcher, t, acts);
    }
  }

  /** A launch on a waiting thread: check, two stores, the command, three steps of the worker, and the acknowledgement. */
  lemma LaunchWaiting(s: System, tid: nat, job: Job, any: bool) returns (acts: seq<Action>)
    requires Inv(s) && s.pc == Check(tid, job, any) && Waits(s, tid)
    ensures CanRun(s, acts) && NoCalls(acts)
    ensures Run(s, acts).pc.Idle? && Run(s, acts).log == s.log + [Launched(tid, job)]
  {
    var w := s.workers[tid];
    assert WorkerOk(w, s.pc, tid, Jobs(s, tid), RunsOf(s.runs, tid));
    var loaded := w.(arg := job.arg, f := job.f, main2worker := 1);
    var u := s.(pc := AwaitAck(tid, job), workers := s.workers[tid := loaded]);
    acts := AckWaiting(u, tid, job);
    var stored := s.(pc := Wake(tid, job), workers := s.workers[tid := w.(arg := job.arg, f := job.f)]);
    assert u.workers == stored.workers[tid := loaded];
    acts := Then(stored, Launcher, u, acts);
    var half := s.(pc := StoreF(tid, job), workers := s.workers[tid := w.(arg := job.arg)]);
    assert stored.workers == half.workers[tid := w.(arg := job.arg, f := job.f)];
    acts := Then(half, Launcher, stored, acts);
    acts := Then(s.(pc := StoreArg(tid, job)), Launcher, half, acts);
    acts := Then(s, Launcher, s.(pc := StoreArg(tid, job)), acts);
  }

  /** From the command on: the worker takes it, marks itself and acknowledges. */
  lemma AckWaiting(s: System, tid: nat, job: Job) returns (acts: seq<Action>)
    requires s.pc == AwaitAck(tid, job) && tid < |s.workers| && s.workers[tid].pc.ReadCommand? && s.workers[tid].main2worker == 1
    ensures CanRun(s, acts) && NoCalls(acts)
    ensures Run(s, acts).pc.Idle? && Run(s, acts).log == s.log + [Launched(tid, job)]
  {
    var w := s.workers[tid];
    var w1 := w.(pc := SetRunning, main2worker := 0);
    var w2 := w1.(pc := Acknowledge, state := RUNNING);
    var w3 := w2.(pc := LoadF, worker2main := w.worker2main + 1);
    var s1, s2, s3 := s.(workers := s.workers[tid := w1]), s.(workers := s.workers[tid := w2]), s.(workers := s.workers[tid := w3]);
    assert s2.workers == s1.workers[tid := w2] && s3.workers == s2.workers[tid := w3];
    acts := Then(s3, Launcher, LauncherStep(s3), []);
    acts := Then(s2, Work(tid, 0), s3, acts);
    acts := Then(s1, Work(tid, 0), s2, acts);
    acts := Then(s, Work(tid, 0), s1, acts);
  }

  /** A launch on a named thread: it gets the job if it waits, and is reported busy if it does not. */
  lemma OnAnswered(s: System, tid: nat, job: Job) returns (acts: seq<Action>)
    requires Inv(s) && s.pc.Idle? && tid < |s.workers|
    ensures CanRun(Apply(s, Begin(LaunchOn(tid, job))), acts) && NoCalls(acts)
    ensures
      var t := Run(Apply(s, Begin(LaunchOn(tid, job))), acts);
      t.pc.Idle? && t.log == s.log + [if Waits(s, tid) then Launched(tid, job) else Busy(tid, false)]
  {
    var u := Apply(s, Begin(LaunchOn(tid, job)));
    StepKeeps(s, Begin(LaunchOn(tid, job)));
    if Waits(s, tid) {
      acts := LaunchWaiting(u, tid, job, false);
    } else {
      acts := Then(u, Launcher, LauncherStep(u), []);
    }
  }

  /** A launch without a named thread: the first one that waits gets the job, and only if none does there is no idle one. */
  lemma AnyAnswered(s: System, job: Job) returns (acts: seq<Action>, k: nat)
    requires Inv(s) && s.pc.Idle?
    ensures CanRun(Apply(s, Begin(LaunchAny(job))), acts) && NoCalls(acts)
    ensures k <= |s.workers| && NoneBelow(s, k) && (k < |s.workers| ==> Waits(s, k))
    ensures
      var t := Run(Apply(s, Begin(LaunchAny(job))), acts);
      t.pc.Idle? && t.log == s.log + [if k < |s.workers| then Launched(k, job) else NoIdle]
  {
    var u := Apply(s, Begin(LaunchAny(job)));
    StepKeeps(s, Begin(LaunchAny(job)));
    acts, k := ScanAlone(u, 0, job);
    assert forall j: nat :: Waits(u, j) == Waits(s, j);
    if k < |s.workers| {
      RunKeeps(u, acts);
      var more := LaunchWaiting(Run(u, acts), k, job, true);
      RunSplit(u, acts, more);
      acts := acts + more;
    }
  }

  /** A wait for a thread that waits already comes back with its last result. */
  lemma WaitAnswered(s: System, tid: nat) returns (acts: seq<Action>)
    requires s.pc.Idle? && Waits(s, tid)
    ensures CanRun(Apply(s, Begin(Wait(tid))), acts) && NoCalls(acts)
    ensures
      var t := Run(Apply(s, Begin(Wait(tid))), acts);
      t.pc.Idle? && t.log == s.log + [Waited(tid, s.workers[tid].ret)]
  {
    var u := s.(pc := FetchRet(tid));
    acts := Then(u, Launcher, LauncherStep(u), []);
    acts := Then(s.(pc := Poll(tid)), Launcher, u, acts);
  }
}
