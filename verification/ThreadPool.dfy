/**
 * thread_pool.c: one launching thread and any number of workers, interleaved step by step.
 * Every load or store of a shared field and every pipe operation is one step.
 */
module ThreadPool {
  /** A pointer value; 0 is NULL. */
  type Pointer = nat
  const NULL: Pointer := 0

  datatype Job = Job(f: Pointer, arg: Pointer)
  datatype ThreadState = WAIT | RUNNING

  /** Where worker_thread_loop stands, with its local variables. */
  datatype WorkerPc =
    | ReadCommand
    | SetRunning
    | Acknowledge
    | LoadF
    | LoadArg(f: Pointer)
    | CallF(f: Pointer, fctArg: Pointer)
    | StoreRet(result: int)
    | ClearF
    | ClearArg
    | SetWait

  /** A thread_instance: the shared fields, the bytes waiting in its two pipes, and its program point. */
  datatype Worker = Worker(
    state: ThreadState, f: Pointer, arg: Pointer, ret: int, main2worker: nat, worker2main: nat, pc: WorkerPc)

  /** Where the launching thread stands. `any` marks a thread picked by get_one_idle_thread. */
  datatype LauncherPc =
    | Idle
    | Scan(i: nat, job: Job)
    | Check(tid: nat, job: Job, any: bool)
    | StoreArg(tid: nat, job: Job)
    | StoreF(tid: nat, job: Job)
    | Wake(tid: nat, job: Job)
    | AwaitAck(tid: nat, job: Job)
    | Poll(tid: nat)
    | FetchRet(tid: nat)

  /** What a call of the launching thread came back with. */
  datatype Event =
    | Launched(tid: nat, job: Job)
    | Busy(tid: nat, any: bool)
    | NoIdle
    | Waited(tid: nat, ret: int)

  /** One call made by a worker, with what the called function returned. */
  datatype Execution = Execution(tid: nat, job: Job, ret: int)

  datatype System = System(workers: seq<Worker>, pc: LauncherPc, log: seq<Event>, runs: seq<Execution>)

  datatype Command = LaunchOn(tid: nat, job: Job) | LaunchAny(job: Job) | Wait(tid: nat)

  datatype Action = Begin(command: Command) | Launcher | Work(i: nat, result: int)

  // ---- the steps -----------------------------------------------------------------------

  predicate Enabled(s: System, a: Action) {
    match a
    case Begin(c) => s.pc.Idle? && (c.LaunchAny? || c.tid < |s.workers|)
    case Launcher =>
      && !s.pc.Idle?
      && (!s.pc.Scan? ==> s.pc.tid < |s.workers|)
      && (s.pc.AwaitAck? ==> s.workers[s.pc.tid].worker2main > 0)
    case Work(i, _) =>
      i < |s.workers| && (s.workers[i].pc.ReadCommand? ==> s.workers[i].main2worker > 0)
  }

  function BeginPc(c: Command): LauncherPc {
    match c
    case LaunchOn(tid, job) => Check(tid, job, false)
    case LaunchAny(job) => Scan(0, job)
    case Wait(tid) => Poll(tid)
  }

  /** launch_one_thread, wake_worker_thread, wait_worker_thread and get_one_idle_thread, one step. */
  function LauncherStep(s: System): System
    requires Enabled(s, Launcher)
  {
    match s.pc
    case Scan(i, job) =>
      if i >= |s.workers| then s.(pc := Idle, log := s.log + [NoIdle])
      else if s.workers[i].state.WAIT? then s.(pc := Check(i, job, true))
      else s.(pc := Scan(i + 1, job))
    case Check(tid, job, any) =>
      if s.workers[tid].state.WAIT? then s.(pc := StoreArg(tid, job))
      else s.(pc := Idle, log := s.log + [Busy(tid, any)])
    case StoreArg(tid, job) =>
      s.(pc := StoreF(tid, job), workers := s.workers[tid := s.workers[tid].(arg := job.arg)])
    case StoreF(tid, job) =>
      s.(pc := Wake(tid, job), workers := s.workers[tid := s.workers[tid].(f := job.f)])
    case Wake(tid, job) =>
      var w := s.workers[tid];
      s.(pc := AwaitAck(tid, job), workers := s.workers[tid := w.(main2worker := w.main2worker + 1)])
    case AwaitAck(tid, job) =>
      var w := s.workers[tid];
      s.(pc := Idle, log := s.log + [Launched(tid, job)],
         workers := s.workers[tid := w.(worker2main := w.worker2main - 1)])
    case Poll(tid) =>
      if s.workers[tid].state.WAIT? then s.(pc := FetchRet(tid)) else s
    case FetchRet(tid) =>
      s.(pc := Idle, log := s.log + [Waited(tid, s.workers[tid].ret)])
  }

  /** One step of worker_thread_loop; `result` is what the called function returns, if this step calls it. */
  function WorkerStep(w: Worker, result: int): Worker
    requires w.pc.ReadCommand? ==> w.main2worker > 0
  {
    match w.pc
    case ReadCommand => w.(pc := SetRunning, main2worker := w.main2worker - 1)
    case SetRunning => w.(pc := Acknowledge, state := RUNNING)
    case Acknowledge => w.(pc := LoadF, worker2main := w.worker2main + 1)
    case LoadF => if w.f == NULL then w else w.(pc := LoadArg(w.f))
    case LoadArg(f) => w.(pc := CallF(f, w.arg))
    case CallF(f, fctArg) => w.(pc := StoreRet(result))
    case StoreRet(r) => w.(pc := ClearF, ret := r)
    case ClearF => w.(pc := ClearArg, f := NULL)
    case ClearArg => w.(pc := SetWait, arg := NULL)
    case SetWait => w.(pc := ReadCommand, state := WAIT)
  }

  function Apply(s: System, a: Action): System
    requires Enabled(s, a)
  {
    match a
    case Begin(c) => s.(pc := BeginPc(c))
    case Launcher => LauncherStep(s)
    case Work(i, result) =>
      var w := s.workers[i];
      s.(workers := s.workers[i := WorkerStep(w, result)],
         runs := if w.pc.CallF? then s.runs + [Execution(i, Job(w.pc.f, w.pc.fctArg), result)] else s.runs)
  }

  // ---- what was launched and what was run, worker by worker ----------------------------

  function Launches(log: seq<Event>, i: nat): seq<Job> {
    if log == [] then [] else
      var e := log[|log| - 1];
      Launches(log[..|log| - 1], i) + (if e.Launched? && e.tid == i then [e.job] else [])
  }

  function RunsOf(runs: seq<Execution>, i: nat): seq<Execution> {
    if runs == [] then [] else
      var e := runs[|runs| - 1];
      RunsOf(runs[..|runs| - 1], i) + (if e.tid == i then [e] else [])
  }

  /** The launch that has passed its check on worker i but has not returned yet. */
  function Pending(pc: LauncherPc, i: nat): seq<Job> {
    if (pc.StoreArg? || pc.StoreF? || pc.Wake? || pc.AwaitAck?) && pc.tid == i then [pc.job] else []
  }

  function Jobs(s: System, i: nat): seq<Job> {
    Launches(s.log, i) + Pending(s.pc, i)
  }

  /** The runs r are of the jobs in j, in order: all of them, or all but the last. */
  predicate Ran(r: seq<Execution>, j: seq<Job>) {
    |r| <= |j| && forall k | 0 <= k < |r| :: r[k].job == j[k]
  }

  predicate AllRan(r: seq<Execution>, j: seq<Job>) { |r| == |j| && Ran(r, j) }

  predicate OneOwed(r: seq<Execution>, j: seq<Job>) { |r| + 1 == |j| && Ran(r, j) }

  lemma LogAppend(log: seq<Event>, e: Event, i: nat)
    ensures Launches(log + [e], i) == Launches(log, i) + (if e.Launched? && e.tid == i then [e.job] else [])
  {
    assert (log + [e])[..|log|] == log;
  }

  lemma RunsAppend(runs: seq<Execution>, e: Execution, i: nat)
    ensures RunsOf(runs + [e], i) == RunsOf(runs, i) + (if e.tid == i then [e] else [])
  {
    assert (runs + [e])[..|runs|] == runs;
  }

  // ---- the invariant -------------------------------------------------------------------

  /** The last job of j is the one in the shared fields. */
  predicate Loaded(w: Worker, j: seq<Job>) {
    j != [] && w.f == j[|j| - 1].f && w.arg == j[|j| - 1].arg
  }

  /** At rest: nothing in the command pipe, and f cleared by the last job if there was one. */
  predicate Quiet(w: Worker, r: seq<Execution>) {
    w.pc.ReadCommand? && w.state.WAIT? && w.main2worker == 0 && (r != [] ==> w.f == NULL)
  }

  /** Neither is there anything left of the argument, unless a launch has begun to store the next. */
  predicate Cleared(w: Worker, r: seq<Execution>) { Quiet(w, r) && (r != [] ==> w.arg == NULL) }

  /** The acknowledgement is in the pipe exactly while the launcher still waits for it. */
  predicate Acked(w: Worker, pc: LauncherPc, i: nat) {
    w.main2worker == 0 && w.worker2main == if Pending(pc, i) == [] then 0 else 1
  }

  /** The worker has not yet acknowledged the command of the launcher that waits for it. */
  predicate Unacked(w: Worker, pc: LauncherPc, i: nat) {
    pc.AwaitAck? && pc.tid == i && w.worker2main == 0
  }

  predicate AtRest(w: Worker, pc: LauncherPc, i: nat, j: seq<Job>, r: seq<Execution>) {
    if Pending(pc, i) == [] then Cleared(w, r) && w.worker2main == 0 && AllRan(r, j)
    else match pc
      case StoreArg(_, _) => Quiet(w, r) && w.worker2main == 0 && OneOwed(r, j)
      case StoreF(_, job) => Quiet(w, r) && w.worker2main == 0 && OneOwed(r, j) && w.arg == job.arg
      case Wake(_, _) =>
        w.state.WAIT? && w.main2worker == 0 && w.worker2main == 0 && OneOwed(r, j) && Loaded(w, j)
      case AwaitAck(_, _) =>
        || (w.state.WAIT? && w.main2worker == 1 && w.worker2main == 0 && OneOwed(r, j) && Loaded(w, j))
        || (Cleared(w, r) && w.worker2main == 1 && AllRan(r, j))
  }

  /** No run was of a NULL function. */
  predicate RealRuns(r: seq<Execution>) { forall k | 0 <= k < |r| :: r[k].job.f != NULL }

  predicate WorkerOk(w: Worker, pc: LauncherPc, i: nat, j: seq<Job>, r: seq<Execution>) {
    && (if w.pc.StoreRet? then r != [] && r[|r| - 1].ret == w.pc.result
        else r != [] ==> r[|r| - 1].ret == w.ret)
    && match w.pc
       case ReadCommand => AtRest(w, pc, i, j, r)
       case SetRunning =>
         Unacked(w, pc, i) && w.main2worker == 0 && w.state.WAIT? && Loaded(w, j) && OneOwed(r, j)
       case Acknowledge =>
         Unacked(w, pc, i) && w.main2worker == 0 && w.state.RUNNING? && Loaded(w, j) && OneOwed(r, j)
       case LoadF =>
         Away(w, pc, i) && Loaded(w, j) && OneOwed(r, j)
       case LoadArg(f) =>
         Away(w, pc, i) && Loaded(w, j) && OneOwed(r, j) && f == w.f != NULL
       case CallF(f, fctArg) =>
         Away(w, pc, i) && Loaded(w, j) && OneOwed(r, j) && f == w.f != NULL && fctArg == w.arg
       case StoreRet(_) => Away(w, pc, i) && AllRan(r, j)
       case ClearF => Away(w, pc, i) && AllRan(r, j)
       case ClearArg => Away(w, pc, i) && AllRan(r, j) && w.f == NULL
       case SetWait => Away(w, pc, i) && AllRan(r, j) && w.f == NULL && w.arg == NULL
  }

  /** Out on a job: marked RUNNING, acknowledged, and no launcher between check and wake. */
  predicate Away(w: Worker, pc: LauncherPc, i: nat) {
    && w.state.RUNNING? && Acked(w, pc, i)
    && (Pending(pc, i) != [] ==> pc.AwaitAck?)
  }

  /** Each wait came back with the result of the last job launched on that worker before it. */
  predicate WaitsTold(log: seq<Event>, runs: seq<Execution>)
    decreases |log|
  {
    log == [] || (
      var before, e := log[..|log| - 1], log[|log| - 1];
      && WaitsTold(before, runs)
      && (e.Busy? ==> !e.any)
      && (e.Waited? && Launches(before, e.tid) != [] ==>
            var n := |Launches(before, e.tid)|;
            && n <= |RunsOf(runs, e.tid)|
            && RunsOf(runs, e.tid)[n - 1].job == Launches(before, e.tid)[n - 1]
            && RunsOf(runs, e.tid)[n - 1].ret == e.ret))
  }

  predicate LauncherOk(s: System) {
    && (!s.pc.Idle? && !s.pc.Scan? ==> s.pc.tid < |s.workers|)
    && (s.pc.Check? && s.pc.any ==> s.workers[s.pc.tid].state.WAIT?)
    && (s.pc.FetchRet? ==> s.workers[s.pc.tid].state.WAIT?)
  }

  ghost predicate Inv(s: System) {
    && LauncherOk(s)
    && WaitsTold(s.log, s.runs)
    && RealRuns(s.runs)
    && forall i | 0 <= i < |s.workers| :: WorkerOk(s.workers[i], s.pc, i, Jobs(s, i), RunsOf(s.runs, i))
  }

  /** What create_worker_thread leaves: fresh pipes and state WAIT; f, arg and ret are not initialised. */
  predicate New(w: Worker) {
    w.state.WAIT? && w.main2worker == 0 && w.worker2main == 0 && w.pc.ReadCommand?
  }

  predicate Created(s: System) {
    s.pc.Idle? && s.log == [] && s.runs == [] && forall w | w in s.workers :: New(w)
  }

  lemma CreatedIsOk(s: System)
    requires Created(s)
    ensures Inv(s)
  {
    forall i | 0 <= i < |s.workers|
      ensures WorkerOk(s.workers[i], s.pc, i, Jobs(s, i), RunsOf(s.runs, i))
    {
      assert New(s.workers[i]);
    }
  }

  // ---- every step keeps it -------------------------------------------------------------

  /** A worker the launcher is not launching on does not care where the launcher stands. */
  lemma Undisturbed(w: Worker, pc: LauncherPc, pc': LauncherPc, i: nat, j: seq<Job>, r: seq<Execution>)
    requires WorkerOk(w, pc, i, j, r) && Pending(pc, i) == [] && Pending(pc', i) == []
    ensures WorkerOk(w, pc', i, j, r)
  {
  }

  /** One step of a launch, seen from the worker it is for. */
  predicate LaunchStep(w: Worker, pc: LauncherPc, w': Worker, pc': LauncherPc, i: nat) {
    match pc
    case Check(tid, job, _) => tid == i && w.state.WAIT? && w' == w && pc' == StoreArg(i, job)
    case StoreArg(tid, job) => tid == i && w' == w.(arg := job.arg) && pc' == StoreF(i, job)
    case StoreF(tid, job) => tid == i && w' == w.(f := job.f) && pc' == Wake(i, job)
    case Wake(tid, job) => tid == i && w' == w.(main2worker := w.main2worker + 1) && pc' == AwaitAck(i, job)
    case AwaitAck(tid, job) =>
      tid == i && w.worker2main > 0 && w' == w.(worker2main := w.worker2main - 1) && pc' == Idle
    case _ => false
  }

  lemma LaunchKeeps(w: Worker, pc: LauncherPc, w': Worker, pc': LauncherPc, i: nat,
                    j: seq<Job>, j': seq<Job>, r: seq<Execution>)
    requires WorkerOk(w, pc, i, j, r) && LaunchStep(w, pc, w', pc', i)
    requires j' == if pc.Check? then j + [pc.job] else j
    requires !pc.Check? ==> j != [] && j[|j| - 1] == pc.job
    ensures WorkerOk(w', pc', i, j', r)
  {
    if pc.Check? {
      assert Pending(pc', i) == [pc.job];
    }
  }

  lemma OwnStep(s: System, i: nat)
    requires Enabled(s, Launcher) && i < |s.workers|
    requires Pending(s.pc, i) != [] || Pending(LauncherStep(s).pc, i) != []
    ensures
      var t := LauncherStep(s);
      && |t.workers| == |s.workers| && t.runs == s.runs
      && LaunchStep(s.workers[i], s.pc, t.workers[i], t.pc, i)
      && t.log == if s.pc.AwaitAck? then s.log + [Launched(i, s.pc.job)] else s.log
  {
  }

  lemma OwnJobs(s: System, t: System, i: nat)
    requires i < |s.workers| && i < |t.workers|
    requires LaunchStep(s.workers[i], s.pc, t.workers[i], t.pc, i)
    requires t.log == if s.pc.AwaitAck? then s.log + [Launched(i, s.pc.job)] else s.log
    ensures Jobs(t, i) == if s.pc.Check? then Jobs(s, i) + [s.pc.job] else Jobs(s, i)
    ensures !s.pc.Check? ==> Jobs(s, i) != [] && Jobs(s, i)[|Jobs(s, i)| - 1] == s.pc.job
  {
    var j := Launches(s.log, i);
    assert j + [] == j;
    if s.pc.AwaitAck? {
      LogAppend(s.log, Launched(i, s.pc.job), i);
      assert j + [s.pc.job] + [] == j + [s.pc.job];
    }
  }

  lemma OtherStep(s: System, i: nat)
    requires Enabled(s, Launcher) && i < |s.workers|
    requires Pending(s.pc, i) == [] && Pending(LauncherStep(s).pc, i) == []
    ensures
      var t := LauncherStep(s);
      && |t.workers| == |s.workers| && t.runs == s.runs
      && t.workers[i] == s.workers[i] && Jobs(t, i) == Jobs(s, i)
  {
    var t := LauncherStep(s);
    if |t.log| > |s.log| {
      LogAppend(s.log, t.log[|s.log|], i);
    }
    assert Launches(s.log, i) + [] == Launches(s.log, i);
  }

  lemma LauncherKeepsWorker(s: System, i: nat)
    requires Enabled(s, Launcher) && i < |s.workers|
    requires WorkerOk(s.workers[i], s.pc, i, Jobs(s, i), RunsOf(s.runs, i))
    ensures
      var t := LauncherStep(s);
      |t.workers| == |s.workers| && t.runs == s.runs
      && WorkerOk(t.workers[i], t.pc, i, Jobs(t, i), RunsOf(t.runs, i))
  {
    var t := LauncherStep(s);
    if Pending(s.pc, i) == [] && Pending(t.pc, i) == [] {
      OtherStep(s, i);
      Undisturbed(s.workers[i], s.pc, t.pc, i, Jobs(s, i), RunsOf(s.runs, i));
    } else {
      OwnStep(s, i);
      OwnJobs(s, t, i);
      LaunchKeeps(s.workers[i], s.pc, t.workers[i], t.pc, i, Jobs(s, i), Jobs(t, i), RunsOf(s.runs, i));
    }
  }

  lemma LauncherKeepsLog(s: System)
    requires Inv(s) && Enabled(s, Launcher)
    ensures LauncherOk(LauncherStep(s)) && WaitsTold(LauncherStep(s).log, s.runs)
  {
    var t := LauncherStep(s);
    if |t.log| > |s.log| {
      assert t.log[..|s.log|] == s.log;
      if s.pc.FetchRet? {
        assert WorkerOk(s.workers[s.pc.tid], s.pc, s.pc.tid, Jobs(s, s.pc.tid), RunsOf(s.runs, s.pc.tid));
      }
    }
  }

  lemma WorkerStepKeeps(w: Worker, result: int, pc: LauncherPc, i: nat, j: seq<Job>, r: seq<Execution>)
    requires WorkerOk(w, pc, i, j, r) && (w.pc.ReadCommand? ==> w.main2worker > 0)
    ensures
      var e := if w.pc.CallF? then [Execution(i, Job(w.pc.f, w.pc.fctArg), result)] else [];
      WorkerOk(WorkerStep(w, result), pc, i, j, r + e)
  {
  }

  lemma {:induction false} WaitsToldLater(log: seq<Event>, runs: seq<Execution>, e: Execution)
    requires WaitsTold(log, runs)
    ensures WaitsTold(log, runs + [e])
    decreases |log|
  {
    if log != [] {
      WaitsToldLater(log[..|log| - 1], runs, e);
      if log[|log| - 1].Waited? {
        RunsAppend(runs, e, log[|log| - 1].tid);
      }
    }
  }

  lemma WorkRuns(s: System, i: nat, result: int, k: nat)
    requires Enabled(s, Work(i, result)) && k < |s.workers|
    ensures
      var w := s.workers[i];
      var e := if w.pc.CallF? then [Execution(i, Job(w.pc.f, w.pc.fctArg), result)] else [];
      && RunsOf(Apply(s, Work(i, result)).runs, k) == RunsOf(s.runs, k) + (if k == i then e else [])
      && Jobs(Apply(s, Work(i, result)), k) == Jobs(s, k)
  {
    var w := s.workers[i];
    if w.pc.CallF? {
      RunsAppend(s.runs, Execution(i, Job(w.pc.f, w.pc.fctArg), result), k);
    }
  }

  lemma WorkKeepsWorker(s: System, i: nat, result: int, k: nat)
    requires Enabled(s, Work(i, result)) && k < |s.workers|
    requires WorkerOk(s.workers[k], s.pc, k, Jobs(s, k), RunsOf(s.runs, k))
    ensures
      var t := Apply(s, Work(i, result));
      WorkerOk(t.workers[k], t.pc, k, Jobs(t, k), RunsOf(t.runs, k))
  {
    WorkRuns(s, i, result, k);
    if k == i {
      WorkerStepKeeps(s.workers[i], result, s.pc, i, Jobs(s, i), RunsOf(s.runs, i));
    } else {
      assert RunsOf(s.runs, k) + [] == RunsOf(s.runs, k);
    }
  }

  lemma WorkKeeps(s: System, i: nat, result: int)
    requires Inv(s) && Enabled(s, Work(i, result))
    ensures Inv(Apply(s, Work(i, result)))
  {
    var t := Apply(s, Work(i, result));
    var w := s.workers[i];
    assert WorkerOk(w, s.pc, i, Jobs(s, i), RunsOf(s.runs, i));
    forall k | 0 <= k < |t.workers|
      ensures WorkerOk(t.workers[k], t.pc, k, Jobs(t, k), RunsOf(t.runs, k))
    {
      WorkKeepsWorker(s, i, result, k);
    }
    if w.pc.CallF? {
      WaitsToldLater(s.log, s.runs, Execution(i, Job(w.pc.f, w.pc.fctArg), result));
    }
  }

  lemma StepKeeps(s: System, a: Action)
    requires Inv(s) && Enabled(s, a)
    ensures Inv(Apply(s, a))
  {
    match a
    case Begin(c) =>
      var t := Apply(s, a);
      forall k | 0 <= k < |t.workers|
        ensures WorkerOk(t.workers[k], t.pc, k, Jobs(t, k), RunsOf(t.runs, k))
      {
        assert WorkerOk(s.workers[k], s.pc, k, Jobs(s, k), RunsOf(s.runs, k));
      }
    case Launcher =>
      LauncherKeepsLog(s);
      var t := LauncherStep(s);
      forall k | 0 <= k < |t.workers|
        ensures WorkerOk(t.workers[k], t.pc, k, Jobs(t, k), RunsOf(t.runs, k))
      {
        LauncherKeepsWorker(s, k);
      }
    case Work(i, result) => WorkKeeps(s, i, result);
  }

  // ---- whole runs ----------------------------------------------------------------------

  predicate CanRun(s: System, acts: seq<Action>)
    decreases |acts|
  {
    acts == [] || (Enabled(s, acts[0]) && CanRun(Apply(s, acts[0]), acts[1..]))
  }

  function Run(s: System, acts: seq<Action>): System
    requires CanRun(s, acts)
    decreases |acts|
  {
    if acts == [] then s else Run(Apply(s, acts[0]), acts[1..])
  }

  lemma {:induction false} RunKeeps(s: System, acts: seq<Action>)
    requires Inv(s) && CanRun(s, acts)
    ensures Inv(Run(s, acts))
    decreases |acts|
  {
    if acts != [] {
      StepKeeps(s, acts[0]);
      RunKeeps(Apply(s, acts[0]), acts[1..]);
    }
  }

  /**
   * In every interleaving, a worker has run the jobs launched on it in launch order, each once,
   * all of them but possibly the last; and all of them whenever it is in state WAIT outside a launch.
   */
  lemma LaunchedRunOnce(s: System, acts: seq<Action>, i: nat)
    requires Created(s) && CanRun(s, acts) && i < |Run(s, acts).workers|
    ensures
      var t := Run(s, acts);
      var j, r := Jobs(t, i), RunsOf(t.runs, i);
      && (AllRan(r, j) || OneOwed(r, j)) && RealRuns(r)
      && (Pending(t.pc, i) == [] ==> j == Launches(t.log, i))
      && (Pending(t.pc, i) == [] && t.workers[i].state.WAIT? ==> AllRan(r, Launches(t.log, i)))
  {
    CreatedIsOk(s);
    RunKeeps(s, acts);
    var t := Run(s, acts);
    assert WorkerOk(t.workers[i], t.pc, i, Jobs(t, i), RunsOf(t.runs, i));
    RunsAreReal(t.runs, i);
    assert Launches(t.log, i) + [] == Launches(t.log, i);
  }

  /** A worker about to call calls what was launched on it last, and never NULL. */
  lemma NeverCallsNull(s: System, acts: seq<Action>, i: nat)
    requires Created(s) && CanRun(s, acts) && i < |Run(s, acts).workers|
    requires Run(s, acts).workers[i].pc.CallF?
    ensures
      var t := Run(s, acts);
      var j := Jobs(t, i);
      && t.workers[i].pc.f != NULL
      && j != [] && j[|j| - 1] == Job(t.workers[i].pc.f, t.workers[i].pc.fctArg)
      && |RunsOf(t.runs, i)| == |j| - 1
  {
    CreatedIsOk(s);
    RunKeeps(s, acts);
    var t := Run(s, acts);
    assert WorkerOk(t.workers[i], t.pc, i, Jobs(t, i), RunsOf(t.runs, i));
  }

  /** launch_one_thread comes back with -EBUSY exactly while the worker is out on an earlier job. */
  lemma BusyExactly(s: System, acts: seq<Action>)
    requires Created(s) && CanRun(s, acts)
    requires Run(s, acts).pc.Check? && Enabled(Run(s, acts), Launcher)
    ensures
      var t := Run(s, acts);
      var tid := t.pc.tid;
      var busy := LauncherStep(t).log == t.log + [Busy(tid, t.pc.any)];
      && (busy <==> !t.workers[tid].pc.ReadCommand?)
      && (OneOwed(RunsOf(t.runs, tid), Launches(t.log, tid)) ==> busy)
      && (!busy ==> LauncherStep(t).pc == StoreArg(tid, t.pc.job))
      && (t.pc.any ==> !busy)
  {
    CreatedIsOk(s);
    RunKeeps(s, acts);
    var t := Run(s, acts);
    var tid := t.pc.tid;
    assert WorkerOk(t.workers[tid], t.pc, tid, Jobs(t, tid), RunsOf(t.runs, tid));
    assert Launches(t.log, tid) + [] == Launches(t.log, tid);
    assert |t.log + [Busy(tid, t.pc.any)]| == |t.log| + 1;
  }

  lemma {:induction false} WaitsToldAt(log: seq<Event>, runs: seq<Execution>, k: nat)
    requires WaitsTold(log, runs) && k < |log|
    ensures WaitsTold(log[..k + 1], runs)
    decreases |log|
  {
    if k + 1 < |log| {
      WaitsToldAt(log[..|log| - 1], runs, k);
      assert log[..|log| - 1][..k + 1] == log[..k + 1];
    } else {
      assert log[..k + 1] == log;
    }
  }

  /**
   * wait_worker_thread on a worker that was launched before comes back with what the last such
   * job returned; and a launch on a thread picked by get_one_idle_thread is never refused.
   */
  lemma WaitReturnsResult(s: System, acts: seq<Action>, k: nat)
    requires Created(s) && CanRun(s, acts) && k < |Run(s, acts).log|
    ensures
      var t := Run(s, acts);
      var e := t.log[k];
      && (e.Busy? ==> !e.any)
      && (e.Waited? && Launches(t.log[..k], e.tid) != [] ==>
            var n := |Launches(t.log[..k], e.tid)|;
            && n <= |RunsOf(t.runs, e.tid)|
            && RunsOf(t.runs, e.tid)[n - 1] == Execution(e.tid, Launches(t.log[..k], e.tid)[n - 1], e.ret))
  {
    CreatedIsOk(s);
    RunKeeps(s, acts);
    var t := Run(s, acts);
    WaitsToldAt(t.log, t.runs, k);
    assert t.log[..k + 1][..k] == t.log[..k];
    if t.log[k].Waited? && Launches(t.log[..k], t.log[k].tid) != [] {
      RunsAreOwn(t.runs, t.log[k].tid);
    }
  }

  lemma {:induction false} RunsAreReal(runs: seq<Execution>, i: nat)
    requires RealRuns(runs)
    ensures RealRuns(RunsOf(runs, i))
  {
    if runs != [] {
      RunsAreReal(runs[..|runs| - 1], i);
    }
  }

  lemma {:induction false} RunsAreOwn(runs: seq<Execution>, i: nat)
    ensures forall k | 0 <= k < |RunsOf(runs, i)| :: RunsOf(runs, i)[k].tid == i
  {
    if runs != [] {
      RunsAreOwn(runs[..|runs| - 1], i);
    }
  }

  // ---- progress ------------------------------------------------------------------------

  /** Steps of its own until the worker is back in state WAIT; 0 when it is there. */
  function StepsLeft(w: Worker): nat {
    match w.pc
    case ReadCommand => if w.main2worker > 0 then 10 else 0
    case SetRunning => 9
    case Acknowledge => 8
    case LoadF => 7
    case LoadArg(_) => 6
    case CallF(_, _) => 5
    case StoreRet(_) => 4
    case ClearF => 3
    case ClearArg => 2
    case SetWait => 1
  }

  /** The job the worker still has to load is not NULL. */
  predicate RealJob(w: Worker) { StepsLeft(w) >= 7 ==> w.f != NULL }

  lemma Advances(s: System, a: Action, i: nat)
    requires Inv(s) && Enabled(s, a) && i < |s.workers|
    requires StepsLeft(s.workers[i]) > 0 && RealJob(s.workers[i])
    ensures
      var t := Apply(s, a);
      && |t.workers| == |s.workers| && RealJob(t.workers[i])
      && StepsLeft(t.workers[i]) == StepsLeft(s.workers[i]) - (if a.Work? && a.i == i then 1 else 0)
  {
    assert WorkerOk(s.workers[i], s.pc, i, Jobs(s, i), RunsOf(s.runs, i));
    match a
    case Begin(_) =>
    case Launcher => LauncherLeaves(s, i);
    case Work(k, result) =>
      if k == i {
        StepAdvances(s.workers[i], result);
      }
  }

  lemma StepAdvances(w: Worker, result: int)
    requires StepsLeft(w) > 0 && RealJob(w) && w.main2worker == if w.pc.ReadCommand? then 1 else 0
    ensures RealJob(WorkerStep(w, result)) && StepsLeft(WorkerStep(w, result)) == StepsLeft(w) - 1
  {
  }

  lemma LauncherLeaves(s: System, i: nat)
    requires Enabled(s, Launcher) && i < |s.workers|
    requires WorkerOk(s.workers[i], s.pc, i, Jobs(s, i), RunsOf(s.runs, i))
    requires StepsLeft(s.workers[i]) > 0
    ensures
      var t := LauncherStep(s);
      && |t.workers| == |s.workers| && t.workers[i].pc == s.workers[i].pc
      && t.workers[i].f == s.workers[i].f && t.workers[i].main2worker == s.workers[i].main2worker
  {
    var t := LauncherStep(s);
    if Pending(s.pc, i) == [] && Pending(t.pc, i) == [] {
      OtherStep(s, i);
    } else {
      OwnStep(s, i);
      OnlyAck(s.workers[i], s.pc, t.workers[i], t.pc, i, Jobs(s, i), RunsOf(s.runs, i));
    }
  }

  /** While a worker has steps to go, the one launch step left on it is reading the acknowledgement. */
  lemma OnlyAck(w: Worker, pc: LauncherPc, w': Worker, pc': LauncherPc, i: nat, j: seq<Job>, r: seq<Execution>)
    requires WorkerOk(w, pc, i, j, r) && StepsLeft(w) > 0 && LaunchStep(w, pc, w', pc', i)
    ensures pc.AwaitAck?
  {
  }

  function StepsOf(acts: seq<Action>, i: nat): nat {
    if acts == [] then 0 else (if acts[0].Work? && acts[0].i == i then 1 else 0) + StepsOf(acts[1..], i)
  }

  /**
   * A woken worker with a function to call is never blocked, whatever the other threads do
   * meanwhile, and the step that completes its count finds it idle with everything run.
   */
  lemma {:induction false} JobCompletes(s: System, acts: seq<Action>, i: nat)
    requires Inv(s) && CanRun(s, acts) && i < |s.workers|
    requires StepsLeft(s.workers[i]) > StepsOf(acts, i) && RealJob(s.workers[i])
    ensures
      var t := Run(s, acts);
      && |t.workers| == |s.workers|
      && (forall result :: Enabled(t, Work(i, result)))
      && StepsLeft(t.workers[i]) == StepsLeft(s.workers[i]) - StepsOf(acts, i)
    ensures StepsLeft(s.workers[i]) == StepsOf(acts, i) + 1 ==>
      forall result ::
        var t := Apply(Run(s, acts), Work(i, result));
        t.workers[i].state.WAIT? && t.workers[i].pc.ReadCommand? && AllRan(RunsOf(t.runs, i), Jobs(t, i))
    decreases |acts|
  {
    if acts == [] {
      if StepsLeft(s.workers[i]) == 1 {
        forall result
          ensures
            var t := Apply(s, Work(i, result));
            t.workers[i].state.WAIT? && t.workers[i].pc.ReadCommand? && AllRan(RunsOf(t.runs, i), Jobs(t, i))
        {
          WorkKeeps(s, i, result);
          var t := Apply(s, Work(i, result));
          assert WorkerOk(s.workers[i], s.pc, i, Jobs(s, i), RunsOf(s.runs, i));
        }
      }
    } else {
      Advances(s, acts[0], i);
      StepKeeps(s, acts[0]);
      JobCompletes(Apply(s, acts[0]), acts[1..], i);
    }
  }

  /** Sent off, or about to be, with a NULL function in the shared field. */
  predicate Doomed(w: Worker) { StepsLeft(w) >= 7 && w.f == NULL }

  lemma DoomedWork(s: System, k: nat, result: int, i: nat)
    requires Enabled(s, Work(k, result)) && i < |s.workers| && Doomed(s.workers[i])
    requires WorkerOk(s.workers[i], s.pc, i, Jobs(s, i), RunsOf(s.runs, i))
    ensures
      var t := Apply(s, Work(k, result));
      |t.workers| == |s.workers| && Doomed(t.workers[i]) && RunsOf(t.runs, i) == RunsOf(s.runs, i)
      && (s.workers[i].pc.LoadF? ==> t.workers[i].pc.LoadF?)
  {
    WorkRuns(s, k, result, i);
    assert RunsOf(s.runs, i) + [] == RunsOf(s.runs, i);
  }

  lemma DoomedStays(s: System, a: Action, i: nat)
    requires Inv(s) && Enabled(s, a) && i < |s.workers| && Doomed(s.workers[i])
    ensures
      var t := Apply(s, a);
      |t.workers| == |s.workers| && Doomed(t.workers[i]) && RunsOf(t.runs, i) == RunsOf(s.runs, i)
      && (s.workers[i].pc.LoadF? ==> t.workers[i].pc.LoadF?)
  {
    assert WorkerOk(s.workers[i], s.pc, i, Jobs(s, i), RunsOf(s.runs, i));
    match a
    case Begin(_) =>
    case Launcher =>
      LauncherLeaves(s, i);
      LauncherRunsNothing(s);
    case Work(k, result) => DoomedWork(s, k, result, i);
  }

  lemma LauncherRunsNothing(s: System)
    requires Enabled(s, Launcher)
    ensures LauncherStep(s).runs == s.runs
  {
  }

  /** Such a worker never calls anything again, and once it waits for a function it stays in RUNNING. */
  lemma {:induction false} NullHangs(s: System, acts: seq<Action>, i: nat)
    requires Inv(s) && CanRun(s, acts) && i < |s.workers| && Doomed(s.workers[i])
    ensures
      var t := Run(s, acts);
      && |t.workers| == |s.workers| && Doomed(t.workers[i]) && RunsOf(t.runs, i) == RunsOf(s.runs, i)
      && (s.workers[i].pc.LoadF? ==> t.workers[i].pc.LoadF? && t.workers[i].state.RUNNING?)
    decreases |acts|
  {
    assert WorkerOk(s.workers[i], s.pc, i, Jobs(s, i), RunsOf(s.runs, i));
    if acts != [] {
      StepKeeps(s, acts[0]);
      DoomedStays(s, acts[0], i);
      NullHangs(Apply(s, acts[0]), acts[1..], i);
    }
  }

  // ---- which launches are run ----------------------------------------------------------

  /** The worker alone, step by step until its job is done. */
  lemma {:induction false} WorkAlone(s: System, i: nat, n: nat) returns (acts: seq<Action>)
    requires Inv(s) && i < |s.workers| && RealJob(s.workers[i]) && StepsLeft(s.workers[i]) == n > 0
    ensures CanRun(s, acts) && AllRan(RunsOf(Run(s, acts).runs, i), Jobs(s, i))
    decreases n
  {
    var a := Work(i, 0);
    assert WorkerOk(s.workers[i], s.pc, i, Jobs(s, i), RunsOf(s.runs, i));
    var t := Apply(s, a);
    StepKeeps(s, a);
    WorkRuns(s, i, 0, i);
    Advances(s, a, i);
    if n == 1 {
      acts := [a];
      assert acts[1..] == [];
      assert WorkerOk(t.workers[i], t.pc, i, Jobs(t, i), RunsOf(t.runs, i));
    } else {
      var rest := WorkAlone(t, i, n - 1);
      acts := [a] + rest;
      assert acts[1..] == rest;
    }
  }

  /** Where a woken worker stands with the job of a launch that waits for the acknowledgement. */
  lemma AwaitedJob(w: Worker, pc: LauncherPc, i: nat, j: seq<Job>, r: seq<Execution>)
    requires pc.AwaitAck? && pc.tid == i && WorkerOk(w, pc, i, j, r)
    requires j != [] && j[|j| - 1] == pc.job && RealRuns(r)
    ensures if pc.job.f == NULL then Doomed(w) && OneOwed(r, j)
            else AllRan(r, j) || (RealJob(w) && StepsLeft(w) > 0)
  {
    if AllRan(r, j) {
      assert r[|r| - 1].job == pc.job;
    }
  }

  /** After these steps everything launched on worker i has been run. */
  ghost predicate Completes(s: System, acts: seq<Action>, i: nat) {
    CanRun(s, acts) && AllRan(RunsOf(Run(s, acts).runs, i), Jobs(s, i))
  }

  lemma NullNeverCompletes(s: System, acts: seq<Action>, i: nat)
    requires Inv(s) && i < |s.workers| && Doomed(s.workers[i]) && OneOwed(RunsOf(s.runs, i), Jobs(s, i))
    ensures !Completes(s, acts, i)
  {
    if CanRun(s, acts) {
      NullHangs(s, acts, i);
    }
  }

  /** A launch that has woken its worker can come to be run if and only if its function is not NULL. */
  lemma LaunchDecides(s: System, i: nat)
    requires Inv(s) && s.pc.AwaitAck? && s.pc.tid == i
    ensures s.pc.job.f != NULL <==> exists acts :: Completes(s, acts, i)
  {
    assert WorkerOk(s.workers[i], s.pc, i, Jobs(s, i), RunsOf(s.runs, i));
    RunsAreReal(s.runs, i);
    AwaitedJob(s.workers[i], s.pc, i, Jobs(s, i), RunsOf(s.runs, i));
    if s.pc.job.f == NULL {
      forall acts ensures !Completes(s, acts, i) {
        NullNeverCompletes(s, acts, i);
      }
    } else if AllRan(RunsOf(s.runs, i), Jobs(s, i)) {
      assert Completes(s, [], i);
    } else {
      var acts := WorkAlone(s, i, StepsLeft(s.workers[i]));
      assert Completes(s, acts, i);
    }
  }

  lemma {:induction false} RunOneMore(s: System, acts: seq<Action>, a: Action)
    requires CanRun(s, acts) && Enabled(Run(s, acts), a)
    ensures CanRun(s, acts + [a]) && Run(s, acts + [a]) == Apply(Run(s, acts), a)
    decreases |acts|
  {
    if acts == [] {
      assert acts + [a] == [a] && [a][1..] == [];
    } else {
      assert (acts + [a])[1..] == acts[1..] + [a];
      RunOneMore(Apply(s, acts[0]), acts[1..], a);
    }
  }

  /** The launch of a NULL function on a new pool succeeds, and leaves the worker waiting for ever. */
  lemma NullLaunch(s: System, arg: Pointer) returns (acts: seq<Action>)
    requires Created(s) && s.workers != []
    ensures CanRun(s, acts) && Run(s, acts).log == [Launched(0, Job(NULL, arg))]
    ensures forall more | CanRun(Run(s, acts), more) ::
      var t := Run(Run(s, acts), more);
      t.workers != [] && t.workers[0].pc.LoadF? && t.workers[0].state.RUNNING? && RunsOf(t.runs, 0) == []
  {
    acts := NullLaunched(s, Job(NULL, arg));
    CreatedIsOk(s);
    RunKeeps(s, acts);
    var u := Run(s, acts);
    forall more | CanRun(u, more)
      ensures var t := Run(u, more);
        t.workers != [] && t.workers[0].pc.LoadF? && t.workers[0].state.RUNNING? && RunsOf(t.runs, 0) == []
    {
      NullHangs(u, more, 0);
    }
  }

  lemma NullLaunched(s: System, job: Job) returns (acts: seq<Action>)
    requires Created(s) && s.workers != [] && job.f == NULL
    ensures CanRun(s, acts)
    ensures
      var t := Run(s, acts);
      t.log == [Launched(0, job)] && t.runs == [] && t.workers != [] && t.workers[0].pc.LoadF? && Doomed(t.workers[0])
  {
    var loaded;
    acts, loaded := LaunchAlone(s, job);
    acts := RunWorker(s, acts);
    assert Run(s, acts).workers[0] == loaded.(pc := SetRunning, main2worker := 0);
    acts := RunWorker(s, acts);
    assert Run(s, acts).workers[0] == loaded.(pc := Acknowledge, main2worker := 0, state := RUNNING);
    acts := RunWorker(s, acts);
    assert Run(s, acts).workers[0] == loaded.(pc := LoadF, main2worker := 0, state := RUNNING, worker2main := 1);
    assert Run(s, acts).log == [] && Run(s, acts).runs == [];
    acts := RunLauncher(s, acts);
  }

  /** A launch on worker 0 of a new pool, up to the command: the check, the two stores and the pipe. */
  lemma LaunchAlone(s: System, job: Job) returns (acts: seq<Action>, loaded: Worker)
    requires Created(s) && s.workers != []
    ensures loaded == s.workers[0].(arg := job.arg, f := job.f, main2worker := 1) && New(s.workers[0])
    ensures acts == [Begin(LaunchOn(0, job)), Launcher, Launcher, Launcher, Launcher]
    ensures CanRun(s, acts)
    ensures Run(s, acts) == s.(pc := AwaitAck(0, job), workers := s.workers[0 := loaded])
  {
    var w := s.workers[0];
    assert New(w);
    loaded := w.(arg := job.arg, f := job.f, main2worker := 1);
    acts := [];
    RunOneMore(s, acts, Begin(LaunchOn(0, job)));
    acts := acts + [Begin(LaunchOn(0, job))];
    acts := RunLauncher(s, acts);
    acts := RunLauncher(s, acts);
    assert Run(s, acts) == s.(pc := StoreF(0, job), workers := s.workers[0 := w.(arg := job.arg)]);
    acts := RunLauncher(s, acts);
    assert Run(s, acts).workers == s.workers[0 := w.(arg := job.arg, f := job.f)];
    acts := RunLauncher(s, acts);
    assert Run(s, acts).workers == s.workers[0 := loaded];
  }

  lemma RunLauncher(s: System, acts: seq<Action>) returns (more: seq<Action>)
    requires CanRun(s, acts) && Enabled(Run(s, acts), Launcher)
    ensures more == acts + [Launcher] && CanRun(s, more) && Run(s, more) == LauncherStep(Run(s, acts))
  {
    RunOneMore(s, acts, Launcher);
    more := acts + [Launcher];
  }

  lemma RunWorker(s: System, acts: seq<Action>) returns (more: seq<Action>)
    requires CanRun(s, acts) && Enabled(Run(s, acts), Work(0, 0))
    ensures more == acts + [Work(0, 0)] && CanRun(s, more) && Run(s, more) == Apply(Run(s, acts), Work(0, 0))
  {
    RunOneMore(s, acts, Work(0, 0));
    more := acts + [Work(0, 0)];
  }
}
