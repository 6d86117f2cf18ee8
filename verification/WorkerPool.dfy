/**
 * The closed system of A2/fibs.c around the job queue: one thread that pushes all jobs,
 * destroys the queue and joins the workers, and any number of workers that pop and process.
 * Steps of different threads interleave arbitrarily; a condition wait may also wake up
 * spuriously. Every claim is about all runs.
 */
module WorkerPool {
  import opened JobQueue
  import opened Arithmetic

  /** Where the main thread is; the Sleep states are inside a condition wait. */
  datatype MainPc =
    | Pushing(next: nat)
    | SleepNotFull(next: nat)
    | SleepEmpty
    | Checking
    | Joining(next: nat)
    | Done

  datatype WorkerPc = Ready | SleepNotEmpty | Working(job: Job) | Exited

  /** taken lists the jobs in the order they were popped, finished those processed. */
  datatype Pool = Pool(m: Monitor, main: MainPc, workers: seq<WorkerPc>, taken: seq<Job>, finished: seq<Job>)

  datatype Step = Main | Worker(w: nat) | WakeMain | WakeWorker(w: nat)

  function Start(capacity: nat, workers: nat): Pool {
    Pool(Monitor(capacity, [], false, false), Pushing(0), seq(workers, _ => Ready), [], [])
  }

  // ----- Steps

  function WakeAll(ws: seq<WorkerPc>): (r: seq<WorkerPc>)
    ensures |r| == |ws|
    ensures forall i :: 0 <= i < |ws| ==> r[i] == if ws[i].SleepNotEmpty? then Ready else ws[i]
  {
    seq(|ws|, i requires 0 <= i < |ws| => if ws[i].SleepNotEmpty? then Ready else ws[i])
  }

  predicate Enabled(s: Pool, step: Step) {
    match step
    case Main =>
      (match s.main
       case Pushing(_) => true
       case Checking => true
       case Joining(i) => i >= |s.workers| || s.workers[i].Exited?
       case _ => false)
    case Worker(w) => w < |s.workers| && (s.workers[w].Ready? || s.workers[w].Working?)
    case WakeMain => s.main.SleepNotFull? || s.main.SleepEmpty?
    case WakeWorker(w) => w < |s.workers| && s.workers[w].SleepNotEmpty?
  }

  predicate Spurious(step: Step) { step.WakeMain? || step.WakeWorker? }

  /** The draining loop of destroy looks at the queue. */
  function DestroyRound(s: Pool): Pool {
    if s.m.contents != [] then s.(main := SleepEmpty)
    else s.(m := s.m.(freed := true), main := Joining(0))
  }

  function MainStep(s: Pool, jobs: seq<Job>): Pool {
    match s.main
    case Pushing(i) =>
      if i < |jobs| then
        if PushSleeps(s.m) then s.(main := SleepNotFull(i))
        else s.(m := Pushed(s.m, jobs[i]), main := Pushing(i + 1), workers := WakeAll(s.workers))
      else
        DestroyRound(s.(m := s.m.(destroy := true), workers := WakeAll(s.workers)))
    case Checking => DestroyRound(s)
    case Joining(i) => s.(main := if i < |s.workers| then Joining(i + 1) else Done)
    case _ => s
  }

  /** A pop wakes the pusher, and the destroyer as well if it took the last job. */
  function WakenMain(main: MainPc, emptied: bool): MainPc {
    match main
    case SleepNotFull(i) => Pushing(i)
    case SleepEmpty => if emptied then Checking else SleepEmpty
    case _ => main
  }

  function WorkerStep(s: Pool, w: nat): Pool
    requires w < |s.workers|
  {
    match s.workers[w]
    case Ready =>
      if PopSleeps(s.m) then s.(workers := s.workers[w := SleepNotEmpty])
      else if s.m.contents == [] then s.(workers := s.workers[w := Exited])
      else
        var m := Popped(s.m);
        var job := s.m.contents[0];
        Pool(m, WakenMain(s.main, m.contents == []), s.workers[w := Working(job)], s.taken + [job], s.finished)
    case Working(job) => s.(workers := s.workers[w := Ready], finished := s.finished + [job])
    case _ => s
  }

  function Next(s: Pool, jobs: seq<Job>, step: Step): Pool
    requires Enabled(s, step)
  {
    match step
    case Main => MainStep(s, jobs)
    case Worker(w) => WorkerStep(s, w)
    case WakeMain => s.(main := if s.main.SleepNotFull? then Pushing(s.main.next) else Checking)
    case WakeWorker(w) => s.(workers := s.workers[w := Ready])
  }

  // ----- The invariant

  function InHand(ws: seq<WorkerPc>): multiset<Job> {
    if ws == [] then multiset{}
    else InHand(ws[..|ws| - 1]) + HandOf(ws[|ws| - 1])
  }

  function HandOf(pc: WorkerPc): multiset<Job> {
    if pc.Working? then multiset{pc.job} else multiset{}
  }

  /** How many jobs have been pushed. */
  function PushedCount(main: MainPc, jobs: seq<Job>): nat {
    match main
    case Pushing(i) => i
    case SleepNotFull(i) => i
    case _ => |jobs|
  }

  /** First in, first out: the jobs popped so far, then the queue, are the jobs pushed so far. */
  predicate Fifo(s: Pool, jobs: seq<Job>) {
    && PushedCount(s.main, jobs) <= |jobs|
    && s.taken + s.m.contents == jobs[..PushedCount(s.main, jobs)]
    && multiset(s.finished) + InHand(s.workers) == multiset(s.taken)
    && |s.m.contents| <= s.m.size
  }

  /** Who may sleep, with the mutex free: nobody whose condition holds. */
  predicate NoLostWakeup(s: Pool) {
    && (s.main.SleepNotFull? ==> |s.m.contents| == s.m.size)
    && (s.main.SleepEmpty? ==> s.m.contents != [])
    && (forall w :: 0 <= w < |s.workers| && s.workers[w].SleepNotEmpty? ==> s.m.contents == [] && !s.m.destroy)
  }

  /** Destroying, freeing and leaving happen in this order, and freed memory has no reader. */
  predicate Shutdown(s: Pool, jobs: seq<Job>) {
    && (s.m.destroy <==> s.main.SleepEmpty? || s.main.Checking? || s.main.Joining? || s.main.Done?)
    && (s.m.freed <==> s.main.Joining? || s.main.Done?)
    && (s.m.freed ==> s.m.contents == [])
    && (s.main.SleepNotFull? ==> s.main.next < |jobs|)
    && (forall w :: 0 <= w < |s.workers| && s.workers[w].Exited? ==> s.m.destroy && s.m.contents == [])
    && (s.main.Joining? ==> s.main.next <= |s.workers| && forall w :: 0 <= w < s.main.next ==> s.workers[w].Exited?)
    && (s.main.Done? ==> forall w :: 0 <= w < |s.workers| ==> s.workers[w].Exited?)
  }

  predicate Inv(s: Pool, jobs: seq<Job>) {
    Fifo(s, jobs) && NoLostWakeup(s) && Shutdown(s, jobs)
  }

  lemma {:induction false} InHandWake(ws: seq<WorkerPc>)
    ensures InHand(WakeAll(ws)) == InHand(ws)
  {
    if ws != [] {
      assert WakeAll(ws)[..|ws| - 1] == WakeAll(ws[..|ws| - 1]);
      InHandWake(ws[..|ws| - 1]);
    }
  }

  lemma Exchange(a: multiset<Job>, x: multiset<Job>, b: multiset<Job>, y: multiset<Job>, c: multiset<Job>)
    requires a + x == b + y
    ensures (a + c) + x == (b + c) + y
  {
    assert (a + c) + x == (a + x) + c;
    assert (b + c) + y == (b + y) + c;
  }

  lemma SwapHands(a: multiset<Job>, x: multiset<Job>, y: multiset<Job>)
    ensures (a + x) + y == (a + y) + x
  {}

  lemma InHandLast(ws: seq<WorkerPc>)
    requires ws != []
    ensures InHand(ws) == InHand(ws[..|ws| - 1]) + HandOf(ws[|ws| - 1])
  {
    hide HandOf;
  }

  lemma LastHandUpdate(ws: seq<WorkerPc>, pc: WorkerPc)
    requires ws != []
    ensures InHand(ws[|ws| - 1 := pc]) + HandOf(ws[|ws| - 1]) == InHand(ws) + HandOf(pc)
  {
    hide InHand, HandOf;
    var n := |ws| - 1;
    assert ws[n := pc][..n] == ws[..n];
    InHandLast(ws);
    InHandLast(ws[n := pc]);
    SwapHands(InHand(ws[..n]), HandOf(pc), HandOf(ws[n]));
  }

  lemma {:induction false} InHandUpdate(ws: seq<WorkerPc>, w: nat, pc: WorkerPc)
    requires w < |ws|
    ensures InHand(ws[w := pc]) + HandOf(ws[w]) == InHand(ws) + HandOf(pc)
  {
    hide InHand, HandOf;
    var n := |ws| - 1;
    if w == n {
      LastHandUpdate(ws, pc);
    } else {
      assert ws[w := pc][..n] == ws[..n][w := pc];
      InHandUpdate(ws[..n], w, pc);
      InHandLast(ws);
      InHandLast(ws[w := pc]);
      Exchange(InHand(ws[..n][w := pc]), HandOf(ws[w]), InHand(ws[..n]), HandOf(pc), HandOf(ws[n]));
    }
  }

  lemma InHandSame(ws: seq<WorkerPc>, w: nat, pc: WorkerPc)
    requires w < |ws| && !ws[w].Working? && !pc.Working?
    ensures InHand(ws[w := pc]) == InHand(ws)
  {
    hide InHand;
    InHandUpdate(ws, w, pc);
    assert InHand(ws[w := pc]) == InHand(ws[w := pc]) + HandOf(ws[w]);
    assert InHand(ws) == InHand(ws) + HandOf(pc);
  }

  lemma {:induction false} InHandNone(ws: seq<WorkerPc>)
    requires forall w :: 0 <= w < |ws| ==> !ws[w].Working?
    ensures InHand(ws) == multiset{}
  {
    if ws != [] { InHandNone(ws[..|ws| - 1]); }
  }

  lemma StartInv(capacity: nat, workers: nat, jobs: seq<Job>)
    ensures Inv(Start(capacity, workers), jobs)
  {
    InHandNone(Start(capacity, workers).workers);
  }

  lemma MainFifo(s: Pool, jobs: seq<Job>)
    requires Inv(s, jobs) && Enabled(s, Main)
    ensures Fifo(MainStep(s, jobs), jobs)
  {
    hide NoLostWakeup, Shutdown, InHand;
    InHandWake(s.workers);
    if s.main.Pushing? && s.main.next < |jobs| {
      assert jobs[..s.main.next + 1] == jobs[..s.main.next] + [jobs[s.main.next]];
    }
  }

  lemma MainInv(s: Pool, jobs: seq<Job>)
    requires Inv(s, jobs) && Enabled(s, Main)
    ensures Inv(MainStep(s, jobs), jobs)
  {
    hide InHand, Fifo;
    MainFifo(s, jobs);
    MainCount(s, jobs);
  }

  lemma MainCount(s: Pool, jobs: seq<Job>)
    requires Inv(s, jobs)
    ensures PushedCount(s.main, jobs) <= |jobs|
  {}

  /** A pop moves the first waiting job to the hands of one worker, and wakes whom it concerns. */
  lemma PopFifo(s: Pool, jobs: seq<Job>, w: nat)
    requires Inv(s, jobs) && Enabled(s, Worker(w)) && s.workers[w].Ready? && s.m.contents != []
    ensures Fifo(WorkerStep(s, w), jobs)
  {
    hide NoLostWakeup, Shutdown, InHand;
    var r, job := WorkerStep(s, w), s.m.contents[0];
    InHandUpdate(s.workers, w, Working(job));
    assert s.m.contents == [job] + s.m.contents[1..];
    assert r.taken + r.m.contents == s.taken + s.m.contents;
    assert PushedCount(r.main, jobs) == PushedCount(s.main, jobs);
    assert InHand(r.workers) == InHand(s.workers) + multiset{job};
    assert multiset(r.taken) == multiset(s.taken) + multiset{job};
  }

  lemma PopInv(s: Pool, jobs: seq<Job>, w: nat)
    requires Inv(s, jobs) && Enabled(s, Worker(w)) && s.workers[w].Ready? && s.m.contents != []
    ensures Inv(WorkerStep(s, w), jobs)
  {
    hide Fifo;
    PopFifo(s, jobs, w);
    SizeBound(s, jobs);
  }

  lemma SizeBound(s: Pool, jobs: seq<Job>)
    requires Inv(s, jobs)
    ensures |s.m.contents| <= s.m.size
  {}

  /** A processed job moves from the worker's hands to the finished ones. */
  lemma FinishInv(s: Pool, jobs: seq<Job>, w: nat)
    requires Inv(s, jobs) && w < |s.workers| && s.workers[w].Working?
    ensures Inv(WorkerStep(s, w), jobs)
  {
    hide InHand;
    var r, job := WorkerStep(s, w), s.workers[w].job;
    InHandUpdate(s.workers, w, Ready);
    assert multiset(r.finished) == multiset(s.finished) + multiset{job};
    assert InHand(r.workers) + multiset{job} == InHand(s.workers);
  }

  /** Falling asleep and leaving touch neither queue nor jobs. */
  lemma SleepOrLeaveInv(s: Pool, jobs: seq<Job>, w: nat)
    requires Inv(s, jobs) && w < |s.workers| && s.workers[w].Ready? && s.m.contents == []
    ensures Inv(WorkerStep(s, w), jobs)
  {
    hide InHand;
    InHandSame(s.workers, w, if PopSleeps(s.m) then SleepNotEmpty else Exited);
  }

  lemma WakeInv(s: Pool, jobs: seq<Job>, step: Step)
    requires Inv(s, jobs) && Enabled(s, step) && Spurious(step)
    ensures Inv(Next(s, jobs, step), jobs)
  {
    hide InHand;
    if step.WakeWorker? {
      InHandSame(s.workers, step.w, Ready);
    }
  }

  /** Every step of every thread, spurious wakeups included, keeps the invariant. */
  lemma InvNext(s: Pool, jobs: seq<Job>, step: Step)
    requires Inv(s, jobs) && Enabled(s, step)
    ensures Inv(Next(s, jobs, step), jobs)
  {
    hide Inv, MainStep, WorkerStep;
    match step
    case Main => MainInv(s, jobs);
    case Worker(w) =>
      if s.workers[w].Working? {
        FinishInv(s, jobs, w);
      } else if s.m.contents != [] {
        PopInv(s, jobs, w);
      } else {
        SleepOrLeaveInv(s, jobs, w);
      }
    case WakeMain => WakeInv(s, jobs, step);
    case WakeWorker(w) => WakeInv(s, jobs, step);
  }

  lemma NextShape(s: Pool, jobs: seq<Job>, step: Step)
    requires Enabled(s, step)
    ensures Next(s, jobs, step).m.size == s.m.size && |Next(s, jobs, step).workers| == |s.workers|
  {}

  // ----- Progress

  /** With room for at least one job and at least one worker, some thread can always go on. */
  lemma NoDeadlock(s: Pool, jobs: seq<Job>) returns (step: Step)
    requires Inv(s, jobs) && s.m.size >= 1 && |s.workers| >= 1 && !s.main.Done?
    ensures Enabled(s, step) && !Spurious(step)
  {
    hide Fifo, InHand;
    if Enabled(s, Main) {
      step := Main;
    } else if s.main.Joining? {
      step := Worker(s.main.next);
    } else {
      step := Worker(0);
    }
  }

  /** After the array is freed no step of any thread touches the waiting jobs. */
  lemma FreedIsFinal(s: Pool, jobs: seq<Job>, step: Step)
    requires Inv(s, jobs) && s.m.freed && Enabled(s, step)
    ensures Next(s, jobs, step).m == s.m && Next(s, jobs, step).taken == s.taken
  {
    hide Fifo, InHand;
  }

  /** When the main thread is done, every job was processed exactly once and all workers have left. */
  lemma DoneMeansProcessed(s: Pool, jobs: seq<Job>)
    requires Inv(s, jobs) && s.main.Done?
    ensures multiset(s.finished) == multiset(jobs) && s.taken == jobs && s.m.freed
    ensures forall w :: 0 <= w < |s.workers| ==> s.workers[w].Exited?
  {
    InHandNone(s.workers);
    assert s.taken + [] == s.taken;
    assert jobs[..|jobs|] == jobs;
  }

  // ----- Termination

  function WorkerWork(pc: WorkerPc): nat {
    match pc
    case Working(_) => 2
    case Exited => 0
    case _ => 1
  }

  function Awake(pc: WorkerPc): nat { if pc.Ready? then 1 else 0 }

  function Total(ws: seq<WorkerPc>, f: WorkerPc -> nat): nat {
    if ws == [] then 0 else Total(ws[..|ws| - 1], f) + f(ws[|ws| - 1])
  }

  lemma {:induction false} TotalUpdate(ws: seq<WorkerPc>, w: nat, pc: WorkerPc, f: WorkerPc -> nat)
    requires w < |ws|
    ensures Total(ws[w := pc], f) + f(ws[w]) == Total(ws, f) + f(pc)
  {
    var n := |ws| - 1;
    if w == n {
      assert ws[w := pc][..n] == ws[..n];
    } else {
      assert ws[w := pc][..n] == ws[..n][w := pc];
      TotalUpdate(ws[..n], w, pc, f);
    }
  }

  lemma {:induction false} WorkWake(ws: seq<WorkerPc>)
    ensures Total(WakeAll(ws), WorkerWork) == Total(ws, WorkerWork)
  {
    if ws != [] {
      assert WakeAll(ws)[..|ws| - 1] == WakeAll(ws[..|ws| - 1]);
      WorkWake(ws[..|ws| - 1]);
    }
  }

  lemma {:induction false} AwakeBound(ws: seq<WorkerPc>)
    ensures Total(ws, Awake) <= |ws|
  {
    if ws != [] { AwakeBound(ws[..|ws| - 1]); }
  }

  function MainWork(main: MainPc, jobs: nat, workers: nat): nat {
    match main
    case Pushing(i) => (if i < jobs then 3 * (jobs - i) else 0) + workers + 4
    case SleepNotFull(i) => (if i < jobs then 3 * (jobs - i) else 0) + workers + 4
    case SleepEmpty => workers + 3
    case Checking => workers + 3
    case Joining(i) => (if i < workers then workers - i else 0) + 1
    case Done => 0
  }

  function MainAwake(main: MainPc): nat { if main.Pushing? || main.Checking? then 1 else 0 }

  /** What remains to be done, regardless of who is asleep. */
  function Work(s: Pool, jobs: seq<Job>): nat {
    MainWork(s.main, |jobs|, |s.workers|) + 2 * |s.m.contents| + Total(s.workers, WorkerWork)
  }

  function AwakeCount(s: Pool): nat { MainAwake(s.main) + Total(s.workers, Awake) }

  /** Going to sleep costs one unit, getting anything done more than everyone together can sleep. */
  function Measure(s: Pool, jobs: seq<Job>): nat {
    MulNonNegative(Work(s, jobs), |s.workers| + 2);
    Work(s, jobs) * (|s.workers| + 2) + AwakeCount(s)
  }

  lemma MainProgress(s: Pool, jobs: seq<Job>)
    requires Inv(s, jobs) && Enabled(s, Main)
    ensures var r := MainStep(s, jobs);
      Work(r, jobs) < Work(s, jobs) || (Work(r, jobs) == Work(s, jobs) && AwakeCount(r) < AwakeCount(s))
  {
    hide InHand, NoLostWakeup;
    WorkWake(s.workers);
  }

  lemma WorkerProgress(s: Pool, jobs: seq<Job>, w: nat)
    requires Inv(s, jobs) && Enabled(s, Worker(w))
    ensures var r := WorkerStep(s, w);
      Work(r, jobs) < Work(s, jobs) || (Work(r, jobs) == Work(s, jobs) && AwakeCount(r) < AwakeCount(s))
  {
    hide InHand, NoLostWakeup, Shutdown, Fifo;
    var r := WorkerStep(s, w);
    TotalUpdate(s.workers, w, r.workers[w], WorkerWork);
    TotalUpdate(s.workers, w, r.workers[w], Awake);
    assert r.workers == s.workers[w := r.workers[w]];
  }

  lemma Weigh(a: nat, b: nat, n: nat)
    requires a < b && n > 0
    ensures a * n + n <= b * n
  {
    var d := b - a;
    MulAtLeast(n, d);
    assert (a + d) * n == a * n + d * n;
  }

  /** Every step except a spurious wakeup brings the system closer to its end. */
  lemma MeasureDecreases(s: Pool, jobs: seq<Job>, step: Step)
    requires Inv(s, jobs) && Enabled(s, step) && !Spurious(step)
    ensures Measure(Next(s, jobs, step), jobs) < Measure(s, jobs)
  {
    hide Inv, MainStep, WorkerStep, Work, InHand;
    var r := Next(s, jobs, step);
    NextShape(s, jobs, step);
    AwakeBound(r.workers);
    match step {
      case Main => MainProgress(s, jobs);
      case Worker(w) => WorkerProgress(s, jobs, w);
    }
    if Work(r, jobs) < Work(s, jobs) { Weigh(Work(r, jobs), Work(s, jobs), |s.workers| + 2); }
  }

  // ----- Runs

  /** Every step of the run is enabled where it is taken. */
  predicate Legal(s: Pool, jobs: seq<Job>, steps: seq<Step>)
    decreases |steps|
  {
    steps == [] || (Enabled(s, steps[0]) && Legal(Next(s, jobs, steps[0]), jobs, steps[1..]))
  }

  function Run(s: Pool, jobs: seq<Job>, steps: seq<Step>): Pool
    requires Legal(s, jobs, steps)
    decreases |steps|
  {
    if steps == [] then s else Run(Next(s, jobs, steps[0]), jobs, steps[1..])
  }

  lemma {:induction false} RunInv(s: Pool, jobs: seq<Job>, steps: seq<Step>)
    requires Inv(s, jobs) && Legal(s, jobs, steps)
    ensures Inv(Run(s, jobs, steps), jobs)
    ensures Run(s, jobs, steps).m.size == s.m.size && |Run(s, jobs, steps).workers| == |s.workers|
    decreases |steps|
  {
    hide Inv, Next, Enabled;
    if steps != [] {
      InvNext(s, jobs, steps[0]);
      NextShape(s, jobs, steps[0]);
      RunInv(Next(s, jobs, steps[0]), jobs, steps[1..]);
    }
  }

  /** Without spurious wakeups no run is longer than the measure of where it starts. */
  lemma {:induction false} RunsAreFinite(s: Pool, jobs: seq<Job>, steps: seq<Step>)
    requires Inv(s, jobs) && Legal(s, jobs, steps)
    requires forall i :: 0 <= i < |steps| ==> !Spurious(steps[i])
    ensures |steps| + Measure(Run(s, jobs, steps), jobs) <= Measure(s, jobs)
    decreases |steps|
  {
    hide Inv, Next, Enabled, Measure;
    if steps != [] {
      InvNext(s, jobs, steps[0]);
      MeasureDecreases(s, jobs, steps[0]);
      RunsAreFinite(Next(s, jobs, steps[0]), jobs, steps[1..]);
    }
  }

  /**
   * From the start of the program: a run that cannot go on (other than by a spurious wakeup)
   * has processed every job exactly once, freed the queue and seen every worker leave.
   */
  lemma MaximalRunsFinish(capacity: nat, workers: nat, jobs: seq<Job>, steps: seq<Step>)
    requires capacity >= 1 && workers >= 1
    requires Legal(Start(capacity, workers), jobs, steps)
    requires forall step :: Enabled(Run(Start(capacity, workers), jobs, steps), step) ==> Spurious(step)
    ensures var s := Run(Start(capacity, workers), jobs, steps);
      && s.main.Done? && multiset(s.finished) == multiset(jobs) && s.taken == jobs && s.m.freed
      && forall w :: 0 <= w < |s.workers| ==> s.workers[w].Exited?
  {
    hide Inv, Next, Enabled;
    StartInv(capacity, workers, jobs);
    RunInv(Start(capacity, workers), jobs, steps);
    var s := Run(Start(capacity, workers), jobs, steps);
    if !s.main.Done? { var step := NoDeadlock(s, jobs); }
    DoneMeansProcessed(s, jobs);
  }

  // ----- When the program can hang

  /** Some run from the start reaches a state that is not done and in which nobody can go on. */
  ghost predicate CanHang(capacity: nat, workers: nat, jobs: seq<Job>) {
    exists steps :: Hangs(capacity, workers, jobs, steps)
  }

  ghost predicate Hangs(capacity: nat, workers: nat, jobs: seq<Job>, steps: seq<Step>) {
    && Legal(Start(capacity, workers), jobs, steps)
    && var s := Run(Start(capacity, workers), jobs, steps);
      !s.main.Done? && forall step :: Enabled(s, step) ==> Spurious(step)
  }

  function WorkersFrom(k: nat, n: nat): seq<Step>
    requires k <= n
    decreases n - k
  {
    if k == n then [] else [Worker(k)] + WorkersFrom(k + 1, n)
  }

  predicate StuckUpTo(s: Pool, k: nat) {
    && s.main.SleepNotFull? && s.m.contents == [] && !s.m.destroy && k <= |s.workers|
    && (forall w :: 0 <= w < k ==> s.workers[w].SleepNotEmpty?)
    && (forall w :: k <= w < |s.workers| ==> s.workers[w].Ready?)
  }

  /** With an empty queue and the pusher asleep, the workers fall asleep one by one. */
  lemma {:induction false} AllFallAsleep(s: Pool, jobs: seq<Job>, k: nat)
    requires StuckUpTo(s, k)
    ensures Legal(s, jobs, WorkersFrom(k, |s.workers|))
    ensures StuckUpTo(Run(s, jobs, WorkersFrom(k, |s.workers|)), |s.workers|)
    ensures |Run(s, jobs, WorkersFrom(k, |s.workers|)).workers| == |s.workers|
    decreases |s.workers| - k
  {
    if k < |s.workers| {
      var n, steps := |s.workers|, WorkersFrom(k, |s.workers|);
      var r := Next(s, jobs, Worker(k));
      assert steps[0] == Worker(k) && steps[1..] == WorkersFrom(k + 1, n);
      AllFallAsleep(r, jobs, k + 1);
    }
  }

  /** The program, with at least one worker, can hang exactly when it has a job and no room for any. */
  lemma HangsOnlyWithoutRoom(capacity: nat, workers: nat, jobs: seq<Job>)
    requires workers >= 1
    ensures CanHang(capacity, workers, jobs) <==> capacity == 0 && jobs != []
  {
    hide Inv;
    if capacity == 0 && jobs != [] {
      var s0 := Start(0, workers);
      var s1 := Next(s0, jobs, Main);
      var steps := [Main] + WorkersFrom(0, workers);
      assert steps[1..] == WorkersFrom(0, workers);
      AllFallAsleep(s1, jobs, 0);
      assert Hangs(capacity, workers, jobs, steps);
    }
    forall steps | Hangs(capacity, workers, jobs, steps) ensures capacity == 0 && jobs != [] {
      var s := Run(Start(capacity, workers), jobs, steps);
      StartInv(capacity, workers, jobs);
      RunInv(Start(capacity, workers), jobs, steps);
      if capacity >= 1 {
        var step := NoDeadlock(s, jobs);
      } else if jobs == [] {
        var step := NoDeadlockWithoutJobs(s, jobs);
      }
    }
  }

  lemma NoDeadlockWithoutJobs(s: Pool, jobs: seq<Job>) returns (step: Step)
    requires Inv(s, jobs) && jobs == [] && |s.workers| >= 1 && !s.main.Done?
    ensures Enabled(s, step) && !Spurious(step)
  {
    hide InHand;
    if Enabled(s, Main) {
      step := Main;
    } else {
      step := Worker(s.main.next);
    }
  }
}
