/** httplib's ThreadPool: workers taking jobs from a list, and the shutdown that drains it. */
module ThreadPool {

  type Job = int

  /** Where a worker stands in its loop; a job runs outside the lock. */
  datatype Worker = Ready | Asleep | Running(job: Job) | Left

  /**
   * `beforeShutdown` is how many jobs had been enqueued when the flag was set; `finished` is in order of completion.
   */
  datatype Pool = Pool(
    jobs: seq<Job>, shutdown: bool, notifiedAll: bool, workers: seq<Worker>,
    enqueued: seq<Job>, taken: seq<Job>, finished: seq<Job>, beforeShutdown: nat)

  predicate Initial(p: Pool) {
    && p.jobs == p.enqueued == p.taken == p.finished == [] && !p.shutdown && !p.notifiedAll && p.beforeShutdown == 0
    && forall w :: 0 <= w < |p.workers| ==> p.workers[w] == Ready
  }

  function Put(p: Pool, w: nat, x: Worker): Pool
    requires w < |p.workers|
  {
    p.(workers := p.workers[w := x])
  }

  // ---- the list of jobs, under the lock ----

  datatype Decision = Leave | Sleep | Take(job: Job)

  function Decide(jobs: seq<Job>, shutdown: bool): Decision {
    if jobs == [] then if shutdown then Leave else Sleep else Take(jobs[0])
  }

  /** What the pool's mutex guards; each method is one critical section. */
  class JobList {
    var jobs: seq<Job>
    var shutdown: bool

    constructor ()
      ensures jobs == [] && !shutdown
    {
      jobs, shutdown := [], false;
    }

    method Enqueue(job: Job)
      modifies this`jobs
      ensures jobs == old(jobs) + [job]
    {
      jobs := jobs + [job];
    }

    method SetShutdown()
      modifies this`shutdown
      ensures shutdown
    {
      shutdown := true;
    }

    /** One turn of the worker's loop, from the lock to its release. */
    method Next() returns (d: Decision)
      modifies this`jobs
      ensures d == Decide(old(jobs), shutdown)
      ensures jobs == if d.Take? then old(jobs)[1..] else old(jobs)
    {
      if !(jobs != [] || shutdown) { return Sleep; }
      if shutdown && jobs == [] { return Leave; }
      d := Take(jobs[0]);
      jobs := jobs[1..];
    }
  }

  // ---- the steps ----

  /** enqueue: the notification is sent with the lock held, to some sleeper if there is one. */
  ghost predicate EnqueueJob(p: Pool, job: Job, p': Pool) {
    var q := p.(jobs := p.jobs + [job], enqueued := p.enqueued + [job]);
    if exists w :: 0 <= w < |p.workers| && p.workers[w] == Asleep
    then exists w: nat :: w < |p.workers| && p.workers[w] == Asleep && p' == Put(q, w, Ready)
    else p' == q
  }

  ghost predicate EnqueueStep(p: Pool, p': Pool) { exists job :: EnqueueJob(p, job, p') }

  predicate SetFlagStep(p: Pool, p': Pool) {
    !p.shutdown && p' == p.(shutdown := true, beforeShutdown := |p.enqueued|)
  }

  function WokenAll(workers: seq<Worker>): (r: seq<Worker>)
    ensures |r| == |workers|
  {
    seq(|workers|, w requires 0 <= w < |workers| => if workers[w] == Asleep then Ready else workers[w])
  }

  predicate NotifyAllStep(p: Pool, p': Pool) {
    p.shutdown && !p.notifiedAll && p' == p.(notifiedAll := true, workers := WokenAll(p.workers))
  }

  /** The wait loop of a worker: leave, sleep or take the oldest job. */
  predicate CheckStep(p: Pool, w: nat, p': Pool)
    requires w < |p.workers|
  {
    p.workers[w] == Ready &&
    match Decide(p.jobs, p.shutdown)
    case Leave => p' == Put(p, w, Left)
    case Sleep => p' == Put(p, w, Asleep)
    case Take(job) => p' == Put(p, w, Running(job)).(jobs := p.jobs[1..], taken := p.taken + [job])
  }

  predicate FinishStep(p: Pool, w: nat, p': Pool)
    requires w < |p.workers|
  {
    p.workers[w].Running? && p' == Put(p, w, Ready).(finished := p.finished + [p.workers[w].job])
  }

  predicate SpuriousStep(p: Pool, w: nat, p': Pool)
    requires w < |p.workers|
  {
    p.workers[w] == Asleep && p' == Put(p, w, Ready)
  }

  /** What a worker does on its own. */
  ghost predicate WorkerStep(p: Pool, p': Pool) {
    exists w: nat :: w < |p.workers| && (CheckStep(p, w, p') || FinishStep(p, w, p') || SpuriousStep(p, w, p'))
  }

  ghost predicate Next(p: Pool, p': Pool) {
    EnqueueStep(p, p') || SetFlagStep(p, p') || NotifyAllStep(p, p') || WorkerStep(p, p')
  }

  ghost predicate IsRun(run: seq<Pool>) {
    run != [] && Initial(run[0]) && forall i :: 0 <= i < |run| - 1 ==> Next(run[i], run[i + 1])
  }

  // ---- counting ----

  function Count(workers: seq<Worker>, x: Worker): nat {
    if workers == [] then 0 else (if workers[0] == x then 1 else 0) + Count(workers[1..], x)
  }

  function JobOf(x: Worker): multiset<Job> {
    if x.Running? then multiset{x.job} else multiset{}
  }

  function RunningJobs(workers: seq<Worker>): multiset<Job> {
    if workers == [] then multiset{} else JobOf(workers[0]) + RunningJobs(workers[1..])
  }

  lemma {:induction false} Putting(workers: seq<Worker>, w: nat, x: Worker, y: Worker)
    requires w < |workers|
    ensures Count(workers[w := x], y)
        == Count(workers, y) - (if workers[w] == y then 1 else 0) + if x == y then 1 else 0
  {
    if w > 0 {
      assert workers[w := x][1..] == workers[1..][w - 1 := x];
      Putting(workers[1..], w - 1, x, y);
    }
  }

  lemma {:induction false} PuttingJobs(workers: seq<Worker>, w: nat, x: Worker)
    requires w < |workers|
    ensures RunningJobs(workers[w := x]) + JobOf(workers[w]) == RunningJobs(workers) + JobOf(x)
  {
    hide JobOf;
    var rest := workers[1..];
    if w > 0 {
      assert workers[w := x][1..] == rest[w - 1 := x];
      PuttingJobs(rest, w - 1, x);
      Regroup(JobOf(workers[0]), RunningJobs(rest[w - 1 := x]), JobOf(workers[w]), RunningJobs(rest), JobOf(x));
    } else {
      assert workers[w := x][1..] == rest;
      assert (JobOf(x) + RunningJobs(rest)) + JobOf(workers[0]) == (JobOf(workers[0]) + RunningJobs(rest)) + JobOf(x);
    }
  }

  lemma Regroup(head: multiset<Job>, a: multiset<Job>, x: multiset<Job>, b: multiset<Job>, y: multiset<Job>)
    requires a + x == b + y
    ensures (head + a) + x == (head + b) + y
  {
    assert (head + a) + x == head + (a + x) && (head + b) + y == head + (b + y);
  }

  lemma {:induction false} CountZero(workers: seq<Worker>, x: Worker)
    ensures Count(workers, x) == 0 <==> forall w :: 0 <= w < |workers| ==> workers[w] != x
  {
    if workers != [] {
      CountZero(workers[1..], x);
      assert forall w :: 0 < w < |workers| ==> workers[w] == workers[1..][w - 1];
      assert forall w :: 0 <= w < |workers| - 1 ==> workers[1..][w] == workers[w + 1];
    }
  }

  lemma {:induction false} WakingAll(workers: seq<Worker>)
    ensures Count(WokenAll(workers), Asleep) == 0
    ensures Count(WokenAll(workers), Left) == Count(workers, Left)
  {
    if workers != [] {
      WakingAll(workers[1..]);
      assert WokenAll(workers)[1..] == WokenAll(workers[1..]);
    }
  }

  lemma {:induction false} WakingAllKeepsJobs(workers: seq<Worker>)
    ensures RunningJobs(WokenAll(workers)) == RunningJobs(workers)
  {
    if workers != [] {
      WakingAllKeepsJobs(workers[1..]);
      assert WokenAll(workers)[1..] == WokenAll(workers[1..]);
      assert JobOf(WokenAll(workers)[0]) == JobOf(workers[0]);
    }
  }

  // ---- the invariant ----

  ghost predicate Inv(p: Pool) {
    && p.enqueued == p.taken + p.jobs
    && multiset(p.finished) + RunningJobs(p.workers) == multiset(p.taken)
    && (p.notifiedAll ==> p.shutdown && Count(p.workers, Asleep) == 0)
    && (p.shutdown ==> p.beforeShutdown <= |p.enqueued|)
    && (Count(p.workers, Left) > 0 ==> p.shutdown && |p.taken| >= p.beforeShutdown)
    && (Count(p.workers, Asleep) > 0 ==> |p.jobs| <= Count(p.workers, Ready) || p.shutdown)
  }

  lemma Puts(p: Pool, w: nat, x: Worker)
    requires w < |p.workers|
    ensures var now := Put(p, w, x).workers;
      forall y :: Count(now, y) == Count(p.workers, y) - (if p.workers[w] == y then 1 else 0) + if x == y then 1 else 0
    ensures var was, now := RunningJobs(p.workers), RunningJobs(Put(p, w, x).workers);
      && (!p.workers[w].Running? && !x.Running? ==> now == was)
      && (!p.workers[w].Running? && x.Running? ==> now == was + multiset{x.job})
      && (p.workers[w].Running? && !x.Running? ==> now + multiset{p.workers[w].job} == was)
  {
    var next := Put(p, w, x).workers;
    forall y
      ensures Count(next, y) == Count(p.workers, y) - (if p.workers[w] == y then 1 else 0) + if x == y then 1 else 0
    {
      Putting(p.workers, w, x, y);
    }
    PuttingJobs(p.workers, w, x);
    var was, now := RunningJobs(p.workers), RunningJobs(Put(p, w, x).workers);
    assert was + multiset{} == was && now + multiset{} == now;
  }

  lemma EnqueueKeeps(p: Pool, p': Pool)
    requires Inv(p) && EnqueueStep(p, p')
    ensures Inv(p')
  {
    hide Count, RunningJobs;
    if exists w :: 0 <= w < |p.workers| && p.workers[w] == Asleep {
      var w: nat :| w < |p.workers| && p.workers[w] == Asleep && p'.workers == p.workers[w := Ready];
      Puts(p, w, Ready);
    } else {
      CountZero(p.workers, Asleep);
    }
  }

  lemma CheckKeeps(p: Pool, w: nat, p': Pool)
    requires Inv(p) && w < |p.workers| && CheckStep(p, w, p')
    ensures Inv(p')
  {
    hide Count, RunningJobs;
    Puts(p, w, p'.workers[w]);
    CountZero(p.workers, Asleep);
    if p.jobs != [] {
      assert p.taken + p.jobs == (p.taken + [p.jobs[0]]) + p.jobs[1..];
    }
  }

  lemma FinishKeeps(p: Pool, w: nat, p': Pool)
    requires Inv(p) && w < |p.workers| && FinishStep(p, w, p')
    ensures Inv(p')
  {
    hide Count, RunningJobs;
    Puts(p, w, Ready);
  }

  lemma OtherStepsKeep(p: Pool, p': Pool)
    requires Inv(p)
    requires SetFlagStep(p, p') || NotifyAllStep(p, p') || exists w: nat :: w < |p.workers| && SpuriousStep(p, w, p')
    ensures Inv(p')
  {
    hide Count, RunningJobs;
    if SetFlagStep(p, p') {
    } else if NotifyAllStep(p, p') {
      WakingAll(p.workers);
      WakingAllKeepsJobs(p.workers);
    } else {
      var w: nat :| w < |p.workers| && SpuriousStep(p, w, p');
      Puts(p, w, Ready);
    }
  }

  lemma StepKeeps(p: Pool, p': Pool)
    requires Inv(p) && Next(p, p')
    ensures Inv(p')
  {
    hide Inv, EnqueueStep, CheckStep, FinishStep, SpuriousStep;
    if EnqueueStep(p, p') {
      EnqueueKeeps(p, p');
    } else if WorkerStep(p, p') {
      var w: nat :| w < |p.workers| && (CheckStep(p, w, p') || FinishStep(p, w, p') || SpuriousStep(p, w, p'));
      if CheckStep(p, w, p') { CheckKeeps(p, w, p'); }
      else if FinishStep(p, w, p') { FinishKeeps(p, w, p'); }
      else { OtherStepsKeep(p, p'); }
    } else {
      OtherStepsKeep(p, p');
    }
  }

  lemma {:induction false} NoneBusy(workers: seq<Worker>)
    requires forall w :: 0 <= w < |workers| ==> !workers[w].Running?
    ensures RunningJobs(workers) == multiset{}
  {
    if workers != [] { NoneBusy(workers[1..]); }
  }

  lemma {:induction false} RunKeeps(run: seq<Pool>, i: nat)
    requires IsRun(run) && i < |run|
    ensures Inv(run[i])
  {
    if i == 0 {
      hide Count, RunningJobs;
      CountZero(run[0].workers, Asleep);
      CountZero(run[0].workers, Left);
      NoneBusy(run[0].workers);
    } else {
      hide Inv, Next;
      RunKeeps(run, i - 1);
      StepKeeps(run[i - 1], run[i]);
    }
  }

  // ---- the promises ----

  /** Jobs are taken in the order they were enqueued, each exactly once, and every taken job is running or finished. */
  lemma JobsInOrder(run: seq<Pool>, i: nat)
    requires IsRun(run) && i < |run|
    ensures run[i].enqueued == run[i].taken + run[i].jobs
    ensures multiset(run[i].taken) == multiset(run[i].finished) + RunningJobs(run[i].workers)
  {
    RunKeeps(run, i);
  }

  lemma EnqueuedStays(p: Pool, p': Pool)
    requires Inv(p) && Next(p, p')
    ensures p.enqueued <= p'.enqueued
    ensures p.shutdown ==> p'.shutdown && p'.beforeShutdown == p.beforeShutdown
    ensures !p.shutdown && p'.shutdown ==> p'.beforeShutdown == |p.enqueued|
  {
    hide Inv;
  }

  lemma {:induction false} EnqueuedInTime(run: seq<Pool>, j: nat, i: nat)
    requires IsRun(run) && j <= i < |run| && !run[j].shutdown
    ensures run[j].enqueued <= run[i].enqueued
    ensures run[i].shutdown ==> |run[j].enqueued| <= run[i].beforeShutdown
    decreases i - j
  {
    hide Inv, Next, Initial;
    if j < i {
      EnqueuedInTime(run, j, i - 1);
      RunKeeps(run, i - 1);
      EnqueuedStays(run[i - 1], run[i]);
    }
  }

  /** When all workers have left, every job enqueued before the flag was set has been taken and has finished. */
  lemma ShutdownDrains(run: seq<Pool>, j: nat, i: nat)
    requires IsRun(run) && j <= i < |run| && run[i].workers != [] && !run[j].shutdown
    requires forall w :: 0 <= w < |run[i].workers| ==> run[i].workers[w] == Left
    ensures run[j].enqueued <= run[i].taken && run[i].taken <= run[i].enqueued && run[i].shutdown
    ensures multiset(run[i].finished) == multiset(run[i].taken)
  {
    hide Count, RunningJobs, Next, Initial;
    RunKeeps(run, i);
    CountZero(run[i].workers, Left);
    NoneBusy(run[i].workers);
    assert run[i].workers[0] == Left;
    EnqueuedInTime(run, j, i);
  }

  /** No worker leaves while the flag is not set. */
  lemma WorkersStay(run: seq<Pool>, i: nat)
    requires IsRun(run) && i < |run| && !run[i].shutdown
    ensures Left !in run[i].workers
  {
    hide Count, RunningJobs, Next, Initial;
    RunKeeps(run, i);
    CountZero(run[i].workers, Left);
  }

  /** No lost wake-up: while the pool runs, a worker sleeps only if enough others are about to look for the jobs. */
  lemma SleepersAreCovered(run: seq<Pool>, i: nat)
    requires IsRun(run) && i < |run| && !run[i].shutdown
    requires exists w :: 0 <= w < |run[i].workers| && run[i].workers[w] == Asleep
    ensures |run[i].jobs| <= Count(run[i].workers, Ready)
  {
    RunKeeps(run, i);
    CountZero(run[i].workers, Asleep);
  }

  // ---- shutdown's join returns ----

  function Rank(x: Worker): nat {
    match x case Left => 0 case Ready => 1 case Running(_) => 2 case Asleep => 2
  }

  function RankSum(workers: seq<Worker>): nat {
    if workers == [] then 0 else Rank(workers[0]) + RankSum(workers[1..])
  }

  /** Every job left costs its taking and its running, every worker the way to its exit. */
  function WorkLeft(p: Pool): nat { 2 * |p.jobs| + RankSum(p.workers) }

  lemma {:induction false} PuttingRank(workers: seq<Worker>, w: nat, x: Worker)
    requires w < |workers|
    ensures RankSum(workers[w := x]) == RankSum(workers) - Rank(workers[w]) + Rank(x)
  {
    if w > 0 {
      assert workers[w := x][1..] == workers[1..][w - 1 := x];
      PuttingRank(workers[1..], w - 1, x);
    }
  }

  /** After notify_all every step of a worker uses up work ... */
  lemma WorkerStepsUseUpWork(run: seq<Pool>, i: nat, p': Pool)
    requires IsRun(run) && i < |run| && run[i].notifiedAll && WorkerStep(run[i], p')
    ensures WorkLeft(p') < WorkLeft(run[i]) && p'.notifiedAll
  {
    hide RankSum, Count;
    var p := run[i];
    RunKeeps(run, i);
    CountZero(p.workers, Asleep);
    var w: nat :| w < |p.workers| && (CheckStep(p, w, p') || FinishStep(p, w, p') || SpuriousStep(p, w, p'));
    PuttingRank(p.workers, w, p'.workers[w]);
  }

  /** ... and while some worker has not left, some worker can step: so the joins return. */
  lemma WorkersCanStep(run: seq<Pool>, i: nat)
    requires IsRun(run) && i < |run| && run[i].notifiedAll
    requires exists w :: 0 <= w < |run[i].workers| && run[i].workers[w] != Left
    ensures exists p' :: WorkerStep(run[i], p')
  {
    hide Count;
    var p := run[i];
    RunKeeps(run, i);
    CountZero(p.workers, Asleep);
    var w: nat :| w < |p.workers| && p.workers[w] != Left;
    if p.workers[w].Running? {
      var p' := Put(p, w, Ready).(finished := p.finished + [p.workers[w].job]);
      assert FinishStep(p, w, p');
      assert WorkerStep(p, p');
    } else {
      var p' := if p.jobs == [] then Put(p, w, Left)
                else Put(p, w, Running(p.jobs[0])).(jobs := p.jobs[1..], taken := p.taken + [p.jobs[0]]);
      assert CheckStep(p, w, p');
      assert WorkerStep(p, p');
    }
  }

  // ---- a pool that does its work ----

  lemma OneMoreState(run: seq<Pool>, p': Pool)
    requires IsRun(run) && Next(run[|run| - 1], p')
    ensures IsRun(run + [p'])
  {
    hide Next, Initial;
  }

  lemma WorkersEnqueueNothing(p: Pool, p': Pool)
    requires WorkerStep(p, p')
    ensures p'.enqueued == p.enqueued && |p'.workers| == |p.workers|
  {
  }

  predicate AllLeft(p: Pool) { forall w :: 0 <= w < |p.workers| ==> p.workers[w] == Left }

  /** From notify_all on, the workers' own steps lead to where all have left. */
  lemma {:induction false} WorkersDrain(run: seq<Pool>) returns (done: seq<Pool>)
    requires run != [] && IsRun(run) && run[|run| - 1].notifiedAll
    ensures done != [] && IsRun(done) && run <= done && AllLeft(done[|done| - 1])
    ensures var p, q := run[|run| - 1], done[|done| - 1]; q.enqueued == p.enqueued && |q.workers| == |p.workers|
    decreases WorkLeft(run[|run| - 1])
  {
    hide WorkerStep, WorkLeft, Initial, IsRun;
    var last := |run| - 1;
    done := run;
    if !AllLeft(run[last]) {
      WorkersCanStep(run, last);
      var p' :| WorkerStep(run[last], p');
      WorkerStepsUseUpWork(run, last, p');
      WorkersEnqueueNothing(run[last], p');
      OneMoreState(run, p');
      done := WorkersDrain(run + [p']);
    }
  }

  /** Nothing keeps a job from being enqueued: here into a pool of workers that are all about to look. */
  lemma {:induction false} EnqueueAll(run: seq<Pool>, jobs: seq<Job>) returns (longer: seq<Pool>)
    requires run != [] && IsRun(run) && !run[|run| - 1].shutdown && !run[|run| - 1].notifiedAll
    requires Asleep !in run[|run| - 1].workers
    ensures longer != [] && IsRun(longer) && run <= longer
    ensures var p, q := run[|run| - 1], longer[|longer| - 1];
      && q.enqueued == p.enqueued + jobs && q.workers == p.workers && !q.shutdown && !q.notifiedAll
    decreases jobs
  {
    hide IsRun, Initial, Next;
    longer := run;
    if jobs != [] {
      var p := run[|run| - 1];
      var p' := p.(jobs := p.jobs + [jobs[0]], enqueued := p.enqueued + [jobs[0]]);
      assert EnqueueJob(p, jobs[0], p');
      assert Next(p, p') by { EnqueueIsStep(p, jobs[0], p'); }
      OneMoreState(run, p');
      longer := EnqueueAll(run + [p'], jobs[1..]);
      assert (p.enqueued + [jobs[0]]) + jobs[1..] == p.enqueued + jobs;
    }
  }

  /** Any number of workers can run any list of jobs to completion, each once, and then shut down. */
  lemma CompleteRun(n: nat, jobs: seq<Job>) returns (run: seq<Pool>)
    requires n > 0
    ensures IsRun(run) && |run[0].workers| == n
    ensures var p := run[|run| - 1];
      AllLeft(p) && p.enqueued == jobs && p.taken == jobs && p.jobs == [] && multiset(p.finished) == multiset(jobs)
  {
    hide Next, Count, RunningJobs, WorkLeft;
    var start := Pool([], false, false, seq(n, _ => Ready), [], [], [], 0);
    run := EnqueueAll([start], jobs);
    var j := |run| - 1;
    var p := run[j];
    var flagged := p.(shutdown := true, beforeShutdown := |p.enqueued|);
    assert Next(p, flagged) by { FlagStep(p, flagged); }
    OneMoreState(run, flagged);
    var notified := flagged.(notifiedAll := true, workers := WokenAll(flagged.workers));
    assert Next(flagged, notified) by { NotifyStep(flagged, notified); }
    OneMoreState(run + [flagged], notified);
    run := WorkersDrain(run + [flagged] + [notified]);
    assert run[j] == p;
    ShutdownDrains(run, j, |run| - 1);
    JobsInOrder(run, |run| - 1);
    var q := run[|run| - 1];
    assert |q.taken| == |jobs| && q.taken == q.taken[..|jobs|];
  }

  lemma EnqueueIsStep(p: Pool, job: Job, p': Pool)
    requires EnqueueJob(p, job, p')
    ensures Next(p, p')
  {
  }

  lemma FlagStep(p: Pool, p': Pool)
    requires SetFlagStep(p, p')
    ensures Next(p, p')
  {
  }

  lemma NotifyStep(p: Pool, p': Pool)
    requires NotifyAllStep(p, p')
    ensures Next(p, p')
  {
  }
}
