/** spdlog's mpmc_blocking_queue: producers and consumers over a bounded queue with two condition variables. */
module Mpmc {
  import opened Wrappers
  import opened CircularQueue

  type Item = int

  /**
   * Where a thread stands. A critical section is one step; a notification is a step of its own, after the lock
   * has been released.
   */
  datatype Pc =
    | Idle
    | Enqueuing(item: Item)       // in enqueue, about to take the lock
    | EnqueueAsleep(item: Item)   // waiting on pop_cv
    | EnqueueWoken(item: Item)    // woken, about to test again
    | EnqueuingNowait(item: Item) // in enqueue_nowait, about to take the lock
    | PushDone                    // lock released, push_cv not yet notified
    | Dequeuing                   // in dequeue_for, about to take the lock
    | DequeueAsleep               // waiting on push_cv
    | DequeueWoken(timedOut: bool)
    | PopDone(popped: Item)       // lock released, pop_cv not yet notified

  /** The queue, the threads, and the history of what went in, came out and was overrun. */
  datatype State = State(capacity: nat, q: seq<Item>, threads: seq<Pc>, pushed: seq<Item>, popped: seq<Item>,
      overruns: nat)

  predicate Initial(s: State) {
    && s.q == [] && s.pushed == [] && s.popped == [] && s.overruns == 0
    && forall t :: 0 <= t < |s.threads| ==> s.threads[t] == Idle
  }

  // ---- the critical sections ----

  function Full(s: State): bool { |s.q| == s.capacity }

  function Push(s: State, x: Item): State
    requires |s.q| <= s.capacity
  {
    s.(q := PushBack(s.q, s.capacity, x), pushed := s.pushed + [x], overruns := s.overruns + if Full(s) then 1 else 0)
  }

  function Pop(s: State): State
    requires s.q != []
  {
    s.(q := s.q[1..], popped := s.popped + [s.q[0]])
  }

  function Move(s: State, t: nat, pc: Pc): State
    requires t < |s.threads|
  {
    s.(threads := s.threads[t := pc])
  }

  /** The wait loop of enqueue, entered or resumed. */
  ghost predicate EnqueueStep(s: State, t: nat, s': State)
    requires t < |s.threads| && |s.q| <= s.capacity
  {
    var pc := s.threads[t];
    (pc.Enqueuing? || pc.EnqueueWoken?) &&
    s' == if Full(s) then Move(s, t, EnqueueAsleep(pc.item)) else Move(Push(s, pc.item), t, PushDone)
  }

  ghost predicate EnqueueNowaitStep(s: State, t: nat, s': State)
    requires t < |s.threads| && |s.q| <= s.capacity
  {
    s.threads[t].EnqueuingNowait? && s' == Move(Push(s, s.threads[t].item), t, PushDone)
  }

  /** The timed wait loop of dequeue_for: a last test after the timeout, sleep again otherwise. */
  ghost predicate DequeueStep(s: State, t: nat, s': State)
    requires t < |s.threads|
  {
    var pc := s.threads[t];
    (pc.Dequeuing? || pc.DequeueWoken?) &&
    s' == if s.q != [] then Move(Pop(s), t, PopDone(s.q[0]))
          else if pc.DequeueWoken? && pc.timedOut then Move(s, t, Idle)
          else Move(s, t, DequeueAsleep)
  }

  // ---- notifications, time and calls ----

  predicate Asleep(pc: Pc, consumer: bool) { if consumer then pc.DequeueAsleep? else pc.EnqueueAsleep? }

  function Wake(pc: Pc): Pc
    requires pc.DequeueAsleep? || pc.EnqueueAsleep?
  {
    if pc.DequeueAsleep? then DequeueWoken(false) else EnqueueWoken(pc.item)
  }

  /** notify_one wakes some sleeper on its condition variable, and is lost when there is none. */
  ghost predicate NotifyStep(s: State, t: nat, s': State)
    requires t < |s.threads|
  {
    var pc := s.threads[t];
    && (pc.PushDone? || pc.PopDone?)
    && (if exists u :: 0 <= u < |s.threads| && Asleep(s.threads[u], pc.PushDone?)
        then
          var next := Move(s, t, Idle);
          exists u: nat ::
            u < |s.threads| && Asleep(s.threads[u], pc.PushDone?) && s' == Move(next, u, Wake(s.threads[u]))
        else s' == Move(s, t, Idle))
  }

  /** A spurious wake-up, or the timeout of dequeue_for. */
  ghost predicate WakeStep(s: State, t: nat, s': State)
    requires t < |s.threads|
  {
    var pc := s.threads[t];
    || ((pc.DequeueAsleep? || pc.EnqueueAsleep?) && s' == Move(s, t, Wake(pc)))
    || (pc.DequeueAsleep? && s' == Move(s, t, DequeueWoken(true)))
  }

  ghost predicate CallStep(s: State, t: nat, s': State, nowait: bool)
    requires t < |s.threads|
  {
    s.threads[t].Idle? &&
    (s' == Move(s, t, Dequeuing) || exists x :: s' == Move(s, t, if nowait then EnqueuingNowait(x) else Enqueuing(x)))
  }

  ghost predicate Next(s: State, s': State, nowait: bool)
    requires |s.q| <= s.capacity
  {
    exists t: nat :: t < |s.threads| && ThreadStep(s, t, s', nowait)
  }

  ghost predicate ThreadStep(s: State, t: nat, s': State, nowait: bool)
    requires t < |s.threads| && |s.q| <= s.capacity
  {
    || EnqueueStep(s, t, s') || EnqueueNowaitStep(s, t, s') || DequeueStep(s, t, s')
    || NotifyStep(s, t, s') || WakeStep(s, t, s')
    || CallStep(s, t, s', false) || (nowait && CallStep(s, t, s', true))
  }

  // ---- counting threads ----

  datatype Kind =
    | SleepingConsumer | WokenConsumer | PushNotice
    | SleepingProducer | WokenProducer | PopNotice
    | NowaitProducer

  predicate Is(pc: Pc, k: Kind) {
    match k
    case SleepingConsumer => pc.DequeueAsleep?
    case WokenConsumer => pc.DequeueWoken?
    case PushNotice => pc.PushDone?
    case SleepingProducer => pc.EnqueueAsleep?
    case WokenProducer => pc.EnqueueWoken?
    case PopNotice => pc.PopDone?
    case NowaitProducer => pc.EnqueuingNowait?
  }

  function Count(threads: seq<Pc>, k: Kind): nat {
    if threads == [] then 0 else (if Is(threads[0], k) then 1 else 0) + Count(threads[1..], k)
  }

  lemma {:induction false} CountMove(threads: seq<Pc>, t: nat, pc: Pc, k: Kind)
    requires t < |threads|
    ensures Count(threads[t := pc], k)
        == Count(threads, k) - (if Is(threads[t], k) then 1 else 0) + if Is(pc, k) then 1 else 0
  {
    if t > 0 {
      assert threads[t := pc][1..] == threads[1..][t - 1 := pc];
      CountMove(threads[1..], t - 1, pc, k);
    }
  }

  lemma {:induction false} CountZero(threads: seq<Pc>, k: Kind)
    ensures Count(threads, k) == 0 <==> forall t :: 0 <= t < |threads| ==> !Is(threads[t], k)
  {
    if threads != [] {
      CountZero(threads[1..], k);
      assert forall t :: 0 < t < |threads| ==> threads[t] == threads[1..][t - 1];
      assert forall t :: 0 <= t < |threads| - 1 ==> threads[1..][t] == threads[t + 1];
    }
  }

  // ---- the invariant ----

  function C(s: State, k: Kind): nat { Count(s.threads, k) }

  /** Sleepers are covered: whatever they wait for is bounded by the threads and notices already on their way. */
  ghost predicate Covered(s: State) {
    && (C(s, SleepingConsumer) > 0 ==> |s.q| <= C(s, WokenConsumer) + C(s, PushNotice))
    && (C(s, SleepingProducer) > 0 ==> s.capacity - |s.q| <= C(s, WokenProducer) + C(s, PopNotice))
  }

  predicate Subsequence(a: seq<Item>, b: seq<Item>) {
    || a == []
    || (b != [] && a[|a| - 1] == b[|b| - 1] && Subsequence(a[..|a| - 1], b[..|b| - 1]))
    || (b != [] && Subsequence(a, b[..|b| - 1]))
  }

  /** What came out, in order, out of what went in; the rest is in the queue or was overrun. */
  ghost predicate Conserved(s: State, nowait: bool) {
    && |s.q| <= s.capacity && |s.q| <= |s.pushed|
    && s.q == s.pushed[|s.pushed| - |s.q|..]
    && |s.pushed| == |s.popped| + s.overruns + |s.q|
    && Subsequence(s.popped, s.pushed[..|s.pushed| - |s.q|])
    && (!nowait ==> s.overruns == 0 && s.pushed == s.popped + s.q && C(s, NowaitProducer) == 0)
  }

  ghost predicate Inv(s: State, nowait: bool) { Covered(s) && Conserved(s, nowait) }

  /** A run: any number of threads, any interleaving, any length; enqueue_nowait only if allowed. */
  ghost predicate IsRun(run: seq<State>, nowait: bool) {
    && run != [] && Initial(run[0])
    && forall i :: 0 <= i < |run| - 1 ==> |run[i].q| <= run[i].capacity && Next(run[i], run[i + 1], nowait)
  }

  // ---- every step keeps it ----

  lemma MoveCounts(s: State, t: nat, pc: Pc)
    requires t < |s.threads|
    ensures forall k ::
      C(Move(s, t, pc), k) == C(s, k) - (if Is(s.threads[t], k) then 1 else 0) + if Is(pc, k) then 1 else 0
  {
    forall k
      ensures C(Move(s, t, pc), k) == C(s, k) - (if Is(s.threads[t], k) then 1 else 0) + if Is(pc, k) then 1 else 0
    {
      CountMove(s.threads, t, pc, k);
    }
  }

  lemma {:induction false} SubsequenceGrows(a: seq<Item>, b: seq<Item>, x: Item)
    requires Subsequence(a, b)
    ensures Subsequence(a, b + [x]) && Subsequence(a + [x], b + [x])
  {
    assert (b + [x])[..|b|] == b && (a + [x])[..|a|] == a;
  }

  lemma PushConserves(s: State, x: Item, nowait: bool)
    requires Conserved(s, nowait) && (Full(s) ==> nowait)
    ensures Conserved(Push(s, x), nowait)
  {
    hide Subsequence, Count;
    var n := |s.pushed| - |s.q|;
    var oldest := (s.q + [x])[0];
    SubsequenceGrows(s.popped, s.pushed[..n], oldest);
    PushedSplits(s.pushed, n, x);
    assert (s.popped + s.q) + [x] == s.popped + (s.q + [x]);
  }

  lemma PushedSplits(pushed: seq<Item>, n: nat, x: Item)
    requires n <= |pushed|
    ensures (pushed + [x])[..n] == pushed[..n] && (pushed + [x])[n..] == pushed[n..] + [x]
    ensures (pushed + [x])[..n + 1] == pushed[..n] + [(pushed[n..] + [x])[0]]
    ensures (pushed + [x])[n + 1..] == (pushed[n..] + [x])[1..]
  {
  }

  lemma PoppedSplits(pushed: seq<Item>, n: nat)
    requires n < |pushed|
    ensures pushed[..n + 1] == pushed[..n] + [pushed[n..][0]]
    ensures pushed[n + 1..] == pushed[n..][1..]
  {
  }

  lemma PopConserves(s: State, nowait: bool)
    requires Conserved(s, nowait) && s.q != []
    ensures Conserved(Pop(s), nowait)
  {
    hide Subsequence, Count;
    var n := |s.pushed| - |s.q|;
    SubsequenceGrows(s.popped, s.pushed[..n], s.q[0]);
    PoppedSplits(s.pushed, n);
    FrontMoves(s.popped, s.q);
  }

  lemma FrontMoves(popped: seq<Item>, q: seq<Item>)
    requires q != []
    ensures popped + q == (popped + [q[0]]) + q[1..]
  {
  }

  lemma MoveConserves(s: State, t: nat, pc: Pc, nowait: bool)
    requires t < |s.threads| && Conserved(s, nowait) && (pc.EnqueuingNowait? ==> nowait)
    ensures Conserved(Move(s, t, pc), nowait)
  {
    hide Subsequence;
    MoveCounts(s, t, pc);
  }

  lemma EnqueueKeeps(s: State, t: nat, s': State, nowait: bool)
    requires Inv(s, nowait) && t < |s.threads| && EnqueueStep(s, t, s')
    ensures Inv(s', nowait)
  {
    hide Conserved, Count;
    var x := s.threads[t].item;
    if Full(s) {
      MoveConserves(s, t, EnqueueAsleep(x), nowait);
      MoveCounts(s, t, EnqueueAsleep(x));
    } else {
      PushConserves(s, x, nowait);
      MoveConserves(Push(s, x), t, PushDone, nowait);
      MoveCounts(Push(s, x), t, PushDone);
    }
  }

  lemma EnqueueNowaitKeeps(s: State, t: nat, s': State, nowait: bool)
    requires Inv(s, nowait) && t < |s.threads| && EnqueueNowaitStep(s, t, s')
    ensures Inv(s', nowait)
  {
    hide Conserved, Count;
    NowaitNeedsPermission(s, t, nowait);
    PushConserves(s, s.threads[t].item, nowait);
    MoveConserves(Push(s, s.threads[t].item), t, PushDone, nowait);
    MoveCounts(Push(s, s.threads[t].item), t, PushDone);
  }

  lemma NowaitNeedsPermission(s: State, t: nat, nowait: bool)
    requires Conserved(s, nowait) && t < |s.threads| && s.threads[t].EnqueuingNowait?
    ensures nowait
  {
    CountZero(s.threads, NowaitProducer);
  }

  lemma DequeueKeeps(s: State, t: nat, s': State, nowait: bool)
    requires Inv(s, nowait) && t < |s.threads| && DequeueStep(s, t, s')
    ensures Inv(s', nowait)
  {
    hide Conserved, Count;
    if s.q != [] {
      PopConserves(s, nowait);
      MoveConserves(Pop(s), t, PopDone(s.q[0]), nowait);
      MoveCounts(Pop(s), t, PopDone(s.q[0]));
    } else {
      MoveConserves(s, t, s'.threads[t], nowait);
      MoveCounts(s, t, s'.threads[t]);
    }
  }

  /** A notification that finds no sleeper. */
  lemma LostNoticeKeeps(s: State, t: nat, nowait: bool)
    requires Inv(s, nowait) && t < |s.threads| && (s.threads[t].PushDone? || s.threads[t].PopDone?)
    requires forall u :: 0 <= u < |s.threads| ==> !Asleep(s.threads[u], s.threads[t].PushDone?)
    ensures Inv(Move(s, t, Idle), nowait)
  {
    hide Conserved, Count;
    MoveConserves(s, t, Idle, nowait);
    MoveCounts(s, t, Idle);
    CountZero(s.threads, if s.threads[t].PushDone? then SleepingConsumer else SleepingProducer);
  }

  /** A notification that wakes thread u. */
  lemma NoticeKeeps(s: State, t: nat, u: nat, nowait: bool)
    requires Inv(s, nowait) && t < |s.threads| && (s.threads[t].PushDone? || s.threads[t].PopDone?)
    requires u < |s.threads| && Asleep(s.threads[u], s.threads[t].PushDone?)
    ensures Inv(Move(Move(s, t, Idle), u, Wake(s.threads[u])), nowait)
  {
    hide Conserved, Count;
    var s1 := Move(s, t, Idle);
    MoveConserves(s, t, Idle, nowait);
    MoveCounts(s, t, Idle);
    MoveConserves(s1, u, Wake(s.threads[u]), nowait);
    MoveCounts(s1, u, Wake(s.threads[u]));
  }

  /** The sleeper that a notification wakes, if there is one. */
  lemma NotifyCases(s: State, t: nat, s': State) returns (woken: Option<nat>)
    requires t < |s.threads| && NotifyStep(s, t, s')
    ensures var pc := s.threads[t];
      && (pc.PushDone? || pc.PopDone?)
      && (woken.Some? ==>
            var u := woken.value;
            u < |s.threads| && Asleep(s.threads[u], pc.PushDone?)
            && s' == Move(Move(s, t, Idle), u, Wake(s.threads[u])))
      && (woken.None? ==>
            s' == Move(s, t, Idle) && forall u :: 0 <= u < |s.threads| ==> !Asleep(s.threads[u], pc.PushDone?))
  {
    var pc := s.threads[t];
    if exists u :: 0 <= u < |s.threads| && Asleep(s.threads[u], pc.PushDone?) {
      var next := Move(s, t, Idle);
      var u: nat :| u < |s.threads| && Asleep(s.threads[u], pc.PushDone?) && s' == Move(next, u, Wake(s.threads[u]));
      woken := Some(u);
    } else {
      woken := None;
    }
  }

  lemma WakeKeeps(s: State, t: nat, s': State, nowait: bool)
    requires Inv(s, nowait) && t < |s.threads| && WakeStep(s, t, s')
    ensures Inv(s', nowait)
  {
    hide Conserved, Count;
    MoveConserves(s, t, s'.threads[t], nowait);
    MoveCounts(s, t, s'.threads[t]);
  }

  lemma CallKeeps(s: State, t: nat, s': State, asNowait: bool, nowait: bool)
    requires Inv(s, nowait) && t < |s.threads| && CallStep(s, t, s', asNowait) && (asNowait ==> nowait)
    ensures Inv(s', nowait)
  {
    hide Conserved, Count;
    MoveConserves(s, t, s'.threads[t], nowait);
    MoveCounts(s, t, s'.threads[t]);
  }

  lemma StepKeeps(s: State, t: nat, s': State, nowait: bool)
    requires Inv(s, nowait) && t < |s.threads| && |s.q| <= s.capacity && ThreadStep(s, t, s', nowait)
    ensures Inv(s', nowait)
  {
    hide Inv, EnqueueStep, EnqueueNowaitStep, DequeueStep, NotifyStep, WakeStep, CallStep;
    if EnqueueStep(s, t, s') {
      EnqueueKeeps(s, t, s', nowait);
    } else if EnqueueNowaitStep(s, t, s') {
      EnqueueNowaitKeeps(s, t, s', nowait);
    } else if DequeueStep(s, t, s') {
      DequeueKeeps(s, t, s', nowait);
    } else if NotifyStep(s, t, s') {
      var u := NotifyCases(s, t, s');
      if u.Some? { NoticeKeeps(s, t, u.value, nowait); } else { LostNoticeKeeps(s, t, nowait); }
    } else if WakeStep(s, t, s') {
      WakeKeeps(s, t, s', nowait);
    } else if CallStep(s, t, s', false) {
      CallKeeps(s, t, s', false, nowait);
    } else {
      CallKeeps(s, t, s', true, nowait);
    }
  }

  lemma InitialInv(s: State, nowait: bool)
    requires Initial(s)
    ensures Inv(s, nowait)
  {
    hide Count;
    CountZero(s.threads, SleepingConsumer);
    CountZero(s.threads, SleepingProducer);
    CountZero(s.threads, NowaitProducer);
  }

  lemma NextKeeps(s: State, s': State, nowait: bool)
    requires Inv(s, nowait) && |s.q| <= s.capacity && Next(s, s', nowait)
    ensures Inv(s', nowait)
  {
    hide Inv, ThreadStep;
    var t: nat :| t < |s.threads| && ThreadStep(s, t, s', nowait);
    StepKeeps(s, t, s', nowait);
  }

  lemma {:induction false} RunKeeps(run: seq<State>, nowait: bool, i: nat)
    requires IsRun(run, nowait) && i < |run|
    ensures Inv(run[i], nowait)
  {
    hide Inv, Next, Initial;
    if i == 0 {
      InitialInv(run[0], nowait);
    } else {
      RunKeeps(run, nowait, i - 1);
      NextKeeps(run[i - 1], run[i], nowait);
    }
  }

  // ---- the promises ----

  ghost predicate SomeThread(s: State, k: Kind) { exists t :: 0 <= t < |s.threads| && Is(s.threads[t], k) }

  /** No lost wake-up, in any reachable state: a sleeper's items or slots are all spoken for. */
  lemma NoLostWakeup(run: seq<State>, nowait: bool, i: nat)
    requires IsRun(run, nowait) && i < |run|
    ensures var s := run[i];
      && (SomeThread(s, SleepingConsumer) ==> |s.q| <= C(s, WokenConsumer) + C(s, PushNotice))
      && (SomeThread(s, SleepingProducer) ==> s.capacity - |s.q| <= C(s, WokenProducer) + C(s, PopNotice))
  {
    RunKeeps(run, nowait, i);
    CountZero(run[i].threads, SleepingConsumer);
    CountZero(run[i].threads, SleepingProducer);
  }

  /** Once nothing is on its way, sleeping consumers mean an empty queue and sleeping producers a full one. */
  lemma QuietSleepersAreRight(run: seq<State>, nowait: bool, i: nat)
    requires IsRun(run, nowait) && i < |run|
    requires !SomeThread(run[i], WokenConsumer) && !SomeThread(run[i], PushNotice)
    requires !SomeThread(run[i], WokenProducer) && !SomeThread(run[i], PopNotice)
    ensures var s := run[i];
      && (SomeThread(s, SleepingConsumer) ==> s.q == [])
      && (SomeThread(s, SleepingProducer) ==> |s.q| == s.capacity)
      && (SomeThread(s, SleepingConsumer) && SomeThread(s, SleepingProducer) ==> s.capacity == 0)
  {
    NoLostWakeup(run, nowait, i);
    RunKeeps(run, nowait, i);
    CountZero(run[i].threads, WokenConsumer);
    CountZero(run[i].threads, PushNotice);
    CountZero(run[i].threads, WokenProducer);
    CountZero(run[i].threads, PopNotice);
  }

  /** Without enqueue_nowait nothing is overrun and what comes out is a prefix of what went in. */
  lemma OrderWithoutOverrun(run: seq<State>, i: nat)
    requires IsRun(run, false) && i < |run|
    ensures run[i].overruns == 0 && run[i].popped <= run[i].pushed && run[i].pushed == run[i].popped + run[i].q
  {
    RunKeeps(run, false, i);
  }

  /** With it, what comes out is a subsequence, and pushes = pops + overruns + size. */
  lemma ConservationWithOverrun(run: seq<State>, i: nat)
    requires IsRun(run, true) && i < |run|
    ensures Subsequence(run[i].popped, run[i].pushed)
    ensures |run[i].pushed| == |run[i].popped| + run[i].overruns + |run[i].q|
  {
    RunKeeps(run, true, i);
    var s := run[i];
    SubsequencePrefix(s.popped, s.pushed, |s.pushed| - |s.q|);
  }

  lemma {:induction false} SubsequencePrefix(a: seq<Item>, b: seq<Item>, n: nat)
    requires n <= |b| && Subsequence(a, b[..n])
    ensures Subsequence(a, b)
    decreases |b| - n
  {
    if n == |b| {
      assert b[..n] == b;
    } else {
      SubsequenceGrows(a, b[..n], b[n]);
      assert b[..n] + [b[n]] == b[..n + 1];
      SubsequencePrefix(a, b, n + 1);
    }
  }

  // ---- what the threads see ----

  /** The items that threads get, or have stored, by going from `before` to `after`. */
  function Got(before: seq<Pc>, after: seq<Pc>): seq<Item>
    requires |before| == |after|
  {
    if before == [] then []
    else
      (if after[0].PopDone? && !before[0].PopDone? then [after[0].popped] else []) + Got(before[1..], after[1..])
  }

  function Stored(before: seq<Pc>, after: seq<Pc>): seq<Item>
    requires |before| == |after|
  {
    if before == [] then []
    else
      (if after[0].PushDone? && HasItem(before[0]) then [before[0].item] else []) + Stored(before[1..], after[1..])
  }

  predicate HasItem(pc: Pc) { pc.Enqueuing? || pc.EnqueueWoken? || pc.EnqueuingNowait? }

  lemma {:induction false} OneThreadMoves(threads: seq<Pc>, t: nat, pc: Pc)
    requires t < |threads|
    ensures Got(threads, threads[t := pc]) == if pc.PopDone? && !threads[t].PopDone? then [pc.popped] else []
    ensures Stored(threads, threads[t := pc]) == if pc.PushDone? && HasItem(threads[t]) then [threads[t].item] else []
  {
    var after := threads[t := pc];
    if t == 0 {
      NoThreadMoves(threads[1..]);
      assert after[1..] == threads[1..];
    } else {
      assert after[1..] == threads[1..][t - 1 := pc];
      OneThreadMoves(threads[1..], t - 1, pc);
    }
  }

  lemma {:induction false} NoThreadMoves(threads: seq<Pc>)
    ensures Got(threads, threads) == [] && Stored(threads, threads) == []
  {
    if threads != [] { NoThreadMoves(threads[1..]); }
  }

  lemma {:induction false} FirstThread(before: seq<Pc>, after: seq<Pc>)
    requires |before| == |after| > 0
    ensures !after[0].PopDone? || before[0] == after[0] ==> Got(before, after) == Got(before[1..], after[1..])
    ensures !after[0].PushDone? || before[0] == after[0] ==> Stored(before, after) == Stored(before[1..], after[1..])
  {
  }

  /** A notification moves two threads, and neither gets or stores anything. */
  lemma {:induction false} WakingMovesNothing(threads: seq<Pc>, t: nat, u: nat)
    requires t < |threads| && u < |threads| && t != u && !HasItem(threads[t])
    requires threads[u].DequeueAsleep? || threads[u].EnqueueAsleep?
    ensures var after := threads[t := Idle][u := Wake(threads[u])];
      Got(threads, after) == [] && Stored(threads, after) == []
  {
    hide Got, Stored, HasItem;
    var after := threads[t := Idle][u := Wake(threads[u])];
    FirstThread(threads, after);
    var rest := threads[1..];
    if t == 0 {
      assert after[1..] == rest[u - 1 := Wake(threads[u])];
      OneThreadMoves(rest, u - 1, Wake(threads[u]));
    } else if u == 0 {
      assert after[1..] == rest[t - 1 := Idle];
      OneThreadMoves(rest, t - 1, Idle);
    } else {
      assert after[1..] == rest[t - 1 := Idle][u - 1 := Wake(rest[u - 1])];
      WakingMovesNothing(rest, t - 1, u - 1);
    }
  }

  /** What a step adds to the history is what its thread stores or gets. */
  lemma StepTellsResults(s: State, t: nat, s': State, nowait: bool)
    requires |s.q| <= s.capacity && t < |s.threads| && ThreadStep(s, t, s', nowait)
    ensures |s.threads| == |s'.threads|
    ensures s'.popped == s.popped + Got(s.threads, s'.threads)
    ensures s'.pushed == s.pushed + Stored(s.threads, s'.threads)
  {
    hide Got, Stored, PushBack, Asleep, NotifyStep;
    if NotifyStep(s, t, s') {
      var u := NotifyCases(s, t, s');
      if u.Some? {
        assert u.value != t by { AsleepIsNotDone(s.threads[t], s.threads[u.value]); }
        WakingMovesNothing(s.threads, t, u.value) by { AsleepIsNotDone(s.threads[t], s.threads[u.value]); }
      } else {
        OneThreadMoves(s.threads, t, Idle);
      }
    } else {
      OneThreadMoves(s.threads, t, s'.threads[t]);
      assert s'.threads == s.threads[t := s'.threads[t]];
    }
  }

  lemma AsleepIsNotDone(pc: Pc, sleeper: Pc)
    requires (pc.PushDone? || pc.PopDone?) && Asleep(sleeper, pc.PushDone?)
    ensures pc != sleeper && !HasItem(pc) && (sleeper.DequeueAsleep? || sleeper.EnqueueAsleep?)
  {
  }

  /** The items handed to consumers, and those stored by producers, up to state i: read off the threads alone. */
  function AllGot(run: seq<State>, i: nat): seq<Item>
    requires i < |run| && forall k :: 0 <= k < |run| - 1 ==> |run[k].threads| == |run[k + 1].threads|
  {
    if i == 0 then [] else AllGot(run, i - 1) + Got(run[i - 1].threads, run[i].threads)
  }

  function AllStored(run: seq<State>, i: nat): seq<Item>
    requires i < |run| && forall k :: 0 <= k < |run| - 1 ==> |run[k].threads| == |run[k + 1].threads|
  {
    if i == 0 then [] else AllStored(run, i - 1) + Stored(run[i - 1].threads, run[i].threads)
  }

  lemma NextTellsResults(s: State, s': State, nowait: bool)
    requires |s.q| <= s.capacity && Next(s, s', nowait)
    ensures |s.threads| == |s'.threads|
    ensures s'.popped == s.popped + Got(s.threads, s'.threads)
    ensures s'.pushed == s.pushed + Stored(s.threads, s'.threads)
  {
    hide ThreadStep;
    var t: nat :| t < |s.threads| && ThreadStep(s, t, s', nowait);
    StepTellsResults(s, t, s', nowait);
  }

  lemma ThreadsStay(run: seq<State>, nowait: bool)
    requires IsRun(run, nowait)
    ensures forall k :: 0 <= k < |run| - 1 ==> |run[k].threads| == |run[k + 1].threads|
  {
    hide Next, Initial;
    forall k | 0 <= k < |run| - 1 ensures |run[k].threads| == |run[k + 1].threads| {
      NextTellsResults(run[k], run[k + 1], nowait);
    }
  }

  /** The history is what the threads have been given and have given. */
  lemma {:induction false} HistoryIsResults(run: seq<State>, nowait: bool, i: nat)
    requires IsRun(run, nowait) && i < |run|
    ensures forall k :: 0 <= k < |run| - 1 ==> |run[k].threads| == |run[k + 1].threads|
    ensures run[i].popped == AllGot(run, i) && run[i].pushed == AllStored(run, i)
  {
    hide Next;
    ThreadsStay(run, nowait);
    if i > 0 {
      HistoryIsResults(run, nowait, i - 1);
      NextTellsResults(run[i - 1], run[i], nowait);
    }
  }

  /**
   * So in terms of the threads: without enqueue_nowait consumers get exactly what producers stored, in that order, but
   * for what is still queued; with it they get a subsequence.
   */
  lemma {:induction false} ConsumersGetWhatProducersStored(run: seq<State>, nowait: bool, i: nat)
    requires IsRun(run, nowait) && i < |run|
    ensures forall k :: 0 <= k < |run| - 1 ==> |run[k].threads| == |run[k + 1].threads|
    ensures !nowait ==> AllStored(run, i) == AllGot(run, i) + run[i].q
    ensures Subsequence(AllGot(run, i), AllStored(run, i))
    ensures |AllStored(run, i)| == |AllGot(run, i)| + run[i].overruns + |run[i].q|
  {
    hide Next, Inv, Subsequence, AllGot, AllStored, Initial, IsRun;
    HistoryIsResults(run, nowait, i);
    RunKeeps(run, nowait, i);
    WhatIsConserved(run[i], nowait);
  }

  lemma WhatIsConserved(s: State, nowait: bool)
    requires Inv(s, nowait)
    ensures !nowait ==> s.pushed == s.popped + s.q
    ensures Subsequence(s.popped, s.pushed) && |s.pushed| == |s.popped| + s.overruns + |s.q|
  {
    hide Count, Subsequence;
    SubsequencePrefix(s.popped, s.pushed, |s.pushed| - |s.q|);
  }

  /** No thread is ever kept from its next step, and a call can always be made with any item. */
  lemma EveryThreadCanStep(s: State, t: nat, nowait: bool)
    requires |s.q| <= s.capacity && t < |s.threads| && (s.threads[t].EnqueuingNowait? ==> nowait)
    ensures exists s' :: ThreadStep(s, t, s', nowait)
    ensures s.threads[t] == Idle ==> forall x :: ThreadStep(s, t, Move(s, t, Enqueuing(x)), nowait)
    ensures s.threads[t] == Idle ==> ThreadStep(s, t, Move(s, t, Dequeuing), nowait)
    ensures s.threads[t] == Idle && nowait ==> forall x :: ThreadStep(s, t, Move(s, t, EnqueuingNowait(x)), nowait)
    ensures s.threads[t].DequeueAsleep? ==> ThreadStep(s, t, Move(s, t, DequeueWoken(true)), nowait)
  {
    hide PushBack;
    var pc := s.threads[t];
    if pc == Idle {
      assert ThreadStep(s, t, Move(s, t, Dequeuing), nowait);
    } else if pc.Enqueuing? || pc.EnqueueWoken? {
      var s' := if Full(s) then Move(s, t, EnqueueAsleep(pc.item)) else Move(Push(s, pc.item), t, PushDone);
      assert ThreadStep(s, t, s', nowait);
    } else if pc.EnqueuingNowait? {
      assert ThreadStep(s, t, Move(Push(s, pc.item), t, PushDone), nowait);
    } else if pc.Dequeuing? || pc.DequeueWoken? {
      CanDequeue(s, t, nowait);
    } else if pc.PushDone? || pc.PopDone? {
      CanNotify(s, t, nowait);
    } else {
      assert ThreadStep(s, t, Move(s, t, Wake(pc)), nowait);
    }
  }

  lemma CanDequeue(s: State, t: nat, nowait: bool)
    requires |s.q| <= s.capacity && t < |s.threads| && (s.threads[t].Dequeuing? || s.threads[t].DequeueWoken?)
    ensures exists s' :: ThreadStep(s, t, s', nowait)
  {
    var pc := s.threads[t];
    var s' := if s.q != [] then Move(Pop(s), t, PopDone(s.q[0]))
              else if pc.DequeueWoken? && pc.timedOut then Move(s, t, Idle)
              else Move(s, t, DequeueAsleep);
    assert ThreadStep(s, t, s', nowait);
  }

  lemma CanNotify(s: State, t: nat, nowait: bool)
    requires |s.q| <= s.capacity && t < |s.threads| && (s.threads[t].PushDone? || s.threads[t].PopDone?)
    ensures exists s' :: ThreadStep(s, t, s', nowait)
  {
    var pc := s.threads[t];
    if u: nat :| u < |s.threads| && Asleep(s.threads[u], pc.PushDone?) {
      var s' := Move(Move(s, t, Idle), u, Wake(s.threads[u]));
      assert NotifyStep(s, t, s');
      assert ThreadStep(s, t, s', nowait);
    } else {
      assert NotifyStep(s, t, Move(s, t, Idle));
      assert ThreadStep(s, t, Move(s, t, Idle), nowait);
    }
  }

  /** Time is over for a consumer by a step of its own: a notification does not count as a timeout. */
  lemma NoticesAreNoTimeouts(s: State, t: nat, s': State, nowait: bool, u: nat)
    requires |s.q| <= s.capacity && t < |s.threads| && ThreadStep(s, t, s', nowait) && u < |s.threads| == |s'.threads|
    requires s'.threads[u] == DequeueWoken(true) && s.threads[u] != DequeueWoken(true)
    ensures u == t && s.threads[u] == DequeueAsleep && s' == Move(s, t, DequeueWoken(true))
  {
    hide PushBack, NotifyStep;
    if NotifyStep(s, t, s') { var _ := NotifyCases(s, t, s'); }
  }

  /** dequeue_for gives up only when its time is over and there is nothing, and then it does; else it gets an item. */
  lemma TimedOutConsumersLeave(s: State, t: nat, s': State)
    requires t < |s.threads| && DequeueStep(s, t, s')
    ensures s'.threads[t] == Idle <==> s.threads[t] == DequeueWoken(true) && s.q == []
    ensures s'.threads[t].DequeueAsleep? <==> s.threads[t] != DequeueWoken(true) && s.q == []
    ensures s'.threads[t].PopDone? <==> s.q != []
  {
  }

  // ---- the critical sections over the ring ----

  /** The queue proper: each method is what one thread does while it holds the lock, on the ring buffer itself. */
  class MpmcBlockingQueue {
    const ring: CircularQ<Item>

    ghost predicate Valid()
      reads this, ring
    {
      ring.Valid() && ring.maxItems > 0
    }

    /** The machine's view of the ring; threads and history play no part here. */
    ghost function View(): (s: State)
      requires Valid()
      reads this, ring, ring.v
      ensures |s.q| <= s.capacity
    {
      State(ring.Capacity(), ring.Contents(), [], [], [], ring.overrunCounter)
    }

    constructor (maxItems: nat)
      ensures Valid() && fresh(ring) && fresh(ring.v) && View() == State(maxItems, [], [], [], [], 0)
    {
      ring := new CircularQ<Item>(maxItems);
    }

    /** One turn of enqueue's wait loop: waits when the ring is full, pushes otherwise. */
    method EnqueueSection(item: Item) returns (mustWait: bool)
      requires Valid()
      modifies ring, ring.v
      ensures Valid() && ring.v == old(ring.v)
      ensures mustWait == Full(old(View()))
      ensures View() == if mustWait then old(View()) else Push(old(View()), item).(pushed := [])
    {
      mustWait := ring.Full();
      if !mustWait { ring.PushItem(item); }
    }

    method EnqueueNowaitSection(item: Item)
      requires Valid()
      modifies ring, ring.v
      ensures Valid() && ring.v == old(ring.v)
      ensures View() == Push(old(View()), item).(pushed := [])
    {
      ring.PushItem(item);
    }

    /** One turn of dequeue_for's wait loop: None when the ring is empty. */
    method DequeueSection() returns (popped: Option<Item>)
      requires Valid()
      modifies ring, ring.v
      ensures Valid() && ring.v == old(ring.v)
      ensures old(View()).q == [] ==> popped == None && View() == old(View())
      ensures old(View()).q != [] ==> popped == Some(old(View()).q[0]) && View() == Pop(old(View())).(popped := [])
    {
      var empty := ring.Empty();
      if empty { return None; }
      var x := ring.Front();
      ring.PopFront();
      return Some(x);
    }
  }
}
