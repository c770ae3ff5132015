/** LocalWorkExecutorService: the node-local executor. Work is offered to a
    grouped queue; a single sync loop polls that queue and hands what it finds
    to a bounded thread pool, backing off exponentially while the queue is
    empty. The pool and the sleeping thread are modelled by what they are
    handed and by an input interrupt flag. */
module LocalExecutor {
  import opened Common
  import Grouped

  const MIN_INTERVAL: int := 100
  const MAX_INTERVAL: int := 10000
  const EXPONENT: int := 2
  const MAX_THREADS: nat := 10

  /** What one pass of the sync loop saw: a polled item, or an empty poll
      followed by a sleep that was or was not interrupted. */
  datatype PollOutcome = Work | Idle(interrupted: bool)

  /** The interval after one pass: back to the minimum on work, doubled up to
      the ceiling after a completed sleep, unchanged after an interrupted one. */
  function NextInterval(interval: int, o: PollOutcome): (next: int)
    ensures MIN_INTERVAL <= interval <= MAX_INTERVAL ==> MIN_INTERVAL <= next <= MAX_INTERVAL
    ensures o == Idle(false) && MIN_INTERVAL <= interval < MAX_INTERVAL ==> interval < next
  {
    match o
    case Work => MIN_INTERVAL
    case Idle(interrupted) => if interrupted then interval else Min(MAX_INTERVAL, interval * EXPONENT)
  }

  /** The interval after the given passes, starting from the minimum. */
  function IntervalAfter(os: seq<PollOutcome>): (interval: int)
    ensures MIN_INTERVAL <= interval <= MAX_INTERVAL
  {
    if os == [] then MIN_INTERVAL else NextInterval(IntervalAfter(os[..|os| - 1]), os[|os| - 1])
  }

  function Pow2(k: nat): (p: nat)
    ensures p >= 1
  {
    if k == 0 then 1 else 2 * Pow2(k - 1)
  }

  /** `k` empty polls whose sleeps all complete. */
  function IdleRun(k: nat): seq<PollOutcome> {
    seq(k, i => Idle(false))
  }

  /** One more pass of the loop applies one step to the interval. */
  lemma IntervalAfterStep(os: seq<PollOutcome>, o: PollOutcome)
    ensures IntervalAfter(os + [o]) == NextInterval(IntervalAfter(os), o)
  {
    assert (os + [o])[..|os|] == os;
  }

  /** A pass that finds work resets the interval to the minimum, whatever came before. */
  lemma ResetOnWork(os: seq<PollOutcome>)
    ensures IntervalAfter(os + [Work]) == MIN_INTERVAL
  {
    IntervalAfterStep(os, Work);
  }

  /** An interrupted sleep leaves the interval as it was. */
  lemma InterruptKeepsInterval(os: seq<PollOutcome>)
    ensures IntervalAfter(os + [Idle(true)]) == IntervalAfter(os)
  {
    IntervalAfterStep(os, Idle(true));
  }

  /** A completed sleep never shrinks the interval, and grows it unless it is
      already at the ceiling. */
  lemma IdleGrows(os: seq<PollOutcome>)
    ensures IntervalAfter(os + [Idle(false)]) >= IntervalAfter(os)
    ensures IntervalAfter(os) < MAX_INTERVAL ==> IntervalAfter(os + [Idle(false)]) > IntervalAfter(os)
  {
    IntervalAfterStep(os, Idle(false));
  }

  /** After a reset (the start, or a pass that found work), `k` completed
      sleeps in a row leave the interval at min(10000, 100 * 2^k). */
  lemma {:induction false} IdleClosedForm(pre: seq<PollOutcome>, k: nat)
    requires pre == [] || pre[|pre| - 1] == Work
    ensures IntervalAfter(pre + IdleRun(k)) == Min(MAX_INTERVAL, MIN_INTERVAL * Pow2(k))
  {
    if k == 0 {
      assert pre + IdleRun(0) == pre;
      if pre != [] {
        IntervalAfterStep(pre[..|pre| - 1], Work);
        assert pre[..|pre| - 1] + [Work] == pre;
      }
    } else {
      IdleClosedForm(pre, k - 1);
      assert pre + IdleRun(k) == (pre + IdleRun(k - 1)) + [Idle(false)];
      IntervalAfterStep(pre + IdleRun(k - 1), Idle(false));
    }
  }

  /** `k` empty polls whose sleeps are all interrupted. */
  function InterruptedRun(k: nat): seq<PollOutcome> {
    seq(k, i => Idle(true))
  }

  /** Interrupted sleeps in a row freeze the interval. */
  lemma {:induction false} InterruptedRunFreezes(pre: seq<PollOutcome>, k: nat)
    ensures IntervalAfter(pre + InterruptedRun(k)) == IntervalAfter(pre)
  {
    if k == 0 {
      assert pre + InterruptedRun(0) == pre;
    } else {
      InterruptedRunFreezes(pre, k - 1);
      assert pre + InterruptedRun(k) == (pre + InterruptedRun(k - 1)) + [Idle(true)];
      InterruptKeepsInterval(pre + InterruptedRun(k - 1));
    }
  }

  /** How many passes found work. */
  function WorkCount(os: seq<PollOutcome>): (n: nat)
    ensures n <= |os|
    ensures n == 0 <==> forall i :: 0 <= i < |os| ==> os[i].Idle?
  {
    if os == [] then 0 else WorkCount(os[..|os| - 1]) + (if os[|os| - 1].Work? then 1 else 0)
  }

  lemma WorkCountStep(os: seq<PollOutcome>, o: PollOutcome)
    ensures WorkCount(os + [o]) == WorkCount(os) + (if o.Work? then 1 else 0)
  {
    assert (os + [o])[..|os|] == os;
  }

  /** The settings the pool is built with on start: no core threads, at most
      ten, a sixty-second keep-alive, and a work queue of twice the maximum. */
  datatype PoolConfig = PoolConfig(coreThreads: nat, maxThreads: nat, keepAliveSeconds: nat, queueCapacity: nat)

  const STARTED_POOL: PoolConfig := PoolConfig(0, MAX_THREADS, 60, 2 * MAX_THREADS)

  /** One pass of the sync loop as the environment decides it: the group the
      router picks (none when it yields no queue), whether an interrupt reaches
      the thread while it sleeps, and whether the pool is shut down by the next
      loop test. */
  datatype Tick = Tick(route: Option<string>, interruptArrives: bool, shutdownAfter: bool)

  /** The sync loop's state between two passes, as values: the grouped
      queue's sub-queues, the back-off interval, the thread's interrupt status,
      whether the pool is shut down, the passes so far and the items handed to
      the pool so far. */
  datatype SyncState = SyncState(queues: map<string, seq<WorkItem>>, interval: int, interrupted: bool,
                                 shutdown: bool, outcomes: seq<PollOutcome>, handed: seq<WorkItem>)

  /** The state the sync thread starts in. */
  function SyncStart(queues: map<string, seq<WorkItem>>, shutdown: bool, interrupted: bool): SyncState {
    SyncState(queues, MIN_INTERVAL, interrupted, shutdown, [], [])
  }

  /** The queue the router hands the loop: the routed group's, or none. */
  function Routed(queues: map<string, seq<WorkItem>>, t: Tick): seq<WorkItem> {
    if t.route.Some? then Grouped.QueueOf(queues, t.route.value) else []
  }

  /** One pass of the loop on values: poll the routed queue; an item found is
      handed to the pool and resets the interval, an empty poll sleeps, which
      the interrupt status or an arriving interrupt cuts short. The shutdown
      flag is the one the next loop test reads. */
  function Pass(s: SyncState, t: Tick): SyncState {
    var q := Routed(s.queues, t);
    if q != [] then
      SyncState(s.queues[t.route.value := q[1..]], NextInterval(s.interval, Work), s.interrupted,
                t.shutdownAfter, s.outcomes + [Work], s.handed + [q[0]])
    else
      var intr := s.interrupted || t.interruptArrives;
      SyncState(s.queues, NextInterval(s.interval, Idle(intr)), intr,
                t.shutdownAfter, s.outcomes + [Idle(intr)], s.handed)
  }

  /** The loop run against a schedule: a pass per tick while the pool is not
      shut down. */
  function Run(s: SyncState, ticks: seq<Tick>): (r: SyncState)
    ensures |s.outcomes| <= |r.outcomes| <= |s.outcomes| + |ticks|
    ensures r.outcomes[..|s.outcomes|] == s.outcomes
    decreases |ticks|
  {
    if s.shutdown || ticks == [] then s
    else
      var r := Run(Pass(s, ticks[0]), ticks[1..]);
      assert r.outcomes[..|s.outcomes|] == r.outcomes[..|s.outcomes| + 1][..|s.outcomes|];
      r
  }

  /** The run makes no pass once the pool is shut down; otherwise it stops
      right after the first pass whose loop test sees the pool shut down, or
      when the schedule ends. */
  lemma {:induction false} RunStops(s: SyncState, ticks: seq<Tick>)
    ensures var r := Run(s, ticks); var n := |r.outcomes| - |s.outcomes|;
            && (s.shutdown ==> r == s)
            && r.shutdown == (s.shutdown || (n > 0 && ticks[n - 1].shutdownAfter))
            && (forall j :: 0 <= j < n - 1 ==> !ticks[j].shutdownAfter)
            && (n < |ticks| ==> r.shutdown)
    decreases |ticks|
  {
    if !s.shutdown && ticks != [] {
      var p := Pass(s, ticks[0]);
      RunStops(p, ticks[1..]);
      var r := Run(s, ticks);
      var n := |r.outcomes| - |s.outcomes|;
      assert n == |r.outcomes| - |p.outcomes| + 1;
      forall j | 0 <= j < n - 1 ensures !ticks[j].shutdownAfter {
        if j > 0 {
          assert ticks[j] == ticks[1..][j - 1];
        }
      }
      if n > 1 {
        assert ticks[n - 1] == ticks[1..][n - 2];
      }
    }
  }

  /** Along a run from a consistent state, the interval is the step function
      over the passes and one item is handed over per pass that found work. */
  lemma {:induction false} RunAccounts(s: SyncState, ticks: seq<Tick>)
    requires s.interval == IntervalAfter(s.outcomes) && |s.handed| == WorkCount(s.outcomes)
    ensures var r := Run(s, ticks); r.interval == IntervalAfter(r.outcomes) && |r.handed| == WorkCount(r.outcomes)
    decreases |ticks|
  {
    if !s.shutdown && ticks != [] {
      var p := Pass(s, ticks[0]);
      var o := p.outcomes[|s.outcomes|];
      assert p.outcomes == s.outcomes + [o];
      IntervalAfterStep(s.outcomes, o);
      WorkCountStep(s.outcomes, o);
      RunAccounts(p, ticks[1..]);
    }
  }

  /** An interrupted pass lies in a stretch of passes exactly when it is the
      first one or lies in the rest. */
  lemma IdleTrueSplit(os: seq<PollOutcome>, k: nat, j: nat)
    requires k < j <= |os|
    ensures Idle(true) in os[k..j] <==> os[k] == Idle(true) || Idle(true) in os[k + 1..j]
  {
    assert os[k..j] == [os[k]] + os[k + 1..j];
  }

  /** After a run the thread is interrupted exactly when it was on entry or
      some pass of the run had its sleep interrupted. */
  lemma {:induction false} RunInterruptStatus(s: SyncState, ticks: seq<Tick>)
    ensures var r := Run(s, ticks); r.interrupted <==> s.interrupted || Idle(true) in r.outcomes[|s.outcomes|..]
    decreases |ticks|
  {
    if !s.shutdown && ticks != [] {
      var p := Pass(s, ticks[0]);
      var r := Run(s, ticks);
      var k := |s.outcomes|;
      RunInterruptStatus(p, ticks[1..]);
      assert r == Run(p, ticks[1..]);
      assert |p.outcomes| == k + 1;
      assert p.outcomes == r.outcomes[..k + 1];
      assert p.interrupted == (s.interrupted || r.outcomes[k] == Idle(true));
      IdleTrueSplit(r.outcomes, k, |r.outcomes|);
    }
  }

  /** An idle pass's sleep is interrupted exactly when the thread was
      interrupted on entry to the run, an interrupt arrives during it, or an
      earlier pass of the run was interrupted: the interrupt status is sticky. */
  lemma {:induction false} RunInterrupts(s: SyncState, ticks: seq<Tick>)
    ensures var r := Run(s, ticks); var k := |s.outcomes|;
            forall j :: k <= j < |r.outcomes| && r.outcomes[j].Idle? ==>
              (r.outcomes[j].interrupted <==>
                 s.interrupted || ticks[j - k].interruptArrives || Idle(true) in r.outcomes[k..j])
    decreases |ticks|
  {
    if !s.shutdown && ticks != [] {
      var p := Pass(s, ticks[0]);
      var r := Run(s, ticks);
      var k := |s.outcomes|;
      RunInterrupts(p, ticks[1..]);
      assert r == Run(p, ticks[1..]);
      assert |p.outcomes| == k + 1;
      var o := r.outcomes[k];
      assert p.outcomes == r.outcomes[..k + 1];
      assert p.interrupted == (s.interrupted || o == Idle(true));
      forall j | k <= j < |r.outcomes| && r.outcomes[j].Idle?
        ensures r.outcomes[j].interrupted <==>
                  s.interrupted || ticks[j - k].interruptArrives || Idle(true) in r.outcomes[k..j]
      {
        if j == k {
          assert o == p.outcomes[k];
          assert r.outcomes[k..j] == [];
        } else {
          IdleTrueSplit(r.outcomes, k, j);
          assert ticks[j - k] == ticks[1..][j - (k + 1)];
        }
      }
    }
  }

  /** The loop itself never adds to a sub-queue: within a run, which lets no
      offer in between its passes, an empty sub-queue stays empty. */
  lemma {:induction false} EmptyStays(s: SyncState, ticks: seq<Tick>, g: string)
    requires Grouped.QueueOf(s.queues, g) == []
    ensures Grouped.QueueOf(Run(s, ticks).queues, g) == []
    decreases |ticks|
  {
    if !s.shutdown && ticks != [] {
      EmptyStays(Pass(s, ticks[0]), ticks[1..], g);
    }
  }

  /** A pass finds work only on a queue the router yields, and a routed poll
      that comes up empty is not refilled by the loop itself: with no offer in
      between the passes, that group stays empty to the end of the run. */
  lemma {:induction false} RunRouting(s: SyncState, ticks: seq<Tick>)
    ensures var r := Run(s, ticks); var k := |s.outcomes|;
            forall j :: k <= j < |r.outcomes| ==>
              && (r.outcomes[j].Work? ==> ticks[j - k].route.Some?)
              && (r.outcomes[j].Idle? && ticks[j - k].route.Some? ==>
                    Grouped.QueueOf(r.queues, ticks[j - k].route.value) == [])
    decreases |ticks|
  {
    if !s.shutdown && ticks != [] {
      var p := Pass(s, ticks[0]);
      var r := Run(s, ticks);
      var k := |s.outcomes|;
      RunRouting(p, ticks[1..]);
      assert r == Run(p, ticks[1..]);
      assert |p.outcomes| == k + 1;
      assert p.outcomes == r.outcomes[..k + 1];
      forall j | k <= j < |r.outcomes|
        ensures r.outcomes[j].Work? ==> ticks[j - k].route.Some?
        ensures r.outcomes[j].Idle? && ticks[j - k].route.Some? ==>
                  Grouped.QueueOf(r.queues, ticks[j - k].route.value) == []
      {
        if j == k {
          assert r.outcomes[k] == p.outcomes[k];
          if Routed(s.queues, ticks[0]) == [] {
            assert p.queues == s.queues;
            if ticks[0].route.Some? {
              EmptyStays(p, ticks[1..], ticks[0].route.value);
            }
          }
        } else {
          assert ticks[j - k] == ticks[1..][j - (k + 1)];
        }
      }
    }
  }

  /** What the sync loop promises about the state `r` it ends in, having
      started with the pool shut down or not (`shutdown0`) and the thread
      interrupted or not (`interrupted0`):
      - it makes no pass once shut down, stops right after the first pass whose
        loop test sees the pool shut down, and otherwise runs the whole schedule;
      - the interval is the step function over the passes, and one item is
        handed over per pass that found work;
      - a pass finds work only on a routed queue, and the loop itself never
        refills a group whose routed poll came up empty;
      - an idle pass's sleep is interrupted exactly when the thread was
        interrupted on entry, an interrupt arrives during it, or an earlier
        pass was interrupted, and the thread ends interrupted exactly then. */
  ghost predicate SyncPromises(ticks: seq<Tick>, shutdown0: bool, interrupted0: bool, r: SyncState) {
    && |r.outcomes| <= |ticks|
    && (shutdown0 ==> r.outcomes == [] && r.shutdown)
    && r.shutdown == (shutdown0 || (|r.outcomes| > 0 && ticks[|r.outcomes| - 1].shutdownAfter))
    && (forall j :: 0 <= j < |r.outcomes| - 1 ==> !ticks[j].shutdownAfter)
    && (|r.outcomes| < |ticks| ==> r.shutdown)
    && r.interval == IntervalAfter(r.outcomes) && |r.handed| == WorkCount(r.outcomes)
    && (forall j :: 0 <= j < |r.outcomes| ==>
          && (r.outcomes[j].Work? ==> ticks[j].route.Some?)
          && (r.outcomes[j].Idle? && ticks[j].route.Some? ==> Grouped.QueueOf(r.queues, ticks[j].route.value) == []))
    && (r.interrupted <==> interrupted0 || Idle(true) in r.outcomes)
    && (forall j :: 0 <= j < |r.outcomes| && r.outcomes[j].Idle? ==>
          (r.outcomes[j].interrupted <==> interrupted0 || ticks[j].interruptArrives || Idle(true) in r.outcomes[..j]))
  }

  /** A run from the sync thread's start state keeps every promise of the loop. */
  lemma RunSummary(s0: SyncState, ticks: seq<Tick>)
    requires s0 == SyncStart(s0.queues, s0.shutdown, s0.interrupted)
    ensures SyncPromises(ticks, s0.shutdown, s0.interrupted, Run(s0, ticks))
  {
    var r := Run(s0, ticks);
    RunStops(s0, ticks);
    RunAccounts(s0, ticks);
    RunRouting(s0, ticks);
    RunInterruptStatus(s0, ticks);
    RunInterrupts(s0, ticks);
    assert r.outcomes[0..] == r.outcomes;
    forall j | 0 <= j <= |r.outcomes| ensures r.outcomes[0..j] == r.outcomes[..j] {
    }
  }

  class LocalWorkExecutorService {
    const taskQueue: Grouped.GroupedQueue
    var isStarted: bool
    /** The pool's settings once it exists; null before start. */
    var pool: Option<PoolConfig>
    /** How many sync threads were started. */
    var syncThreads: nat
    var poolShutdown: bool
    /** Every item handed to the pool, in order. */
    var submitted: seq<WorkItem>
    /** The sync thread's interrupt status, which the loop re-sets after
        catching an interrupt, so that every later sleep is interrupted too. */
    var syncInterrupted: bool

    ghost predicate Valid()
      reads this, taskQueue
    {
      && taskQueue.Valid()
      && (isStarted <==> pool.Some?)
      && (pool.Some? ==> pool.value == STARTED_POOL)
      && syncThreads == (if isStarted then 1 else 0)
      && (poolShutdown ==> isStarted)
    }

    constructor ()
      ensures Valid() && fresh(taskQueue)
      ensures taskQueue.queuesByGroup == map[] && taskQueue.groups == []
      ensures !isStarted && pool.None? && syncThreads == 0 && !poolShutdown
      ensures submitted == [] && !syncInterrupted
    {
      taskQueue := new Grouped.GroupedQueue();
      isStarted := false;
      pool := None;
      syncThreads := 0;
      poolShutdown := false;
      submitted := [];
      syncInterrupted := false;
    }

    /** Builds the pool and starts the sync thread on the first call only. */
    method Start()
      requires Valid()
      modifies this
      ensures Valid() && isStarted
      ensures old(isStarted) ==> unchanged(this)
      ensures !old(isStarted) ==>
                && pool == Some(STARTED_POOL) && syncThreads == 1
                && poolShutdown == old(poolShutdown) && submitted == old(submitted)
                && syncInterrupted == old(syncInterrupted)
    {
      if !isStarted {
        isStarted := true;
        pool := Some(STARTED_POOL);
        syncThreads := syncThreads + 1;
      }
    }

    /** Adds `w` to the grouped queue. */
    method Execute(w: WorkItem)
      requires Valid()
      modifies taskQueue
      ensures Valid()
      ensures taskQueue.queuesByGroup == old(taskQueue.queuesByGroup)[w.group := old(taskQueue.Queue(w.group)) + [w]]
      ensures taskQueue.groups == if w.group in old(taskQueue.queuesByGroup) then old(taskQueue.groups) else old(taskQueue.groups) + [w.group]
      ensures taskQueue.offered == old(taskQueue.offered) + [w] && taskQueue.removed == old(taskQueue.removed)
      ensures taskQueue.TotalSize() == old(taskQueue.TotalSize()) + 1
    {
      var added := taskQueue.Offer(w);
    }

    /** The number of items waiting in the grouped queue. */
    method GetQueueSize() returns (n: int)
      requires Valid()
      ensures n == taskQueue.TotalSize() && n == |taskQueue.Contents()|
    {
      n := taskQueue.Size();
    }

    method Shutdown()
      requires Valid() && isStarted
      modifies this
      ensures Valid() && poolShutdown
      ensures isStarted == old(isStarted) && pool == old(pool) && syncThreads == old(syncThreads)
      ensures submitted == old(submitted) && syncInterrupted == old(syncInterrupted)
    {
      poolShutdown := true;
    }

    method IsShutdown() returns (b: bool)
      requires Valid() && isStarted
      ensures b == poolShutdown
    {
      b := poolShutdown;
    }

    /** The sync loop run against the schedule `ticks`: while the pool is not
        shut down, poll the queue; hand an item found to the pool and reset the
        interval, or else sleep and double the interval up to the ceiling. The
        loop also stops when the schedule runs out. `handed` is what the loop
        took out of the queue and gave to the pool. One call is the whole life
        of the sync thread that `Start` launches: the source's `run()` is
        entered once and never returns before shutdown. */
    method RunQueueSync(ticks: seq<Tick>) returns (interval: int, ghost outcomes: seq<PollOutcome>, handed: seq<WorkItem>)
      requires Valid() && isStarted
      requires forall i :: 0 <= i < |ticks| && ticks[i].route.Some? ==> ticks[i].route.value in taskQueue.groups
      modifies this, taskQueue
      ensures Valid()
      ensures isStarted == old(isStarted) && pool == old(pool) && syncThreads == old(syncThreads)
      ensures SyncState(taskQueue.queuesByGroup, interval, syncInterrupted, poolShutdown, outcomes, handed)
              == Run(SyncStart(old(taskQueue.queuesByGroup), old(poolShutdown), old(syncInterrupted)), ticks)
      ensures SyncPromises(ticks, old(poolShutdown), old(syncInterrupted),
                           SyncState(taskQueue.queuesByGroup, interval, syncInterrupted, poolShutdown, outcomes, handed))
      ensures MIN_INTERVAL <= interval <= MAX_INTERVAL
      ensures submitted == old(submitted) + handed && |handed| == WorkCount(outcomes)
      ensures taskQueue.removed == old(taskQueue.removed) + handed
      ensures taskQueue.offered == old(taskQueue.offered) && taskQueue.groups == old(taskQueue.groups)
      ensures forall g :: Grouped.Only(handed, g) + taskQueue.Queue(g) == old(taskQueue.Queue(g))
    {
      ghost var s0 := SyncStart(taskQueue.queuesByGroup, poolShutdown, syncInterrupted);
      ghost var m0, removed0 := taskQueue.queuesByGroup, taskQueue.removed;
      var shutdown, interrupted;
      interval, outcomes, handed, shutdown, interrupted := SyncLoop(ticks, poolShutdown, syncInterrupted);
      RunSummary(s0, ticks);
      Grouped.TakenInOrderAll(m0, taskQueue.queuesByGroup, taskQueue.offered, removed0, handed);
      submitted := submitted + handed;
      syncInterrupted, poolShutdown := interrupted, shutdown;
    }

    /** The loop of the sync thread over the grouped queue alone; the pool's
        shutdown flag and the thread's interrupt status come in as `shutdown0`
        and `interrupted0` and go out as `shutdown` and `interrupted`. The
        loop ends in the state the reference run computes. */
    method SyncLoop(ticks: seq<Tick>, shutdown0: bool, interrupted0: bool)
      returns (interval: int, ghost outcomes: seq<PollOutcome>, handed: seq<WorkItem>, shutdown: bool, interrupted: bool)
      requires taskQueue.Valid()
      requires forall i :: 0 <= i < |ticks| && ticks[i].route.Some? ==> ticks[i].route.value in taskQueue.groups
      modifies taskQueue
      ensures taskQueue.Valid()
      ensures SyncState(taskQueue.queuesByGroup, interval, interrupted, shutdown, outcomes, handed)
              == Run(SyncStart(old(taskQueue.queuesByGroup), shutdown0, interrupted0), ticks)
      ensures taskQueue.removed == old(taskQueue.removed) + handed
      ensures taskQueue.offered == old(taskQueue.offered) && taskQueue.groups == old(taskQueue.groups)
    {
      ghost var s0 := SyncStart(taskQueue.queuesByGroup, shutdown0, interrupted0);
      shutdown, interrupted := shutdown0, interrupted0;
      interval := MIN_INTERVAL;
      outcomes, handed := [], [];
      var i := 0;
      while !shutdown && i < |ticks|
        invariant 0 <= i <= |ticks|
        invariant taskQueue.Valid()
        invariant Run(s0, ticks)
                  == Run(SyncState(taskQueue.queuesByGroup, interval, interrupted, shutdown, outcomes, handed), ticks[i..])
        invariant taskQueue.removed == old(taskQueue.removed) + handed
        invariant taskQueue.offered == old(taskQueue.offered) && taskQueue.groups == old(taskQueue.groups)
      {
        ghost var before := SyncState(taskQueue.queuesByGroup, interval, interrupted, shutdown, outcomes, handed);
        var outcome;
        outcome, interval, interrupted, handed := SyncPass(ticks[i], interval, interrupted, handed, old(taskQueue.removed));
        shutdown := shutdown || ticks[i].shutdownAfter;
        outcomes := outcomes + [outcome];
        assert SyncState(taskQueue.queuesByGroup, interval, interrupted, shutdown, outcomes, handed) == Pass(before, ticks[i]);
        assert ticks[i..][1..] == ticks[i + 1..];
        i := i + 1;
      }
    }

    /** One pass of the sync loop: poll the routed group; hand an item found to
        the pool and reset the interval, or else sleep and double the interval
        up to the ceiling, unless the sleep is interrupted. */
    method SyncPass(tick: Tick, interval: int, interrupted: bool, handed: seq<WorkItem>, ghost log: seq<WorkItem>)
      returns (outcome: PollOutcome, next: int, interrupted': bool, handed': seq<WorkItem>)
      requires taskQueue.Valid() && taskQueue.removed == log + handed
      requires tick.route.Some? ==> tick.route.value in taskQueue.groups
      modifies taskQueue
      ensures taskQueue.Valid() && taskQueue.removed == log + handed'
      ensures taskQueue.offered == old(taskQueue.offered) && taskQueue.groups == old(taskQueue.groups)
      ensures outcome.Work? <==> tick.route.Some? && old(taskQueue.Queue(tick.route.value)) != []
      ensures outcome.Work? ==>
                && handed' == handed + [old(taskQueue.Queue(tick.route.value))[0]]
                && taskQueue.queuesByGroup == old(taskQueue.queuesByGroup)[tick.route.value := old(taskQueue.Queue(tick.route.value))[1..]]
      ensures outcome.Idle? ==>
                && handed' == handed && taskQueue.queuesByGroup == old(taskQueue.queuesByGroup)
                && outcome.interrupted == (interrupted || tick.interruptArrives)
      ensures next == NextInterval(interval, outcome)
      ensures interrupted' == (interrupted || outcome == Idle(true))
    {
      var polled := taskQueue.Poll(tick.route);
      next, interrupted', handed' := interval, interrupted, handed;
      if polled.Some? {
        // the item goes to the pool and the back-off starts over
        next := MIN_INTERVAL;
        handed' := handed + [polled.value];
        outcome := Work;
      } else {
        // an interrupted sleep leaves the interval as it was
        var intr := interrupted || tick.interruptArrives;
        if intr {
          interrupted' := true;
        } else {
          next := Min(MAX_INTERVAL, interval * EXPONENT);
        }
        outcome := Idle(intr);
      }
    }
  }
}
