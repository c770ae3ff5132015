/** TaskRecoveryTimerTask: one recovery cycle. The oldest pending-task times
    reported by the cluster members give a staleness cutoff; the node's own
    pending tasks created before the cutoff are resubmitted, flagged as
    recovered. The cluster call, the store query, the clock and the executor
    are inputs and logs here. */
module Recovery {
  import opened Common

  /** The margins subtracted from the reference time: EXPIRE_TIME_BUFFER from
      the oldest reported time, EMPTY_EXPIRE_TIME_BUFFER from the clock. */
  datatype Buffers = Buffers(expire: long, emptyExpire: long)

  const DEFAULT_BUFFERS: Buffers := Buffers(5000, 10000)

  /** The reported times that are present and below Long.MAX_VALUE. */
  predicate Reported(results: seq<Option<long>>, i: int) {
    0 <= i < |results| && results[i].Some? && results[i].value < LONG_MAX
  }

  /** The staleness cutoff of one cycle, in wrapping `long` arithmetic: the
      clock minus the empty buffer when no member reports a time, and the
      oldest reported time minus the expire buffer otherwise. */
  function Cutoff(results: seq<Option<long>>, now: long, b: Buffers): (c: long)
    ensures (forall i :: !Reported(results, i)) ==> c == SubLong(now, b.emptyExpire)
    ensures (exists i :: Reported(results, i)) ==>
              exists i :: && Reported(results, i)
                          && c == SubLong(results[i].value, b.expire)
                          && forall j :: 0 <= j < |results| && results[j].Some? ==> results[i].value <= results[j].value
  {
    var min := MinPresent(results);
    OldestReported(results);
    if min == LONG_MAX then SubLong(now, b.emptyExpire) else SubLong(min, b.expire)
  }

  /** The minimum accumulator over the reports stays at its sentinel exactly
      when no member reports a time, and otherwise lands on a reported time. */
  lemma OldestReported(results: seq<Option<long>>)
    ensures MinPresent(results) == LONG_MAX <==> forall i :: !Reported(results, i)
    ensures MinPresent(results) != LONG_MAX ==>
              exists i :: && Reported(results, i) && results[i].value == MinPresent(results)
                          && forall j :: 0 <= j < |results| && results[j].Some? ==> results[i].value <= results[j].value
  {
    MinPresentAbsent(results);
    var m := MinPresent(results);
    if m != LONG_MAX {
      var i :| 0 <= i < |results| && results[i] == Some(m);
      assert Reported(results, i);
    } else {
      forall i ensures !Reported(results, i) {
        if 0 <= i < |results| && results[i].Some? {
          assert results[i].value == LONG_MAX;
        }
      }
    }
  }

  /** With the default buffers and no underflow, the cutoff is exactly the
      oldest reported time minus 5000, or the clock minus 10000. */
  lemma CutoffDefault(results: seq<Option<long>>, now: long)
    requires LONG_MIN + 10000 <= now
    requires forall i :: Reported(results, i) ==> LONG_MIN + 5000 <= results[i].value
    ensures (forall i :: !Reported(results, i)) ==> Cutoff(results, now, DEFAULT_BUFFERS) == now - 10000
    ensures forall i :: Reported(results, i) && (forall j :: Reported(results, j) ==> results[i].value <= results[j].value) ==>
              Cutoff(results, now, DEFAULT_BUFFERS) == results[i].value - 5000
  {
    var c := Cutoff(results, now, DEFAULT_BUFFERS);
    forall i | Reported(results, i) && (forall j :: Reported(results, j) ==> results[i].value <= results[j].value)
      ensures c == results[i].value - 5000
    {
      var k :| && Reported(results, k) && c == SubLong(results[k].value, 5000)
               && forall j :: 0 <= j < |results| && results[j].Some? ==> results[k].value <= results[j].value;
      assert results[k].value <= results[i].value && results[i].value <= results[k].value;
    }
  }

  /** Two present times and an absent one, with a 5 ms buffer: the cutoff is 95. */
  lemma CutoffExample(now: long)
    ensures Cutoff([Some(100), Some(200), None], now, Buffers(5, 10)) == 95
  {
    var rs: seq<Option<long>> := [Some(100), Some(200), None];
    assert Reported(rs, 0);
    var c := Cutoff(rs, now, Buffers(5, 10));
    var k :| && Reported(rs, k) && c == SubLong(rs[k].value, 5)
             && forall j :: 0 <= j < |rs| && rs[j].Some? ==> rs[k].value <= rs[j].value;
    assert rs[k].value <= rs[0].value;
  }

  /** No member reporting a time leaves the cutoff at the clock minus the empty buffer. */
  lemma CutoffAllAbsent(n: nat, now: long, b: Buffers)
    ensures Cutoff(seq(n, i => None), now, b) == SubLong(now, b.emptyExpire)
  {
    var rs: seq<Option<long>> := seq(n, i => None);
    assert forall i :: !Reported(rs, i);
  }

  /** The store query `createdAtMillis < cutoff`. */
  datatype Query = CreatedBefore(cutoff: long)

  predicate Matches(q: Query, w: WorkItem) {
    w.createdAt < q.cutoff
  }

  /** The query one cycle sends to the store. */
  function RecoveryQuery(results: seq<Option<long>>, now: long, b: Buffers): Query {
    CreatedBefore(Cutoff(results, now, b))
  }

  /** The node's pending tasks that satisfy the query, in store order: every
      matching copy is returned and nothing else. */
  function LocalPendingTasks(store: seq<WorkItem>, q: Query): (works: seq<WorkItem>)
    ensures forall w :: multiset(works)[w] == if Matches(q, w) then multiset(store)[w] else 0
    ensures forall w :: w in works <==> w in store && Matches(q, w)
  {
    if store == [] then []
    else
      var rest := LocalPendingTasks(store[1..], q);
      assert store == [store[0]] + store[1..];
      if Matches(q, store[0]) then [store[0]] + rest else rest
  }

  /** Every task a cycle recovers was created before every present time a
      member reported, by more than the expire buffer (when the subtraction
      does not underflow). */
  lemma RecoveredAreStale(results: seq<Option<long>>, now: long, b: Buffers, store: seq<WorkItem>)
    requires exists i :: Reported(results, i)
    requires forall i :: Reported(results, i) ==> LONG_MIN <= results[i].value - b.expire <= LONG_MAX
    ensures forall w, j :: w in LocalPendingTasks(store, RecoveryQuery(results, now, b)) && 0 <= j < |results| && results[j].Some? ==>
              w.createdAt < results[j].value - b.expire
  {
    var c := Cutoff(results, now, b);
    var k :| && Reported(results, k) && c == SubLong(results[k].value, b.expire)
             && forall j :: 0 <= j < |results| && results[j].Some? ==> results[k].value <= results[j].value;
    assert c == results[k].value - b.expire;
  }

  /** What the strict comparison of the store query means for one task: when
      members report times, it is selected exactly when it was created more
      than the expire buffer before every reported time; when none does,
      exactly when it was created more than the empty buffer before the
      clock. Both read the subtraction without wrap-around. */
  lemma SelectedIffStale(results: seq<Option<long>>, now: long, b: Buffers, w: WorkItem)
    requires forall i :: Reported(results, i) ==> LONG_MIN <= results[i].value - b.expire <= LONG_MAX
    requires (forall i :: !Reported(results, i)) ==> LONG_MIN <= now - b.emptyExpire <= LONG_MAX
    ensures (forall i :: !Reported(results, i)) ==>
              (Matches(RecoveryQuery(results, now, b), w) <==> w.createdAt + b.emptyExpire < now)
    ensures (exists i :: Reported(results, i)) ==>
              (Matches(RecoveryQuery(results, now, b), w) <==>
                 forall j :: Reported(results, j) ==> w.createdAt + b.expire < results[j].value)
  {
    var c := Cutoff(results, now, b);
    if exists i :: Reported(results, i) {
      var k :| && Reported(results, k) && c == SubLong(results[k].value, b.expire)
               && forall j :: 0 <= j < |results| && results[j].Some? ==> results[k].value <= results[j].value;
      assert c == results[k].value - b.expire;
      if Matches(RecoveryQuery(results, now, b), w) {
        forall j | Reported(results, j) ensures w.createdAt + b.expire < results[j].value {
          assert results[k].value <= results[j].value;
        }
      }
    }
  }

  /** One resubmission: the task and its recovery flag. */
  datatype Submission = Submission(task: WorkItem, recovered: bool)

  /** The tasks, each flagged as recovered, in order. */
  function AsRecovered(ws: seq<WorkItem>): (subs: seq<Submission>)
    ensures |subs| == |ws|
    ensures forall i :: 0 <= i < |ws| ==> subs[i].task == ws[i] && subs[i].recovered
  {
    seq(|ws|, i requires 0 <= i < |ws| => Submission(ws[i], true))
  }

  /** Where a cycle throws, if anywhere: the cluster call, the store query, or
      the resubmission of the `at`-th task. */
  datatype Fault = NoFault | TimestampsFailed | QueryFailed | SubmitFailed(at: nat)

  /** How many tasks a cycle resubmits before it stops. */
  function SubmittedCount(fault: Fault, n: nat): (k: nat)
    ensures k <= n
    ensures k < n <==> fault.SubmitFailed? && fault.at < n
  {
    if fault.SubmitFailed? && fault.at < n then fault.at else n
  }

  class TaskRecoveryTimerTask {
    const buffers: Buffers
    /** Every call into the executor's submit, in order. */
    var submissions: seq<Submission>
    /** How often the recovery meter was marked. */
    var recoveryMarks: nat
    /** Every value the flush-count histogram was updated with. */
    var flushCounts: seq<nat>
    /** How many timer contexts were started and stopped. */
    var timerRuns: nat

    constructor ()
      ensures buffers == DEFAULT_BUFFERS
      ensures submissions == [] && recoveryMarks == 0 && flushCounts == [] && timerRuns == 0
    {
      buffers := DEFAULT_BUFFERS;
      submissions := [];
      recoveryMarks := 0;
      flushCounts := [];
      timerRuns := 0;
    }

    /** One cycle. `results` are the members' oldest task times, `now` the
        clock, `store` the node's pending tasks, `fault` the call that throws.
        Reports true when tasks were recovered and also when anything threw. */
    method Execute(results: seq<Option<long>>, now: long, store: seq<WorkItem>, fault: Fault) returns (flushed: bool)
      modifies this
      ensures timerRuns == old(timerRuns) + 1
      ensures fault.TimestampsFailed? || fault.QueryFailed? ==>
                flushed && submissions == old(submissions) && recoveryMarks == old(recoveryMarks) && flushCounts == old(flushCounts)
      ensures !fault.TimestampsFailed? && !fault.QueryFailed? ==>
                var works := LocalPendingTasks(store, RecoveryQuery(results, now, buffers));
                var k := SubmittedCount(fault, |works|);
                && flushed == (|works| > 0)
                && submissions == old(submissions) + AsRecovered(works[..k])
                && recoveryMarks == old(recoveryMarks) + (if |works| > 0 then 1 else 0)
                && flushCounts == old(flushCounts) + (if k == |works| then [|works|] else [])
    {
      flushed := false;
      if fault.TimestampsFailed? {
        timerRuns := timerRuns + 1;
        return true;
      }
      var query := StaleQuery(results, now, buffers);
      if fault.QueryFailed? {
        timerRuns := timerRuns + 1;
        return true;
      }
      var works := LocalPendingTasks(store, query);
      if |works| > 0 {
        flushed := true;
        recoveryMarks := recoveryMarks + 1;
      }
      var completed := ResubmitAll(works, fault);
      if !completed {
        timerRuns := timerRuns + 1;
        return true;
      }
      flushCounts := flushCounts + [|works|];
      timerRuns := timerRuns + 1;
    }

    /** The store query of one cycle, built from the members' oldest times
        and the clock. */
    static method StaleQuery(results: seq<Option<long>>, now: long, b: Buffers) returns (query: Query)
      ensures query == RecoveryQuery(results, now, b)
    {
      var min := OldestTimestamp(results);
      query := if min == LONG_MAX then CreatedBefore(SubLong(now, b.emptyExpire))
               else CreatedBefore(SubLong(min, b.expire));
    }

    /** The members' oldest times folded into the minimum accumulator. */
    static method OldestTimestamp(results: seq<Option<long>>) returns (min: long)
      ensures min == MinPresent(results)
    {
      min := LONG_MAX;
      var i := 0;
      while i < |results|
        invariant 0 <= i <= |results|
        invariant min == MinPresent(results[..i])
      {
        MinPresentStep(results, i);
        if results[i].Some? && results[i].value < min {
          min := results[i].value;
        }
        i := i + 1;
      }
      assert results[..i] == results;
    }

    /** Resubmits every task, flagged as recovered, in order; reports whether
        the loop ran to the end or a submission threw. */
    method ResubmitAll(works: seq<WorkItem>, fault: Fault) returns (completed: bool)
      modifies this
      ensures completed == (SubmittedCount(fault, |works|) == |works|)
      ensures submissions == old(submissions) + AsRecovered(works[..SubmittedCount(fault, |works|)])
      ensures recoveryMarks == old(recoveryMarks) && flushCounts == old(flushCounts) && timerRuns == old(timerRuns)
    {
      var j := 0;
      assert works[..0] == [];
      while j < |works|
        invariant 0 <= j <= SubmittedCount(fault, |works|)
        invariant recoveryMarks == old(recoveryMarks) && flushCounts == old(flushCounts) && timerRuns == old(timerRuns)
        invariant submissions == old(submissions) + AsRecovered(works[..j])
      {
        if fault == SubmitFailed(j) {
          return false;
        }
        assert AsRecovered(works[..j + 1]) == AsRecovered(works[..j]) + [Submission(works[j], true)];
        submissions := submissions + [Submission(works[j], true)];
        j := j + 1;
      }
      assert works[..j] == works;
      completed := true;
    }
  }
}
