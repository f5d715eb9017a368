/** Simple round-robin scheduling: the records wait in a FIFO queue; each
    slice runs the head for one unit and puts it back at the tail unless it
    has finished. Queue entries are indices into the collection. */
module RoundRobinScheduling {
  import opened Process
  import opened Slices

  /** The initial queue: every record, in collection order. */
  function Indices(n: nat): (q: seq<nat>)
    ensures |q| == n && forall i :: 0 <= i < n ==> q[i] == i
  {
    if n == 0 then [] else Indices(n - 1) + [n - 1]
  }

  /** The initial queue holds every index below `n` exactly once. */
  lemma {:induction false} IndicesCount(n: nat)
    ensures InRange(Indices(n), n)
    ensures forall i: nat :: multiset(Indices(n))[i] == if i < n then 1 else 0
  {
    if n > 0 {
      var last: nat := n - 1;
      IndicesCount(last);
      assert multiset(Indices(n)) == multiset(Indices(last)) + multiset{last};
    }
  }

  /** One slice: the head of the queue runs; it goes back to the tail
      unless its required time is used up. */
  function RoundRobinStep(s: seq<PCB>, q: seq<nat>): (r: (seq<PCB>, seq<nat>))
    requires q != [] && InRange(q, |s|)
    ensures |r.0| == |s| && InRange(r.1, |s|)
  {
    var k := q[0];
    var p := Execute(RoundRobin, s[k]);
    (s[k := p], if p.requiredTime == 0 then q[1..] else q[1..] + [k])
  }

  /** The records and the queue after `n` slices (or after the queue has
      run empty, if that happens first). The queue never grows: a slice
      either drops its head or moves it to the tail. */
  function RoundRobinIterate(s: seq<PCB>, q: seq<nat>, n: nat): (r: (seq<PCB>, seq<nat>))
    requires InRange(q, |s|)
    ensures |r.0| == |s| && InRange(r.1, |s|)
    ensures |r.1| <= |q|
  {
    if n == 0 then (s, q)
    else
      var prev := RoundRobinIterate(s, q, n - 1);
      if prev.1 == [] then prev else RoundRobinStep(prev.0, prev.1)
  }

  /** `trace` is the order in which round robin serves the records: slice `t`
      runs the head of the queue as it stands after `t` slices. */
  predicate RoundRobinTrace(s: seq<PCB>, q: seq<nat>, trace: seq<nat>)
  {
    InRange(q, |s|) &&
    forall t :: 0 <= t < |trace| ==>
      RoundRobinIterate(s, q, t).1 != [] && RoundRobinIterate(s, q, t).1[0] == trace[t]
  }

  /** The queue holds each unfinished index exactly once and no finished
      index. */
  predicate QueueHoldsUnfinished(s: seq<PCB>, q: seq<nat>)
  {
    InRange(q, |s|) &&
    forall i: nat :: i < |s| ==> multiset(q)[i] == if s[i].state == Finished then 0 else 1
  }

  /** Along the queue the CPU times never decrease, and the tail is at most
      one slice ahead of the head. */
  predicate CpuBalanced(s: seq<PCB>, q: seq<nat>)
  {
    InRange(q, |s|) &&
    forall j, l :: 0 <= j < l < |q| ==> s[q[j]].cpuTime <= s[q[l]].cpuTime <= s[q[j]].cpuTime + 1
  }

  /** A slice keeps the queue exact: the head is unfinished, so it runs, and
      it is re-enqueued exactly when it is still unfinished. */
  lemma StepKeepsQueue(s: seq<PCB>, q: seq<nat>)
    requires q != [] && AllBetweenSlices(s) && QueueHoldsUnfinished(s, q)
    ensures s[q[0]].state != Finished
    ensures RoundRobinStep(s, q).0 == s[q[0] := Execute(RoundRobin, s[q[0]])]
    ensures AllBetweenSlices(RoundRobinStep(s, q).0)
    ensures QueueHoldsUnfinished(RoundRobinStep(s, q).0, RoundRobinStep(s, q).1)
  {
    var k := q[0];
    assert q == [k] + q[1..];
    assert multiset(q) == multiset{k} + multiset(q[1..]);
    var r := RoundRobinStep(s, q);
    var p := Execute(RoundRobin, s[k]);
    if p.requiredTime != 0 {
      assert multiset(r.1) == multiset(q[1..]) + multiset{k};
    }
    forall i: nat | i < |s|
      ensures multiset(r.1)[i] == if r.0[i].state == Finished then 0 else 1
    {
    }
  }

  /** A slice keeps the CPU times balanced along the queue. */
  lemma StepKeepsBalance(s: seq<PCB>, q: seq<nat>)
    requires q != [] && QueueHoldsUnfinished(s, q) && CpuBalanced(s, q)
    ensures CpuBalanced(RoundRobinStep(s, q).0, RoundRobinStep(s, q).1)
  {
    var k := q[0];
    assert q == [k] + q[1..];
    assert multiset(q) == multiset{k} + multiset(q[1..]);
    assert k !in q[1..];
    var r := RoundRobinStep(s, q);
    forall j, l | 0 <= j < l < |r.1|
      ensures r.0[r.1[j]].cpuTime <= r.0[r.1[l]].cpuTime <= r.0[r.1[j]].cpuTime + 1
    {
      assert r.1[j] == q[j + 1] && r.1[j] != k;
      if l < |q| - 1 {
        assert r.1[l] == q[l + 1] && r.1[l] != k;
      } else {
        assert r.1[l] == k;
      }
    }
  }

  /** Balanced queues bound the difference of any two unfinished records'
      CPU times by one slice. */
  lemma BalancedBound(s: seq<PCB>, q: seq<nat>)
    requires QueueHoldsUnfinished(s, q) && CpuBalanced(s, q)
    ensures forall i, j :: 0 <= i < |s| && 0 <= j < |s| && s[i].state != Finished && s[j].state != Finished
              ==> s[i].cpuTime <= s[j].cpuTime + 1
  {
    forall i, j | 0 <= i < |s| && 0 <= j < |s| && s[i].state != Finished && s[j].state != Finished
      ensures s[i].cpuTime <= s[j].cpuTime + 1
    {
      assert multiset(q)[i] == 1 && multiset(q)[j] == 1;
      assert i in q && j in q;
      var a :| 0 <= a < |q| && q[a] == i;
      var b :| 0 <= b < |q| && q[b] == j;
    }
  }

  /** The invariant of the round-robin loop, from the initial queue of all
      records: everything stays between slices and the queue holds exactly
      the unfinished records; when all CPU times start equal they also stay
      balanced along the queue. */
  lemma {:induction false} RoundRobinInvariant(s: seq<PCB>, n: nat)
    requires Startable(s)
    ensures InRange(Indices(|s|), |s|)
    ensures AllBetweenSlices(RoundRobinIterate(Reset(s), Indices(|s|), n).0)
    ensures QueueHoldsUnfinished(RoundRobinIterate(Reset(s), Indices(|s|), n).0, RoundRobinIterate(Reset(s), Indices(|s|), n).1)
    ensures (forall i, j :: 0 <= i < |s| && 0 <= j < |s| ==> s[i].cpuTime == s[j].cpuTime) ==>
              CpuBalanced(RoundRobinIterate(Reset(s), Indices(|s|), n).0, RoundRobinIterate(Reset(s), Indices(|s|), n).1)
  {
    IndicesCount(|s|);
    var q0 := Indices(|s|);
    if n == 0 {
      ResetIsBetweenSlices(s);
    } else {
      RoundRobinInvariant(s, n - 1);
      var prev := RoundRobinIterate(Reset(s), q0, n - 1);
      if prev.1 != [] {
        StepKeepsQueue(prev.0, prev.1);
        if forall i, j :: 0 <= i < |s| && 0 <= j < |s| ==> s[i].cpuTime == s[j].cpuTime {
          StepKeepsBalance(prev.0, prev.1);
        }
      }
    }
  }

  /** Fairness: when every record starts with the same CPU time, at every
      point of the run any two unfinished records have had the same number
      of slices, give or take one. */
  lemma RoundRobinFairness(s: seq<PCB>, n: nat)
    requires Startable(s)
    requires forall i, j :: 0 <= i < |s| && 0 <= j < |s| ==> s[i].cpuTime == s[j].cpuTime
    ensures InRange(Indices(|s|), |s|)
    ensures forall i, j :: 0 <= i < |s| && 0 <= j < |s| &&
              RoundRobinIterate(Reset(s), Indices(|s|), n).0[i].state != Finished &&
              RoundRobinIterate(Reset(s), Indices(|s|), n).0[j].state != Finished
              ==> RoundRobinIterate(Reset(s), Indices(|s|), n).0[i].cpuTime <=
                  RoundRobinIterate(Reset(s), Indices(|s|), n).0[j].cpuTime + 1
  {
    RoundRobinInvariant(s, n);
    var r := RoundRobinIterate(Reset(s), Indices(|s|), n);
    BalancedBound(r.0, r.1);
  }

  /** Following the round-robin order from `s` gives the same records as
      replaying its trace: the queue only decides the order. */
  lemma {:induction false} RoundRobinTraceReplays(s: seq<PCB>, q: seq<nat>, trace: seq<nat>)
    requires RoundRobinTrace(s, q, trace)
    ensures InRange(trace, |s|)
    ensures RoundRobinIterate(s, q, |trace|).0 == Replay(RoundRobin, s, trace)
    decreases |trace|
  {
    if trace != [] {
      var n := |trace| - 1;
      var init := trace[..n];
      assert RoundRobinTrace(s, q, init) by {
        forall t | 0 <= t < |init|
          ensures RoundRobinIterate(s, q, t).1 != [] && RoundRobinIterate(s, q, t).1[0] == init[t]
        {
        }
      }
      RoundRobinTraceReplays(s, q, init);
      forall t | 0 <= t < |trace| ensures trace[t] < |s| {
        assert RoundRobinIterate(s, q, t).1[0] == trace[t];
      }
    }
  }

  /** Fairness of a scheduler run: in the state between any two slices of
      the round-robin order, unfinished records' CPU times differ by at most
      one when they all started equal. */
  lemma RoundRobinRunIsFair(s: seq<PCB>, trace: seq<nat>, t: nat)
    requires Startable(s)
    requires forall i, j :: 0 <= i < |s| && 0 <= j < |s| ==> s[i].cpuTime == s[j].cpuTime
    requires RoundRobinTrace(Reset(s), Indices(|s|), trace)
    requires t <= |trace|
    ensures InRange(trace[..t], |s|)
    ensures forall i, j :: 0 <= i < |s| && 0 <= j < |s| &&
              Replay(RoundRobin, Reset(s), trace[..t])[i].state != Finished &&
              Replay(RoundRobin, Reset(s), trace[..t])[j].state != Finished
              ==> Replay(RoundRobin, Reset(s), trace[..t])[i].cpuTime <=
                  Replay(RoundRobin, Reset(s), trace[..t])[j].cpuTime + 1
  {
    assert RoundRobinTrace(Reset(s), Indices(|s|), trace[..t]) by {
      forall u | 0 <= u < t
        ensures RoundRobinIterate(Reset(s), Indices(|s|), u).1 != [] &&
                RoundRobinIterate(Reset(s), Indices(|s|), u).1[0] == trace[..t][u]
      {
      }
    }
    RoundRobinTraceReplays(Reset(s), Indices(|s|), trace[..t]);
    RoundRobinFairness(s, t);
  }

  /** Appending the current head of the queue extends the round-robin order
      by one slice. */
  lemma RoundRobinTraceSnoc(s: seq<PCB>, q: seq<nat>, trace: seq<nat>, k: nat)
    requires RoundRobinTrace(s, q, trace)
    requires RoundRobinIterate(s, q, |trace|).1 != [] && RoundRobinIterate(s, q, |trace|).1[0] == k
    ensures RoundRobinTrace(s, q, trace + [k])
  {
    var trace' := trace + [k];
    forall t | 0 <= t < |trace'|
      ensures RoundRobinIterate(s, q, t).1 != [] && RoundRobinIterate(s, q, t).1[0] == trace'[t]
    {
    }
  }

  /** What the round-robin loop keeps between slices, after running `trace`
      from the reset records `s` with the queue of all records: `cur` and
      `queue` are the round-robin state and every slice has been reported. */
  predicate RoundRobinRun(s: seq<PCB>, trace: seq<nat>, snapshots: seq<seq<PCB>>, cur: seq<PCB>, queue: seq<nat>)
  {
    && RoundRobinTrace(Reset(s), Indices(|s|), trace)
    && RoundRobinIterate(Reset(s), Indices(|s|), |trace|) == (cur, queue)
    && Reported(RoundRobin, Reset(s), trace, snapshots)
  }

  /** A round-robin order from the queue of all records only ever serves
      unfinished records, and following it is replaying it. */
  lemma {:induction false} RoundRobinTraceChoosesUnfinished(s: seq<PCB>, trace: seq<nat>)
    requires Startable(s)
    requires RoundRobinTrace(Reset(s), Indices(|s|), trace)
    ensures ChoosesUnfinished(RoundRobin, Reset(s), trace)
    ensures RoundRobinIterate(Reset(s), Indices(|s|), |trace|).0 == Replay(RoundRobin, Reset(s), trace)
  {
    RoundRobinTraceReplays(Reset(s), Indices(|s|), trace);
    forall t | 0 <= t < |trace|
      ensures Replay(RoundRobin, Reset(s), trace[..t])[trace[t]].state != Finished
    {
      var prefix := trace[..t];
      assert RoundRobinTrace(Reset(s), Indices(|s|), prefix) by {
        forall u | 0 <= u < |prefix|
          ensures RoundRobinIterate(Reset(s), Indices(|s|), u).1 != [] &&
                  RoundRobinIterate(Reset(s), Indices(|s|), u).1[0] == prefix[u]
        {
        }
      }
      RoundRobinTraceReplays(Reset(s), Indices(|s|), prefix);
      RoundRobinInvariant(s, t);
      var r := RoundRobinIterate(Reset(s), Indices(|s|), t);
      StepKeepsQueue(r.0, r.1);
    }
  }

  /** One slice keeps the loop invariant and lowers the total required time
      by one. */
  lemma RoundRobinRunStep(s: seq<PCB>, trace: seq<nat>, snapshots: seq<seq<PCB>>,
                          cur: seq<PCB>, queue: seq<nat>, snapshot: seq<PCB>, cur': seq<PCB>, queue': seq<nat>)
    requires Startable(s)
    requires RoundRobinRun(s, trace, snapshots, cur, queue) && queue != []
    requires snapshot == MarkRunning(cur, queue[0])
    requires (cur', queue') == RoundRobinStep(cur, queue)
    ensures RoundRobinRun(s, trace + [queue[0]], snapshots + [snapshot], cur', queue')
    ensures cur' == cur[queue[0] := Execute(RoundRobin, cur[queue[0]])]
    ensures 0 <= TotalRequired(cur') < TotalRequired(cur)
  {
    var k := queue[0];
    RoundRobinInvariant(s, |trace|);
    RoundRobinTraceChoosesUnfinished(s, trace);
    StepKeepsQueue(cur, queue);
    RoundRobinTraceSnoc(Reset(s), Indices(|s|), trace, k);
    ReportedSnoc(RoundRobin, Reset(s), trace, snapshots, k);
    TotalRequiredUpdate(cur, k, Execute(RoundRobin, cur[k]));
    TotalRequiredBetweenSlices(cur);
    TotalRequiredBetweenSlices(cur');
  }

  /** When the queue has run empty every record is FINISHED, and the run
      was complete: one slice per unit of required time. */
  lemma RoundRobinRunDone(s: seq<PCB>, trace: seq<nat>, snapshots: seq<seq<PCB>>, cur: seq<PCB>)
    requires Startable(s)
    requires RoundRobinRun(s, trace, snapshots, cur, [])
    ensures ChoosesUnfinished(RoundRobin, Reset(s), trace)
    ensures cur == Replay(RoundRobin, Reset(s), trace)
    ensures AllFinished(cur)
    ensures RunsToCompletion(RoundRobin, s, trace, cur)
  {
    RoundRobinInvariant(s, |trace|);
    RoundRobinTraceChoosesUnfinished(s, trace);
    assert AllFinished(cur) by {
      var empty: seq<nat> := [];
      forall i: nat | i < |cur| ensures cur[i].state == Finished {
        assert multiset(empty)[i] == 0;
      }
    }
    CompleteRun(RoundRobin, s, trace);
  }

  /** A finished round-robin run is determined by the records it starts
      from: two runs that both end with the queue empty served the same
      records in the same order, reported the same and ended the same. */
  lemma RoundRobinRunUnique(s: seq<PCB>, trace1: seq<nat>, snapshots1: seq<seq<PCB>>, cur1: seq<PCB>,
                            trace2: seq<nat>, snapshots2: seq<seq<PCB>>, cur2: seq<PCB>)
    requires RoundRobinRun(s, trace1, snapshots1, cur1, [])
    requires RoundRobinRun(s, trace2, snapshots2, cur2, [])
    ensures trace1 == trace2 && snapshots1 == snapshots2 && cur1 == cur2
  {
    var s0, q0 := Reset(s), Indices(|s|);
    // a shorter run would have stopped while the longer one still had a queue
    assert |trace1| == |trace2|;
    assert trace1 == trace2 by {
      forall t | 0 <= t < |trace1| ensures trace1[t] == trace2[t] {
        assert RoundRobinIterate(s0, q0, t).1[0] == trace1[t];
      }
    }
  }

  /** Round robin never changes a priority: after any run every record has
      the priority it started with. */
  lemma RoundRobinKeepsPriority(s: seq<PCB>, trace: seq<nat>)
    requires InRange(trace, |s|)
    ensures forall i :: 0 <= i < |s| ==> Replay(RoundRobin, s, trace)[i].priority == s[i].priority
  {
    ReplayAccounting(RoundRobin, s, trace);
  }

  /** The initial pass: every record is set READY and enqueued, in
      collection order. */
  method EnqueueAll(procs: array<PCB>) returns (queue: seq<nat>)
    modifies procs
    ensures procs[..] == Reset(old(procs[..]))
    ensures queue == Indices(procs.Length)
  {
    queue := [];
    for i := 0 to procs.Length
      invariant queue == Indices(i)
      invariant forall j :: 0 <= j < i ==> procs[j] == old(procs[j]).(state := Ready)
      invariant forall j :: i <= j < procs.Length ==> procs[j] == old(procs[j])
    {
      procs[i] := procs[i].(state := Ready);
      queue := queue + [i];
    }
  }

  /** One turn of the round-robin scheduler: the head of the queue is
      dequeued, marked RUNNING and reported, runs for one slice, and is
      enqueued again at the tail unless it has FINISHED. */
  method ServeHead(procs: array<PCB>, queue: seq<nat>) returns (queue': seq<nat>, ghost snapshot: seq<PCB>)
    requires queue != [] && InRange(queue, procs.Length)
    modifies procs
    ensures snapshot == MarkRunning(old(procs[..]), queue[0])
    ensures (procs[..], queue') == RoundRobinStep(old(procs[..]), queue)
  {
    var k := queue[0];
    queue' := queue[1..];

    procs[k] := procs[k].(state := Running);
    snapshot := procs[..];

    procs[k] := procs[k].(requiredTime := procs[k].requiredTime - 1);
    procs[k] := procs[k].(cpuTime := procs[k].cpuTime + 1);
    if procs[k].requiredTime == 0 {
      procs[k] := procs[k].(state := Finished);
    } else {
      procs[k] := procs[k].(state := Ready);
      queue' := queue' + [k];
    }
    assert procs[k] == Execute(RoundRobin, old(procs[k]));
    assert procs[..] == old(procs[..])[k := Execute(RoundRobin, old(procs[k]))];
  }

  /** The round-robin scheduler. `timeQuantum` is accepted and never read:
      every turn is one slice. `trace` is the record selected in each slice,
      `snapshots` the collection as reported in each slice. */
  method RoundRobinScheduling(procs: array<PCB>, timeQuantum: int) returns (ghost trace: seq<nat>, ghost snapshots: seq<seq<PCB>>)
    requires Startable(procs[..])
    modifies procs
    // the run serves the records in round-robin order from the queue of all
    // records until the queue is empty, and reports every slice
    ensures RoundRobinRun(old(procs[..]), trace, snapshots, procs[..], [])
    ensures ChoosesUnfinished(RoundRobin, Reset(old(procs[..])), trace)
    ensures procs[..] == Replay(RoundRobin, Reset(old(procs[..])), trace)
    // it has one slice per unit of required time and runs every record to completion
    ensures RunsToCompletion(RoundRobin, old(procs[..]), trace, procs[..])
  {
    ghost var s := procs[..];
    var queue := EnqueueAll(procs);
    IndicesCount(procs.Length);
    ResetIsBetweenSlices(s);
    TotalRequiredBetweenSlices(procs[..]);

    trace, snapshots := [], [];
    var timeSlice := 0;
    while queue != []
      invariant RoundRobinRun(s, trace, snapshots, procs[..], queue)
      invariant TotalRequired(procs[..]) >= 0
      invariant timeSlice == |trace|
      decreases TotalRequired(procs[..])
    {
      ghost var before, waiting := procs[..], queue;
      ghost var snapshot;
      queue, snapshot := ServeHead(procs, queue);
      RoundRobinRunStep(s, trace, snapshots, before, waiting, snapshot, procs[..], queue);
      trace, snapshots := trace + [waiting[0]], snapshots + [snapshot];
      timeSlice := timeSlice + 1;
    }

    RoundRobinRunDone(s, trace, snapshots, procs[..]);
  }
}
