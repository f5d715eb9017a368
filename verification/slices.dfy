/** What both schedulers share: a run is a sequence of time slices, each of
    which selects one record and applies `Execute` to it. A run is described
    by its trace, the selected index of every slice in order. */
module Slices {
  import opened Process

  /** Every selected index names a record of a collection of `n`. */
  predicate InRange(trace: seq<nat>, n: nat)
  {
    forall t :: 0 <= t < |trace| ==> trace[t] < n
  }

  /** The records after the slices of `trace` have been applied to `s`. */
  function Replay(policy: Policy, s: seq<PCB>, trace: seq<nat>): (r: seq<PCB>)
    requires InRange(trace, |s|)
    ensures |r| == |s|
    decreases |trace|
  {
    if trace == [] then s
    else
      var prev := Replay(policy, s, trace[..|trace| - 1]);
      var k := trace[|trace| - 1];
      prev[k := Execute(policy, prev[k])]
  }

  /** Every slice of `trace` selects a record that is not FINISHED at that
      moment. */
  predicate ChoosesUnfinished(policy: Policy, s: seq<PCB>, trace: seq<nat>)
  {
    InRange(trace, |s|) &&
    forall t :: 0 <= t < |trace| ==> Replay(policy, s, trace[..t])[trace[t]].state != Finished
  }

  /** What `n` slices of a policy do to one record: the id stays, CPU time
      grows by `n`, required time shrinks by `n`, priority decays `n` times,
      and the state is the one the last slice left. */
  predicate Charged(policy: Policy, before: PCB, after: PCB, n: nat)
  {
    && after.id == before.id
    && after.cpuTime == before.cpuTime + n
    && after.requiredTime == before.requiredTime - n
    && after.priority == before.priority - Decay(policy) * n
    && (n == 0 ==> after.state == before.state)
    && (n > 0 ==> after.state == if after.requiredTime == 0 then Finished else Ready)
  }

  /** Appending one slice to a trace applies `Execute` to the selected record
      and leaves every other record as it was. */
  lemma ReplaySnoc(policy: Policy, s: seq<PCB>, trace: seq<nat>, k: nat)
    requires InRange(trace, |s|) && k < |s|
    ensures InRange(trace + [k], |s|)
    ensures Replay(policy, s, trace + [k]) == Replay(policy, s, trace)[k := Execute(policy, Replay(policy, s, trace)[k])]
  {
    assert (trace + [k])[..|trace|] == trace;
  }

  /** Each record is charged exactly once per occurrence of its index in the
      trace, and records that never ran are untouched. */
  lemma {:induction false} ReplayAccounting(policy: Policy, s: seq<PCB>, trace: seq<nat>)
    requires InRange(trace, |s|)
    ensures forall i :: 0 <= i < |s| ==> Charged(policy, s[i], Replay(policy, s, trace)[i], multiset(trace)[i])
    decreases |trace|
  {
    if trace != [] {
      var n := |trace| - 1;
      var init, k := trace[..n], trace[n];
      assert trace == init + [k];
      ReplayAccounting(policy, s, init);
      var prev := Replay(policy, s, init);
      forall i: nat | i < |s|
        ensures Charged(policy, s[i], Replay(policy, s, trace)[i], multiset(trace)[i])
      {
        var before: multiset<nat> := multiset(init);
        var c := before[i];
        if i == k {
          assert multiset(trace)[i] == c + 1;
          assert Decay(policy) * (c + 1) == Decay(policy) * c + Decay(policy);
        } else {
          assert multiset(trace)[i] == c;
        }
      }
    }
  }

  /** `snapshots` are the reports of the run `trace`: in slice `t` the
      collection is shown as the slice found it, with the selected record
      marked RUNNING and no other record RUNNING. */
  predicate Reported(policy: Policy, s: seq<PCB>, trace: seq<nat>, snapshots: seq<seq<PCB>>)
  {
    && InRange(trace, |s|)
    && |snapshots| == |trace|
    && (forall t :: 0 <= t < |trace| ==> snapshots[t] == MarkRunning(Replay(policy, s, trace[..t]), trace[t]))
    && (forall t, j :: 0 <= t < |trace| && 0 <= j < |s| ==> (snapshots[t][j].state == Running <==> j == trace[t]))
  }

  /** Reporting one more slice, taken between slices, keeps the reports
      exact and exclusive. */
  lemma ReportedSnoc(policy: Policy, s: seq<PCB>, trace: seq<nat>, snapshots: seq<seq<PCB>>, k: nat)
    requires Reported(policy, s, trace, snapshots)
    requires k < |s| && AllBetweenSlices(Replay(policy, s, trace))
    ensures Reported(policy, s, trace + [k], snapshots + [MarkRunning(Replay(policy, s, trace), k)])
  {
    var trace' := trace + [k];
    var snapshots' := snapshots + [MarkRunning(Replay(policy, s, trace), k)];
    forall t | 0 <= t < |trace'|
      ensures snapshots'[t] == MarkRunning(Replay(policy, s, trace'[..t]), trace'[t])
    {
      if t < |trace| {
        assert trace'[..t] == trace[..t];
      } else {
        assert trace'[..t] == trace;
      }
    }
  }

  /** A run that only selects unfinished records keeps every record in its
      between-slices shape and lowers the total required time by one per
      slice: the total is the loop's termination measure. */
  lemma {:induction false} ReplayProgress(policy: Policy, s: seq<PCB>, trace: seq<nat>)
    requires AllBetweenSlices(s)
    requires ChoosesUnfinished(policy, s, trace)
    ensures AllBetweenSlices(Replay(policy, s, trace))
    ensures TotalRequired(Replay(policy, s, trace)) == TotalRequired(s) - |trace|
    decreases |trace|
  {
    if trace != [] {
      var n := |trace| - 1;
      var init, k := trace[..n], trace[n];
      assert ChoosesUnfinished(policy, s, init) by {
        forall t | 0 <= t < n ensures Replay(policy, s, init[..t])[init[t]].state != Finished {
          assert init[..t] == trace[..t];
        }
      }
      ReplayProgress(policy, s, init);
      var prev := Replay(policy, s, init);
      assert prev[k].state != Finished by {
        assert trace[..n] == init;
      }
      TotalRequiredUpdate(prev, k, Execute(policy, prev[k]));
    }
  }

  /** A record after it has run to completion: its whole required time
      has become CPU time and its priority has decayed once per slice. */
  function Completed(policy: Policy, p: PCB): PCB
  {
    p.(priority := p.priority - Decay(policy) * p.requiredTime,
       cpuTime := p.cpuTime + p.requiredTime,
       requiredTime := 0,
       state := Finished)
  }

  /** A READY record that needed time and ends FINISHED has run exactly
      as often as it needed. */
  lemma ChargedToCompletion(policy: Policy, before: PCB, after: PCB, n: nat)
    requires Charged(policy, before, after, n)
    requires before.state == Ready && before.requiredTime >= 1
    requires after.state == Finished && BetweenSlices(after)
    ensures n == before.requiredTime
    ensures after == Completed(policy, before)
  {
  }

  /** `trace` runs every record of `s` to completion, ending in `r`: it has
      exactly as many slices as the total required time, runs each record
      exactly as often as it needed, and leaves it with all its required
      time turned into CPU time. */
  predicate RunsToCompletion(policy: Policy, s: seq<PCB>, trace: seq<nat>, r: seq<PCB>)
  {
    && |r| == |s|
    && |trace| == TotalRequired(s)
    && (forall i :: 0 <= i < |s| ==> multiset(trace)[i] == s[i].requiredTime)
    && (forall i :: 0 <= i < |s| ==> r[i] == Completed(policy, s[i]))
  }

  /** A complete run: the schedulers first reset every state to READY; when
      every record still needs time, a trace of unfinished choices from there
      that leaves every record FINISHED runs every record to completion. */
  lemma CompleteRun(policy: Policy, s: seq<PCB>, trace: seq<nat>)
    requires Startable(s)
    requires ChoosesUnfinished(policy, Reset(s), trace)
    requires AllFinished(Replay(policy, Reset(s), trace))
    ensures RunsToCompletion(policy, s, trace, Replay(policy, Reset(s), trace))
  {
    var s0 := Reset(s);
    var r := Replay(policy, s0, trace);
    ResetIsBetweenSlices(s);
    ResetKeepsTotal(s);
    ReplayProgress(policy, s0, trace);
    TotalRequiredBetweenSlices(r);
    ReplayAccounting(policy, s0, trace);
    forall i | 0 <= i < |s|
      ensures multiset(trace)[i] == s[i].requiredTime
      ensures r[i] == Completed(policy, s[i])
    {
      ChargedToCompletion(policy, s0[i], r[i], multiset(trace)[i]);
      assert Completed(policy, s0[i]) == Completed(policy, s[i]);
    }
  }
}
