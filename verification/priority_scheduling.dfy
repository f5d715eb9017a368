/** Priority scheduling with priority decay: every slice re-sorts the
    unfinished records by descending priority and runs the one in front. */
module PriorityScheduling {
  import opened Process
  import opened Slices

  /** `k` may be put in front by the sort: it is not FINISHED and no
      unfinished record compares strictly before it, so its priority is the
      highest among the unfinished. Among equal priorities the sort promises
      no order, so any of them may be chosen. */
  predicate IsPriorityChoice(s: seq<PCB>, k: int)
  {
    0 <= k < |s| && s[k].state != Finished &&
    forall j :: 0 <= j < |s| && s[j].state != Finished ==> !ComparePriority(s[j], s[k])
  }

  /** Every slice of `trace` is a priority choice in the state it was made. */
  predicate ChoosesHighestPriority(s: seq<PCB>, trace: seq<nat>)
  {
    InRange(trace, |s|) &&
    forall t :: 0 <= t < |trace| ==> IsPriorityChoice(Replay(ByPriority, s, trace[..t]), trace[t])
  }

  /** The choice is determined up to ties: two admissible choices have the
      same priority, so without ties only one record can be chosen. */
  lemma PriorityChoiceUpToTies(s: seq<PCB>, k1: int, k2: int)
    requires IsPriorityChoice(s, k1) && IsPriorityChoice(s, k2)
    ensures s[k1].priority == s[k2].priority
    ensures (forall i, j :: 0 <= i < j < |s| ==> s[i].priority != s[j].priority) ==> k1 == k2
  {
  }

  /** A priority schedule never selects a FINISHED record. */
  lemma HighestPriorityIsUnfinished(s: seq<PCB>, trace: seq<nat>)
    requires ChoosesHighestPriority(s, trace)
    ensures ChoosesUnfinished(ByPriority, s, trace)
  {
  }

  lemma ChoosesHighestPrioritySnoc(s: seq<PCB>, trace: seq<nat>, k: nat)
    requires ChoosesHighestPriority(s, trace)
    requires IsPriorityChoice(Replay(ByPriority, s, trace), k)
    ensures ChoosesHighestPriority(s, trace + [k])
  {
    var trace' := trace + [k];
    forall t | 0 <= t < |trace'|
      ensures IsPriorityChoice(Replay(ByPriority, s, trace'[..t]), trace'[t])
    {
      if t < |trace| {
        assert trace'[..t] == trace[..t];
      } else {
        assert trace'[..t] == trace;
      }
    }
  }

  /** The indices of the records that are not FINISHED, in collection order
      (each exactly once). */
  method CollectUnfinished(procs: array<PCB>) returns (ready: seq<nat>)
    ensures forall t :: 0 <= t < |ready| ==> ready[t] < procs.Length && procs[ready[t]].state != Finished
    ensures forall i :: 0 <= i < procs.Length && procs[i].state != Finished ==> i in ready
    ensures forall t, u :: 0 <= t < u < |ready| ==> ready[t] < ready[u]
  {
    ready := [];
    for i := 0 to procs.Length
      invariant forall t :: 0 <= t < |ready| ==> ready[t] < i && procs[ready[t]].state != Finished
      invariant forall j :: 0 <= j < i && procs[j].state != Finished ==> j in ready
      invariant forall t, u :: 0 <= t < u < |ready| ==> ready[t] < ready[u]
    {
      if procs[i].state != Finished {
        ready := ready + [i];
      }
    }
  }

  /** The record the descending sort by `ComparePriority` puts in front of
      `ready`: one that no other record of `ready` compares before. Only the
      front is used, so the model computes it directly. */
  method SortedFront(procs: array<PCB>, ready: seq<nat>) returns (k: nat)
    requires |ready| > 0
    requires forall t :: 0 <= t < |ready| ==> ready[t] < procs.Length
    ensures k in ready
    ensures forall t :: 0 <= t < |ready| ==> !ComparePriority(procs[ready[t]], procs[k])
  {
    k := ready[0];
    for i := 1 to |ready|
      invariant k in ready
      invariant forall t :: 0 <= t < i ==> !ComparePriority(procs[ready[t]], procs[k])
    {
      if ComparePriority(procs[ready[i]], procs[k]) {
        k := ready[i];
      }
    }
  }

  /** The initial pass of the scheduler: every record is set READY. */
  method ResetStates(procs: array<PCB>)
    modifies procs
    ensures procs[..] == Reset(old(procs[..]))
  {
    for i := 0 to procs.Length
      invariant forall j :: 0 <= j < i ==> procs[j] == old(procs[j]).(state := Ready)
      invariant forall j :: i <= j < procs.Length ==> procs[j] == old(procs[j])
    {
      procs[i] := procs[i].(state := Ready);
    }
  }

  /** One slice of the priority scheduler on the record `k` put in front:
      it is marked RUNNING and reported, then runs for one slice, losing 3
      priority points, and is FINISHED or READY again. */
  method RunPrioritySlice(procs: array<PCB>, k: nat) returns (ghost snapshot: seq<PCB>)
    requires k < procs.Length
    modifies procs
    ensures snapshot == MarkRunning(old(procs[..]), k)
    ensures procs[..] == old(procs[..])[k := Execute(ByPriority, old(procs[k]))]
  {
    procs[k] := procs[k].(state := Running);
    snapshot := procs[..];

    procs[k] := procs[k].(requiredTime := procs[k].requiredTime - 1);
    procs[k] := procs[k].(priority := procs[k].priority - 3);
    procs[k] := procs[k].(cpuTime := procs[k].cpuTime + 1);
    if procs[k].requiredTime == 0 {
      procs[k] := procs[k].(state := Finished);
    } else {
      procs[k] := procs[k].(state := Ready);
    }
    assert procs[k] == Execute(ByPriority, old(procs[k]));
  }

  /** The priority scheduler. `trace` is the record selected in each slice,
      `snapshots` the collection as reported in each slice (with the selected
      record RUNNING). */
  method PriorityScheduling(procs: array<PCB>) returns (ghost trace: seq<nat>, ghost snapshots: seq<seq<PCB>>)
    requires Startable(procs[..])
    modifies procs
    // the run is a priority schedule starting from the reset records
    ensures ChoosesHighestPriority(Reset(old(procs[..])), trace)
    ensures procs[..] == Replay(ByPriority, Reset(old(procs[..])), trace)
    // it has one slice per unit of required time and runs every record to completion
    ensures RunsToCompletion(ByPriority, old(procs[..]), trace, procs[..])
    // every report shows the slice's starting state with exactly the selected record RUNNING
    ensures Reported(ByPriority, Reset(old(procs[..])), trace, snapshots)
  {
    ResetStates(procs);
    ghost var s0 := procs[..];
    ResetIsBetweenSlices(old(procs[..]));
    TotalRequiredBetweenSlices(s0);

    trace, snapshots := [], [];
    var timeSlice := 0;
    while true
      invariant |s0| == procs.Length
      invariant ChoosesHighestPriority(s0, trace)
      invariant procs[..] == Replay(ByPriority, s0, trace)
      invariant AllBetweenSlices(procs[..])
      invariant TotalRequired(procs[..]) >= 0
      invariant timeSlice == |trace|
      invariant Reported(ByPriority, s0, trace, snapshots)
      decreases TotalRequired(procs[..])
    {
      var ready := CollectUnfinished(procs);
      if |ready| == 0 {
        break;
      }
      var k := SortedFront(procs, ready);
      ghost var before := procs[..];
      assert IsPriorityChoice(before, k);

      ghost var snapshot := RunPrioritySlice(procs, k);

      ReplaySnoc(ByPriority, s0, trace, k);
      ChoosesHighestPrioritySnoc(s0, trace, k);
      ReportedSnoc(ByPriority, s0, trace, snapshots, k);
      TotalRequiredUpdate(before, k, procs[k]);
      TotalRequiredBetweenSlices(procs[..]);
      trace, snapshots := trace + [k], snapshots + [snapshot];
      timeSlice := timeSlice + 1;
    }

    HighestPriorityIsUnfinished(s0, trace);
    CompleteRun(ByPriority, old(procs[..]), trace);
  }
}
