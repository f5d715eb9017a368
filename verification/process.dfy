/** The process control block of the scheduling simulator and the effect of
    running one process for one time slice. */
module Process {

  /** Lifecycle of a process. */
  datatype ProcessState = Ready | Running | Finished

  /** One process control block. The fields are plain (unbounded) integers;
      the simulator's C++ `int` never comes near its limits for the values
      `main` draws. */
  datatype PCB = PCB(id: int, priority: int, cpuTime: int, requiredTime: int, state: ProcessState)

  /** The ordering handed to the sort: `a` goes before `b` when its priority
      is strictly higher. Equal priorities are left unordered, so the sort may
      put either first; of two different priorities exactly one side goes
      first. */
  function ComparePriority(a: PCB, b: PCB): (r: bool)
    ensures a.priority == b.priority ==> !r
    ensures a.priority != b.priority ==> (r <==> !(b.priority > a.priority))
  {
    a.priority > b.priority
  }

  /** ComparePriority is a strict weak ordering, which is what the sort
      demands of its comparator: irreflexive, transitive, and records that
      compare equal form classes (ties are not ordered among themselves). */
  lemma ComparePriorityIsStrictWeakOrder(a: PCB, b: PCB, c: PCB)
    ensures !ComparePriority(a, a)
    ensures ComparePriority(a, b) ==> !ComparePriority(b, a)
    ensures ComparePriority(a, b) && ComparePriority(b, c) ==> ComparePriority(a, c)
    ensures !ComparePriority(a, b) && !ComparePriority(b, a) && !ComparePriority(b, c) && !ComparePriority(c, b)
            ==> !ComparePriority(a, c) && !ComparePriority(c, a)
  {
  }

  /** Which scheduler applies a slice: they differ only in priority decay. */
  datatype Policy = ByPriority | RoundRobin

  /** How much one slice lowers the priority of the process that ran. */
  function Decay(policy: Policy): int
  {
    match policy
    case ByPriority => 3
    case RoundRobin => 0
  }

  /** The effect of running `p` for one slice: one unit of required time is
      consumed, one unit of CPU time is accounted, the priority decays, and the
      process becomes FINISHED when nothing is left to run, READY otherwise. */
  function Execute(policy: Policy, p: PCB): (q: PCB)
    ensures q.id == p.id
    ensures q.cpuTime + q.requiredTime == p.cpuTime + p.requiredTime
    ensures q.cpuTime > p.cpuTime && q.requiredTime < p.requiredTime
    ensures q.state == Finished <==> q.requiredTime == 0
    ensures q.state != Running
    ensures p.requiredTime >= 1 ==> BetweenSlices(q)
  {
    var left := p.requiredTime - 1;
    p.(requiredTime := left,
       priority := p.priority - Decay(policy),
       cpuTime := p.cpuTime + 1,
       state := if left == 0 then Finished else Ready)
  }

  /** What holds of every record between two slices: nothing is running, the
      required time is not negative, and FINISHED means no time is left. */
  predicate BetweenSlices(p: PCB)
  {
    p.requiredTime >= 0 && p.state != Running && (p.state == Finished <==> p.requiredTime == 0)
  }

  predicate AllBetweenSlices(s: seq<PCB>)
  {
    forall i :: 0 <= i < |s| ==> BetweenSlices(s[i])
  }

  predicate AllFinished(s: seq<PCB>)
  {
    forall i :: 0 <= i < |s| ==> s[i].state == Finished
  }

  /** The records as the schedulers see them after their initial pass, which
      sets every state to READY and changes nothing else. */
  function Reset(s: seq<PCB>): (r: seq<PCB>)
    ensures |r| == |s|
    ensures forall i :: 0 <= i < |s| ==> r[i] == s[i].(state := Ready)
  {
    seq(|s|, i requires 0 <= i < |s| => s[i].(state := Ready))
  }

  /** The records as the initializer hands them over: every process still
      needs at least one slice. */
  predicate Startable(s: seq<PCB>)
  {
    forall i :: 0 <= i < |s| ==> s[i].requiredTime >= 1
  }

  /** Reset turns a startable collection into one where every record is
      READY between slices. */
  lemma ResetIsBetweenSlices(s: seq<PCB>)
    requires Startable(s)
    ensures AllBetweenSlices(Reset(s))
    ensures forall i :: 0 <= i < |s| ==> Reset(s)[i].state == Ready
  {
  }

  /** The total number of slices still to be run. */
  function TotalRequired(s: seq<PCB>): int
  {
    if s == [] then 0 else TotalRequired(s[..|s| - 1]) + s[|s| - 1].requiredTime
  }

  /** Replacing one record changes the total by the difference in its
      required time. */
  lemma {:induction false} TotalRequiredUpdate(s: seq<PCB>, k: nat, p: PCB)
    requires k < |s|
    ensures TotalRequired(s[k := p]) == TotalRequired(s) - s[k].requiredTime + p.requiredTime
    decreases |s|
  {
    var n := |s| - 1;
    if k == n {
      assert s[k := p][..n] == s[..n];
    } else {
      assert s[k := p][..n] == s[..n][k := p];
      TotalRequiredUpdate(s[..n], k, p);
    }
  }

  /** Between slices the total is never negative, and it is zero exactly
      when every record is FINISHED. */
  lemma {:induction false} TotalRequiredBetweenSlices(s: seq<PCB>)
    requires AllBetweenSlices(s)
    ensures TotalRequired(s) >= 0
    ensures TotalRequired(s) == 0 <==> AllFinished(s)
    decreases |s|
  {
    if s != [] {
      var n := |s| - 1;
      assert AllBetweenSlices(s[..n]) by {
        forall i | 0 <= i < n ensures BetweenSlices(s[..n][i]) {
          assert s[..n][i] == s[i];
        }
      }
      TotalRequiredBetweenSlices(s[..n]);
      if AllFinished(s) {
        assert AllFinished(s[..n]) by {
          forall i | 0 <= i < n ensures s[..n][i].state == Finished {
            assert s[..n][i] == s[i];
          }
        }
      } else if AllFinished(s[..n]) {
        var j :| 0 <= j < |s| && s[j].state != Finished;
        if j < n {
          assert s[..n][j] == s[j];
        }
      }
    }
  }

  /** Resetting the states does not change how much time is required. */
  lemma {:induction false} ResetKeepsTotal(s: seq<PCB>)
    ensures TotalRequired(Reset(s)) == TotalRequired(s)
    decreases |s|
  {
    if s != [] {
      var n := |s| - 1;
      assert Reset(s)[..n] == Reset(s[..n]);
      ResetKeepsTotal(s[..n]);
    }
  }

  /** The running mark the schedulers put on the selected record before the
      state is reported. */
  function MarkRunning(s: seq<PCB>, k: nat): (r: seq<PCB>)
    requires k < |s|
    ensures |r| == |s|
    ensures (forall j :: 0 <= j < |s| ==> s[j].state != Running) ==>
              forall j :: 0 <= j < |s| ==> (r[j].state == Running <==> j == k)
  {
    s[k := s[k].(state := Running)]
  }
}
