/** lib/netcheck/jobs.py: the registry and its pruning, over every interleaving of create, stop and runners. */
module JobPruning {
  import opened PythonBasics

  datatype JobState = Running | Done | Failed | Stopped

  datatype Job = Job(id: nat, state: JobState)

  /** The jobs dict, in creation order. */
  type Jobs = seq<Job>

  function Finished(jobs: Jobs): Jobs
  {
    if jobs == [] then []
    else if jobs[0].state == Running then Finished(jobs[1..]) else [jobs[0]] + Finished(jobs[1..])
  }

  function RunningCount(jobs: Jobs): nat
  {
    if jobs == [] then 0 else (if jobs[0].state == Running then 1 else 0) + RunningCount(jobs[1..])
  }

  ghost predicate DistinctIds(jobs: Jobs) { forall i, j :: 0 <= i < j < |jobs| ==> jobs[i].id != jobs[j].id }

  ghost predicate Tracks(jobs: Jobs, id: nat, state: JobState) { Job(id, state) in jobs }

  /** dict.pop(id, None) */
  function Pop(jobs: Jobs, id: nat): Jobs
  {
    if jobs == [] then []
    else if jobs[0].id == id then jobs[1..] else [jobs[0]] + Pop(jobs[1..], id)
  }

  /** Without the n oldest finished jobs. */
  function DropFinished(jobs: Jobs, n: nat): Jobs
  {
    if jobs == [] || n == 0 then jobs
    else if jobs[0].state == Running then [jobs[0]] + DropFinished(jobs[1..], n)
    else DropFinished(jobs[1..], n - 1)
  }

  /** The jobs create() removes: finished[: len(finished) - max + 1], as Python slices. */
  function ToDrop(jobs: Jobs, maxTracked: int): Jobs
  {
    Slice(Finished(jobs), 0, |Finished(jobs)| - maxTracked + 1)
  }

  function Created(jobs: Jobs, id: nat, maxTracked: int): Jobs
  {
    (if |jobs| >= maxTracked then DropFinished(jobs, |ToDrop(jobs, maxTracked)|) else jobs) + [Job(id, Running)]
  }

  /** How many jobs the slice removes. With fewer than max-1 finished jobs its bound is negative and counts from the
      end, so it removes 2f - max + 1 of them when that is positive, not none. */
  lemma {:induction false} PrunedCount(jobs: Jobs, maxTracked: int)
    ensures var f := |Finished(jobs)|;
            |ToDrop(jobs, maxTracked)| ==
              if maxTracked <= 0 then f
              else if f >= maxTracked - 1 then f - maxTracked + 1
              else if 2 * f >= maxTracked - 1 then 2 * f - maxTracked + 1
              else 0
    ensures ToDrop(jobs, maxTracked) == Finished(jobs)[..|ToDrop(jobs, maxTracked)|]
  {
  }

  /** Dropping takes the oldest finished jobs, and no running one. */
  lemma {:induction false} DropTakesOldest(jobs: Jobs, n: nat)
    requires n <= |Finished(jobs)|
    ensures Finished(DropFinished(jobs, n)) == Finished(jobs)[n..]
    ensures RunningCount(DropFinished(jobs, n)) == RunningCount(jobs)
  {
    if jobs != [] && n > 0 {
      DropTakesOldest(jobs[1..], if jobs[0].state == Running then n else n - 1);
    }
  }

  lemma {:induction false} DropKeepsRunning(jobs: Jobs, n: nat, id: nat)
    requires Tracks(jobs, id, Running)
    ensures Tracks(DropFinished(jobs, n), id, Running)
  {
    if n > 0 && jobs[0] != Job(id, Running) {
      assert jobs == [jobs[0]] + jobs[1..];
      DropKeepsRunning(jobs[1..], if jobs[0].state == Running then n else n - 1, id);
    }
  }

  lemma {:induction false} CountSplits(jobs: Jobs)
    ensures |jobs| == |Finished(jobs)| + RunningCount(jobs)
  {
    if jobs != [] {
      CountSplits(jobs[1..]);
    }
  }

  lemma {:induction false} FinishedSnoc(jobs: Jobs, j: Job)
    requires j.state == Running
    ensures Finished(jobs + [j]) == Finished(jobs) && RunningCount(jobs + [j]) == RunningCount(jobs) + 1
  {
    if jobs != [] {
      assert (jobs + [j])[1..] == jobs[1..] + [j];
      FinishedSnoc(jobs[1..], j);
    } else {
      assert (jobs + [j])[1..] == [];
    }
  }

  /** Right after a create, at most max-1 finished jobs are tracked, so the registry holds at most that many plus the
      running ones; what remains of the finished jobs are the newest, and no running job is gone. */
  lemma {:induction false} CreateBounds(jobs: Jobs, id: nat, maxTracked: int)
    ensures var after := Created(jobs, id, maxTracked);
            && |Finished(after)| <= (if maxTracked > 1 then maxTracked - 1 else 0)
            && |after| <= (if maxTracked > 1 then maxTracked - 1 else 0) + RunningCount(after)
            && (exists n :: 0 <= n <= |Finished(jobs)| && Finished(after) == Finished(jobs)[n..])
            && RunningCount(after) == RunningCount(jobs) + 1
  {
    var after := Created(jobs, id, maxTracked);
    var n := if |jobs| >= maxTracked then |ToDrop(jobs, maxTracked)| else 0;
    PrunedCount(jobs, maxTracked);
    CountSplits(jobs);
    DropTakesOldest(jobs, n);
    FinishedSnoc(DropFinished(jobs, n), Job(id, Running));
    CountSplits(after);
    assert Finished(after) == Finished(jobs)[n..];
  }

  // ---------- runs ----------

  datatype Step =
    | Create(id: nat)
    | RunnerDone(id: nat)       // the runner returned
    | RunnerFailed(id: nat)     // the runner raised
    | Stop(id: nat)             // a stop that had found the job running

  /** The state a step gives a tracked job. A stopped job's runner may still raise, which marks it failed; a stop may
      land after the runner has ended, which marks the job stopped. */
  function NextState(s: JobState, e: Step): JobState
  {
    match e
    case RunnerDone(_) => if s == Running then Done else s
    case RunnerFailed(_) => Failed
    case Stop(_) => Stopped
    case Create(_) => s
  }

  function Update(jobs: Jobs, e: Step): Jobs
  {
    if jobs == [] then []
    else if jobs[0].id == e.id then [Job(e.id, NextState(jobs[0].state, e))] + jobs[1..]
    else [jobs[0]] + Update(jobs[1..], e)
  }

  function Apply(jobs: Jobs, e: Step, maxTracked: int): Jobs
  {
    if e.Create? then Created(jobs, e.id, maxTracked) else Update(jobs, e)
  }

  ghost function After(steps: seq<Step>, maxTracked: int): Jobs
  {
    if steps == [] then [] else Apply(After(steps[..|steps| - 1], maxTracked), steps[|steps| - 1], maxTracked)
  }

  lemma {:induction false} UpdateKeepsRunning(jobs: Jobs, e: Step, id: nat)
    requires e.id != id && Tracks(jobs, id, Running)
    ensures Tracks(Update(jobs, e), id, Running)
  {
    assert jobs == [jobs[0]] + jobs[1..];
    if jobs[0] != Job(id, Running) && jobs[0].id != e.id {
      UpdateKeepsRunning(jobs[1..], e, id);
    }
  }

  /** In every interleaving, a job that was created and has neither ended nor been stopped is tracked as running:
      no create, whatever the limit, prunes it. */
  lemma {:induction false} RunningIsNeverPruned(steps: seq<Step>, maxTracked: int, i: nat, id: nat)
    requires i < |steps| && steps[i] == Create(id)
    requires forall k :: i < k < |steps| && !steps[k].Create? ==> steps[k].id != id
    ensures Tracks(After(steps, maxTracked), id, Running)
  {
    var n := |steps| - 1;
    var before, e := After(steps[..n], maxTracked), steps[n];
    if i < n {
      RunningIsNeverPruned(steps[..n], maxTracked, i, id);
      if e.Create? {
        if |before| >= maxTracked {
          DropKeepsRunning(before, |ToDrop(before, maxTracked)|, id);
        }
      } else {
        UpdateKeepsRunning(before, e, id);
      }
    }
  }

  /** In every interleaving the registry is bounded right after a create. */
  lemma {:induction false} RegistryBounded(steps: seq<Step>, maxTracked: int)
    requires steps != [] && steps[|steps| - 1].Create?
    ensures var after := After(steps, maxTracked);
            |after| <= (if maxTracked > 1 then maxTracked - 1 else 0) + RunningCount(after)
  {
    CreateBounds(After(steps[..|steps| - 1], maxTracked), steps[|steps| - 1].id, maxTracked);
  }

  // ---------- what a tracked job's state says ----------

  /** An update changes the one job with the step's id, and nothing else. */
  lemma {:induction false} UpdateIs(jobs: Jobs, e: Step)
    requires DistinctIds(jobs)
    ensures var after := Update(jobs, e);
            |after| == |jobs| && forall i :: 0 <= i < |jobs| ==>
              after[i] == if jobs[i].id == e.id then Job(e.id, NextState(jobs[i].state, e)) else jobs[i]
  {
    if jobs != [] {
      UpdateIs(jobs[1..], e);
    }
  }

  lemma {:induction false} DropSubset(jobs: Jobs, n: nat)
    requires DistinctIds(jobs)
    ensures DistinctIds(DropFinished(jobs, n)) && forall j :: j in DropFinished(jobs, n) ==> j in jobs
  {
    if jobs != [] && n > 0 {
      var m := if jobs[0].state == Running then n else n - 1;
      DropSubset(jobs[1..], m);
      var rest := DropFinished(jobs[1..], m);
      assert forall k :: 0 <= k < |rest| ==> rest[k] in jobs[1..];
    }
  }

  /** No id is created twice. */
  ghost predicate FreshIds(steps: seq<Step>)
  {
    forall a, b :: 0 <= a < b < |steps| && steps[a].Create? && steps[b].Create? ==> steps[a].id != steps[b].id
  }

  ghost predicate CreatedIn(steps: seq<Step>, id: nat) { exists i :: 0 <= i < |steps| && steps[i] == Create(id) }

  lemma {:induction false} CreatedDistinct(jobs: Jobs, id: nat, maxTracked: int)
    requires DistinctIds(jobs) && forall j :: j in jobs ==> j.id != id
    ensures DistinctIds(Created(jobs, id, maxTracked))
    ensures forall j :: j in Created(jobs, id, maxTracked) ==> j in jobs || j == Job(id, Running)
  {
    var kept := if |jobs| >= maxTracked then DropFinished(jobs, |ToDrop(jobs, maxTracked)|) else jobs;
    DropSubset(jobs, |ToDrop(jobs, maxTracked)|);
    assert forall k :: 0 <= k < |kept| ==> kept[k] in kept && kept[k] in jobs;
  }

  lemma {:induction false} AfterDistinct(steps: seq<Step>, maxTracked: int)
    requires FreshIds(steps)
    ensures DistinctIds(After(steps, maxTracked))
    ensures forall j :: j in After(steps, maxTracked) ==> CreatedIn(steps, j.id)
  {
    if steps != [] {
      var n := |steps| - 1;
      var before, e := After(steps[..n], maxTracked), steps[n];
      AfterDistinct(steps[..n], maxTracked);
      forall id | CreatedIn(steps[..n], id) ensures CreatedIn(steps, id) {
        var i :| 0 <= i < n && steps[..n][i] == Create(id);
        assert steps[i] == Create(id);
      }
      if e.Create? {
        forall j | j in before ensures j.id != e.id { assert CreatedIn(steps[..n], j.id); }
        CreatedDistinct(before, e.id, maxTracked);
        assert steps[n] == Create(e.id);
      } else {
        UpdateIs(before, e);
        forall j | j in After(steps, maxTracked) ensures CreatedIn(steps, j.id) {
          var k :| 0 <= k < |before| && Update(before, e)[k] == j;
          assert before[k] in before;
        }
      }
    }
  }

  /** Step k is the last one since step i that settles the job whatever its state: a stop, or its runner's failure. */
  ghost predicate Settles(steps: seq<Step>, i: nat, k: nat, id: nat)
  {
    && i < k < |steps| && (steps[k] == Stop(id) || steps[k] == RunnerFailed(id))
    && forall l :: k < l < |steps| ==> steps[l] != Stop(id) && steps[l] != RunnerFailed(id)
  }

  /** What a state says about the steps since the job was created. */
  ghost predicate Tells(steps: seq<Step>, i: nat, id: nat, s: JobState)
  {
    match s
    case Stopped => exists k: nat :: Settles(steps, i, k, id) && steps[k] == Stop(id)
    case Failed => exists k: nat :: Settles(steps, i, k, id) && steps[k] == RunnerFailed(id)
    case Done =>
      && (forall k: nat :: !Settles(steps, i, k, id))
      && exists k :: i < k < |steps| && steps[k] == RunnerDone(id)
    case Running => forall k :: i < k < |steps| && !steps[k].Create? ==> steps[k].id != id
  }

  lemma {:induction false} SettlesSnoc(steps: seq<Step>, e: Step, i: nat, k: nat, id: nat)
    requires i < |steps|
    ensures Settles(steps + [e], i, k, id) <==>
            if e == Stop(id) || e == RunnerFailed(id) then k == |steps| else Settles(steps, i, k, id)
  {
    var all := steps + [e];
    assert all[|steps|] == e && forall l :: 0 <= l < |steps| ==> all[l] == steps[l];
  }

  /** While it reads as running nothing has settled the job. */
  lemma {:induction false} NotDone(steps: seq<Step>, i: nat, id: nat, s: JobState)
    requires s == Running && Tells(steps, i, id, s)
    ensures forall k: nat :: !Settles(steps, i, k, id)
  {
  }

  lemma {:induction false} TellsSnoc(steps: seq<Step>, e: Step, i: nat, id: nat, s: JobState)
    requires i < |steps| && Tells(steps, i, id, s)
    ensures Tells(steps + [e], i, id, if e.Create? || e.id != id then s else NextState(s, e))
  {
    var all := steps + [e];
    assert all[|steps|] == e && forall l :: 0 <= l < |steps| ==> all[l] == steps[l];
    forall k: nat ensures Settles(all, i, k, id) <==>
      if e == Stop(id) || e == RunnerFailed(id) then k == |steps| else Settles(steps, i, k, id)
    {
      SettlesSnoc(steps, e, i, k, id);
    }
    if s == Running { NotDone(steps, i, id, s); }
    if e == Stop(id) || e == RunnerFailed(id) {
      assert Settles(all, i, |steps|, id);
    } else if s == Running && e == RunnerDone(id) {
      assert all[|steps|] == RunnerDone(id);
    }
  }

  lemma {:induction false} NotCreatedYet(steps: seq<Step>, maxTracked: int, id: nat, s: JobState)
    requires FreshIds(steps) && steps != [] && steps[|steps| - 1] == Create(id)
    requires Tracks(After(steps, maxTracked), id, s)
    ensures s == Running
  {
    var n := |steps| - 1;
    var before := After(steps[..n], maxTracked);
    AfterDistinct(steps[..n], maxTracked);
    DropSubset(before, |ToDrop(before, maxTracked)|);
  }

  /** In every interleaving in which no id is created twice, a tracked job reads as stopped or failed exactly as the
      last stop or failure since its creation says, as done when its runner returned and neither came, and as running
      when nothing has happened to it. */
  lemma {:induction false} StateTells(steps: seq<Step>, maxTracked: int, i: nat, id: nat, s: JobState)
    requires FreshIds(steps) && i < |steps| && steps[i] == Create(id) && Tracks(After(steps, maxTracked), id, s)
    ensures Tells(steps, i, id, s)
  {
    var n := |steps| - 1;
    var before, e := After(steps[..n], maxTracked), steps[n];
    assert steps == steps[..n] + [e];
    AfterDistinct(steps[..n], maxTracked);
    if e.Create? {
      DropSubset(before, |ToDrop(before, maxTracked)|);
      if i < n {
        assert Job(id, s) in before;
        StateTells(steps[..n], maxTracked, i, id, s);
        TellsSnoc(steps[..n], e, i, id, s);
      } else {
        NotCreatedYet(steps, maxTracked, id, s);
      }
    } else {
      UpdateIs(before, e);
      var k :| 0 <= k < |before| && Update(before, e)[k] == Job(id, s);
      assert before[k] in before;
      StateTells(steps[..n], maxTracked, i, id, before[k].state);
      TellsSnoc(steps[..n], e, i, id, before[k].state);
    }
  }

  // ---------- popping the dropped jobs one by one ----------

  lemma {:induction false} FinishedInside(jobs: Jobs)
    ensures forall j :: j in Finished(jobs) ==> j in jobs
  {
    if jobs != [] {
      FinishedInside(jobs[1..]);
    }
  }

  lemma {:induction false} PopSubset(jobs: Jobs, id: nat)
    requires DistinctIds(jobs)
    ensures DistinctIds(Pop(jobs, id)) && forall j :: j in Pop(jobs, id) ==> j in jobs
  {
    if jobs != [] && jobs[0].id != id {
      PopSubset(jobs[1..], id);
      var rest := Pop(jobs[1..], id);
      assert forall k :: 0 <= k < |rest| ==> rest[k] in jobs[1..];
    }
  }

  lemma {:induction false} PopFirstFinished(jobs: Jobs)
    requires DistinctIds(jobs) && Finished(jobs) != []
    ensures Pop(jobs, Finished(jobs)[0].id) == DropFinished(jobs, 1)
    ensures DistinctIds(Pop(jobs, Finished(jobs)[0].id))
  {
    if jobs[0].state == Running {
      PopFirstFinished(jobs[1..]);
      FinishedInside(jobs[1..]);
      var first := Finished(jobs)[0];
      assert first in jobs[1..] && first.id != jobs[0].id;
    } else {
      assert DropFinished(jobs[1..], 0) == jobs[1..];
    }
    PopSubset(jobs, Finished(jobs)[0].id);
  }

  lemma {:induction false} DropStep(jobs: Jobs, n: nat)
    requires n < |Finished(jobs)|
    ensures DropFinished(DropFinished(jobs, n), 1) == DropFinished(jobs, n + 1)
  {
    if jobs[0].state == Running {
      DropStep(jobs[1..], n);
      var d := DropFinished(jobs, n);
      assert d[1..] == DropFinished(jobs[1..], n);
    } else if n > 0 {
      DropStep(jobs[1..], n - 1);
    }
  }

  /** Popping the (n+1)-th oldest finished job after the first n. */
  lemma {:induction false} PopNext(all: Jobs, jobs: Jobs, n: nat)
    requires DistinctIds(jobs) && n < |Finished(all)| && jobs == DropFinished(all, n)
    ensures Pop(jobs, Finished(all)[n].id) == DropFinished(all, n + 1) && DistinctIds(Pop(jobs, Finished(all)[n].id))
  {
    DropTakesOldest(all, n);
    PopFirstFinished(jobs);
    DropStep(all, n);
  }
}
