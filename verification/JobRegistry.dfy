/** lib/netcheck/jobs.py: the manager and its table of jobs. */
module JobRegistry {
  import opened PythonBasics
  import opened JobPruning

  class JobManager {
    const maxTracked: int
    var jobs: Jobs

    ghost predicate Valid()
      reads this
    {
      DistinctIds(jobs)
    }

    constructor (maxTracked: int)
      ensures Valid() && jobs == [] && this.maxTracked == maxTracked
    {
      this.maxTracked, jobs := maxTracked, [];
    }

    /** The registry part of create(); the new job's id is fresh. */
    method Create(id: nat)
      requires Valid() && forall j :: j in jobs ==> j.id != id
      modifies this
      ensures Valid() && jobs == Created(old(jobs), id, maxTracked)
    {
      if |jobs| >= maxTracked {
        ghost var all := jobs;
        var finished := Finished(jobs);
        var dropped := Slice(finished, 0, |finished| - maxTracked + 1);
        PrunedCount(jobs, maxTracked);
        for i := 0 to |dropped|
          invariant DistinctIds(jobs) && jobs == DropFinished(all, i)
          invariant forall j :: j in jobs ==> j.id != id
        {
          PopNext(all, jobs, i);
          PopSubset(jobs, dropped[i].id);
          jobs := Pop(jobs, dropped[i].id);
        }
      }
      jobs := jobs + [Job(id, Running)];
    }

    method Get(id: nat) returns (r: Option<Job>)
      requires Valid()
      ensures r.Some? ==> r.value in jobs && r.value.id == id
      ensures r.None? ==> forall j :: j in jobs ==> j.id != id
    {
      for i := 0 to |jobs|
        invariant forall k :: 0 <= k < i ==> jobs[k].id != id
      {
        if jobs[i].id == id {
          return Some(jobs[i]);
        }
      }
      return None;
    }

    /** stop(): true exactly when the job is tracked and running; only then does anything change, and then that job
        alone, which reads as stopped. */
    method Stop(id: nat) returns (ok: bool)
      requires Valid()
      modifies this
      ensures Valid() && ok == Tracks(old(jobs), id, Running)
      ensures jobs == if ok then Update(old(jobs), Step.Stop(id)) else old(jobs)
      ensures |jobs| == |old(jobs)| && forall i :: 0 <= i < |jobs| ==>
                jobs[i] == if ok && old(jobs)[i].id == id then Job(id, Stopped) else old(jobs)[i]
    {
      var r := Get(id);
      if r.None? || r.value.state != Running {
        return false;
      }
      UpdateIs(jobs, Step.Stop(id));
      jobs := Update(jobs, Step.Stop(id));
      return true;
    }
  }
}
