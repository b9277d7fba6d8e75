/** lib/netcheck/bandwidth/service.py: the single slot, as atomic steps of callers and runner threads. */
module BandwidthSlot {
  import opened PythonBasics

  datatype Job = Job(btype: string, mode: string)

  /** The holder dicts. Tokens are compared structurally: equal exactly when every field is; a job or a session
      stands for its identity, which its own id makes unique. */
  datatype Who = Who(btype: string, mode: string, job: Option<nat>, session: Option<nat>)

  function JobHolder(j: nat, job: Job): Who { Who(job.btype, job.mode, Some(j), None) }

  function ServerHolder(x: nat): Who { Who("lan", "server", None, Some(x)) }

  /** The token server_stop builds: it has no session field. */
  const SERVER_STOP := Who("lan", "server", None, None)

  /** Where a runner thread is: not yet at its token read, past it, or past its final release. */
  datatype Phase = Spawned | Measuring | Ended

  /** A caller of stop(): the holder it read, and whether it has set that job's state yet. */
  datatype Stopper = Stopper(who: Who, marked: bool)

  datatype State = State(
    active: Option<Who>,
    jobs: map<nat, Job>,               // accepted jobs
    runners: map<nat, Phase>,
    tokens: map<nat, Option<Who>>,     // what each runner read
    stoppers: map<nat, Stopper>,       // calls of stop() between their read and their release
    stopped: set<nat>,                 // jobs whose state was set to "stopped"
    sessions: set<nat>,                // server sessions that have ever acquired the slot
    starting: set<nat>,                // those between acquire and the outcome of start()
    server: Option<nat>,
    freed: set<nat>)                   // history: jobs whose slot has been emptied

  const INITIAL := State(None, map[], map[], map[], map[], {}, {}, {}, None, {})

  datatype Step =
    | StartJob(j: nat, job: Job)
    | RunnerRead(j: nat)
    | RunnerEnd(j: nat)
    | StopRead(c: nat)
    | StopMark(c: nat)
    | StopRelease(c: nat)
    | ServerAcquire(x: nat)
    | ServerStarted(x: nat)
    | ServerFailed(x: nat)
    | ServerStop

  /** _release: empty the slot when it holds the token (the empty slot equals the token None, harmlessly). */
  function Release(s: State, token: Option<Who>): State
  {
    if s.active == token then
      s.(active := None,
         freed := if token.Some? && token.value.job.Some? then s.freed + {token.value.job.value} else s.freed)
    else s
  }

  predicate ValidMode(mode: string) { mode in {"ookla", "http", "client", "smb"} }

  /** Whether a step can be taken at all; a job or session id is fresh when it is drawn. */
  predicate Enabled(s: State, e: Step)
  {
    match e
    case StartJob(j, job) => j !in s.jobs && ValidMode(job.mode)
    case RunnerRead(j) => j in s.runners && s.runners[j] == Spawned
    case RunnerEnd(j) => j in s.runners && s.runners[j] == Measuring && j in s.tokens
    case StopRead(c) => c !in s.stoppers
    case StopMark(c) => c in s.stoppers && !s.stoppers[c].marked
    case StopRelease(c) => c in s.stoppers && s.stoppers[c].marked
    case ServerAcquire(x) => x !in s.sessions
    case ServerStarted(x) => x in s.starting
    case ServerFailed(x) => x in s.starting
    case ServerStop => true
  }

  /** A start is accepted exactly when the slot is empty; otherwise Busy is raised. */
  predicate Accepts(s: State) { s.active.None? }

  function Apply(s: State, e: Step): State
    requires Enabled(s, e)
  {
    match e
    case StartJob(j, job) =>
      if !Accepts(s) then s
      else s.(active := Some(JobHolder(j, job)), jobs := s.jobs[j := job], runners := s.runners[j := Spawned])
    case RunnerRead(j) => s.(tokens := s.tokens[j := s.active], runners := s.runners[j := Measuring])
    case RunnerEnd(j) => Release(s, s.tokens[j]).(runners := s.runners[j := Ended])
    case StopRead(c) =>
      if s.active.None? || s.active.value.mode == "server" then s
      else s.(stoppers := s.stoppers[c := Stopper(s.active.value, false)])
    case StopMark(c) =>
      var who := s.stoppers[c].who;
      s.(stoppers := s.stoppers[c := Stopper(who, true)],
         stopped := if who.job.Some? then s.stopped + {who.job.value} else s.stopped)
    case StopRelease(c) => Release(s, Some(s.stoppers[c].who)).(stoppers := s.stoppers - {c})
    case ServerAcquire(x) =>
      if !Accepts(s) then s
      else s.(active := Some(ServerHolder(x)), sessions := s.sessions + {x}, starting := s.starting + {x})
    case ServerStarted(x) => s.(starting := s.starting - {x}, server := Some(x))
    case ServerFailed(x) => Release(s, Some(ServerHolder(x))).(starting := s.starting - {x})
    case ServerStop =>
      if s.server.None? then s else Release(s, Some(SERVER_STOP)).(server := None)
  }

  ghost predicate StepAt(states: seq<State>, steps: seq<Step>, i: nat)
  {
    i < |steps| && i + 1 < |states| && Enabled(states[i], steps[i]) && states[i + 1] == Apply(states[i], steps[i])
  }

  /** Consecutive states, one step apart. */
  ghost predicate Path(states: seq<State>, steps: seq<Step>)
  {
    |states| == |steps| + 1 && forall i :: 0 <= i < |steps| ==> StepAt(states, steps, i)
  }

  /** A run starts with an empty slot. */
  ghost predicate IsRun(states: seq<State>, steps: seq<Step>)
  {
    Path(states, steps) && states[0] == INITIAL
  }

  // ---------- what holds in every run ----------

  ghost predicate IsJobHolder(s: State, who: Who)
  {
    who.job.Some? && who.job.value in s.jobs && who == JobHolder(who.job.value, s.jobs[who.job.value])
  }

  ghost predicate IsServerHolder(s: State, who: Who)
  {
    who.session.Some? && who.session.value in s.sessions && who == ServerHolder(who.session.value)
  }

  /** The slot and the history agree: a job holds the slot from its acceptance until it is freed, and never again. */
  ghost predicate HolderInv(s: State)
  {
    && s.jobs.Keys == s.runners.Keys && s.freed <= s.jobs.Keys && s.starting <= s.sessions
    && (forall j :: j in s.jobs ==> ValidMode(s.jobs[j].mode))
    && (s.active.Some? ==> IsJobHolder(s, s.active.value) || IsServerHolder(s, s.active.value))
    && (s.active.Some? && s.active.value.job.Some? ==> s.active.value.job.value !in s.freed)
    && (forall j :: j in s.jobs && j !in s.freed ==> s.active == Some(JobHolder(j, s.jobs[j])))
  }

  /** Every token a thread keeps is a holder's, and a runner's own until its job is freed; a runner that has ended has
      had its job freed. */
  ghost predicate TokenInv(s: State)
  {
    && s.jobs.Keys == s.runners.Keys && s.stopped <= s.jobs.Keys
    && (forall c :: c in s.stoppers ==> IsJobHolder(s, s.stoppers[c].who))
    && (forall c :: c in s.stoppers && s.stoppers[c].marked ==> s.stoppers[c].who.job.value in s.stopped)
    && (forall j :: j in s.tokens && s.tokens[j].Some? ==>
        IsJobHolder(s, s.tokens[j].value) || IsServerHolder(s, s.tokens[j].value))
    && (forall j :: j in s.runners && s.runners[j] == Measuring ==>
          j in s.tokens && (j !in s.freed ==> s.tokens[j] == Some(JobHolder(j, s.jobs[j]))))
    && (forall j :: j in s.runners && s.runners[j] == Ended ==> j in s.freed)
  }

  ghost predicate SlotInv(s: State) { HolderInv(s) && TokenInv(s) }

  predicate IsRelease(e: Step) { e.RunnerEnd? || e.StopRelease? || e.ServerFailed? || e.ServerStop? }

  lemma {:induction false} HolderInvRunnerEnd(s: State, j: nat)
    requires SlotInv(s) && Enabled(s, RunnerEnd(j))
    ensures HolderInv(Apply(s, RunnerEnd(j)))
  {
  }

  lemma {:induction false} HolderInvStop(s: State, c: nat)
    requires SlotInv(s) && Enabled(s, StopRelease(c))
    ensures HolderInv(Apply(s, StopRelease(c)))
  {
  }

  lemma {:induction false} HolderInvServer(s: State, e: Step)
    requires SlotInv(s) && Enabled(s, e) && (e.ServerFailed? || e.ServerStop?)
    ensures HolderInv(Apply(s, e))
  {
  }

  lemma {:induction false} HolderInvRelease(s: State, e: Step)
    requires SlotInv(s) && Enabled(s, e) && IsRelease(e)
    ensures HolderInv(Apply(s, e))
  {
    match e
    case RunnerEnd(j) => HolderInvRunnerEnd(s, j);
    case StopRelease(c) => HolderInvStop(s, c);
    case _ => HolderInvServer(s, e);
  }

  lemma {:induction false} HolderInvOther(s: State, e: Step)
    requires HolderInv(s) && Enabled(s, e) && !IsRelease(e)
    ensures HolderInv(Apply(s, e))
  {
  }

  lemma {:induction false} HolderInvStep(s: State, e: Step)
    requires SlotInv(s) && Enabled(s, e)
    ensures HolderInv(Apply(s, e))
  {
    if IsRelease(e) { HolderInvRelease(s, e); } else { HolderInvOther(s, e); }
  }

  lemma {:induction false} TokenInvRunnerEnd(s: State, j: nat)
    requires SlotInv(s) && Enabled(s, RunnerEnd(j))
    ensures TokenInv(Apply(s, RunnerEnd(j)))
  {
  }

  lemma {:induction false} TokenInvStop(s: State, c: nat)
    requires SlotInv(s) && Enabled(s, StopRelease(c))
    ensures TokenInv(Apply(s, StopRelease(c)))
  {
  }

  lemma {:induction false} TokenInvServer(s: State, e: Step)
    requires SlotInv(s) && Enabled(s, e) && (e.ServerFailed? || e.ServerStop?)
    ensures TokenInv(Apply(s, e))
  {
  }

  lemma {:induction false} TokenInvRunner(s: State, e: Step)
    requires SlotInv(s) && Enabled(s, e) && (e.StartJob? || e.RunnerRead?)
    ensures TokenInv(Apply(s, e))
  {
  }

  lemma {:induction false} TokenInvOther(s: State, e: Step)
    requires SlotInv(s) && Enabled(s, e) && !IsRelease(e) && !e.StartJob? && !e.RunnerRead?
    ensures TokenInv(Apply(s, e))
  {
  }

  lemma {:induction false} TokenInvStep(s: State, e: Step)
    requires SlotInv(s) && Enabled(s, e)
    ensures TokenInv(Apply(s, e))
  {
    if IsRelease(e) {
      assert TokenInv(Apply(s, e)) by {
        match e
        case RunnerEnd(j) => TokenInvRunnerEnd(s, j);
        case StopRelease(c) => TokenInvStop(s, c);
        case _ => TokenInvServer(s, e);
      }
    } else if e.StartJob? || e.RunnerRead? {
      TokenInvRunner(s, e);
    } else {
      TokenInvOther(s, e);
    }
  }

  lemma {:induction false} SlotInvAlways(states: seq<State>, steps: seq<Step>, n: nat)
    requires IsRun(states, steps) && n < |states|
    ensures SlotInv(states[n])
  {
    if n > 0 {
      assert StepAt(states, steps, n - 1);
      SlotInvAlways(states, steps, n - 1);
      HolderInvStep(states[n - 1], steps[n - 1]);
      TokenInvStep(states[n - 1], steps[n - 1]);
    }
  }

  /** In every run, a runner's read gives it its own job's token exactly when the job has not yet been freed;
      a late read gives it the slot of whoever came after. */
  lemma {:induction false} TokenIsOwnIff(states: seq<State>, steps: seq<Step>, i: nat)
    requires IsRun(states, steps) && i < |steps| && steps[i].RunnerRead?
    ensures var j := steps[i].j;
            && j in states[i].jobs && j in states[i + 1].tokens
            && (states[i + 1].tokens[j] == Some(JobHolder(j, states[i].jobs[j])) <==> j !in states[i].freed)
  {
    assert StepAt(states, steps, i);
    SlotInvAlways(states, steps, i);
  }

  /** A stop that read a job which has since been freed does nothing to the slot. */
  lemma {:induction false} LateStopIsHarmless(states: seq<State>, steps: seq<Step>, i: nat)
    requires IsRun(states, steps) && StepAt(states, steps, i) && steps[i].StopRelease?
    requires states[i].stoppers[steps[i].c].who.job.Some? &&
             states[i].stoppers[steps[i].c].who.job.value in states[i].freed
    ensures states[i + 1].active == states[i].active
  {
    SlotInvAlways(states, steps, i);
  }

  /** A session in the slot is being started, or its start has succeeded. */
  lemma {:induction false} SessionInSlot(states: seq<State>, steps: seq<Step>, n: nat, x: nat)
    requires IsRun(states, steps) && n < |states| && states[n].active == Some(ServerHolder(x))
    ensures x in states[n].starting || exists k :: 0 <= k < n && steps[k] == ServerStarted(x)
  {
    assert StepAt(states, steps, n - 1);
    if states[n - 1].active == Some(ServerHolder(x)) {
      SessionInSlot(states, steps, n - 1, x);
    }
  }

  /** In every run, once every runner has ended, the slot is empty unless a session holds it that is being started or
      whose start has succeeded. */
  lemma {:induction false} EmptyWhenAllEnded(states: seq<State>, steps: seq<Step>, n: nat)
    requires IsRun(states, steps) && n < |states|
    requires forall j :: j in states[n].runners ==> states[n].runners[j] == Ended
    ensures states[n].active.None? || exists x ::
              && states[n].active == Some(ServerHolder(x))
              && (x in states[n].starting || exists k :: 0 <= k < n && steps[k] == ServerStarted(x))
  {
    SlotInvAlways(states, steps, n);
    if states[n].active.Some? {
      SessionInSlot(states, steps, n, states[n].active.value.session.value);
    }
  }

  /** What a runner that is measuring read, and when. */
  lemma {:induction false} TokenOrigin(states: seq<State>, steps: seq<Step>, n: nat, j: nat) returns (k: nat)
    requires IsRun(states, steps) && n < |states| && j in states[n].tokens
    ensures k < n && steps[k] == RunnerRead(j) && states[n].tokens[j] == states[k].active
  {
    assert StepAt(states, steps, n - 1);
    if steps[n - 1] == RunnerRead(j) {
      k := n - 1;
    } else {
      k := TokenOrigin(states, steps, n - 1, j);
    }
  }

  /** A runner reads the slot only after its own job was freed, and finds someone else in it. */
  ghost predicate LateRead(s: State, e: Step)
  {
    e.RunnerRead? && e.j in s.freed && s.active.Some?
  }

  /** In every run the slot changes hands only through being empty, and what empties it is the stop that read the
      holding job, that job's own runner, the failed start of the holding session, or a runner that read it late. */
  lemma {:induction false} OnlyTheHolderFrees(states: seq<State>, steps: seq<Step>, i: nat)
    requires IsRun(states, steps) && i < |steps| && states[i].active.Some? && states[i + 1].active != states[i].active
    ensures StepAt(states, steps, i) && states[i + 1].active == None
    ensures var who := states[i].active.value;
            match steps[i]
            case StopRelease(c) => states[i].stoppers[c].who == who && who.job.Some?
            case RunnerEnd(j) =>
              who.job == Some(j) || exists k: nat :: k < i && steps[k] == RunnerRead(j) && LateRead(states[k], steps[k])
            case ServerFailed(x) => who == ServerHolder(x)
            case _ => false
  {
    assert StepAt(states, steps, i);
    SlotInvAlways(states, steps, i);
    if steps[i].RunnerEnd? {
      var j := steps[i].j;
      var k := TokenOrigin(states, steps, i, j);
      SlotInvAlways(states, steps, k);
      assert states[k].active == states[i].active;
      assert StepAt(states, steps, k);
      assert j !in states[k].freed ==> states[k].active.value.job == Some(j);
    }
  }

  // ---------- exclusion, and exactly which reads it rests on ----------

  ghost predicate Running(s: State, j: nat)
  {
    j in s.runners && s.runners[j] != Ended && j !in s.stopped
  }

  /** A job that is running and not stopped is the one that holds the slot; so there is at most one, and while there
      is one no start is accepted. */
  ghost predicate Exclusive(s: State)
  {
    forall j :: Running(s, j) ==> j in s.jobs && s.active == Some(JobHolder(j, s.jobs[j]))
  }

  /** A token read that can do harm: the reader's job has been freed, and a job nobody stopped is in the slot. */
  ghost predicate Harmful(s: State, e: Step)
  {
    LateRead(s, e) && s.active.value.job.Some? && s.active.value.job.value !in s.stopped
  }

  ghost predicate HarmlessPath(states: seq<State>, steps: seq<Step>)
  {
    Path(states, steps) && forall i :: 0 <= i < |steps| ==> !Harmful(states[i], steps[i])
  }

  /** Whatever comes next, as long as no further read does harm, exclusion holds. */
  ghost predicate StaysExclusive(s: State)
  {
    forall states, steps :: HarmlessPath(states, steps) && states[0] == s ==> Exclusive(states[|steps|])
  }

  /** No job is freed while it is running: it was stopped, or its own runner has ended. */
  ghost predicate OwnInv(s: State)
  {
    && SlotInv(s)
    && (forall j :: j in s.freed ==> j in s.stopped || s.runners[j] == Ended)
    && (forall j :: j in s.runners && s.runners[j] == Measuring && s.tokens[j].Some? && s.tokens[j].value.job.Some? ==>
          s.tokens[j].value.job.value == j || s.tokens[j].value.job.value in s.stopped)
  }

  lemma {:induction false} OwnInvRelease(s: State, e: Step)
    requires OwnInv(s) && Enabled(s, e) && SlotInv(Apply(s, e)) && (e.RunnerEnd? || e.StopRelease?)
    ensures OwnInv(Apply(s, e))
  {
    var t := Apply(s, e);
    assert t.stopped == s.stopped && t.tokens == s.tokens;
  }

  lemma {:induction false} OwnInvOther(s: State, e: Step)
    requires OwnInv(s) && Enabled(s, e) && SlotInv(Apply(s, e)) && !e.RunnerEnd? && !e.StopRelease? && !e.RunnerRead?
    ensures OwnInv(Apply(s, e))
  {
  }

  lemma {:induction false} OwnInvStep(s: State, e: Step)
    requires OwnInv(s) && Enabled(s, e) && !Harmful(s, e)
    ensures OwnInv(Apply(s, e))
  {
    HolderInvStep(s, e);
    TokenInvStep(s, e);
    if e.RunnerEnd? || e.StopRelease? {
      OwnInvRelease(s, e);
    } else if e.RunnerRead? {
      assert OwnInv(Apply(s, e));
    } else {
      OwnInvOther(s, e);
    }
  }

  lemma {:induction false} OwnInvAlways(states: seq<State>, steps: seq<Step>, n: nat)
    requires HarmlessPath(states, steps) && OwnInv(states[0]) && n < |states|
    ensures OwnInv(states[n])
  {
    if n > 0 {
      assert StepAt(states, steps, n - 1) && !Harmful(states[n - 1], steps[n - 1]);
      OwnInvAlways(states, steps, n - 1);
      OwnInvStep(states[n - 1], steps[n - 1]);
    }
  }

  lemma {:induction false} OwnIsExclusive(s: State)
    requires OwnInv(s)
    ensures Exclusive(s)
  {
  }

  /** Single-slot exclusion: in every run none of whose reads does harm, at every point. */
  lemma {:induction false} Exclusion(states: seq<State>, steps: seq<Step>, n: nat, j: nat, k: nat)
    requires HarmlessPath(states, steps) && states[0] == INITIAL && n < |states|
    requires Running(states[n], j) && Running(states[n], k)
    ensures j == k && !Accepts(states[n])
    ensures j in states[n].jobs && states[n].active == Some(JobHolder(j, states[n].jobs[j]))
  {
    OwnInvAlways(states, steps, n);
    OwnIsExclusive(states[n]);
  }

  lemma {:induction false} FreshId(taken: set<nat>) returns (m: nat)
    ensures m !in taken
  {
    var rest: set<nat> := taken;
    m := 0;
    while rest != {}
      invariant forall x :: x in taken && x !in rest ==> x < m
      decreases rest
    {
      var x: nat :| x in rest;
      m := if x < m then m else x + 1;
      rest := rest - {x};
    }
  }

  /** After a harmful read, the end of its runner and one more start leave two running jobs that nobody stopped. */
  lemma {:induction false} HarmDone(s: State, e: Step) returns (states: seq<State>, steps: seq<Step>, k: nat, m: nat)
    requires SlotInv(s) && Enabled(s, e) && Harmful(s, e)
    ensures HarmlessPath(states, steps) && states[0] == Apply(s, e)
    ensures |steps| == 2 && steps[0] == RunnerEnd(e.j) && steps[1].StartJob?
    ensures k != m && Running(states[|steps|], k) && Running(states[|steps|], m)
  {
    var j := e.j;
    k := s.active.value.job.value;
    m := FreshId(s.jobs.Keys);
    var s1 := Apply(s, e);
    var s2 := Apply(s1, RunnerEnd(j));
    assert s2.active.None?;
    assert ValidMode("ookla");
    var s3 := Apply(s2, StartJob(m, Job("lan", "ookla")));
    states, steps := [s1, s2, s3], [RunnerEnd(j), StartJob(m, Job("lan", "ookla"))];
  }

  lemma {:induction false} OneRunning(s: State, j: nat, k: nat)
    requires Exclusive(s) && Running(s, j) && Running(s, k)
    ensures j == k
  {
    assert s.active.value.job == Some(j);
  }

  /** So exclusion can then be lost. */
  lemma {:induction false} HarmBreaks(s: State, e: Step)
    requires SlotInv(s) && Enabled(s, e) && Harmful(s, e)
    ensures !StaysExclusive(Apply(s, e))
  {
    var states, steps, k, m := HarmDone(s, e);
    if StaysExclusive(Apply(s, e)) {
      assert Exclusive(states[|steps|]);
      OneRunning(states[|steps|], k, m);
    }
  }

  lemma {:induction false} OwnStays(s: State)
    requires OwnInv(s)
    ensures StaysExclusive(s)
  {
    forall states, steps | HarmlessPath(states, steps) && states[0] == s ensures Exclusive(states[|steps|]) {
      OwnInvAlways(states, steps, |steps|);
      OwnIsExclusive(states[|steps|]);
    }
  }

  /** Exactly what exclusion rests on. In every run: exclusion holds at every point, and goes on holding as long as no
      later read does harm, if and only if no runner has read, after its own job was freed, a slot that held a job
      nobody had stopped. */
  lemma {:induction false} ExclusionIff(states: seq<State>, steps: seq<Step>)
    requires IsRun(states, steps)
    ensures (forall n :: 0 <= n < |states| ==> StaysExclusive(states[n]))
       <==> (forall i :: 0 <= i < |steps| ==> !Harmful(states[i], steps[i]))
  {
    if forall i :: 0 <= i < |steps| ==> !Harmful(states[i], steps[i]) {
      forall n | 0 <= n < |states| ensures StaysExclusive(states[n]) {
        OwnInvAlways(states, steps, n);
        OwnStays(states[n]);
      }
    } else {
      var i :| 0 <= i < |steps| && Harmful(states[i], steps[i]);
      assert StepAt(states, steps, i);
      SlotInvAlways(states, steps, i);
      HarmBreaks(states[i], steps[i]);
    }
  }

  // ---------- runs that do it ----------

  lemma {:induction false} Extend(states: seq<State>, steps: seq<Step>, e: Step)
    requires IsRun(states, steps) && Enabled(states[|steps|], e)
    ensures IsRun(states + [Apply(states[|steps|], e)], steps + [e])
    ensures (states + [Apply(states[|steps|], e)])[|steps + [e]|] == Apply(states[|steps|], e)
  {
    var more, others := states + [Apply(states[|steps|], e)], steps + [e];
    forall i | 0 <= i < |others| ensures StepAt(more, others, i) {
      if i < |steps| {
        assert StepAt(states, steps, i);
      }
    }
  }

  lemma {:induction false} ModesAreNotServer(mode: string)
    requires ValidMode(mode)
    ensures mode != "server"
  {
    assert "server"[0] == 's' && "server"[1] == 'e';
    assert "ookla"[0] == 'o' && "http"[0] == 'h' && "client"[0] == 'c' && "smb"[1] == 'm';
  }

  /** Job 1 is started and stopped before its runner reads. */
  lemma {:induction false} StoppedBeforeRead(a: Job) returns (states: seq<State>, steps: seq<Step>)
    requires ValidMode(a.mode)
    ensures IsRun(states, steps)
    ensures var s := states[|steps|];
            && s.active.None? && s.jobs == map[1 := a] && s.runners == map[1 := Spawned]
            && s.stopped == {1} && s.freed == {1} && s.sessions == {} && s.starting == {}
  {
    var e0, e1, e2, e3 := StartJob(1, a), StopRead(0), StopMark(0), StopRelease(0);
    assert a.mode != "server" by { ModesAreNotServer(a.mode); }
    var s1 := Apply(INITIAL, e0);
    var s2 := Apply(s1, e1);
    var s3 := Apply(s2, e2);
    var s4 := Apply(s3, e3);
    states, steps := [INITIAL, s1, s2, s3, s4], [e0, e1, e2, e3];
  }

  /** A harmful read is reachable. */
  lemma {:induction false} LateReadBreaksExclusion(a: Job)
    requires ValidMode(a.mode)
    ensures exists states, steps :: IsRun(states, steps) && !StaysExclusive(states[|steps|])
  {
    var states, steps := StoppedBeforeRead(a);
    var s := states[|steps|];
    var s1 := Apply(s, StartJob(2, a));
    Extend(states, steps, StartJob(2, a));
    var e := RunnerRead(1);
    SlotInvAlways(states + [s1], steps + [StartJob(2, a)], |steps| + 1);
    HarmBreaks(s1, e);
    Extend(states + [s1], steps + [StartJob(2, a)], e);
  }

  // ---------- server sessions ----------

  /** A server session whose start has succeeded is in the slot. */
  ghost predicate ServerHolds(s: State, x: nat)
  {
    s.active == Some(ServerHolder(x)) && x !in s.starting
  }

  /** The end of a runner that read session x's slot. */
  ghost predicate Frees(s: State, e: Step, x: nat)
  {
    e.RunnerEnd? && e.j in s.tokens && s.tokens[e.j] == Some(ServerHolder(x))
  }

  lemma {:induction false} ServerHoldsStep(s: State, e: Step, x: nat)
    requires SlotInv(s) && Enabled(s, e) && ServerHolds(s, x)
    ensures if Frees(s, e, x) then Accepts(Apply(s, e)) else ServerHolds(Apply(s, e), x)
  {
  }

  lemma {:induction false} GoneStep(s: State, e: Step, x: nat)
    requires Enabled(s, e) && x in s.sessions && s.active != Some(ServerHolder(x))
    ensures x in Apply(s, e).sessions && Apply(s, e).active != Some(ServerHolder(x))
  {
  }

  lemma {:induction false} GoneStays(states: seq<State>, steps: seq<Step>, m: nat, n: nat, x: nat)
    requires Path(states, steps) && m <= n < |states| && x in states[m].sessions &&
             states[m].active != Some(ServerHolder(x))
    ensures x in states[n].sessions && states[n].active != Some(ServerHolder(x))
  {
    if m < n {
      assert StepAt(states, steps, n - 1);
      GoneStays(states, steps, m, n - 1, x);
      GoneStep(states[n - 1], steps[n - 1], x);
    }
  }

  lemma {:induction false} ServerKeeps(states: seq<State>, steps: seq<Step>, m: nat, n: nat, x: nat)
    requires IsRun(states, steps) && m <= n < |states| && ServerHolds(states[m], x)
    requires forall i :: m <= i < n ==> !Frees(states[i], steps[i], x)
    ensures ServerHolds(states[n], x)
  {
    if m < n {
      assert StepAt(states, steps, n - 1);
      ServerKeeps(states, steps, m, n - 1, x);
      SlotInvAlways(states, steps, n - 1);
      ServerHoldsStep(states[n - 1], steps[n - 1], x);
    }
  }

  lemma {:induction false} SessionsStep(s: State, e: Step, x: nat)
    requires Enabled(s, e) && x in s.sessions
    ensures x in Apply(s, e).sessions
  {
  }

  lemma {:induction false} SessionsGrow(states: seq<State>, steps: seq<Step>, m: nat, n: nat, x: nat)
    requires Path(states, steps) && m <= n < |states| && x in states[m].sessions
    ensures x in states[n].sessions
  {
    if m < n {
      assert StepAt(states, steps, n - 1);
      SessionsGrow(states, steps, m, n - 1, x);
      SessionsStep(states[n - 1], steps[n - 1], x);
    }
  }

  lemma {:induction false} FreedForGood(states: seq<State>, steps: seq<Step>, m: nat, i: nat, n: nat, x: nat)
    requires IsRun(states, steps) && m <= i < n < |states| && ServerHolds(states[m], x) && Frees(states[i], steps[i], x)
    ensures !ServerHolds(states[n], x)
  {
    assert StepAt(states, steps, i);
    SlotInvAlways(states, steps, m);
    SessionsGrow(states, steps, m, i, x);
    assert x in Apply(states[i], steps[i]).sessions && Apply(states[i], steps[i]).active != Some(ServerHolder(x));
    GoneStays(states, steps, i + 1, n, x);
  }

  /** In every run a started session keeps the slot, whatever is stopped, exactly until a runner that read the
      session's slot ends: the token server_stop builds has no session field, so it never equals the holder. */
  lemma {:induction false} ServerKeepsSlotIff(states: seq<State>, steps: seq<Step>, m: nat, n: nat, x: nat)
    requires IsRun(states, steps) && m <= n < |states| && ServerHolds(states[m], x)
    ensures ServerHolds(states[n], x) <==> forall i :: m <= i < n ==> !Frees(states[i], steps[i], x)
  {
    if i :| m <= i < n && Frees(states[i], steps[i], x) {
      FreedForGood(states, steps, m, i, n, x);
    } else {
      ServerKeeps(states, steps, m, n, x);
    }
  }

  /** A session is being started exactly from its accepted acquire to the success or failure of its own start. */
  lemma {:induction false} StartingIff(states: seq<State>, steps: seq<Step>, n: nat, x: nat)
    requires IsRun(states, steps) && n < |states|
    ensures x in states[n].starting <==>
            exists k :: 0 <= k < n && steps[k] == ServerAcquire(x) && states[k].active.None?
              && forall l :: k < l < n ==> steps[l] != ServerStarted(x) && steps[l] != ServerFailed(x)
  {
    if n > 0 {
      assert StepAt(states, steps, n - 1);
      StartingIff(states, steps, n - 1, x);
    }
  }

  /** A session being started holds the slot, unless a runner that read it has ended meanwhile. */
  lemma {:induction false} StartingHolds(states: seq<State>, steps: seq<Step>, n: nat, x: nat)
    requires IsRun(states, steps) && n < |states| && x in states[n].starting
    requires forall i :: 0 <= i < n ==> !Frees(states[i], steps[i], x)
    ensures states[n].active == Some(ServerHolder(x))
  {
    assert StepAt(states, steps, n - 1);
    SlotInvAlways(states, steps, n - 1);
    assert !Frees(states[n - 1], steps[n - 1], x);
    if x in states[n - 1].starting {
      StartingHolds(states, steps, n - 1, x);
    }
  }

  /** In every run a start that failed gives its slot back: the session is out of it, whoever else holds it keeps it,
      and unless a runner that read the session's slot has ended, the next start is accepted. */
  lemma {:induction false} FailedStartFrees(states: seq<State>, steps: seq<Step>, i: nat, x: nat)
    requires IsRun(states, steps) && i < |steps| && steps[i] == ServerFailed(x)
    ensures states[i + 1].active == if states[i].active == Some(ServerHolder(x)) then None else states[i].active
    ensures (forall k :: 0 <= k < i ==> !Frees(states[k], steps[k], x)) ==> Accepts(states[i + 1])
  {
    assert StepAt(states, steps, i);
    if forall k :: 0 <= k < i ==> !Frees(states[k], steps[k], x) {
      StartingHolds(states, steps, i, x);
    }
  }

  /** In every run server_stop finds the session started last, unless a stop came after it; and it leaves the slot
      alone. */
  lemma {:induction false} ServerIsLastStarted(states: seq<State>, steps: seq<Step>, n: nat, x: nat)
    requires IsRun(states, steps) && n < |states|
    ensures states[n].server == Some(x) <==>
            exists k :: 0 <= k < n && steps[k] == ServerStarted(x)
              && forall l :: k < l < n ==> !steps[l].ServerStarted? && steps[l] != ServerStop
    ensures n > 0 && steps[n - 1] == ServerStop ==> states[n].active == states[n - 1].active
  {
    if n > 0 {
      assert StepAt(states, steps, n - 1);
      SlotInvAlways(states, steps, n - 1);
      ServerIsLastStarted(states, steps, n - 1, x);
    }
  }

  /** A start is possible for the four task modes; it takes an empty slot and spawns the job's runner, and finds any
      other slot busy. */
  lemma {:induction false} StartIff(s: State, j: nat, job: Job)
    ensures Enabled(s, StartJob(j, job)) <==>
            && j !in s.jobs
            && (job.mode == "ookla" || job.mode == "http" || job.mode == "client" || job.mode == "smb")
    ensures Enabled(s, StartJob(j, job)) ==>
              var t := Apply(s, StartJob(j, job));
              if s.active.None? then
                && t.active == Some(Who(job.btype, job.mode, Some(j), None))
                && t.jobs == s.jobs[j := job] && t.runners == s.runners[j := Spawned]
              else t == s
  {
  }

  /** The token that server_stop releases is the session's holder but for the session, so the two are never equal. */
  lemma {:induction false} StopTokenDiffers(x: nat)
    ensures ServerHolder(x) == Who("lan", "server", None, Some(x)) && SERVER_STOP == Who("lan", "server", None, None)
    ensures SERVER_STOP != ServerHolder(x)
  {
  }

  /** No runner can still free session x: every one has ended, or is measuring with another token. */
  ghost predicate NoLateRunner(s: State, x: nat)
  {
    forall j :: j in s.runners ==>
      s.runners[j] == Ended || (s.runners[j] == Measuring && j in s.tokens && s.tokens[j] != Some(ServerHolder(x)))
  }

  ghost predicate StuckForever(s: State)
  {
    forall states, steps :: Path(states, steps) && states[0] == s ==> !Accepts(states[|steps|])
  }

  lemma {:induction false} StuckStep(s: State, e: Step, x: nat)
    requires SlotInv(s) && Enabled(s, e) && ServerHolds(s, x) && NoLateRunner(s, x)
    ensures ServerHolds(Apply(s, e), x) && NoLateRunner(Apply(s, e), x)
  {
    ServerHoldsStep(s, e, x);
  }

  lemma {:induction false} StuckAlways(states: seq<State>, steps: seq<Step>, n: nat, x: nat)
    requires Path(states, steps) && SlotInv(states[0]) && ServerHolds(states[0], x) && NoLateRunner(states[0], x) &&
             n < |states|
    ensures SlotInv(states[n]) && ServerHolds(states[n], x) && NoLateRunner(states[n], x)
  {
    if n > 0 {
      assert StepAt(states, steps, n - 1);
      StuckAlways(states, steps, n - 1, x);
      HolderInvStep(states[n - 1], steps[n - 1]);
      TokenInvStep(states[n - 1], steps[n - 1]);
      StuckStep(states[n - 1], steps[n - 1], x);
    }
  }

  /** A runner that has yet to read, or has read the session's slot, can free it. */
  lemma {:induction false} LateRunnerFrees(s: State, x: nat) returns (states: seq<State>, steps: seq<Step>)
    requires SlotInv(s) && ServerHolds(s, x) && !NoLateRunner(s, x)
    ensures Path(states, steps) && states[0] == s && Accepts(states[|steps|])
  {
    var j :| j in s.runners && s.runners[j] != Ended
          && !(s.runners[j] == Measuring && j in s.tokens && s.tokens[j] != Some(ServerHolder(x)));
    if s.runners[j] == Spawned {
      var s1 := Apply(s, RunnerRead(j));
      states, steps := [s, s1, Apply(s1, RunnerEnd(j))], [RunnerRead(j), RunnerEnd(j)];
    } else {
      states, steps := [s, Apply(s, RunnerEnd(j))], [RunnerEnd(j)];
    }
  }

  /** Once a server session has started, this service never accepts another task, whatever anyone does, if and only if
      no runner is left that has yet to read its token or has read the session's slot. */
  lemma {:induction false} NoTaskAfterAServerIff(states: seq<State>, steps: seq<Step>, n: nat, x: nat)
    requires IsRun(states, steps) && n < |states| && ServerHolds(states[n], x)
    ensures StuckForever(states[n]) <==> NoLateRunner(states[n], x)
  {
    SlotInvAlways(states, steps, n);
    if NoLateRunner(states[n], x) {
      forall more, others | Path(more, others) && more[0] == states[n] ensures !Accepts(more[|others|]) {
        StuckAlways(more, others, |others|, x);
      }
    } else {
      var more, others := LateRunnerFrees(states[n], x);
    }
  }

  lemma {:induction false} AcquireAndStart(states: seq<State>, steps: seq<Step>)
    returns (more: seq<State>, others: seq<Step>)
    requires IsRun(states, steps) && Accepts(states[|steps|]) && states[|steps|].sessions == {} &&
             states[|steps|].starting == {}
    ensures IsRun(more, others) && ServerHolds(more[|others|], 5) && more[|others|].runners == states[|steps|].runners
  {
    var e0, e1 := ServerAcquire(5), ServerStarted(5);
    var s1 := Apply(states[|steps|], e0);
    var s2 := Apply(s1, e1);
    Extend(states, steps, e0);
    Extend(states + [s1], steps + [e0], e1);
    more, others := states + [s1] + [s2], steps + [e0] + [e1];
  }

  /** Both happen: a session that starts alone is there for good... */
  lemma {:induction false} ServerAlone() returns (states: seq<State>, steps: seq<Step>)
    ensures IsRun(states, steps) && ServerHolds(states[|steps|], 5) && StuckForever(states[|steps|])
  {
    states, steps := AcquireAndStart([INITIAL], []);
    NoTaskAfterAServerIff(states, steps, |steps|, 5);
  }

  /** ...and one that starts after a job was stopped and before that job's runner reads can be freed by that runner. */
  lemma {:induction false} ServerFreedLate(a: Job) returns (states: seq<State>, steps: seq<Step>)
    requires ValidMode(a.mode)
    ensures IsRun(states, steps) && ServerHolds(states[|steps|], 5) && !StuckForever(states[|steps|])
  {
    states, steps := StoppedBeforeRead(a);
    states, steps := AcquireAndStart(states, steps);
    assert 1 in states[|steps|].runners && states[|steps|].runners[1] == Spawned;
    NoTaskAfterAServerIff(states, steps, |steps|, 5);
  }
}
