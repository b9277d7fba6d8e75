/** lib/netcheck/diag/engine.py: run_diag with the threads of its executors, in every interleaving of their steps. */
module DiagExecutor {
  import opened DiagEngine

  /** max_workers */
  const WORKERS := 4

  datatype Phase = Queued | Running | Finished | Cancelled

  predicate Over(p: Phase) { p == Finished || p == Cancelled }

  /** Where the caller is: submitting the plan's next checker, blocked in wait(), reporting what wait() returned,
      leaving the executor's block, or back with the results. */
  datatype Caller = Submitting(next: nat) | Waiting | Collecting(done: set<Checker>) | Closing | Returned

  /** What each stage submits, in order, and which checkers are not applicable. */
  datatype Work = Work(first: seq<Checker>, second: seq<Checker>, na: Checker -> bool)

  datatype State = State(
    stage: nat,
    caller: Caller,
    tasks: map<Checker, Phase>,
    pending: set<Checker>,
    evaluated: set<Checker>,     // history: those that had finished when wait() returned
    reported: seq<Checker>,      // history: whose result each result is
    results: seq<CheckResult>)

  const INITIAL := State(0, Submitting(0), map[], {}, {}, [], [])

  datatype Step =
    | Submit              // the next checker: reported as not applicable, or handed to the executor
    | Wait                // nothing left to submit
    | WaitReturns         // every pending future is done, or the deadline has passed
    | Report(c: Checker)
    | TimeOut(c: Checker) // cancel, which only a task that has not started heeds, and report
    | Leave               // nothing left to report
    | Start(c: Checker)
    | Finish(c: Checker)
    | Close               // the executor's exit: waits for every worker

  function Plan(w: Work, stage: nat): seq<Checker> { if stage == 0 then w.first else w.second }

  function InPhase(tasks: map<Checker, Phase>, p: Phase): set<Checker> { set c | c in tasks && tasks[c] == p }

  function RunningTasks(tasks: map<Checker, Phase>): set<Checker> { InPhase(tasks, Running) }

  predicate AllOver(tasks: map<Checker, Phase>) { forall c :: c in tasks ==> Over(tasks[c]) }

  predicate Enabled(w: Work, s: State, e: Step)
  {
    match e
    case Submit => s.caller.Submitting? && s.caller.next < |Plan(w, s.stage)|
    case Wait => s.caller.Submitting? && s.caller.next == |Plan(w, s.stage)|
    case WaitReturns => s.caller.Waiting?
    case Report(c) => s.caller.Collecting? && c in s.caller.done
    case TimeOut(c) => s.caller == Collecting({}) && c in s.pending
    case Leave => s.caller == Collecting({}) && s.pending == {}
    case Start(c) => c in s.tasks && s.tasks[c] == Queued && |RunningTasks(s.tasks)| < WORKERS
    case Finish(c) => c in s.tasks && s.tasks[c] == Running
    case Close => s.caller.Closing? && AllOver(s.tasks)
  }

  function ResultOf(w: Work, evaluated: set<Checker>, c: Checker): CheckResult
  {
    CheckResult(c.id, c.group, if w.na(c) then NotApplicable else if c in evaluated then Evaluated else TimedOut)
  }

  function Apply(w: Work, s: State, e: Step): State
    requires Enabled(w, s, e)
  {
    match e
    case Submit =>
      var c, onward := Plan(w, s.stage)[s.caller.next], Submitting(s.caller.next + 1);
      if w.na(c) then
        s.(caller := onward, reported := s.reported + [c],
           results := s.results + [CheckResult(c.id, c.group, NotApplicable)])
      else s.(caller := onward, tasks := s.tasks[c := Queued], pending := s.pending + {c})
    case Wait => s.(caller := if s.pending == {} then Closing else Waiting)
    case WaitReturns =>
      var done := set c | c in s.pending && c in s.tasks && s.tasks[c] == Finished;
      s.(caller := Collecting(done), pending := s.pending - done, evaluated := s.evaluated + done)
    case Report(c) =>
      s.(caller := Collecting(s.caller.done - {c}), reported := s.reported + [c],
         results := s.results + [CheckResult(c.id, c.group, Evaluated)])
    case TimeOut(c) =>
      s.(tasks := if c in s.tasks && s.tasks[c] == Queued then s.tasks[c := Cancelled] else s.tasks,
         pending := s.pending - {c}, reported := s.reported + [c],
         results := s.results + [CheckResult(c.id, c.group, TimedOut)])
    case Leave => s.(caller := Closing)
    case Start(c) => s.(tasks := s.tasks[c := Running])
    case Finish(c) => s.(tasks := s.tasks[c := Finished])
    case Close => if s.stage == 0 then s.(stage := 1, caller := Submitting(0)) else s.(caller := Returned)
  }

  ghost predicate StepAt(w: Work, states: seq<State>, steps: seq<Step>, i: nat)
  {
    && i < |steps| && i + 1 < |states|
    && Enabled(w, states[i], steps[i]) && states[i + 1] == Apply(w, states[i], steps[i])
  }

  ghost predicate IsRun(w: Work, states: seq<State>, steps: seq<Step>)
  {
    |states| == |steps| + 1 && states[0] == INITIAL && forall i :: 0 <= i < |steps| ==> StepAt(w, states, steps, i)
  }

  ghost predicate NoRepeats<T>(s: seq<T>) { forall i, j :: 0 <= i < j < |s| ==> s[i] != s[j] }

  /** No checker is planned twice. */
  ghost predicate Sound(w: Work) { NoRepeats(w.first + w.second) }

  // ---------- what every run keeps ----------

  /** How many of the stage's checkers have been gone through. */
  function Passed(w: Work, s: State): nat { if s.caller.Submitting? then s.caller.next else |Plan(w, s.stage)| }

  /** The checkers gone through so far, in both stages. */
  ghost predicate Seen(w: Work, s: State, c: Checker)
    requires Passed(w, s) <= |Plan(w, s.stage)|
  {
    (s.stage > 0 && c in w.first) || c in Plan(w, s.stage)[..Passed(w, s)]
  }

  /** Exactly the applicable checkers seen are tasks, and those of the first stage are over in the second. */
  ghost predicate TaskInv(w: Work, s: State)
  {
    && s.stage <= 1 && Passed(w, s) <= |Plan(w, s.stage)|
    && (forall c :: c in s.tasks <==> Seen(w, s, c) && !w.na(c))
    && (s.stage == 1 ==> forall c :: c in s.tasks && c in w.first ==> Over(s.tasks[c]))
    && (s.caller.Returned? ==> s.stage == 1 && AllOver(s.tasks))
    && (forall c :: c in s.evaluated ==> c in s.tasks && s.tasks[c] == Finished)
    && |RunningTasks(s.tasks)| <= WORKERS
  }

  ghost predicate DoneNow(s: State, c: Checker) { s.caller.Collecting? && c in s.caller.done }

  /** Every checker seen is in exactly one place: reported, waited for, or waiting to be reported as evaluated. */
  ghost predicate PlaceInv(w: Work, s: State)
    requires Passed(w, s) <= |Plan(w, s.stage)|
  {
    && NoRepeats(s.reported)
    && (forall c :: Seen(w, s, c) <==> c in s.reported || c in s.pending || DoneNow(s, c))
    && (forall c :: c in s.pending ==> c !in s.reported && c !in s.evaluated && !w.na(c))
    && (forall c :: DoneNow(s, c) ==> c !in s.reported && c in s.evaluated && !w.na(c) && c !in s.pending)
    && (s.caller.Closing? || s.caller.Returned? ==> s.pending == {})
    && (s.stage == 1 && s.caller == Submitting(0) ==> s.pending == {})
  }

  /** Each result is its checker's: not applicable, evaluated when the task had finished by the time wait() returned,
      and timed out otherwise. */
  ghost predicate ResultInv(w: Work, s: State)
  {
    && |s.results| == |s.reported|
    && (forall i :: 0 <= i < |s.reported| ==> s.results[i] == ResultOf(w, s.evaluated, s.reported[i]))
  }

  ghost predicate Inv(w: Work, s: State) { TaskInv(w, s) && PlaceInv(w, s) && ResultInv(w, s) }

  predicate IsWorker(e: Step) { e.Start? || e.Finish? }

  // Which checkers are seen, step by step.

  lemma {:induction false} PlanPrefix(w: Work, stage: nat, n: nat, c: Checker)
    requires n < |Plan(w, stage)|
    ensures c in Plan(w, stage)[..n + 1] <==> c in Plan(w, stage)[..n] || c == Plan(w, stage)[n]
  {
    assert Plan(w, stage)[..n + 1] == Plan(w, stage)[..n] + [Plan(w, stage)[n]];
  }

  lemma {:induction false} SeenStep(w: Work, s: State, e: Step, c: Checker)
    requires s.stage <= 1 && Passed(w, s) <= |Plan(w, s.stage)| && Enabled(w, s, e)
    ensures var t := Apply(w, s, e);
            && t.stage <= 1 && Passed(w, t) <= |Plan(w, t.stage)|
            && (Seen(w, t, c) <==> Seen(w, s, c) || (e.Submit? && c == Plan(w, s.stage)[s.caller.next]))
  {
    var t := Apply(w, s, e);
    if e.Submit? {
      PlanPrefix(w, s.stage, s.caller.next, c);
    } else if e.Close? && s.stage == 0 {
      assert Plan(w, 0)[..|Plan(w, 0)|] == w.first && Plan(w, 1)[..0] == [];
    } else {
      assert Passed(w, t) == Passed(w, s) && t.stage == s.stage;
    }
  }

  lemma {:induction false} FreshNext(w: Work, s: State)
    requires Sound(w) && s.stage <= 1 && s.caller.Submitting? && s.caller.next < |Plan(w, s.stage)|
    ensures !Seen(w, s, Plan(w, s.stage)[s.caller.next])
    ensures s.stage == 1 ==> Plan(w, s.stage)[s.caller.next] !in w.first
  {
    var all, n := w.first + w.second, s.caller.next;
    if s.stage == 0 {
      assert forall i :: 0 <= i <= n ==> all[i] == w.first[i];
    } else {
      assert all[|w.first| + n] == w.second[n];
      assert forall i :: 0 <= i < n ==> all[|w.first| + i] == w.second[i];
      assert forall i :: 0 <= i < |w.first| ==> all[i] == w.first[i];
    }
  }

  /** A task that moves to phase p leaves its old one: the sizes of the phases, before and after. */
  lemma {:induction false} PhaseCount(tasks: map<Checker, Phase>, c: Checker, p: Phase, q: Phase)
    ensures |InPhase(tasks[c := p], q)| ==
            |InPhase(tasks, q)| - (if c in tasks && tasks[c] == q then 1 else 0) + (if p == q then 1 else 0)
  {
    var before, after := InPhase(tasks, q), InPhase(tasks[c := p], q);
    if p == q {
      assert after == before + {c};
    } else {
      assert after == before - {c};
    }
  }

  lemma {:induction false} TaskInvSubmit(w: Work, s: State)
    requires TaskInv(w, s) && Enabled(w, s, Submit)
    requires var t, d := Apply(w, s, Submit), Plan(w, s.stage)[s.caller.next];
             && !Seen(w, s, d) && (s.stage == 1 ==> d !in w.first)
             && Passed(w, t) <= |Plan(w, t.stage)| && forall c :: Seen(w, t, c) <==> Seen(w, s, c) || c == d
    ensures TaskInv(w, Apply(w, s, Submit))
  {
    PhaseCount(s.tasks, Plan(w, s.stage)[s.caller.next], Queued, Running);
  }

  lemma {:induction false} TaskInvMove(w: Work, s: State, e: Step)
    requires TaskInv(w, s) && Enabled(w, s, e) && (IsWorker(e) || e.TimeOut?)
    requires Passed(w, Apply(w, s, e)) <= |Plan(w, s.stage)|
    requires forall c :: Seen(w, Apply(w, s, e), c) <==> Seen(w, s, c)
    ensures TaskInv(w, Apply(w, s, e))
  {
    PhaseCount(s.tasks, e.c, if e.Start? then Running else if e.Finish? then Finished else Cancelled, Running);
  }

  lemma {:induction false} PlaceInvSubmit(w: Work, s: State)
    requires Inv(w, s) && Enabled(w, s, Submit) && Passed(w, Apply(w, s, Submit)) <= |Plan(w, s.stage)|
    requires var t, d := Apply(w, s, Submit), Plan(w, s.stage)[s.caller.next];
             !Seen(w, s, d) && forall c :: Seen(w, t, c) <==> Seen(w, s, c) || c == d
    ensures PlaceInv(w, Apply(w, s, Submit))
  {
  }

  lemma {:induction false} PlaceInvReport(w: Work, s: State, c: Checker)
    requires Inv(w, s) && Enabled(w, s, Report(c)) && Passed(w, Apply(w, s, Report(c))) <= |Plan(w, s.stage)|
    requires forall d :: Seen(w, Apply(w, s, Report(c)), d) <==> Seen(w, s, d)
    ensures PlaceInv(w, Apply(w, s, Report(c)))
  {
  }

  lemma {:induction false} PlaceInvTimeOut(w: Work, s: State, c: Checker)
    requires Inv(w, s) && Enabled(w, s, TimeOut(c)) && Passed(w, Apply(w, s, TimeOut(c))) <= |Plan(w, s.stage)|
    requires forall d :: Seen(w, Apply(w, s, TimeOut(c)), d) <==> Seen(w, s, d)
    ensures PlaceInv(w, Apply(w, s, TimeOut(c)))
  {
  }

  lemma {:induction false} PlaceInvCollect(w: Work, s: State)
    requires Inv(w, s) && Enabled(w, s, WaitReturns) && TaskInv(w, Apply(w, s, WaitReturns))
    requires forall c :: Seen(w, Apply(w, s, WaitReturns), c) <==> Seen(w, s, c)
    ensures PlaceInv(w, Apply(w, s, WaitReturns))
  {
  }

  lemma {:induction false} PlaceInvOther(w: Work, s: State, e: Step)
    requires Inv(w, s) && Enabled(w, s, e) && !e.Submit? && !e.Report? && !e.TimeOut? && !e.WaitReturns?
    requires TaskInv(w, Apply(w, s, e))
    requires forall c :: Seen(w, Apply(w, s, e), c) <==> Seen(w, s, c)
    ensures PlaceInv(w, Apply(w, s, e))
  {
    var t := Apply(w, s, e);
    assert t.reported == s.reported && t.pending == s.pending && t.evaluated == s.evaluated;
    assert forall c :: DoneNow(t, c) <==> DoneNow(s, c);
  }

  lemma {:induction false} ResultInvStep(w: Work, s: State, e: Step)
    requires Inv(w, s) && Enabled(w, s, e)
    ensures ResultInv(w, Apply(w, s, e))
  {
    assert forall i :: 0 <= i < |s.reported| ==> s.reported[i] in s.reported;
  }

  lemma {:induction false} InvStep(w: Work, s: State, e: Step)
    requires Sound(w) && Inv(w, s) && Enabled(w, s, e)
    ensures Inv(w, Apply(w, s, e))
  {
    var t := Apply(w, s, e);
    forall c ensures Passed(w, t) <= |Plan(w, t.stage)| &&
                     (Seen(w, t, c) <==> Seen(w, s, c) || (e.Submit? && c == Plan(w, s.stage)[s.caller.next])) {
      SeenStep(w, s, e, c);
    }
    if e.Submit? {
      FreshNext(w, s);
      TaskInvSubmit(w, s);
      PlaceInvSubmit(w, s);
    } else if IsWorker(e) || e.TimeOut? {
      TaskInvMove(w, s, e);
      if e.TimeOut? { PlaceInvTimeOut(w, s, e.c); } else { PlaceInvOther(w, s, e); }
    } else {
      assert TaskInv(w, Apply(w, s, e));
      if e.Report? {
        PlaceInvReport(w, s, e.c);
      } else if e.WaitReturns? {
        PlaceInvCollect(w, s);
      } else {
        PlaceInvOther(w, s, e);
      }
    }
    ResultInvStep(w, s, e);
  }

  lemma {:induction false} InvAlways(w: Work, states: seq<State>, steps: seq<Step>, n: nat)
    requires Sound(w) && IsRun(w, states, steps) && n < |states|
    ensures Inv(w, states[n])
  {
    if n == 0 {
      assert RunningTasks(INITIAL.tasks) == {};
      assert w.first[..0] == [];
    } else {
      assert StepAt(w, states, steps, n - 1);
      InvAlways(w, states, steps, n - 1);
      InvStep(w, states[n - 1], steps[n - 1]);
    }
  }

  // ---------- no second-stage checker starts early ----------

  lemma {:induction false} Apart(w: Work, c: Checker)
    requires Sound(w) && c in w.first
    ensures c !in w.second
  {
    var all := w.first + w.second;
    var i :| 0 <= i < |w.first| && w.first[i] == c;
    assert all[i] == c;
    forall j | 0 <= j < |w.second| ensures w.second[j] != c {
      assert all[|w.first| + j] == w.second[j];
    }
  }

  /** In every run, when a second-stage checker starts, every applicable checker of the first stage has been submitted,
      and has finished or been cancelled. */
  lemma {:induction false} NoEarlyStart(w: Work, states: seq<State>, steps: seq<Step>, i: nat, d: Checker)
    requires Sound(w) && IsRun(w, states, steps) && i < |steps|
    requires steps[i].Start? && steps[i].c in w.second && d in w.first && !w.na(d)
    ensures d in states[i].tasks && Over(states[i].tasks[d])
  {
    InvAlways(w, states, steps, i);
    assert StepAt(w, states, steps, i);
    if states[i].stage == 0 {
      assert Seen(w, states[i], steps[i].c) && steps[i].c in w.first;
      Apart(w, steps[i].c);
    }
    assert Seen(w, states[i], d);
  }

  /** In every run at most four tasks are ever running. */
  lemma {:induction false} AtMostFour(w: Work, states: seq<State>, steps: seq<Step>, n: nat)
    requires Sound(w) && IsRun(w, states, steps) && n < |states|
    ensures |RunningTasks(states[n].tasks)| <= 4
  {
    InvAlways(w, states, steps, n);
  }

  /** The caller comes back only when no task is queued or running any more. */
  lemma {:induction false} NothingLeftRunning(w: Work, states: seq<State>, steps: seq<Step>, n: nat)
    requires Sound(w) && IsRun(w, states, steps) && n < |states| && states[n].caller.Returned?
    ensures AllOver(states[n].tasks)
  {
    InvAlways(w, states, steps, n);
  }

  /** A task cancelled stays cancelled: no step starts or finishes it, or submits its checker again. */
  lemma {:induction false} CancelledStays(w: Work, states: seq<State>, steps: seq<Step>, m: nat, n: nat, c: Checker)
    requires Sound(w) && IsRun(w, states, steps) && m <= n < |states|
    requires c in states[m].tasks && states[m].tasks[c] == Cancelled
    ensures c in states[n].tasks && states[n].tasks[c] == Cancelled
  {
    if m < n {
      CancelledStays(w, states, steps, m, n - 1, c);
      assert StepAt(w, states, steps, n - 1);
      InvAlways(w, states, steps, n - 1);
      if steps[n - 1].Submit? {
        FreshNext(w, states[n - 1]);
        assert Seen(w, states[n - 1], c);
      }
    }
  }

  /** Reported as timed out, a task that has not started by then never runs, and one that has runs on. */
  lemma {:induction false} TimedOutInQueue(w: Work, states: seq<State>, steps: seq<Step>, i: nat, n: nat, c: Checker)
    requires Sound(w) && IsRun(w, states, steps) && i < n < |steps| && steps[i] == TimeOut(c)
    ensures c in states[i].tasks
    ensures if states[i].tasks[c] == Queued then steps[n] != Start(c) && steps[n] != Finish(c)
            else c in states[i + 1].tasks && states[i + 1].tasks[c] == states[i].tasks[c]
  {
    assert StepAt(w, states, steps, i) && StepAt(w, states, steps, n);
    InvAlways(w, states, steps, i);
    assert Seen(w, states[i], c);
    if states[i].tasks[c] == Queued {
      CancelledStays(w, states, steps, i + 1, n, c);
    }
  }

  /** The caller waits only while some future is pending: a stage with nothing to wait for is closed at once. */
  lemma {:induction false} WaitsForSomething(w: Work, states: seq<State>, steps: seq<Step>, n: nat)
    requires IsRun(w, states, steps) && n < |states| && states[n].caller.Waiting?
    ensures states[n].pending != {}
  {
    if n > 0 {
      assert StepAt(w, states, steps, n - 1);
      if states[n - 1].caller.Waiting? {
        WaitsForSomething(w, states, steps, n - 1);
      }
    }
  }

  // ---------- the results of a run ----------

  /** A result, once reported, stands: whatever its task does afterwards. */
  lemma {:induction false} ResultsStand(w: Work, states: seq<State>, steps: seq<Step>, m: nat, n: nat)
    requires IsRun(w, states, steps) && m <= n < |states|
    ensures states[m].results <= states[n].results && states[m].evaluated <= states[n].evaluated
  {
    if m < n {
      assert StepAt(w, states, steps, n - 1);
      ResultsStand(w, states, steps, m, n - 1);
    }
  }

  /** A checker counts as evaluated exactly when its task had finished at some return of wait() that was waiting
      for it. */
  lemma {:induction false} EvaluatedIff(w: Work, states: seq<State>, steps: seq<Step>, n: nat, c: Checker)
    requires IsRun(w, states, steps) && n < |states|
    ensures c in states[n].evaluated <==>
            exists i :: 0 <= i < n && steps[i] == WaitReturns
              && c in states[i].pending && c in states[i].tasks && states[i].tasks[c] == Finished
  {
    if n > 0 {
      assert StepAt(w, states, steps, n - 1);
      EvaluatedIff(w, states, steps, n - 1, c);
    }
  }

  /** A task that finishes after its deadline has its one result already, timed out, and gets no other. */
  lemma {:induction false} LateFinish(w: Work, states: seq<State>, steps: seq<Step>, i: nat, n: nat, c: Checker)
    requires Sound(w) && IsRun(w, states, steps) && i < |steps| && i < n < |states|
    requires steps[i] == Finish(c) && c !in states[i].pending && states[n].caller.Returned?
    ensures c in states[i].reported && states[i + 1].results == states[i].results
    ensures CheckResult(c.id, c.group, TimedOut) in states[n].results
  {
    assert StepAt(w, states, steps, i);
    InvAlways(w, states, steps, i);
    assert c !in states[i].evaluated && Seen(w, states[i], c);
    var k :| 0 <= k < |states[i].reported| && states[i].reported[k] == c;
    ResultsStand(w, states, steps, i, n);
    assert states[n].results[k] == states[i].results[k] == CheckResult(c.id, c.group, TimedOut);
  }

  lemma {:induction false} CountOnce<T>(s: seq<T>, x: T)
    requires NoRepeats(s)
    ensures multiset(s)[x] == if x in s then 1 else 0
  {
    if s != [] {
      var n := |s| - 1;
      CountOnce(s[..n], x);
      assert s == s[..n] + [s[n]];
    }
  }

  /** When the caller is back, each planned checker has exactly one result, and there is no other. */
  lemma {:induction false} ReturnedResults(w: Work, states: seq<State>, steps: seq<Step>, n: nat)
    requires Sound(w) && IsRun(w, states, steps) && n < |states| && states[n].caller.Returned?
    ensures var s := states[n];
            && NoRepeats(s.reported) && (forall c :: c in s.reported <==> c in w.first || c in w.second)
            && |s.results| == |s.reported|
            && forall i :: 0 <= i < |s.reported| ==> s.results[i] == ResultOf(w, s.evaluated, s.reported[i])
  {
    InvAlways(w, states, steps, n);
    assert w.second[..|w.second|] == w.second;
    forall c ensures c in states[n].reported <==> c in w.first || c in w.second {
      assert Seen(w, states[n], c) <==> c in w.first || c in w.second;
    }
  }

  // ---------- the plans of a registry ----------

  /** What a stage goes through: its groups in order, and each group's checkers in registry order. */
  function PlanOf(reg: seq<Checker>, groups: string): seq<Checker>
  {
    if groups == "" then [] else PlanOf(reg, groups[..|groups| - 1]) + OfGroups(reg, {groups[|groups| - 1]})
  }

  function WorkOf(reg: seq<Checker>, na: Checker -> bool): Work { Work(PlanOf(reg, "ABC"), PlanOf(reg, "DEFGHI"), na) }

  lemma {:induction false} OfGroupsMember(reg: seq<Checker>, groups: set<char>)
    ensures forall c :: c in OfGroups(reg, groups) <==> c in reg && c.group in groups
  {
    if reg != [] {
      OfGroupsMember(reg[..|reg| - 1], groups);
      assert reg == reg[..|reg| - 1] + [reg[|reg| - 1]];
    }
  }

  lemma {:induction false} OfGroupsOnce(reg: seq<Checker>, groups: set<char>)
    requires DistinctIds(reg)
    ensures NoRepeats(OfGroups(reg, groups))
  {
    if reg != [] {
      OfGroupsOnce(reg[..|reg| - 1], groups);
      OfGroupsMember(reg[..|reg| - 1], groups);
      assert NoRepeats(OfGroups(reg[..|reg| - 1], groups) + [reg[|reg| - 1]]);
    }
  }

  lemma {:induction false} Disjoined<T>(a: seq<T>, b: seq<T>)
    requires NoRepeats(a) && NoRepeats(b) && forall x :: x in a ==> x !in b
    ensures NoRepeats(a + b)
  {
    forall i, j | 0 <= i < j < |a + b| ensures (a + b)[i] != (a + b)[j] {
      if i < |a| <= j {
        assert a[i] in a && b[j - |a|] in b;
      }
    }
  }

  lemma {:induction false} PlanMember(reg: seq<Checker>, groups: string)
    ensures forall c :: c in PlanOf(reg, groups) <==> c in reg && c.group in groups
  {
    if groups != "" {
      var n := |groups| - 1;
      PlanMember(reg, groups[..n]);
      OfGroupsMember(reg, {groups[n]});
      assert groups == groups[..n] + [groups[n]];
    }
  }

  lemma {:induction false} PlanOnce(reg: seq<Checker>, groups: string)
    requires DistinctIds(reg) && NoRepeats(groups)
    ensures NoRepeats(PlanOf(reg, groups))
  {
    if groups != "" {
      var n := |groups| - 1;
      PlanOnce(reg, groups[..n]);
      PlanMember(reg, groups[..n]);
      OfGroupsOnce(reg, {groups[n]});
      OfGroupsMember(reg, {groups[n]});
      Disjoined(PlanOf(reg, groups[..n]), OfGroups(reg, {groups[n]}));
    }
  }

  lemma {:induction false} StageNames()
    ensures NoRepeats("ABC") && NoRepeats("DEFGHI") && (forall g :: g in "ABC" ==> g !in "DEFGHI")
    ensures forall g :: g in ALL_GROUPS <==> g in "ABC" || g in "DEFGHI"
  {
  }

  lemma {:induction false} WorkSound(reg: seq<Checker>, na: Checker -> bool)
    requires DistinctIds(reg)
    ensures Sound(WorkOf(reg, na))
    ensures forall c :: c in WorkOf(reg, na).first || c in WorkOf(reg, na).second <==> c in reg && c.group in ALL_GROUPS
  {
    StageNames();
    PlanOnce(reg, "ABC");
    PlanOnce(reg, "DEFGHI");
    PlanMember(reg, "ABC");
    PlanMember(reg, "DEFGHI");
    Disjoined(PlanOf(reg, "ABC"), PlanOf(reg, "DEFGHI"));
  }

  // ---------- the two promises, for every registry and every run ----------

  /** No D to I checker starts before every A to C future has ended or been cancelled. */
  lemma {:induction false} NoProbeBeforeLocalChecks(reg: seq<Checker>, na: Checker -> bool, states: seq<State>,
                                                    steps: seq<Step>, i: nat, d: Checker)
    requires DistinctIds(reg) && IsRun(WorkOf(reg, na), states, steps) && i < |steps|
    requires steps[i].Start? && steps[i].c.group in "DEFGHI" && d in reg && d.group in "ABC" && !na(d)
    ensures d in states[i].tasks && Over(states[i].tasks[d])
  {
    var w, c := WorkOf(reg, na), steps[i].c;
    WorkSound(reg, na);
    PlanMember(reg, "ABC");
    PlanMember(reg, "DEFGHI");
    StageNames();
    InvAlways(w, states, steps, i);
    assert StepAt(w, states, steps, i);
    assert Seen(w, states[i], c);
    assert c in w.first || c in w.second;
    NoEarlyStart(w, states, steps, i, d);
  }

  lemma {:induction false} ResultsDistinct(reg: seq<Checker>, w: Work, s: State)
    requires DistinctIds(reg) && NoRepeats(s.reported) && (forall c :: c in s.reported ==> c in reg)
    requires |s.results| == |s.reported| && forall i :: 0 <= i < |s.reported| ==>
             s.results[i] == ResultOf(w, s.evaluated, s.reported[i])
    ensures NoRepeats(s.results)
  {
    forall i, j | 0 <= i < j < |s.results| ensures s.results[i] != s.results[j] {
      var a, b := s.reported[i], s.reported[j];
      assert a in reg && b in reg && a != b;
      var k :| 0 <= k < |reg| && reg[k] == a;
      var l :| 0 <= l < |reg| && reg[l] == b;
      assert a.id != b.id by { if k < l { assert reg[k].id != reg[l].id; } else { assert reg[l].id != reg[k].id; } }
    }
  }

  lemma {:induction false} ReportedIsDue(reg: seq<Checker>, w: Work, s: State, inTime: Checker -> bool, r: CheckResult)
    requires forall c :: c in s.reported <==> c in reg && c.group in ALL_GROUPS
    requires forall c :: inTime(c) <==> c in s.evaluated
    requires |s.results| == |s.reported| && forall i :: 0 <= i < |s.reported| ==>
             s.results[i] == ResultOf(w, s.evaluated, s.reported[i])
    ensures r in s.results <==> Due(reg, ALL_GROUPS, w.na, inTime, r)
  {
    if r in s.results {
      var i :| 0 <= i < |s.results| && s.results[i] == r;
      assert s.reported[i] in s.reported && r == Expected(s.reported[i], w.na, inTime);
    }
    if Due(reg, ALL_GROUPS, w.na, inTime, r) {
      var c :| c in reg && c.group in ALL_GROUPS && r == Expected(c, w.na, inTime);
      var i :| 0 <= i < |s.reported| && s.reported[i] == c;
      assert s.results[i] == r;
    }
  }

  /** In every run that has returned, the results are, up to order, the one expected result of every checker in groups A
      to I, where a checker was evaluated exactly when its task had finished by the time wait() returned. */
  lemma {:induction false} RunResults(reg: seq<Checker>, na: Checker -> bool, states: seq<State>, steps: seq<Step>,
                                      n: nat)
    requires DistinctIds(reg) && IsRun(WorkOf(reg, na), states, steps) && n < |states| && states[n].caller.Returned?
    ensures multiset(states[n].results) == Results(OfGroups(reg, ALL_GROUPS), na, c => c in states[n].evaluated)
  {
    var w, s := WorkOf(reg, na), states[n];
    var inTime: Checker -> bool := c => c in s.evaluated;
    WorkSound(reg, na);
    ReturnedResults(w, states, steps, n);
    ResultsDistinct(reg, w, s);
    forall r ensures multiset(s.results)[r] == Results(OfGroups(reg, ALL_GROUPS), na, inTime)[r] {
      CountOnce(s.results, r);
      ExactlyOneResult(reg, ALL_GROUPS, na, inTime, r);
      ReportedIsDue(reg, w, s, inTime, r);
    }
  }

  // ---------- it always comes back ----------

  lemma {:induction false} SomeoneWorks(w: Work, s: State, c: Checker) returns (e: Step)
    requires c in s.tasks && !Over(s.tasks[c])
    ensures Enabled(w, s, e)
  {
    if s.tasks[c] == Running {
      e := Finish(c);
    } else if |RunningTasks(s.tasks)| < WORKERS {
      e := Start(c);
    } else {
      assert RunningTasks(s.tasks) != {};
      var d :| d in RunningTasks(s.tasks);
      e := Finish(d);
    }
  }

  /** In every run, until the caller is back, someone can take a step. */
  lemma {:induction false} NeverStuck(w: Work, states: seq<State>, steps: seq<Step>, n: nat) returns (e: Step)
    requires Sound(w) && IsRun(w, states, steps) && n < |states| && !states[n].caller.Returned?
    ensures Enabled(w, states[n], e)
  {
    InvAlways(w, states, steps, n);
    var s := states[n];
    match s.caller
    case Submitting(next) => e := if next < |Plan(w, s.stage)| then Submit else Wait;
    case Waiting => e := WaitReturns;
    case Collecting(done) =>
      if done != {} {
        var c :| c in done;
        e := Report(c);
      } else if s.pending != {} {
        var c :| c in s.pending;
        e := TimeOut(c);
      } else {
        e := Leave;
      }
    case Closing =>
      if AllOver(s.tasks) {
        e := Close;
      } else {
        var c :| c in s.tasks && !Over(s.tasks[c]);
        e := SomeoneWorks(w, s, c);
      }
  }

  /** How far along the caller is; lower is further. */
  function Rank(s: State): nat
  {
    (if s.stage == 0 then 6 else 0)
    + match s.caller
      case Submitting(_) => 4
      case Waiting => 3
      case Collecting(_) => 2
      case Closing => 1
      case Returned => 0
  }

  /** The checkers of both stages still to be gone through. */
  function Ahead(w: Work, s: State): int
  {
    |Plan(w, s.stage)| - Passed(w, s) + if s.stage == 0 then |w.second| else 0
  }

  function ToReport(s: State): nat { |s.pending| + if s.caller.Collecting? then |s.caller.done| else 0 }

  /** What is left to do at most: every step takes some of it away. */
  function Left(w: Work, s: State): int
  {
    6 * Ahead(w, s) + Rank(s) + 2 * |InPhase(s.tasks, Queued)| + |RunningTasks(s.tasks)| + ToReport(s)
  }

  lemma {:induction false} WaitMoves(s: State)
    ensures var done := set c | c in s.pending && c in s.tasks && s.tasks[c] == Finished;
            |s.pending - done| + |done| == |s.pending|
  {
    var done := set c | c in s.pending && c in s.tasks && s.tasks[c] == Finished;
    assert s.pending == (s.pending - done) + done;
  }

  lemma {:induction false} LeftCaller(w: Work, s: State, e: Step)
    requires s.stage <= 1 && Enabled(w, s, e) && !e.Submit? && !IsWorker(e) && !e.TimeOut?
    ensures Left(w, Apply(w, s, e)) < Left(w, s)
  {
    WaitMoves(s);
  }

  lemma {:induction false} LeftDecreases(w: Work, s: State, e: Step)
    requires s.stage <= 1 && Enabled(w, s, e)
    ensures Left(w, Apply(w, s, e)) < Left(w, s)
  {
    if e.Submit? {
      assert Left(w, Apply(w, s, Submit)) < Left(w, s) by {
        var c := Plan(w, s.stage)[s.caller.next];
        PhaseCount(s.tasks, c, Queued, Queued);
        PhaseCount(s.tasks, c, Queued, Running);
      }
    } else if IsWorker(e) || e.TimeOut? {
      assert Left(w, Apply(w, s, e)) < Left(w, s) by {
        var p := if e.Start? then Running else if e.Finish? then Finished else Cancelled;
        PhaseCount(s.tasks, e.c, p, Queued);
        PhaseCount(s.tasks, e.c, p, Running);
      }
    } else {
      LeftCaller(w, s, e);
    }
  }

  lemma {:induction false} StepsSpent(w: Work, states: seq<State>, steps: seq<Step>, n: nat)
    requires Sound(w) && IsRun(w, states, steps) && n < |states|
    ensures n + Left(w, states[n]) <= 6 * (|w.first| + |w.second|) + 10
  {
    if n == 0 {
      assert InPhase(INITIAL.tasks, Queued) == {} && RunningTasks(INITIAL.tasks) == {};
    } else {
      assert StepAt(w, states, steps, n - 1);
      StepsSpent(w, states, steps, n - 1);
      InvAlways(w, states, steps, n - 1);
      LeftDecreases(w, states[n - 1], steps[n - 1]);
    }
  }

  /** No run goes on for ever: six steps a checker and ten more are enough. With NeverStuck, the caller always comes
      back, as long as the tasks that have started do end. */
  lemma {:induction false} RunsAreBounded(w: Work, states: seq<State>, steps: seq<Step>)
    requires Sound(w) && IsRun(w, states, steps)
    ensures |steps| <= 6 * (|w.first| + |w.second|) + 10
  {
    StepsSpent(w, states, steps, |steps|);
    InvAlways(w, states, steps, |steps|);
  }
}
