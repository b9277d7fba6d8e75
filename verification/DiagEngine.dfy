/** lib/netcheck/diag/engine.py: the two-stage diagnosis run and the one result of every checker. */
module DiagEngine {

  datatype Checker = Checker(id: string, group: char)

  datatype Kind = NotApplicable | Evaluated | TimedOut

  datatype CheckResult = CheckResult(id: string, group: char, kind: Kind)

  /** The one result a checker should have: not applicable, evaluated by the deadline, or timed out. */
  function Expected(c: Checker, na: Checker -> bool, inTime: Checker -> bool): CheckResult
  {
    CheckResult(c.id, c.group, if na(c) then NotApplicable else if inTime(c) then Evaluated else TimedOut)
  }

  /** The registry's checkers of the given groups, in registry order. */
  function OfGroups(reg: seq<Checker>, groups: set<char>): seq<Checker>
  {
    if reg == [] then []
    else
      var rest := OfGroups(reg[..|reg| - 1], groups);
      if reg[|reg| - 1].group in groups then rest + [reg[|reg| - 1]] else rest
  }

  function Results(cs: seq<Checker>, na: Checker -> bool, inTime: Checker -> bool): multiset<CheckResult>
  {
    if cs == [] then multiset{}
    else Results(cs[..|cs| - 1], na, inTime) + multiset{Expected(cs[|cs| - 1], na, inTime)}
  }

  lemma {:induction false} OneMore(cs: seq<Checker>, c: Checker, na: Checker -> bool, inTime: Checker -> bool)
    ensures Results(cs + [c], na, inTime) == Results(cs, na, inTime) + multiset{Expected(c, na, inTime)}
  {
    assert (cs + [c])[..|cs|] == cs;
  }

  ghost predicate DistinctIds(reg: seq<Checker>)
  {
    forall i, j :: 0 <= i < j < |reg| ==> reg[i].id != reg[j].id
  }

  /** The result is the expected one of some checker of the groups. */
  ghost predicate Due(reg: seq<Checker>, groups: set<char>, na: Checker -> bool, inTime: Checker -> bool,
                      r: CheckResult)
  {
    exists c :: c in reg && c.group in groups && r == Expected(c, na, inTime)
  }

  lemma {:induction false} DueOrLast(before: seq<Checker>, c: Checker, groups: set<char>, na: Checker -> bool,
                                     inTime: Checker -> bool, r: CheckResult)
    ensures Due(before + [c], groups, na, inTime, r) <==>
            Due(before, groups, na, inTime, r) || (c.group in groups && r == Expected(c, na, inTime))
  {
    assert c in before + [c] && forall d :: d in before ==> d in before + [c];
  }

  lemma {:induction false} NotDueTwice(before: seq<Checker>, c: Checker, groups: set<char>, na: Checker -> bool,
                                       inTime: Checker -> bool)
    requires DistinctIds(before + [c])
    ensures DistinctIds(before) && !Due(before, groups, na, inTime, Expected(c, na, inTime))
  {
    assert forall i :: 0 <= i < |before| ==> (before + [c])[i] == before[i];
    assert (before + [c])[|before|] == c;
  }

  /** Exactly one result for each checker of the groups, none twice and none besides. */
  lemma {:induction false} ExactlyOneResult(reg: seq<Checker>, groups: set<char>, na: Checker -> bool,
                                            inTime: Checker -> bool, r: CheckResult)
    requires DistinctIds(reg)
    ensures Results(OfGroups(reg, groups), na, inTime)[r] == if Due(reg, groups, na, inTime, r) then 1 else 0
  {
    if reg != [] {
      var before, c := reg[..|reg| - 1], reg[|reg| - 1];
      assert reg == before + [c];
      NotDueTwice(before, c, groups, na, inTime);
      ExactlyOneResult(before, groups, na, inTime, r);
      OneMore(OfGroups(before, groups), c, na, inTime);
      DueOrLast(before, c, groups, na, inTime, r);
    }
  }

  function Where(cs: seq<Checker>, keep: Checker -> bool): seq<Checker>
  {
    if cs == [] then []
    else
      var rest := Where(cs[..|cs| - 1], keep);
      if keep(cs[|cs| - 1]) then rest + [cs[|cs| - 1]] else rest
  }

  lemma {:induction false} ResultsSplit(cs: seq<Checker>, keep: Checker -> bool, na: Checker -> bool,
                                        inTime: Checker -> bool)
    ensures Results(Where(cs, keep), na, inTime) + Results(Where(cs, c => !keep(c)), na, inTime)
            == Results(cs, na, inTime)
  {
    if cs != [] {
      var before, c := cs[..|cs| - 1], cs[|cs| - 1];
      ResultsSplit(before, keep, na, inTime);
      OneMore(Where(before, keep), c, na, inTime);
      OneMore(Where(before, c => !keep(c)), c, na, inTime);
    }
  }

  lemma {:induction false} WhereHolds(cs: seq<Checker>, keep: Checker -> bool)
    ensures forall c :: c in Where(cs, keep) <==> c in cs && keep(c)
  {
    if cs != [] {
      WhereHolds(cs[..|cs| - 1], keep);
      assert cs == cs[..|cs| - 1] + [cs[|cs| - 1]];
    }
  }

  /** What has been reported, with what the submitted checkers still owe, comes to `total`. */
  ghost predicate Balanced(results: seq<CheckResult>, futs: seq<Checker>, na: Checker -> bool, inTime: Checker -> bool,
                           total: multiset<CheckResult>)
  {
    && (forall c :: c in futs ==> !na(c))
    && multiset(results) + Results(futs, na, inTime) == total
  }

  lemma {:induction false} ReportOne(results: seq<CheckResult>, futs: seq<Checker>, c: Checker, na: Checker -> bool,
                                     inTime: Checker -> bool,
                  total: multiset<CheckResult>)
    requires Balanced(results, futs, na, inTime, total)
    ensures na(c) ==>
            Balanced(results + [Expected(c, na, inTime)], futs, na, inTime, total + multiset{Expected(c, na, inTime)})
    ensures !na(c) ==> Balanced(results, futs + [c], na, inTime, total + multiset{Expected(c, na, inTime)})
  {
    OneMore(futs, c, na, inTime);
    assert multiset(results + [Expected(c, na, inTime)]) == multiset(results) + multiset{Expected(c, na, inTime)};
  }

  lemma {:induction false} Reassociate<T>(a: multiset<T>, b: multiset<T>, c: multiset<T>)
    ensures a + b + c == a + (b + c)
  {
  }

  /** One group of a stage: not applicable checkers are reported, the others submitted. */
  method SubmitGroup(reg: seq<Checker>, g: char, na: Checker -> bool, ghost inTime: Checker -> bool,
                     results0: seq<CheckResult>, futs0: seq<Checker>, ghost total: multiset<CheckResult>)
    returns (results: seq<CheckResult>, futs: seq<Checker>)
    requires Balanced(results0, futs0, na, inTime, total)
    ensures Balanced(results, futs, na, inTime, total + Results(OfGroups(reg, {g}), na, inTime))
  {
    results, futs := results0, futs0;
    for i := 0 to |reg|
      invariant Balanced(results, futs, na, inTime, total + Results(OfGroups(reg[..i], {g}), na, inTime))
    {
      var c := reg[i];
      assert reg[..i + 1][..i] == reg[..i];
      if c.group != g {
        continue;
      }
      ReportOne(results, futs, c, na, inTime, total + Results(OfGroups(reg[..i], {g}), na, inTime));
      OneMore(OfGroups(reg[..i], {g}), c, na, inTime);
      Reassociate(total, Results(OfGroups(reg[..i], {g}), na, inTime), multiset{Expected(c, na, inTime)});
      if na(c) {
        results := results + [CheckResult(c.id, c.group, NotApplicable)];
        continue;
      }
      futs := futs + [c];
    }
    assert reg[..|reg|] == reg;
  }

  /** One result for each of the futures, finished or timed out. */
  method Report(cs: seq<Checker>, kind: Kind, ghost na: Checker -> bool, ghost inTime: Checker -> bool,
                results0: seq<CheckResult>)
    returns (results: seq<CheckResult>)
    requires forall c :: c in cs ==> Expected(c, na, inTime).kind == kind
    ensures multiset(results) == multiset(results0) + Results(cs, na, inTime)
  {
    results := results0;
    for i := 0 to |cs|
      invariant multiset(results) == multiset(results0) + Results(cs[..i], na, inTime)
    {
      assert cs[..i + 1] == cs[..i] + [cs[i]] && cs[i] in cs;
      OneMore(cs[..i], cs[i], na, inTime);
      assert Expected(cs[i], na, inTime) == CheckResult(cs[i].id, cs[i].group, kind);
      Reassociate(multiset(results0), Results(cs[..i], na, inTime), multiset{Expected(cs[i], na, inTime)});
      results := results + [CheckResult(cs[i].id, cs[i].group, kind)];
    }
    assert cs[..|cs|] == cs;
  }

  /** Waiting for the stage's futures: those done by the deadline are evaluated, the rest time out. */
  method Collect(futs: seq<Checker>, ghost na: Checker -> bool, inTime: Checker -> bool, results0: seq<CheckResult>,
                 ghost total: multiset<CheckResult>)
    returns (results: seq<CheckResult>)
    requires Balanced(results0, futs, na, inTime, total)
    ensures multiset(results) == total
  {
    results := results0;
    var pending := futs;
    while pending != []
      invariant Balanced(results, pending, na, inTime, total)
      decreases |pending|
    {
      var done, rest := Where(pending, inTime), Where(pending, c => !inTime(c));
      ResultsSplit(pending, inTime, na, inTime);
      WhereHolds(pending, inTime);
      WhereHolds(pending, c => !inTime(c));
      results := Report(done, Evaluated, na, inTime, results);
      if rest != [] {
        results := Report(rest, TimedOut, na, inTime, results);
      }
      pending := [];
    }
  }

  /** Going group by group gives the same results as going through the registry once. */
  lemma {:induction false} ResultsOfBoth(reg: seq<Checker>, a: set<char>, b: set<char>, na: Checker -> bool,
                                         inTime: Checker -> bool)
    requires a !! b
    ensures Results(OfGroups(reg, a + b), na, inTime)
            == Results(OfGroups(reg, a), na, inTime) + Results(OfGroups(reg, b), na, inTime)
  {
    if reg != [] {
      var before, c := reg[..|reg| - 1], reg[|reg| - 1];
      ResultsOfBoth(before, a, b, na, inTime);
      OneMore(OfGroups(before, a + b), c, na, inTime);
      OneMore(OfGroups(before, a), c, na, inTime);
      OneMore(OfGroups(before, b), c, na, inTime);
    }
  }

  ghost function GroupSet(groups: string): set<char> { set g | g in groups }

  lemma {:induction false} NextGroup(reg: seq<Checker>, groups: string, i: nat, na: Checker -> bool,
                                     inTime: Checker -> bool, base: multiset<CheckResult>)
    requires i < |groups| && forall a, b :: 0 <= a < b < |groups| ==> groups[a] != groups[b]
    ensures GroupSet(groups[..i + 1]) == GroupSet(groups[..i]) + {groups[i]}
    ensures base + Results(OfGroups(reg, GroupSet(groups[..i])), na, inTime)
            + Results(OfGroups(reg, {groups[i]}), na, inTime)
         == base + Results(OfGroups(reg, GroupSet(groups[..i + 1])), na, inTime)
  {
    assert groups[..i + 1] == groups[..i] + [groups[i]];
    assert GroupSet(groups[..i + 1]) == GroupSet(groups[..i]) + {groups[i]};
    ResultsOfBoth(reg, GroupSet(groups[..i]), {groups[i]}, na, inTime);
  }

  lemma {:induction false} EmptyGroups(reg: seq<Checker>)
    ensures OfGroups(reg, GroupSet("")) == []
  {
    if reg != [] {
      EmptyGroups(reg[..|reg| - 1]);
    }
  }

  /** One stage: submit its groups and collect the results. */
  method RunStage(reg: seq<Checker>, groups: string, na: Checker -> bool, inTime: Checker -> bool,
                  results0: seq<CheckResult>)
    returns (results: seq<CheckResult>)
    requires forall i, j :: 0 <= i < j < |groups| ==> groups[i] != groups[j]
    ensures multiset(results) == multiset(results0) + Results(OfGroups(reg, GroupSet(groups)), na, inTime)
  {
    results := results0;
    var futs: seq<Checker> := [];
    EmptyGroups(reg);
    for i := 0 to |groups|
      invariant Balanced(results, futs, na, inTime,
                         multiset(results0) + Results(OfGroups(reg, GroupSet(groups[..i])), na, inTime))
    {
      ghost var total := multiset(results0) + Results(OfGroups(reg, GroupSet(groups[..i])), na, inTime);
      results, futs := SubmitGroup(reg, groups[i], na, inTime, results, futs, total);
      NextGroup(reg, groups, i, na, inTime, multiset(results0));
    }
    assert groups[..|groups|] == groups;
    if futs != [] {
      results := Collect(futs, na, inTime, results,
                         multiset(results0) + Results(OfGroups(reg, GroupSet(groups)), na, inTime));
    }
  }

  const ALL_GROUPS := {'A', 'B', 'C', 'D', 'E', 'F', 'G', 'H', 'I'}

  lemma {:induction false} StageGroups()
    ensures GroupSet("ABC") == {'A', 'B', 'C'} && GroupSet("DEFGHI") == {'D', 'E', 'F', 'G', 'H', 'I'}
    ensures GroupSet("ABC") + GroupSet("DEFGHI") == ALL_GROUPS && GroupSet("ABC") !! GroupSet("DEFGHI")
  {
  }

  /** run_diag: local checks first, then external probing. `inTime` says which futures finish before their stage's
      deadline. The results are, up to order, the one expected result of every checker in groups A to I. */
  method RunDiag(reg: seq<Checker>, na: Checker -> bool, inTime: Checker -> bool)
    returns (results: seq<CheckResult>)
    ensures multiset(results) == Results(OfGroups(reg, ALL_GROUPS), na, inTime)
  {
    results := RunStage(reg, "ABC", na, inTime, []);
    results := RunStage(reg, "DEFGHI", na, inTime, results);
    StageGroups();
    assert ALL_GROUPS == GroupSet("ABC") + GroupSet("DEFGHI");
    ResultsOfBoth(reg, GroupSet("ABC"), GroupSet("DEFGHI"), na, inTime);
  }
}
