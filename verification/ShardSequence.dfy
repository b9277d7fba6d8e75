/** lib/netcheck/diag/history.py: diagnosis reports in one JSON shard a day, pruned to the newest `keep`. */
module ShardSequence {
  import opened PythonBasics
  import opened JsonValue

  /** A report: its job id, and the other members of its object. */
  datatype Report = Report(jobId: Option<string>, fields: map<string, Json>)

  /** A shard is named by its date; the order of the file names is the order of the dates, so a day number stands for
      the name. */
  datatype Shard = Shard(day: int, items: seq<Report>)

  /** The directory, in file-name order. */
  type Dir = seq<Shard>

  ghost predicate Ordered(dir: Dir) { forall i, j :: 0 <= i < j < |dir| ==> dir[i].day < dir[j].day }

  ghost predicate NoEmptyShard(dir: Dir) { forall i :: 0 <= i < |dir| ==> dir[i].items != [] }

  function AllTo(dir: Dir, n: nat): seq<Report>
    requires n <= |dir|
  {
    if n == 0 then [] else AllTo(dir, n - 1) + dir[n - 1].items
  }

  /** Every report, oldest shard first: the one sequence the shards stand for. */
  function All(dir: Dir): seq<Report> { AllTo(dir, |dir|) }

  lemma {:induction false} AllToPrefix(a: Dir, b: Dir, n: nat)
    requires n <= |a|
    ensures AllTo(a + b, n) == AllTo(a, n)
  {
    if n > 0 {
      AllToPrefix(a, b, n - 1);
    }
  }

  lemma {:induction false} Regroup<T>(a: seq<T>, b: seq<T>, c: seq<T>)
    ensures a + (b + c) + [] == a + b + [] + c && a + (b + c) == a + b + c
  {
  }

  lemma {:induction false} AllToConcat(a: Dir, b: Dir, n: nat)
    requires n <= |b|
    ensures AllTo(a + b, |a| + n) == AllTo(a, |a|) + AllTo(b, n)
  {
    if n == 0 {
      AllToPrefix(a, b, |a|);
    } else {
      AllToConcat(a, b, n - 1);
      assert (a + b)[|a| + n - 1] == b[n - 1];
      Regroup(AllTo(a, |a|), AllTo(b, n - 1), b[n - 1].items);
    }
  }

  lemma {:induction false} AllConcat(a: Dir, b: Dir)
    ensures All(a + b) == All(a) + All(b)
  {
    AllToConcat(a, b, |b|);
  }

  lemma {:induction false} AllThree(a: Dir, s: Shard, b: Dir)
    ensures All(a + [s] + b) == All(a) + s.items + All(b)
  {
    AllConcat(a + [s], b);
    AllConcat(a, [s]);
    assert AllTo([s], 0) + s.items == s.items;
    assert All([s]) == AllTo([s], 1);
  }

  // ---------- reading and replacing one file ----------

  /** How many files come before the day, the first i known to. */
  function BelowFrom(dir: Dir, day: int, i: nat): (k: nat)
    requires i <= |dir|
    ensures i <= k <= |dir|
    ensures forall j :: i <= j < k ==> dir[j].day < day
    ensures k < |dir| ==> dir[k].day >= day
    decreases |dir| - i
  {
    if i == |dir| || dir[i].day >= day then i else BelowFrom(dir, day, i + 1)
  }

  function Below(dir: Dir, day: int): (k: nat) { BelowFrom(dir, day, 0) }

  predicate Exists(dir: Dir, day: int) { Below(dir, day) < |dir| && dir[Below(dir, day)].day == day }

  function Older(dir: Dir, day: int): Dir { dir[..Below(dir, day)] }

  function Newer(dir: Dir, day: int): Dir { dir[Below(dir, day) + (if Exists(dir, day) then 1 else 0)..] }

  function ReadShard(dir: Dir, day: int): seq<Report>
  {
    if Exists(dir, day) then dir[Below(dir, day)].items else []
  }

  function WriteShard(dir: Dir, day: int, items: seq<Report>): Dir
  {
    Older(dir, day) + [Shard(day, items)] + Newer(dir, day)
  }

  function Unlink(dir: Dir, day: int): Dir { Older(dir, day) + Newer(dir, day) }

  function Kept(dir: Dir, day: int, items: seq<Report>): Dir
  {
    if items != [] then WriteShard(dir, day, items) else Unlink(dir, day)
  }

  lemma {:induction false} AllSplit(dir: Dir, k: nat)
    requires k < |dir|
    ensures All(dir) == All(dir[..k]) + dir[k].items + All(dir[k + 1..])
  {
    assert dir == dir[..k] + [dir[k]] + dir[k + 1..];
    AllThree(dir[..k], dir[k], dir[k + 1..]);
  }

  lemma {:induction false} AllAround(dir: Dir, day: int)
    ensures All(dir) == All(Older(dir, day)) + ReadShard(dir, day) + All(Newer(dir, day))
  {
    var k := Below(dir, day);
    if Exists(dir, day) {
      AllSplit(dir, k);
    } else {
      assert dir == dir[..k] + dir[k..];
      AllConcat(dir[..k], dir[k..]);
    }
  }

  lemma {:induction false} WriteKeepsOrder(dir: Dir, day: int, items: seq<Report>)
    requires Ordered(dir) && NoEmptyShard(dir) && items != []
    ensures Ordered(WriteShard(dir, day, items)) && NoEmptyShard(WriteShard(dir, day, items))
  {
  }

  /** The newest file's day, or `otherwise` for an empty directory. */
  function LastDay(dir: Dir, otherwise: int): int { if dir == [] then otherwise else dir[|dir| - 1].day }

  lemma {:induction false} WriteIsLast(dir: Dir, day: int, items: seq<Report>)
    requires Ordered(dir) && items != []
    ensures var after := WriteShard(dir, day, items);
            && All(after) != [] && after != []
            && LastDay(after, day) == if LastDay(dir, day) > day then LastDay(dir, day) else day
  {
    AllThree(Older(dir, day), Shard(day, items), Newer(dir, day));
  }

  lemma {:induction false} UnlinkKeepsOrder(dir: Dir, day: int)
    requires Ordered(dir) && NoEmptyShard(dir)
    ensures Ordered(Unlink(dir, day)) && NoEmptyShard(Unlink(dir, day))
  {
  }

  /** Files are found by name: the one at an index is the one its day names. */
  lemma {:induction false} BelowIndex(dir: Dir, i: nat)
    requires Ordered(dir) && i < |dir|
    ensures Below(dir, dir[i].day) == i && Exists(dir, dir[i].day)
    ensures forall items :: WriteShard(dir, dir[i].day, items) == dir[..i] + [Shard(dir[i].day, items)] + dir[i + 1..]
    ensures Unlink(dir, dir[i].day) == dir[..i] + dir[i + 1..]
  {
    var k := Below(dir, dir[i].day);
    assert k <= i;
  }

  // ---------- what append does to the sequence ----------

  function LastN<T>(s: seq<T>, n: nat): seq<T> { if |s| <= n then s else s[|s| - n..] }

  /** The newest file is the day's, unless a newer one was there already. */
  ghost predicate NewestIs(before: Dir, after: Dir, day: int)
  {
    after != [] && LastDay(after, day) == if LastDay(before, day) > day then LastDay(before, day) else day
  }

  /** What one append leaves: the newest `keep` of the directory with the report added to its day's shard. */
  ghost predicate Appends(before: Dir, after: Dir, r: Report, day: int, keep: nat)
  {
    && All(after) == LastN(All(WriteShard(before, day, ReadShard(before, day) + [r])), keep)
    && NewestIs(before, after, day)
  }

  /** While the clock never goes back, the stored sequence after an append is the newest `keep` of the old sequence
      and the new report, which always survives. */
  lemma {:induction false} AppendIsBoundedQueue(dir: Dir, after: Dir, r: Report, day: int, keep: nat)
    requires keep >= 1 && Ordered(dir) && LastDay(dir, day) <= day && Appends(dir, after, r, day, keep)
    ensures All(after) == LastN(All(dir) + [r], keep)
    ensures All(after) != [] && All(after)[|All(after)| - 1] == r
  {
    assert Newer(dir, day) == [] by {
      if Below(dir, day) < |dir| - 1 {
        assert false;
      }
    }
    AllAround(dir, day);
    AllThree(Older(dir, day), Shard(day, ReadShard(dir, day) + [r]), Newer(dir, day));
    Regroup(All(Older(dir, day)), ReadShard(dir, day), [r]);
    assert (var kept := LastN(All(dir) + [r], keep); kept != [] && kept[|kept| - 1] == r);
  }

  /** A run of appends from an empty directory, one report and its day at a time. */
  ghost predicate AppendRun(dirs: seq<Dir>, rs: seq<Report>, days: seq<int>, keep: nat)
  {
    && |days| == |rs| && |dirs| == |rs| + 1 && dirs[0] == []
    && forall i :: 0 <= i < |rs| ==> Ordered(dirs[i]) && Appends(dirs[i], dirs[i + 1], rs[i], days[i], keep)
  }

  /** While the days never go back, each append finds no file newer than its day. */
  lemma {:induction false} DaysFollow(dirs: seq<Dir>, days: seq<int>, i: nat)
    requires |dirs| == |days| + 1 && dirs[0] == [] && i < |days|
    requires forall k :: 0 <= k < |days| ==> NewestIs(dirs[k], dirs[k + 1], days[k])
    requires forall k, l :: 0 <= k < l < |days| ==> days[k] <= days[l]
    ensures LastDay(dirs[i], days[i]) <= days[i] && LastDay(dirs[i + 1], 0) == days[i]
  {
    assert NewestIs(dirs[i], dirs[i + 1], days[i]);
    if i > 0 {
      DaysFollow(dirs, days, i - 1);
      assert NewestIs(dirs[i - 1], dirs[i - 1 + 1], days[i - 1]) && days[i - 1] <= days[i];
    }
  }

  lemma {:induction false} LastOfLast<T>(s: seq<T>, r: T, keep: nat)
    requires keep >= 1
    ensures LastN(LastN(s, keep) + [r], keep) == LastN(s + [r], keep)
  {
  }

  /** A list that takes in one element at a time and keeps the last `keep` holds the last `keep` of all of them. */
  lemma {:induction false} QueueRun<T>(contents: seq<seq<T>>, rs: seq<T>, keep: nat, n: nat)
    requires keep >= 1 && |contents| == |rs| + 1 && contents[0] == [] && n <= |rs|
    requires forall i :: 0 <= i < |rs| ==> contents[i + 1] == LastN(contents[i] + [rs[i]], keep)
    ensures contents[n] == LastN(rs[..n], keep)
  {
    if n > 0 {
      QueueRun(contents, rs, keep, n - 1);
      assert contents[n - 1 + 1] == LastN(contents[n - 1] + [rs[n - 1]], keep);
      LastOfLast(rs[..n - 1], rs[n - 1], keep);
      assert rs[..n] == rs[..n - 1] + [rs[n - 1]];
    }
  }

  lemma {:induction false} RunStep(dirs: seq<Dir>, rs: seq<Report>, days: seq<int>, keep: nat, i: nat)
    requires keep >= 1 && AppendRun(dirs, rs, days, keep) && i < |rs|
    requires forall i, j :: 0 <= i < j < |days| ==> days[i] <= days[j]
    ensures All(dirs[i + 1]) == LastN(All(dirs[i]) + [rs[i]], keep) && LastDay(dirs[i + 1], 0) == days[i]
  {
    DaysFollow(dirs, days, i);
    AppendIsBoundedQueue(dirs[i], dirs[i + 1], rs[i], days[i], keep);
  }

  /** Over every run whose clock never goes back, the shards hold exactly the newest `keep` reports ever appended, in
      order. */
  lemma {:induction false} RunIsBoundedQueue(dirs: seq<Dir>, rs: seq<Report>, days: seq<int>, keep: nat)
    requires keep >= 1 && AppendRun(dirs, rs, days, keep)
    requires forall i, j :: 0 <= i < j < |days| ==> days[i] <= days[j]
    ensures All(dirs[|rs|]) == LastN(rs, keep)
    ensures rs != [] ==> LastDay(dirs[|rs|], 0) == days[|rs| - 1]
  {
    forall i | 0 <= i < |rs|
      ensures All(dirs[i + 1]) == LastN(All(dirs[i]) + [rs[i]], keep) && LastDay(dirs[i + 1], 0) == days[i]
    {
      RunStep(dirs, rs, days, keep, i);
    }
    assert All(dirs[|rs|]) == LastN(rs, keep) by {
      var contents := seq(|dirs|, i requires 0 <= i < |dirs| => All(dirs[i]));
      QueueRun(contents, rs, keep, |rs|);
      assert rs[..|rs|] == rs;
    }
  }

  lemma {:induction false} SurvivesIff<T>(front: seq<T>, r: T, back: seq<T>, keep: nat)
    requires keep >= 1 && r !in front + back
    ensures r in LastN(front + [r] + back, keep) <==> |back| < keep
  {
    var all, kept := front + [r] + back, LastN(front + [r] + back, keep);
    assert forall x :: x in back ==> x in front + back;
    if |back| < keep {
      assert kept[|kept| - |back| - 1] == r;
    } else {
      assert kept == back[|back| - keep..];
    }
  }

  /** Whatever the clock did, the new report is filed after the older shards and before the newer ones, and it
      survives its own append exactly when the newer shards hold fewer than `keep` reports. */
  lemma {:induction false} AppendedSurvivesIff(dir: Dir, after: Dir, r: Report, day: int, keep: nat)
    requires keep >= 1 && r !in All(dir) && Appends(dir, after, r, day, keep)
    ensures r in All(after) <==> |All(Newer(dir, day))| < keep
  {
    AllAround(dir, day);
    AllThree(Older(dir, day), Shard(day, ReadShard(dir, day) + [r]), Newer(dir, day));
    SurvivesIff(All(Older(dir, day)) + ReadShard(dir, day), r, All(Newer(dir, day)), keep);
    assert All(Older(dir, day)) + (ReadShard(dir, day) + [r]) == All(Older(dir, day)) + ReadShard(dir, day) + [r];
  }

  // ---------- deleting ----------

  /** [item for item in items if item's job id is not id] */
  function Without(s: seq<Report>, id: string): (r: seq<Report>)
    ensures |r| <= |s|
  {
    if s == [] then []
    else
      var rest := Without(s[..|s| - 1], id);
      if s[|s| - 1].jobId == Some(id) then rest else rest + [s[|s| - 1]]
  }

  ghost predicate Holds(s: seq<Report>, id: string) { exists r :: r in s && r.jobId == Some(id) }

  lemma {:induction false} WithoutLength(s: seq<Report>, id: string)
    ensures |Without(s, id)| == |s| <==> !Holds(s, id)
    ensures !Holds(s, id) ==> Without(s, id) == s
    ensures forall r :: r in Without(s, id) <==> r in s && r.jobId != Some(id)
  {
    if s != [] {
      WithoutLength(s[..|s| - 1], id);
      assert forall r :: r in s <==> r in s[..|s| - 1] || r == s[|s| - 1] by {
        assert s == s[..|s| - 1] + [s[|s| - 1]];
      }
    }
  }

  lemma {:induction false} WithoutConcat(a: seq<Report>, b: seq<Report>, id: string)
    ensures Without(a + b, id) == Without(a, id) + Without(b, id)
  {
    if b == [] {
      assert a + b == a;
    } else {
      assert (a + b)[..|a + b| - 1] == a + b[..|b| - 1];
      WithoutConcat(a, b[..|b| - 1], id);
    }
  }

  lemma {:induction false} NotHeldTo(dir: Dir, id: string, n: nat)
    requires n <= |dir| && forall i :: 0 <= i < n ==> !Holds(dir[i].items, id)
    ensures !Holds(AllTo(dir, n), id)
  {
    if n > 0 {
      NotHeldTo(dir, id, n - 1);
      assert !Holds(dir[n - 1].items, id);
    }
  }

  lemma {:induction false} NotHeldInAll(dir: Dir, id: string)
    requires forall i :: 0 <= i < |dir| ==> !Holds(dir[i].items, id)
    ensures !Holds(All(dir), id)
  {
    NotHeldTo(dir, id, |dir|);
  }

  /** What delete leaves when shard i is the first that holds the id: that shard without it, and no empty file. */
  ghost predicate DeletedAt(dir: Dir, after: Dir, id: string, i: nat)
  {
    && i < |dir| && Holds(dir[i].items, id)
    && (forall k :: 0 <= k < i ==> !Holds(dir[k].items, id))
    && after == dir[..i]
       + (if Without(dir[i].items, id) == [] then [] else [Shard(dir[i].day, Without(dir[i].items, id))]) + dir[i + 1..]
  }

  lemma {:induction false} RemainingSequence(a: Dir, s: Shard, b: Dir)
    ensures All(a + (if s.items == [] then [] else [s]) + b) == All(a) + s.items + All(b)
  {
    AllThree(a, s, b);
    AllConcat(a, b);
    assert a + [] == a;
  }

  lemma {:induction false} DeletedSequence(dir: Dir, after: Dir, id: string, i: nat)
    requires DeletedAt(dir, after, id, i)
    ensures All(after) == All(dir[..i]) + Without(dir[i].items, id) + All(dir[i + 1..])
    ensures All(dir) == All(dir[..i]) + dir[i].items + All(dir[i + 1..])
    ensures Without(All(dir), id) == All(dir[..i]) + Without(dir[i].items, id) + Without(All(dir[i + 1..]), id)
  {
    var older, shard, newer := dir[..i], dir[i], dir[i + 1..];
    var kept := Without(shard.items, id);
    assert dir == older + [shard] + newer;
    AllThree(older, shard, newer);
    RemainingSequence(older, Shard(shard.day, kept), newer);
    NotHeldInAll(older, id);
    WithoutLength(All(older), id);
    WithoutConcat(All(older) + shard.items, All(newer), id);
    WithoutConcat(All(older), shard.items, id);
  }

  /** Writing or unlinking the first shard that holds the id is that delete. */
  lemma {:induction false} DeleteStep(dir: Dir, id: string, i: nat)
    requires Ordered(dir) && NoEmptyShard(dir) && i < |dir| && Holds(dir[i].items, id)
    requires forall k :: 0 <= k < i ==> !Holds(dir[k].items, id)
    ensures var kept, day := Without(dir[i].items, id), dir[i].day;
            var after := Kept(dir, day, kept);
            DeletedAt(dir, after, id, i) && Ordered(after) && NoEmptyShard(after)
    ensures Holds(All(dir), id)
  {
    var kept, day := Without(dir[i].items, id), dir[i].day;
    BelowIndex(dir, i);
    if kept != [] {
      WriteKeepsOrder(dir, day, kept);
    } else {
      UnlinkKeepsOrder(dir, day);
    }
    assert dir == dir[..i] + [dir[i]] + dir[i + 1..];
    AllThree(dir[..i], dir[i], dir[i + 1..]);
  }

  /** What dropping reports from the oldest shard leaves: the rest of the sequence, and no empty file. */
  ghost predicate Dropped(dir: Dir, after: Dir, drop: nat)
  {
    && dir != [] && drop <= |dir[0].items|
    && Ordered(after) && NoEmptyShard(after) && |All(dir)| >= drop && All(after) == All(dir)[drop..]
    && (drop == |dir[0].items| ==> after == dir[1..])
    && (after != [] ==> LastDay(after, 0) == LastDay(dir, 0))
  }

  lemma {:induction false} PrunedSequence(dir: Dir, drop: nat)
    requires dir != [] && drop <= |dir[0].items|
    ensures var left := Shard(dir[0].day, dir[0].items[drop..]);
            && |All(dir)| >= drop
            && All([] + (if left.items == [] then [] else [left]) + dir[1..]) == All(dir)[drop..]
  {
    var left := Shard(dir[0].day, dir[0].items[drop..]);
    assert dir == [] + [dir[0]] + dir[1..];
    AllThree([], dir[0], dir[1..]);
    RemainingSequence([], left, dir[1..]);
    assert ([] + (dir[0].items) + All(dir[1..]))[drop..] == [] + (dir[0].items)[drop..] + All(dir[1..]);
  }

  lemma {:induction false} PruneStep(dir: Dir, drop: nat)
    requires Ordered(dir) && NoEmptyShard(dir) && dir != [] && 0 < drop <= |dir[0].items|
    ensures Dropped(dir, Kept(dir, dir[0].day, dir[0].items[drop..]), drop)
  {
    var items, day := dir[0].items[drop..], dir[0].day;
    BelowIndex(dir, 0);
    if items != [] {
      WriteKeepsOrder(dir, day, items);
    } else {
      UnlinkKeepsOrder(dir, day);
    }
    PrunedSequence(dir, drop);
    assert dir[..0] == [] && dir[0 + 1..] == dir[1..];
  }

  /** A delete removes the id from the whole sequence exactly when no later shard holds it too. */
  lemma {:induction false} DeleteRemovesIff(dir: Dir, after: Dir, id: string, i: nat)
    requires DeletedAt(dir, after, id, i)
    ensures All(after) == Without(All(dir), id) <==> !Holds(All(dir[i + 1..]), id)
  {
    DeletedSequence(dir, after, id, i);
    WithoutLength(All(dir[i + 1..]), id);
  }

  ghost predicate DistinctIds(s: seq<Report>)
  {
    forall i, j :: 0 <= i < j < |s| && s[i].jobId.Some? ==> s[i].jobId != s[j].jobId
  }

  lemma {:induction false} HeldOnce(a: seq<Report>, b: seq<Report>, c: seq<Report>, id: string)
    requires DistinctIds(a + b + c) && Holds(b, id)
    ensures !Holds(c, id)
  {
    var r :| r in b && r.jobId == Some(id);
    var i :| 0 <= i < |b| && b[i] == r;
    var all := a + b + c;
    assert all[|a| + i] == r;
    forall x | x in c ensures x.jobId != Some(id) {
      var j :| 0 <= j < |c| && c[j] == x;
      assert all[|a| + |b| + j] == x;
    }
  }

  /** With distinct job ids it always does, and the id is then gone. */
  lemma {:induction false} DeleteWithDistinctIds(dir: Dir, after: Dir, id: string, i: nat)
    requires DistinctIds(All(dir)) && DeletedAt(dir, after, id, i)
    ensures All(after) == Without(All(dir), id) && !Holds(All(after), id)
  {
    DeletedSequence(dir, after, id, i);
    HeldOnce(All(dir[..i]), dir[i].items, All(dir[i + 1..]), id);
    DeleteRemovesIff(dir, after, id, i);
    WithoutLength(All(dir), id);
  }

  // ---------- runs that mix the operations ----------

  datatype Op = Append(r: Report, day: int) | Delete(id: string) | Clear

  /** What one operation leaves in the directory. */
  ghost predicate OpDone(before: Dir, after: Dir, op: Op, keep: nat)
  {
    match op
    case Append(r, day) => Appends(before, after, r, day, keep)
    case Delete(id) =>
      if id != "" && Holds(All(before), id) then exists i: nat :: DeletedAt(before, after, id, i) else after == before
    case Clear => after == []
  }

  /** What it does to the one sequence. */
  function QueueOp(s: seq<Report>, op: Op, keep: nat): seq<Report>
  {
    match op
    case Append(r, _) => LastN(s + [r], keep)
    case Delete(id) => if id == "" then s else Without(s, id)
    case Clear => []
  }

  ghost function QueueAfter(ops: seq<Op>, keep: nat): seq<Report>
  {
    if ops == [] then [] else QueueOp(QueueAfter(ops[..|ops| - 1], keep), ops[|ops| - 1], keep)
  }

  ghost predicate OpRun(dirs: seq<Dir>, ops: seq<Op>, keep: nat)
  {
    && |dirs| == |ops| + 1 && dirs[0] == []
    && forall i :: 0 <= i < |ops| ==> Ordered(dirs[i]) && OpDone(dirs[i], dirs[i + 1], ops[i], keep)
  }

  /** The clock never goes back from append to append, and no job id is appended twice. */
  ghost predicate OpsInOrder(ops: seq<Op>)
  {
    forall i, j :: 0 <= i < j < |ops| && ops[i].Append? && ops[j].Append? ==>
      ops[i].day <= ops[j].day && (ops[i].r.jobId.Some? ==> ops[i].r.jobId != ops[j].r.jobId)
  }

  /** Everything stored was appended, no id twice, and no shard is newer than some append. */
  ghost predicate Appended(dir: Dir, ops: seq<Op>)
  {
    && DistinctIds(All(dir))
    && (forall r :: r in All(dir) ==> exists i :: 0 <= i < |ops| && ops[i].Append? && ops[i].r == r)
    && (dir == [] || exists i :: 0 <= i < |ops| && ops[i].Append? && LastDay(dir, 0) <= ops[i].day)
  }

  lemma {:induction false} WithoutDistinct(s: seq<Report>, id: string)
    requires DistinctIds(s)
    ensures DistinctIds(Without(s, id)) && forall r :: r in Without(s, id) ==> r in s
  {
    if s != [] {
      var n := |s| - 1;
      WithoutDistinct(s[..n], id);
      var rest := Without(s[..n], id);
      forall i | 0 <= i < |rest| && rest[i].jobId.Some? ensures rest[i].jobId != s[n].jobId {
        assert rest[i] in s[..n];
      }
    }
  }

  lemma {:induction false} DeleteKeepsDays(dir: Dir, after: Dir, id: string, i: nat)
    requires Ordered(dir) && DeletedAt(dir, after, id, i)
    ensures after == [] || LastDay(after, 0) <= LastDay(dir, 0)
  {
    if after != [] {
      var n := |after| - 1;
      assert exists k :: 0 <= k < |dir| && after[n].day == dir[k].day;
    }
  }

  lemma {:induction false} AppendedMore(dir: Dir, after: Dir, ops: seq<Op>, r: Report, day: int, keep: nat)
    requires Appended(dir, ops) && LastDay(dir, day) <= day && NewestIs(dir, after, day)
    requires forall x :: x in All(dir) && x.jobId.Some? ==> x.jobId != r.jobId
    requires All(after) == LastN(All(dir) + [r], keep)
    ensures Appended(after, ops + [Append(r, day)])
  {
    var more := ops + [Append(r, day)];
    assert more[|ops|] == Append(r, day) && forall i :: 0 <= i < |ops| ==> more[i] == ops[i];
    assert (var t := LastN(All(dir) + [r], keep); DistinctIds(t) && forall x :: x in t ==> x in All(dir) || x == r) by {
      var all := All(dir) + [r];
      assert forall i :: 0 <= i < |All(dir)| ==> All(dir)[i] in All(dir);
      assert DistinctIds(all);
    }
    assert LastDay(after, 0) <= more[|ops|].day;
  }

  lemma {:induction false} AppendOp(dir: Dir, after: Dir, ops: seq<Op>, r: Report, day: int, keep: nat)
    requires keep >= 1 && Ordered(dir) && Appended(dir, ops) && OpsInOrder(ops + [Append(r, day)]) &&
             Appends(dir, after, r, day, keep)
    ensures All(after) == LastN(All(dir) + [r], keep) && Appended(after, ops + [Append(r, day)])
  {
    assert LastDay(dir, day) <= day && forall x :: x in All(dir) && x.jobId.Some? ==> x.jobId != r.jobId by {
      var more := ops + [Append(r, day)];
      assert more[|ops|] == Append(r, day) && forall i :: 0 <= i < |ops| ==> more[i] == ops[i];
    }
    AppendIsBoundedQueue(dir, after, r, day, keep);
    AppendedMore(dir, after, ops, r, day, keep);
  }

  lemma {:induction false} StillAppended(dir: Dir, after: Dir, ops: seq<Op>, op: Op)
    requires Appended(dir, ops) && DistinctIds(All(after)) && (forall r :: r in All(after) ==> r in All(dir))
    requires after == [] || (dir != [] && LastDay(after, 0) <= LastDay(dir, 0))
    ensures Appended(after, ops + [op])
  {
    var more := ops + [op];
    assert forall i :: 0 <= i < |ops| ==> more[i] == ops[i];
    forall r | r in All(after) ensures exists i :: 0 <= i < |more| && more[i].Append? && more[i].r == r {
      var i :| 0 <= i < |ops| && ops[i].Append? && ops[i].r == r;
      assert more[i].Append?;
    }
    if after != [] {
      var i :| 0 <= i < |ops| && ops[i].Append? && LastDay(dir, 0) <= ops[i].day;
      assert more[i].Append?;
    }
  }

  lemma {:induction false} DeleteOp(dir: Dir, after: Dir, ops: seq<Op>, id: string, keep: nat)
    requires Ordered(dir) && Appended(dir, ops) && OpDone(dir, after, Delete(id), keep)
    ensures All(after) == QueueOp(All(dir), Delete(id), keep) && Appended(after, ops + [Delete(id)])
  {
    WithoutLength(All(dir), id);
    WithoutDistinct(All(dir), id);
    if id != "" && Holds(All(dir), id) {
      var i: nat :| DeletedAt(dir, after, id, i);
      DeleteWithDistinctIds(dir, after, id, i);
      DeleteKeepsDays(dir, after, id, i);
    }
    StillAppended(dir, after, ops, Delete(id));
  }

  /** The directory holds what these operations leave in the queue. */
  ghost predicate Stores(dir: Dir, ops: seq<Op>, keep: nat)
  {
    All(dir) == QueueAfter(ops, keep) && Appended(dir, ops)
  }

  lemma {:induction false} StoresStep(dir: Dir, after: Dir, ops: seq<Op>, op: Op, keep: nat)
    requires keep >= 1 && Ordered(dir) && Stores(dir, ops, keep) && OpsInOrder(ops + [op]) &&
             OpDone(dir, after, op, keep)
    ensures Stores(after, ops + [op], keep)
  {
    match op
    case Append(r, day) => AppendOp(dir, after, ops, r, day, keep);
    case Delete(id) => DeleteOp(dir, after, ops, id, keep);
    case Clear => StillAppended(dir, after, ops, op);
    assert (ops + [op])[..|ops|] == ops;
  }

  lemma {:induction false} FirstOps(ops: seq<Op>, n: nat)
    requires OpsInOrder(ops) && 0 < n <= |ops|
    ensures OpsInOrder(ops[..n - 1] + [ops[n - 1]]) && ops[..n] == ops[..n - 1] + [ops[n - 1]]
  {
  }

  lemma {:induction false} MixedPrefix(dirs: seq<Dir>, ops: seq<Op>, keep: nat, n: nat)
    requires keep >= 1 && OpRun(dirs, ops, keep) && OpsInOrder(ops) && n <= |ops|
    ensures Stores(dirs[n], ops[..n], keep)
  {
    if n == 0 {
      assert Stores(dirs[0], ops[..0], keep) by {
        assert All(dirs[0]) == [];
      }
    } else {
      MixedPrefix(dirs, ops, keep, n - 1);
      assert Ordered(dirs[n - 1]) && OpDone(dirs[n - 1], dirs[n - 1 + 1], ops[n - 1], keep);
      FirstOps(ops, n);
      StoresStep(dirs[n - 1], dirs[n - 1 + 1], ops[..n - 1], ops[n - 1], keep);
    }
  }

  /** Over every run of appends, deletes and clears, with a clock that never goes back and no job id appended twice, the
      shards hold what the same operations leave in one bounded queue. */
  lemma {:induction false} MixedRunIsBoundedQueue(dirs: seq<Dir>, ops: seq<Op>, keep: nat)
    requires keep >= 1 && OpRun(dirs, ops, keep) && OpsInOrder(ops)
    ensures All(dirs[|ops|]) == QueueAfter(ops, keep)
  {
    MixedPrefix(dirs, ops, keep, |ops|);
    assert ops[..|ops|] == ops;
  }

  // ---------- paging ----------

  const SUMMARY_KEYS := {"started_at", "score", "level", "duration_ms", "summary"}

  /** What list() shows of a report without detail: its job id and five of its members, null where it has none. */
  function Summary(r: Report): Report
  {
    Report(r.jobId, map k | k in SUMMARY_KEYS :: Get(r.fields, k, Null))
  }

  /** What is shown of a report: all of it, or its job id and exactly these members. */
  ghost predicate Shows(shown: Report, r: Report, detail: bool)
  {
    if detail then shown == r
    else
      && shown.jobId == r.jobId
      && shown.fields.Keys == {"started_at", "score", "level", "duration_ms", "summary"}
      && forall k :: k in shown.fields ==> shown.fields[k] == if k in r.fields then r.fields[k] else Null
  }

  function Reversed<T>(s: seq<T>): (r: seq<T>)
    ensures |r| == |s| && forall i :: 0 <= i < |s| ==> r[i] == s[|s| - 1 - i]
  {
    seq(|s|, i requires 0 <= i < |s| => s[|s| - 1 - i])
  }

  /** The slice list() takes for a page of the newest-first items. */
  function Page<T>(items: seq<T>, page: int, pageSize: int): seq<T>
  {
    var start := if (page - 1) * pageSize > 0 then (page - 1) * pageSize else 0;
    Slice(items, start, start + pageSize)
  }

  ghost function Pages<T>(items: seq<T>, upTo: nat, pageSize: int): seq<T>
  {
    if upTo == 0 then [] else Pages(items, upTo - 1, pageSize) + Page(items, upTo, pageSize)
  }

  lemma {:induction false} NextPage<T>(items: seq<T>, start: int, pageSize: int)
    requires pageSize >= 1 && start >= 0
    ensures (if start >= |items| then items else items[..start]) + Slice(items, start, start + pageSize)
         == if start + pageSize >= |items| then items else items[..start + pageSize]
  {
  }

  /** There is no page before the first: a page number below it gives the first. */
  lemma {:induction false} NoPageBeforeFirst<T>(items: seq<T>, page: int, pageSize: int)
    requires page < 1 && pageSize >= 0
    ensures Page(items, page, pageSize) == items[..if pageSize < |items| then pageSize else |items|]
  {
    assert (page - 1) * pageSize <= 0;
  }

  /** Pages 1 to n laid end to end are the first n*pageSize items: no gap and no overlap. */
  lemma {:induction false} PagesConcatenate<T>(items: seq<T>, upTo: nat, pageSize: int)
    requires pageSize >= 1
    ensures var n := upTo * pageSize;
            n >= 0 && Pages(items, upTo, pageSize) == if n >= |items| then items else items[..n]
  {
    if upTo > 0 {
      PagesConcatenate(items, upTo - 1, pageSize);
      NextPage(items, (upTo - 1) * pageSize, pageSize);
      assert upTo * pageSize == (upTo - 1) * pageSize + pageSize;
    }
  }
}
