/** lib/netcheck/diag/history.py: the history over its directory of shards. */
module DiagHistory {
  import opened PythonBasics
  import opened ShardSequence

  /** The pruning loop at shard i, `done` reports dropped and `left` to go: what is stored is the rest of the
      sequence. */
  ghost predicate Pruning(files: Dir, shards: Dir, i: nat, done: nat, left: nat)
  {
    && Ordered(files) && NoEmptyShard(files) && i <= |shards|
    && done <= |All(shards)| && All(files) == All(shards)[done..]
    && (left > 0 ==> files == shards[i..])
    && (files != [] ==> LastDay(files, 0) == LastDay(shards, 0))
  }

  lemma {:induction false} DropTwice<T>(s: seq<T>, a: nat, b: nat)
    requires a + b <= |s|
    ensures s[a..][b..] == s[a + b..]
  {
  }

  class History {
    var files: Dir
    const keep: nat

    /** Files in name order, and no file holds an empty list. */
    ghost predicate Valid()
      reads this
    {
      keep >= 1 && Ordered(files) && NoEmptyShard(files)
    }

    constructor (files: Dir, keep: int)
      requires Ordered(files) && NoEmptyShard(files)
      ensures Valid() && this.files == files && this.keep == if keep > 1 then keep else 1
    {
      this.files := files;
      this.keep := if keep > 1 then keep else 1;
    }

    /** _all_shards: the shards with at least one report. */
    method AllShards() returns (shards: Dir)
      requires Valid()
      ensures shards == files
    {
      shards := [];
      for i := 0 to |files|
        invariant shards == files[..i]
      {
        if files[i].items != [] {
          shards := shards + [files[i]];
        }
      }
    }

    method Total(shards: Dir) returns (total: nat)
      ensures total == |All(shards)|
    {
      total := 0;
      for i := 0 to |shards|
        invariant total == |AllTo(shards, i)|
      {
        total := total + |shards[i].items|;
      }
    }

    /** A shard rewritten with what is left of it, or its file removed when nothing is. */
    method Keep(day: int, items: seq<Report>)
      modifies this`files
      ensures files == Kept(old(files), day, items)
    {
      if items != [] {
        files := WriteShard(files, day, items);
      } else {
        files := Unlink(files, day);
      }
    }

    /** The oldest shard without its first reports. */
    method CutOldest(day: int, items: seq<Report>, ghost drop: nat)
      requires Valid() && files != [] && 0 < drop <= |files[0].items| && day == files[0].day &&
               items == files[0].items[drop..]
      modifies this`files
      ensures Valid() && Dropped(old(files), files, drop)
    {
      PruneStep(files, drop);
      Keep(day, items);
    }

    /** The loop of _prune: drop `excess` reports, oldest shard first. */
    method DropOldest(shards: Dir, excess: nat)
      requires Valid() && files == shards && excess < |All(shards)|
      modifies this`files
      ensures Valid() && All(files) == All(shards)[excess..]
      ensures files != [] && LastDay(files, 0) == LastDay(shards, 0)
    {
      var left, i := excess, 0;
      assert shards[0..] == shards && All(shards)[0..] == All(shards);
      while i < |shards|
        invariant 0 <= left <= excess && i <= |shards|
        invariant Pruning(files, shards, i, excess - left, left)
        decreases |shards| - i
      {
        if left <= 0 {
          break;
        }
        assert files[0] == shards[i];
        var drop := if left < |shards[i].items| then left else |shards[i].items|;
        ghost var before := files;
        CutOldest(shards[i].day, shards[i].items[drop..], drop);
        assert Pruning(files, shards, i + 1, (excess - left) + drop, left - drop) by {
          assert before[0] == shards[i];
          DropTwice(All(shards), (excess - left), drop);
          DropTwice(shards, i, 1);
        }
        left := left - drop;
        i := i + 1;
      }
      assert All(files) == All(shards)[excess..] && files != [] by {
        assert left > 0 ==> files == [];
        assert |All(files)| > 0;
      }
    }

    /** _prune: keep the newest `keep` reports. */
    method Prune()
      requires Valid()
      modifies this`files
      ensures Valid() && All(files) == LastN(All(old(files)), keep)
      ensures files != [] ==> LastDay(files, 0) == LastDay(old(files), 0)
    {
      var shards := AllShards();
      var total := Total(shards);
      if total <= keep {
        return;
      }
      DropOldest(shards, total - keep);
    }

    method Append(r: Report, day: int)
      requires Valid()
      modifies this`files
      ensures Valid() && Appends(old(files), files, r, day, keep)
    {
      var items := ReadShard(files, day);
      items := items + [r];
      WriteKeepsOrder(files, day, items);
      WriteIsLast(files, day, items);
      files := WriteShard(files, day, items);
      Prune();
    }

    method Delete(id: string) returns (found: bool)
      requires Valid()
      modifies this`files
      ensures Valid()
      ensures found <==> id != "" && Holds(All(old(files)), id)
      ensures OpDone(old(files), files, Op.Delete(id), keep)
    {
      if id == "" {
        return false;
      }
      var shards := AllShards();
      for i := 0 to |shards|
        invariant files == old(files)
        invariant forall k :: 0 <= k < i ==> !Holds(shards[k].items, id)
      {
        var kept := Without(shards[i].items, id);
        WithoutLength(shards[i].items, id);
        if |kept| == |shards[i].items| {
          continue;
        }
        DeleteStep(files, id, i);
        Keep(shards[i].day, kept);
        return true;
      }
      NotHeldInAll(shards, id);
      return false;
    }

    method Clear() returns (count: nat)
      requires Valid()
      modifies this`files
      ensures Valid() && files == [] && count == |All(old(files))|
    {
      count := Total(files);
      files := [];
    }

    /** list(): the total, and the page of the newest-first items, each whole, or its job id and five members: its own
        value where it has one and null where it has none. */
    method List(page: int, pageSize: int, detail: bool) returns (total: nat, items: seq<Report>)
      requires Valid()
      ensures total == |All(files)|
      ensures var paged := Page(Reversed(All(files)), page, pageSize);
              |items| == |paged| && forall i :: 0 <= i < |paged| ==> Shows(items[i], paged[i], detail)
    {
      var shards := AllShards();
      items := [];
      for i := 0 to |shards|
        invariant items == AllTo(shards, i)
      {
        items := items + shards[i].items;
      }
      items := Reversed(items);
      total := |items|;
      items := Page(items, page, pageSize);
      if !detail {
        items := seq(|items|, i requires 0 <= i < |items| => Summary(items[i]));
      }
    }

    /** The first report with the id, oldest first; None exactly when no report has it. */
    method Get(id: string) returns (r: Option<Report>)
      requires Valid()
      ensures r == None <==> !Holds(All(files), id)
      ensures r.Some? ==> r.value in All(files) && r.value.jobId == Some(id)
    {
      var shards := AllShards();
      for i := 0 to |shards|
        invariant forall k :: 0 <= k < i ==> !Holds(shards[k].items, id)
      {
        for j := 0 to |shards[i].items|
          invariant forall k :: 0 <= k < j ==> shards[i].items[k].jobId != Some(id)
        {
          if shards[i].items[j].jobId == Some(id) {
            assert shards == shards[..i] + [shards[i]] + shards[i + 1..];
            AllThree(shards[..i], shards[i], shards[i + 1..]);
            assert shards[i].items[j] in All(shards);
            return Some(shards[i].items[j]);
          }
        }
      }
      NotHeldInAll(shards, id);
      return None;
    }
  }
}
