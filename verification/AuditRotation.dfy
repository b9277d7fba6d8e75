/** The audit log and its numbered backups as one sequence of records. */
module AuditRotation {
  import opened PythonBasics

  /** A written line: its size in bytes, newline included. */
  datatype RawRecord = Record(size: nat, text: string)
  type Record = r: RawRecord | r.size > 0 witness Record(1, "")

  /** The files: backups newest first (.1, .2, ...) and the current log, when it exists. */
  datatype Files = Files(backups: seq<seq<Record>>, current: Option<seq<Record>>)

  const EMPTY := Files([], None)

  function Size(rs: seq<Record>): nat
  {
    if rs == [] then 0 else Size(rs[..|rs| - 1]) + rs[|rs| - 1].size
  }

  /** How many backups are ever kept: the rename to .1 happens even when keep asks for none. */
  function Slots(keep: int): nat { if keep > 1 then keep else 1 }

  predicate NeedsRotation(f: Files, maxBytes: int) { f.current.Some? && Size(f.current.value) >= maxBytes }

  /** The backup a rotation overwrites, if it does. */
  function Dropped(f: Files, keep: int): seq<Record>
  {
    if |f.backups| >= Slots(keep) then f.backups[Slots(keep) - 1] else []
  }

  function Rotated(f: Files, keep: int): Files
    requires f.current.Some?
  {
    var kept := if |f.backups| >= Slots(keep) then f.backups[..Slots(keep) - 1] else f.backups;
    Files([f.current.value] + kept, None)
  }

  function Recorded(f: Files, r: Record, maxBytes: int, keep: int): Files
  {
    var g := if NeedsRotation(f, maxBytes) then Rotated(f, keep) else f;
    Files(g.backups, Some((if g.current.Some? then g.current.value else []) + [r]))
  }

  /** The files after a run of record calls on an empty directory. */
  ghost function After(log: seq<Record>, maxBytes: int, keep: int): Files
  {
    if log == [] then EMPTY
    else Recorded(After(log[..|log| - 1], maxBytes, keep), log[|log| - 1], maxBytes, keep)
  }

  /** .keep, ..., .1 and then the current file, oldest record first. */
  function OldestFirst(backups: seq<seq<Record>>): seq<Record>
  {
    if backups == [] then [] else OldestFirst(backups[1..]) + backups[0]
  }

  function Stored(f: Files): seq<Record>
  {
    OldestFirst(f.backups) + if f.current.Some? then f.current.value else []
  }

  lemma {:induction false} OldestFirstCut(backups: seq<seq<Record>>)
    requires backups != []
    ensures OldestFirst(backups) == backups[|backups| - 1] + OldestFirst(backups[..|backups| - 1])
  {
    if |backups| > 1 {
      OldestFirstCut(backups[1..]);
      assert backups[1..][..|backups| - 2] == backups[..|backups| - 1][1..];
    }
  }

  /** One record call: everything stored before is still stored, in order, with the new record behind it, except the
      one backup that a rotation overwrote. */
  lemma {:induction false} RecordLosesOnlyTheOldest(f: Files, r: Record, maxBytes: int, keep: int)
    requires |f.backups| <= Slots(keep)
    ensures var lost := if NeedsRotation(f, maxBytes) then Dropped(f, keep) else [];
            Stored(f) + [r] == lost + Stored(Recorded(f, r, maxBytes, keep))
    ensures |Recorded(f, r, maxBytes, keep).backups| <= Slots(keep)
  {
    if NeedsRotation(f, maxBytes) {
      var g := Rotated(f, keep);
      assert g.backups[1..] == if |f.backups| >= Slots(keep) then f.backups[..Slots(keep) - 1] else f.backups;
      if |f.backups| >= Slots(keep) {
        OldestFirstCut(f.backups);
      }
      assert OldestFirst(g.backups) == OldestFirst(g.backups[1..]) + f.current.value;
    }
  }

  /** Everything the run has overwritten, oldest first. */
  ghost function Lost(log: seq<Record>, maxBytes: int, keep: int): seq<Record>
  {
    if log == [] then []
    else
      var f := After(log[..|log| - 1], maxBytes, keep);
      Lost(log[..|log| - 1], maxBytes, keep) + if NeedsRotation(f, maxBytes) then Dropped(f, keep) else []
  }

  lemma {:induction false} Regroup<T>(lost: seq<T>, stored: seq<T>, r: seq<T>, dropped: seq<T>, after: seq<T>)
    requires stored + r == dropped + after
    ensures lost + stored + r == lost + dropped + after
  {
    assert lost + stored + r == lost + (stored + r);
    assert lost + dropped + after == lost + (dropped + after);
  }

  /** One record further: what was overwritten and what is stored. */
  lemma {:induction false} NextStored(log: seq<Record>, r: Record, maxBytes: int, keep: int)
    requires |After(log, maxBytes, keep).backups| <= Slots(keep)
    requires log == Lost(log, maxBytes, keep) + Stored(After(log, maxBytes, keep))
    ensures log + [r] == Lost(log + [r], maxBytes, keep) + Stored(After(log + [r], maxBytes, keep))
    ensures |After(log + [r], maxBytes, keep).backups| <= Slots(keep)
  {
    var f := After(log, maxBytes, keep);
    var lost := if NeedsRotation(f, maxBytes) then Dropped(f, keep) else [];
    assert (log + [r])[..|log|] == log;
    RecordLosesOnlyTheOldest(f, r, maxBytes, keep);
    Regroup(Lost(log, maxBytes, keep), Stored(f), [r], lost, Stored(Recorded(f, r, maxBytes, keep)));
  }

  /** Over every run from an empty directory, the files oldest-first are a suffix of all records ever written. */
  lemma {:induction false} StoredIsSuffix(log: seq<Record>, maxBytes: int, keep: int)
    ensures log == Lost(log, maxBytes, keep) + Stored(After(log, maxBytes, keep))
    ensures |After(log, maxBytes, keep).backups| <= Slots(keep)
  {
    if log != [] {
      var before, r := log[..|log| - 1], log[|log| - 1];
      assert log == before + [r];
      StoredIsSuffix(before, maxBytes, keep);
      NextStored(before, r, maxBytes, keep);
    }
  }

  /** A file that was rotated out: it had reached the limit, and not before its last record. */
  ghost predicate FullBackup(rs: seq<Record>, maxBytes: int)
  {
    rs != [] && maxBytes <= Size(rs) < maxBytes + rs[|rs| - 1].size
  }

  /** Every backup is full, and the current file was below the limit before its last record. */
  ghost predicate SizedFiles(f: Files, maxBytes: int)
  {
    && (forall i :: 0 <= i < |f.backups| ==> FullBackup(f.backups[i], maxBytes))
    && (f.current.Some? ==>
        f.current.value != [] && Size(f.current.value) < maxBytes + f.current.value[|f.current.value| - 1].size)
  }

  lemma {:induction false} SizeSnoc(rs: seq<Record>, r: Record)
    ensures Size(rs + [r]) == Size(rs) + r.size
  {
    assert (rs + [r])[..|rs|] == rs;
  }

  lemma {:induction false} RecordKeepsSizes(f: Files, r: Record, maxBytes: int, keep: int)
    requires maxBytes > 0 && SizedFiles(f, maxBytes)
    ensures SizedFiles(Recorded(f, r, maxBytes, keep), maxBytes)
  {
    SizeSnoc(if NeedsRotation(f, maxBytes) || f.current.None? then [] else f.current.value, r);
    if NeedsRotation(f, maxBytes) {
      var g := Rotated(f, keep);
      assert forall i :: 0 < i < |g.backups| ==> g.backups[i] == f.backups[i - 1];
    }
  }

  /** Over every run, with a positive limit, every backup's size is at least the limit and below the limit plus its
      last record; the current file, too, was below the limit before its last record. */
  lemma {:induction false} BackupSizes(log: seq<Record>, maxBytes: int, keep: int)
    requires maxBytes > 0
    ensures SizedFiles(After(log, maxBytes, keep), maxBytes)
  {
    if log != [] {
      var n := |log| - 1;
      BackupSizes(log[..n], maxBytes, keep);
      RecordKeepsSizes(After(log[..n], maxBytes, keep), log[n], maxBytes, keep);
    }
  }
}
