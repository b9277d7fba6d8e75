/** lib/netcheck/audit.py: the log and its backup files, rotated in place. */
module Audit {
  import opened PythonBasics
  import opened AuditRotation

  /** The backup files are numbered without a gap from 1, newest first. */
  ghost predicate Mirrors(backups: map<int, seq<Record>>, stack: seq<seq<Record>>)
  {
    && (forall i :: i in backups <==> 1 <= i <= |stack|)
    && (forall i :: i in backups ==> backups[i] == stack[i - 1])
  }

  /** The renaming loop about to treat .i: everything above has moved up one place, the last one over the edge. */
  ghost predicate Shifted(stack: seq<seq<Record>>, now: map<int, seq<Record>>, i: nat, slots: nat)
  {
    && (forall k :: k in now ==> 1 <= k <= slots)
    && (forall k :: 1 <= k <= i ==> (k in now <==> k <= |stack|))
    && (forall k :: 1 <= k <= i && k in now && k <= |stack| ==> now[k] == stack[k - 1])
    && (forall k :: i + 2 <= k <= slots ==> (k in now <==> k - 1 <= |stack|))
    && (forall k :: i + 2 <= k <= slots && k in now && k - 1 <= |stack| ==> now[k] == stack[k - 2])
    && (i + 1 in now ==> i + 1 == slots <= |stack|)
  }

  lemma {:induction false} ShiftOne(stack: seq<seq<Record>>, now: map<int, seq<Record>>, i: nat, slots: nat)
    requires 0 < i < slots && |stack| <= slots && Shifted(stack, now, i, slots)
    ensures Shifted(stack, if i in now then now[i + 1 := now[i]] - {i} else now, i - 1, slots)
  {
  }

  lemma {:induction false} ShiftedAll(stack: seq<seq<Record>>, now: map<int, seq<Record>>, slots: nat,
                                      current: seq<Record>)
    requires slots >= 1 && |stack| <= slots && Shifted(stack, now, 0, slots)
    ensures Mirrors(now[1 := current], [current] + if |stack| >= slots then stack[..slots - 1] else stack)
  {
  }

  class OperationAudit {
    const maxBytes: int
    const keep: int
    var current: Option<seq<Record>>
    var backups: map<int, seq<Record>>          // file suffix -> contents
    ghost var stack: seq<seq<Record>>           // the same files, .1 first

    ghost predicate Valid()
      reads this
    {
      |stack| <= Slots(keep) && Mirrors(backups, stack)
    }

    ghost function View(): Files
      reads this
    {
      Files(stack, current)
    }

    constructor (maxBytes: int, keep: int)
      ensures Valid() && View() == EMPTY && this.maxBytes == maxBytes && this.keep == keep
    {
      this.maxBytes, this.keep, current, backups, stack := maxBytes, keep, None, map[], [];
    }

    method RotateIfNeeded()
      requires Valid()
      modifies this
      ensures Valid()
      ensures View() == if NeedsRotation(old(View()), maxBytes) then Rotated(old(View()), keep) else old(View())
    {
      if current.None? || Size(current.value) < maxBytes {
        return;
      }
      var i := keep - 1;
      while i > 0
        invariant i < Slots(keep) && stack == old(stack) && current == old(current)
        invariant Shifted(stack, backups, if i > 0 then i else 0, Slots(keep))
        decreases i
      {
        ShiftOne(stack, backups, i, Slots(keep));
        if i in backups {
          backups := backups[i + 1 := backups[i]] - {i};
        }
        i := i - 1;
      }
      ShiftedAll(stack, backups, Slots(keep), current.value);
      stack := [current.value] + if |stack| >= Slots(keep) then stack[..Slots(keep) - 1] else stack;
      backups := backups[1 := current.value];
      current := None;
    }

    /** The file part of record(): rotate, then append one line. */
    method Write(r: Record)
      requires Valid()
      modifies this
      ensures Valid() && View() == Recorded(old(View()), r, maxBytes, keep)
    {
      RotateIfNeeded();
      current := Some((if current.Some? then current.value else []) + [r]);
    }
  }
}
