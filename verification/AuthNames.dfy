/** lib/netcheck/auth.py: what the user names of the calls have to do with the keys of the log. */
module AuthNames {
  import opened AuthTrace

  /** A call of login or recover under a user name, by what it does to the failure counters. */
  datatype Call =
    | Wrong(name: string, at: real)     // refused for a wrong credential
    | Right(name: string, at: real)     // accepted
    | Other                             // anything else the service does

  type Fold = string -> string

  /** Two user names share their counter: equal after folding, the empty one standing as "?". */
  ghost predicate SameName(lower: Fold, a: string, b: string)
  {
    lower(if a == "" then "?" else a) == lower(if b == "" then "?" else b)
  }

  ghost predicate Quiet(entries: Trace)
  {
    forall i :: 0 <= i < |entries| ==> !entries[i].Failure? && !entries[i].Success?
  }

  /** The log has grown by this entry, with nothing beside it that concerns a counter. */
  ghost predicate Grew(before: Trace, after: Trace, e: Event)
  {
    exists more, rest :: Quiet(more) && Quiet(rest) && after == before + more + [e] + rest
  }

  /** What a call leaves in the log. */
  ghost predicate Logged(lower: Fold, c: Call, before: Trace, after: Trace)
  {
    match c
    case Wrong(name, at) => Grew(before, after, Failure(lower(if name == "" then "?" else name), at))
    case Right(name, at) => Grew(before, after, Success(lower(if name == "" then "?" else name), at))
    case Other => exists more :: Quiet(more) && after == before + more
  }

  lemma {:induction false} GrewBy(before: Trace, more: Trace, e: Event, rest: Trace, after: Trace)
    requires Quiet(more) && Quiet(rest) && after == before + more + [e] + rest
    ensures Grew(before, after, e) && after != before
  {
    assert |after| > |before|;
  }

  lemma {:induction false} Unchanged(before: Trace)
    ensures exists more :: Quiet(more) && before == before + more
  {
    assert before == before + [] && Quiet([]);
  }

  // ---------- runs ----------

  ghost predicate CallAt(lower: Fold, traces: seq<Trace>, calls: seq<Call>, i: nat)
  {
    && i < |calls| && i + 1 < |traces| && Legal(traces[i + 1])
    && Logged(lower, calls[i], traces[i], traces[i + 1])
  }

  /** The logs of a run of calls from an empty log, one after each call. */
  ghost predicate CallRun(lower: Fold, traces: seq<Trace>, calls: seq<Call>)
  {
    |traces| == |calls| + 1 && traces[0] == [] && forall i :: 0 <= i < |calls| ==> CallAt(lower, traces, calls, i)
  }

  ghost predicate Concerns(lower: Fold, c: Call, name: string)
  {
    !c.Other? && SameName(lower, c.name, name)
  }

  /** How many wrong credentials were given under the name, however it was spelt, since it was last right. */
  ghost function Misses(lower: Fold, calls: seq<Call>, name: string): nat
  {
    if calls == [] then 0
    else
      var c, before := calls[|calls| - 1], Misses(lower, calls[..|calls| - 1], name);
      if !Concerns(lower, c, name) then before else if c.Wrong? then before + 1 else 0
  }

  /** Call i is a wrong credential under the name, the fifth, tenth, ... since it was last right. */
  ghost predicate LocksName(lower: Fold, calls: seq<Call>, name: string, i: nat)
  {
    i < |calls| && calls[i].Wrong? && Concerns(lower, calls[i], name) && Misses(lower, calls[..i + 1], name) % 5 == 0
  }

  lemma {:induction false} QuietGuard(tr: Trace, more: Trace, key: string)
    requires Quiet(more)
    ensures GuardOf(tr + more, key) == GuardOf(tr, key) && Streak(tr + more, key) == Streak(tr, key)
  {
    if more == [] {
      assert tr + more == tr;
    } else {
      var n := |more| - 1;
      assert (tr + more)[..|tr + more| - 1] == tr + more[..n];
      QuietGuard(tr, more[..n], key);
    }
  }

  lemma {:induction false} LegalBefore(tr: Trace, more: Trace)
    requires Legal(tr + more)
    ensures Legal(tr)
  {
    if more == [] {
      assert tr + more == tr;
    } else {
      assert (tr + more)[..|tr + more| - 1] == tr + more[..|more| - 1];
      LegalBefore(tr, more[..|more| - 1]);
    }
  }

  lemma {:induction false} StreakSnoc(tr: Trace, e: Event, key: string)
    ensures Streak(tr + [e], key) ==
            if e.Failure? && e.key == key then Streak(tr, key) + 1
            else if e.Success? && e.key == key then 0 else Streak(tr, key)
  {
    assert (tr + [e])[..|tr|] == tr;
  }

  /** One counted entry: what it does to a key's counter and to its streak, and that the key was not locked. */
  lemma {:induction false} GrewCounts(before: Trace, after: Trace, e: Event, key: string)
    requires Legal(after) && Grew(before, after, e) && (e.Failure? || e.Success?)
    ensures GuardOf(after, key) == AdvanceGuard(GuardOf(before, key), e, key) && !Locked(before, e.key, e.at)
    ensures Streak(after, key) ==
            if e.key != key then Streak(before, key) else if e.Failure? then Streak(before, key) + 1 else 0
  {
    var more, rest :| Quiet(more) && Quiet(rest) && after == before + more + [e] + rest;
    var tr := before + more;
    LegalBefore(tr + [e], rest);
    SnocKey(tr, e, key);
    StreakSnoc(tr, e, key);
    QuietGuard(before, more, key);
    QuietGuard(before, more, e.key);
    QuietGuard(tr + [e], rest, key);
  }

  lemma {:induction false} OtherCounts(before: Trace, after: Trace, key: string)
    requires exists more :: Quiet(more) && after == before + more
    ensures GuardOf(after, key) == GuardOf(before, key) && Streak(after, key) == Streak(before, key)
  {
    var more :| Quiet(more) && after == before + more;
    QuietGuard(before, more, key);
  }

  lemma {:induction false} MissesSnoc(lower: Fold, calls: seq<Call>, n: nat, name: string)
    requires n < |calls|
    ensures Misses(lower, calls[..n + 1], name) ==
            if !Concerns(lower, calls[n], name) then Misses(lower, calls[..n], name)
            else if calls[n].Wrong? then Misses(lower, calls[..n], name) + 1 else 0
  {
    assert calls[..n + 1][..n] == calls[..n];
  }

  /** The streak of a name's key is the number of its misses, whatever spellings they were made under. */
  lemma {:induction false} StreakIsMisses(lower: Fold, traces: seq<Trace>, calls: seq<Call>, n: nat, name: string)
    requires CallRun(lower, traces, calls) && n < |traces|
    ensures Streak(traces[n], lower(if name == "" then "?" else name)) == Misses(lower, calls[..n], name)
  {
    if n > 0 {
      assert CallAt(lower, traces, calls, n - 1);
      StreakIsMisses(lower, traces, calls, n - 1, name);
      MissesSnoc(lower, calls, n - 1, name);
      var before, after, key := traces[n - 1], traces[n], lower(if name == "" then "?" else name);
      match calls[n - 1]
      case Wrong(a, at) => GrewCounts(before, after, Failure(lower(if a == "" then "?" else a), at), key);
      case Right(a, at) => GrewCounts(before, after, Success(lower(if a == "" then "?" else a), at), key);
      case Other => OtherCounts(before, after, key);
    }
  }

  ghost predicate LockedByCalls(lower: Fold, calls: seq<Call>, n: nat, name: string, now: real)
    requires n <= |calls|
  {
    exists i: nat :: i < n && LocksName(lower, calls, name, i) && calls[i].at + 300.0 > now
  }

  lemma {:induction false} LockedByLast(lower: Fold, calls: seq<Call>, n: nat, name: string, now: real)
    requires 0 < n <= |calls|
    ensures LockedByCalls(lower, calls, n, name, now) <==>
            || LockedByCalls(lower, calls, n - 1, name, now)
            || (LocksName(lower, calls, name, n - 1) && calls[n - 1].at + 300.0 > now)
  {
  }

  /** A wrong credential locks its key exactly when it is the fifth, tenth, ... of the streak, for 300 seconds. */
  lemma {:induction false} WrongLocks(before: Trace, after: Trace, key: string, at: real, now: real)
    requires Legal(after) && Grew(before, after, Failure(key, at))
    ensures Locked(after, key, now) <==>
            if Streak(after, key) % 5 == 0 then at + 300.0 > now else Locked(before, key, now)
    ensures Locked(before, key, now) ==> at > now
  {
    GrewCounts(before, after, Failure(key, at), key);
    CounterIsStreak(before, key);
    CounterIsStreak(after, key);
  }

  /** When a name is locked out, in terms of the calls alone: for 300 seconds from each wrong credential that was the
      fifth, tenth, ... under any spelling of it since it was last right under any, and at no other time. Calls under
      names with another fold make no difference. */
  lemma {:induction false} NameLockedIff(lower: Fold, traces: seq<Trace>, calls: seq<Call>, n: nat, name: string,
                                         now: real)
    requires CallRun(lower, traces, calls) && n < |traces| && now >= 0.0
    ensures Locked(traces[n], lower(if name == "" then "?" else name), now) <==>
            LockedByCalls(lower, calls, n, name, now)
  {
    if n > 0 {
      assert CallAt(lower, traces, calls, n - 1);
      var before, after, key := traces[n - 1], traces[n], lower(if name == "" then "?" else name);
      NameLockedIff(lower, traces, calls, n - 1, name, now);
      LockedByLast(lower, calls, n, name, now);
      StreakIsMisses(lower, traces, calls, n, name);
      match calls[n - 1]
      case Wrong(a, at) =>
        GrewCounts(before, after, Failure(lower(if a == "" then "?" else a), at), key);
        if SameName(lower, a, name) { WrongLocks(before, after, key, at, now); }
      case Right(a, at) => GrewCounts(before, after, Success(lower(if a == "" then "?" else a), at), key);
      case Other => OtherCounts(before, after, key);
    }
  }

  /** So two non-empty names with the same fold are locked together, at all times. */
  lemma {:induction false} SpellingsLockTogether(lower: Fold, traces: seq<Trace>, calls: seq<Call>, n: nat, a: string,
                                                 b: string, now: real)
    requires CallRun(lower, traces, calls) && n < |traces| && now >= 0.0
    requires a != "" && b != "" && lower(a) == lower(b)
    ensures Locked(traces[n], lower(a), now) <==> LockedByCalls(lower, calls, n, b, now)
  {
    NameLockedIff(lower, traces, calls, n, b, now);
  }
}
