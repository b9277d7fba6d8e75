/** The security log of lib/netcheck/auth.py: one entry for each thing that happened, in order, none ever pruned. */
module AuthTrace {
  // What the log alone says about lockout, throttling and sessions.

  import opened PythonBasics
  import opened SlidingWindow

  const MAX_FAILURES := 5
  const LOCKOUT_SEC := 300
  const LOGIN_RATE_PER_MIN := 10
  const RATE_WINDOW := 60.0
  const SESSION_TTL_SEC := 86400

  datatype Event =
    | Attempt(key: string, at: real)      // a login that passed the lock and the throttle
    | Failure(key: string, at: real)      // a wrong credential, by login or by recovery
    | Success(key: string, at: real)      // a successful login or recovery
    | Issued(token: string, at: real)     // a session token handed out
    | LoggedOut(token: string)
    | RevokedAll

  type Trace = seq<Event>

  /** One key's failure counter and lock deadline. */
  datatype Guard = Guard(fails: int, until: real)

  function AdvanceGuard(g: Guard, e: Event, key: string): Guard
  {
    match e
    case Failure(k, at) =>
      if k != key then g
      else if g.fails + 1 >= MAX_FAILURES then Guard(0, at + LOCKOUT_SEC as real)
      else Guard(g.fails + 1, g.until)
    case Success(k, at) => if k == key then Guard(0, g.until) else g
    case _ => g
  }

  ghost function GuardOf(tr: Trace, key: string): Guard
  {
    if tr == [] then Guard(0, 0.0)
    else AdvanceGuard(GuardOf(tr[..|tr| - 1], key), tr[|tr| - 1], key)
  }

  /** The times of every admitted login attempt for a key. */
  ghost function Attempts(tr: Trace, key: string): seq<real>
  {
    if tr == [] then []
    else
      var e := tr[|tr| - 1];
      var before := Attempts(tr[..|tr| - 1], key);
      if e.Attempt? && e.key == key then before + [e.at] else before
  }

  /** When a session token stops working, if it works at all. */
  function AdvanceExpiry(x: Option<int>, e: Event, token: string): Option<int>
  {
    match e
    case Issued(t, at) => if t == token then Some(at.Floor + SESSION_TTL_SEC) else x
    case LoggedOut(t) => if t == token then None else x
    case RevokedAll => None
    case _ => x
  }

  ghost function Expiry(tr: Trace, token: string): Option<int>
  {
    if tr == [] then None
    else AdvanceExpiry(Expiry(tr[..|tr| - 1], token), tr[|tr| - 1], token)
  }

  ghost predicate Live(tr: Trace, token: string, now: real)
  {
    token != "" && Expiry(tr, token).Some? && Expiry(tr, token).value as real > now
  }

  function TimeOf(e: Event, clock: real): real
  {
    if e.LoggedOut? || e.RevokedAll? then clock else e.at
  }

  /** The latest time the log mentions. */
  ghost function Clock(tr: Trace): real
  {
    if tr == [] then 0.0 else TimeOf(tr[|tr| - 1], Clock(tr[..|tr| - 1]))
  }

  ghost predicate Locked(tr: Trace, key: string, now: real) { GuardOf(tr, key).until > now }

  ghost predicate Throttled(tr: Trace, key: string, now: real)
  {
    |Recent(Attempts(tr, key), now, RATE_WINDOW)| >= LOGIN_RATE_PER_MIN
  }

  /** The clock never runs back; no credential is judged under a lock; no attempt passes a full throttle. */
  ghost predicate LegalNext(tr: Trace, e: Event)
  {
    && Clock(tr) <= TimeOf(e, Clock(tr))
    && (e.Attempt? || e.Failure? || e.Success? ==> !Locked(tr, e.key, e.at))
    && (e.Attempt? ==> !Throttled(tr, e.key, e.at))
  }

  ghost predicate Legal(tr: Trace)
  {
    tr == [] || (Legal(tr[..|tr| - 1]) && LegalNext(tr[..|tr| - 1], tr[|tr| - 1]))
  }

  /** Every fold over the log, one event further, for one key. */
  lemma {:induction false} SnocKey(tr: Trace, e: Event, key: string)
    ensures Legal(tr + [e]) <==> Legal(tr) && LegalNext(tr, e)
    ensures Clock(tr + [e]) == TimeOf(e, Clock(tr))
    ensures GuardOf(tr + [e], key) == AdvanceGuard(GuardOf(tr, key), e, key)
  {
    assert (tr + [e])[..|tr|] == tr;
  }

  /** The same for all keys and tokens at once. */
  lemma {:induction false} Snoc(tr: Trace, e: Event)
    ensures Legal(tr + [e]) <==> Legal(tr) && LegalNext(tr, e)
    ensures Clock(tr + [e]) == TimeOf(e, Clock(tr))
    ensures forall key :: GuardOf(tr + [e], key) == AdvanceGuard(GuardOf(tr, key), e, key)
    ensures forall key :: Attempts(tr + [e], key) ==
              if e.Attempt? && e.key == key then Attempts(tr, key) + [e.at] else Attempts(tr, key)
    ensures forall token :: Expiry(tr + [e], token) == AdvanceExpiry(Expiry(tr, token), e, token)
  {
    assert (tr + [e])[..|tr|] == tr;
  }

  // ---------- lockout ----------

  /** Credential failures of a key in [from, to). */
  ghost function FailuresIn(tr: Trace, key: string, from: real, to: real): nat
  {
    if tr == [] then 0
    else
      var e := tr[|tr| - 1];
      FailuresIn(tr[..|tr| - 1], key, from, to) + if e.Failure? && e.key == key && from <= e.at < to then 1 else 0
  }

  ghost predicate NoSuccessIn(tr: Trace, key: string, from: real, to: real)
  {
    forall i :: 0 <= i < |tr| && tr[i].Success? && tr[i].key == key ==> !(from <= tr[i].at < to)
  }

  /** The counter never reaches the limit: reaching it locks the key and starts again from zero. */
  lemma {:induction false} CounterRange(tr: Trace, key: string)
    ensures 0 <= GuardOf(tr, key).fails < MAX_FAILURES
  {
    if tr != [] {
      CounterRange(tr[..|tr| - 1], key);
    }
  }

  /** How many credentials were wrong since the key's last success. */
  ghost function Streak(tr: Trace, key: string): nat
  {
    if tr == [] then 0
    else
      var e, before := tr[|tr| - 1], Streak(tr[..|tr| - 1], key);
      if e.Failure? && e.key == key then before + 1 else if e.Success? && e.key == key then 0 else before
  }

  /** The counter, read off the log: the wrong credentials since the last success, modulo the limit. */
  lemma {:induction false} CounterIsStreak(tr: Trace, key: string)
    ensures GuardOf(tr, key).fails == Streak(tr, key) % MAX_FAILURES
  {
    if tr != [] {
      CounterIsStreak(tr[..|tr| - 1], key);
    }
  }

  /** Entry i is a failure of the key, the fifth, tenth, ... since its last success. */
  ghost predicate LocksAt(tr: Trace, key: string, i: nat)
  {
    i < |tr| && tr[i].Failure? && tr[i].key == key && Streak(tr[..i + 1], key) % MAX_FAILURES == 0
  }

  lemma {:induction false} LockCause(tr: Trace, key: string, now: real) returns (i: nat)
    requires now >= 0.0 && Locked(tr, key, now)
    ensures LocksAt(tr, key, i) && tr[i].at + LOCKOUT_SEC as real > now
  {
    var n := |tr| - 1;
    var e, before := tr[n], GuardOf(tr[..n], key);
    CounterIsStreak(tr, key);
    if e.Failure? && e.key == key && before.fails + 1 >= MAX_FAILURES {
      assert tr[..n + 1] == tr;
      i := n;
    } else {
      i := LockCause(tr[..n], key, now);
      assert tr[..n][..i + 1] == tr[..i + 1];
    }
  }

  lemma {:induction false} TimedBeforeClock(tr: Trace, i: nat)
    requires Legal(tr) && i < |tr| && (tr[i].Issued? || tr[i].Failure?)
    ensures tr[i].at <= Clock(tr)
  {
    if i < |tr| - 1 {
      TimedBeforeClock(tr[..|tr| - 1], i);
    }
  }

  lemma {:induction false} LockLasts(tr: Trace, key: string, i: nat)
    requires Legal(tr) && LocksAt(tr, key, i)
    ensures GuardOf(tr, key).until >= tr[i].at + LOCKOUT_SEC as real
  {
    var n := |tr| - 1;
    if i == n {
      assert tr[..i + 1] == tr;
      CounterIsStreak(tr, key);
      CounterIsStreak(tr[..n], key);
    } else {
      assert tr[..n][..i + 1] == tr[..i + 1];
      LockLasts(tr[..n], key, i);
      TimedBeforeClock(tr[..n], i);
    }
  }

  /** When a key is locked, read off the log alone: for five minutes from each failure that was the fifth, tenth, ...
      since its last success, and at no other time. */
  lemma {:induction false} LockedIff(tr: Trace, key: string, now: real)
    requires Legal(tr) && now >= 0.0
    ensures Locked(tr, key, now) <==> exists i: nat :: LocksAt(tr, key, i) && tr[i].at + LOCKOUT_SEC as real > now
  {
    if Locked(tr, key, now) {
      var i := LockCause(tr, key, now);
    } else if exists i: nat :: LocksAt(tr, key, i) && tr[i].at + LOCKOUT_SEC as real > now {
      var i: nat :| LocksAt(tr, key, i) && tr[i].at + LOCKOUT_SEC as real > now;
      LockLasts(tr, key, i);
    }
  }

  lemma {:induction false} NothingBefore(tr: Trace, key: string, from: real, to: real)
    requires Legal(tr) && Clock(tr) < from
    ensures FailuresIn(tr, key, from, to) == 0
  {
    if tr != [] {
      NothingBefore(tr[..|tr| - 1], key, from, to);
    }
  }

  lemma {:induction false} LockoutInvariant(tr: Trace, key: string, from: real)
    requires Legal(tr) && NoSuccessIn(tr, key, from, from + LOCKOUT_SEC as real)
    ensures FailuresIn(tr, key, from, from + LOCKOUT_SEC as real) <= MAX_FAILURES
    ensures Clock(tr) < from + LOCKOUT_SEC as real ==>
              || FailuresIn(tr, key, from, from + LOCKOUT_SEC as real) <= GuardOf(tr, key).fails
              || GuardOf(tr, key).until >= from + LOCKOUT_SEC as real
  {
    if tr != [] {
      var prefix, e := tr[..|tr| - 1], tr[|tr| - 1];
      LockoutInvariant(prefix, key, from);
      CounterRange(prefix, key);
      if e.Success? && e.key == key && e.at < from {
        NothingBefore(tr, key, from, from + LOCKOUT_SEC as real);
      } else if e.Failure? && e.key == key && e.at < from {
        NothingBefore(tr, key, from, from + LOCKOUT_SEC as real);
        CounterRange(tr, key);
      }
    }
  }

  /** Over every run, five minutes without a success for a key hold at most five wrong credentials for it,
      however login and recovery are mixed. */
  lemma {:induction false} LockoutBound(tr: Trace, key: string, from: real)
    requires Legal(tr) && NoSuccessIn(tr, key, from, from + 300.0)
    ensures FailuresIn(tr, key, from, from + 300.0) <= 5
  {
    LockoutInvariant(tr, key, from);
  }

  lemma {:induction false} FailuresSplit(tr: Trace, key: string, from: real, mid: real, to: real)
    requires from <= mid <= to
    ensures FailuresIn(tr, key, from, to) == FailuresIn(tr, key, from, mid) + FailuresIn(tr, key, mid, to)
  {
    if tr != [] {
      FailuresSplit(tr[..|tr| - 1], key, from, mid, to);
    }
  }

  /** The guessing budget over any longer stretch: five for each lockout period it spans. */
  lemma {:induction false} GuessBudget(tr: Trace, key: string, from: real, periods: nat)
    requires Legal(tr) && NoSuccessIn(tr, key, from, from + (LOCKOUT_SEC * periods) as real)
    ensures FailuresIn(tr, key, from, from + (LOCKOUT_SEC * periods) as real) <= MAX_FAILURES * periods
  {
    if periods == 0 {
      FailuresSplit(tr, key, from, from, from);
    } else {
      var mid := from + (LOCKOUT_SEC * (periods - 1)) as real;
      GuessBudget(tr, key, from, periods - 1);
      LockoutBound(tr, key, mid);
      FailuresSplit(tr, key, from, mid, mid + LOCKOUT_SEC as real);
    }
  }

  ghost function Repeat(e: Event, n: nat): Trace
  {
    if n == 0 then [] else Repeat(e, n - 1) + [e]
  }

  lemma {:induction false} FailureCount(key: string, n: nat)
    ensures FailuresIn(Repeat(Failure(key, 1.0), n), key, 0.0, 300.0) == n
  {
    if n > 0 {
      FailureCount(key, n - 1);
      var before := Repeat(Failure(key, 1.0), n - 1);
      assert Repeat(Failure(key, 1.0), n)[..|before|] == before;
    }
  }

  lemma {:induction false} FailureStep(tr: Trace, key: string, n: nat)
    requires Legal(tr) && Clock(tr) <= 1.0 && GuardOf(tr, key) == Guard(n, 0.0)
    ensures var after := tr + [Failure(key, 1.0)];
            Legal(after) && Clock(after) <= 1.0 && (n + 1 < MAX_FAILURES ==> GuardOf(after, key) == Guard(n + 1, 0.0))
  {
    SnocKey(tr, Failure(key, 1.0), key);
  }

  lemma {:induction false} FailureRun(key: string, n: nat)
    requires n <= MAX_FAILURES
    ensures var tr := Repeat(Failure(key, 1.0), n);
            Legal(tr) && Clock(tr) <= 1.0 && (n < MAX_FAILURES ==> GuardOf(tr, key) == Guard(n, 0.0))
  {
    if n == 0 {
      assert Repeat(Failure(key, 1.0), 0) == [];
    } else {
      FailureRun(key, n - 1);
      var before := Repeat(Failure(key, 1.0), n - 1);
      assert GuardOf(before, key) == Guard(n - 1, 0.0);
      FailureStep(before, key, n - 1);
    }
  }

  /** The bound is reached: five failures at one instant are a legal log. */
  lemma {:induction false} LockoutBoundIsTight(key: string)
    ensures var tr := Repeat(Failure(key, 1.0), MAX_FAILURES);
            Legal(tr) && FailuresIn(tr, key, 0.0, 300.0) == MAX_FAILURES
  {
    FailureRun(key, MAX_FAILURES);
    FailureCount(key, MAX_FAILURES);
  }

  // ---------- throttle ----------

  lemma {:induction false} AttemptsAdmissible(tr: Trace, key: string)
    requires Legal(tr)
    ensures Admissible(Attempts(tr, key), LOGIN_RATE_PER_MIN, RATE_WINDOW)
  {
    if tr != [] {
      AttemptsAdmissible(tr[..|tr| - 1], key);
      var before, after := Attempts(tr[..|tr| - 1], key), Attempts(tr, key);
      forall i | 0 <= i < |after| ensures |Recent(after[..i], after[i], RATE_WINDOW)| < LOGIN_RATE_PER_MIN {
        assert after[..i] == before[..i];
        if i == |before| {
          assert before[..i] == before;
        }
      }
    }
  }

  /** Over every run, any half-open minute holds at most ten admitted login attempts for a key. */
  lemma {:induction false} LoginThrottleBound(tr: Trace, key: string, from: real)
    requires Legal(tr)
    ensures CountIn(Attempts(tr, key), from, from + 60.0) <= 10
  {
    AttemptsAdmissible(tr, key);
    WindowBound(Attempts(tr, key), LOGIN_RATE_PER_MIN, RATE_WINDOW, from);
  }

  // ---------- sessions ----------

  ghost predicate Withdraws(e: Event, token: string)
  {
    e == RevokedAll || e == LoggedOut(token)
  }

  /** The token was issued at position i, for a day from the start of that second, and not withdrawn since. */
  ghost predicate GrantedAt(tr: Trace, token: string, now: real, i: nat)
  {
    && i < |tr| && tr[i].Issued? && tr[i].token == token
    && (tr[i].at.Floor + 86400) as real > now
    && forall j :: i < j < |tr| ==> !Withdraws(tr[j], token)
  }

  /** A grant that is not the last entry was already one before the last entry, which did not withdraw it. */
  lemma {:induction false} GrantedEarlier(tr: Trace, token: string, now: real, i: nat)
    requires GrantedAt(tr, token, now, i) && i < |tr| - 1
    ensures GrantedAt(tr[..|tr| - 1], token, now, i) && !Withdraws(tr[|tr| - 1], token)
  {
  }

  /** An entry that withdraws nothing leaves a live token live: reissued, it lives longer. */
  lemma {:induction false} StaysLive(x: Option<int>, tr: Trace, e: Event, token: string, now: real, issued: real)
    requires x.Some? && x.value as real > now && !Withdraws(e, token)
    requires LegalNext(tr, e) && issued <= Clock(tr) && (issued.Floor + SESSION_TTL_SEC) as real > now
    ensures var y := AdvanceExpiry(x, e, token); y.Some? && y.value as real > now
  {
    assert e.Issued? ==> issued.Floor <= e.at.Floor;
  }

  lemma {:induction false} GrantedIsLive(tr: Trace, token: string, now: real, i: nat)
    requires Legal(tr) && GrantedAt(tr, token, now, i)
    ensures Expiry(tr, token).Some? && Expiry(tr, token).value as real > now
  {
    var n := |tr| - 1;
    if i < n {
      GrantedEarlier(tr, token, now, i);
      GrantedIsLive(tr[..n], token, now, i);
      TimedBeforeClock(tr[..n], i);
      StaysLive(Expiry(tr[..n], token), tr[..n], tr[n], token, now, tr[i].at);
    }
  }

  lemma {:induction false} LiveWasGranted(tr: Trace, token: string, now: real) returns (i: nat)
    requires Expiry(tr, token).Some? && Expiry(tr, token).value as real > now
    ensures GrantedAt(tr, token, now, i)
  {
    var n := |tr| - 1;
    if tr[n].Issued? && tr[n].token == token {
      i := n;
    } else {
      i := LiveWasGranted(tr[..n], token, now);
      assert GrantedAt(tr, token, now, i) by {
        assert forall j :: 0 <= j < |tr| - 1 ==> tr[j] == tr[..|tr| - 1][j];
      }
    }
  }

  /** The ledger reading of a session: accepted exactly when some issue of the token is still young enough and
      no later logout of it or revocation of all sessions followed. */
  lemma {:induction false} SessionLedger(tr: Trace, token: string, now: real)
    requires Legal(tr)
    ensures Live(tr, token, now) <==> token != "" && exists i: nat :: GrantedAt(tr, token, now, i)
  {
    if Live(tr, token, now) {
      var i := LiveWasGranted(tr, token, now);
    } else if token != "" && exists i: nat :: GrantedAt(tr, token, now, i) {
      var i: nat :| GrantedAt(tr, token, now, i);
      GrantedIsLive(tr, token, now, i);
    }
  }

  /** After everything was revoked (a password change or a recovery), no token is accepted unless it is issued anew. */
  lemma {:induction false} RevocationIsFinal(tr: Trace, r: nat, token: string, now: real)
    requires Legal(tr) && r < |tr| && tr[r] == RevokedAll
    requires forall j :: r < j < |tr| ==> !(tr[j].Issued? && tr[j].token == token)
    ensures !Live(tr, token, now)
  {
    if Live(tr, token, now) {
      var i := LiveWasGranted(tr, token, now);
      assert i < r && Withdraws(tr[r], token);
    }
  }
}
