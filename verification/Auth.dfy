/** lib/netcheck/auth.py: the account store with its pruned in-memory tables. */
module Auth {
  import opened PythonBasics
  import opened SlidingWindow
  import opened AuthTrace
  import opened AuthNames

  const PBKDF2_ITERATIONS := 200000

  /** The two hash functions, as free constructors: distinct inputs give distinct digests. */
  datatype Digest = Pbkdf2(secret: string, salt: string, iterations: int) | Sha256(token: string)

  datatype Recovery = Recovery(salt: string, hash: Digest)
  datatype Users = Users(username: string, salt: string, hash: Digest, iterations: int, recovery: Option<Recovery>)
  datatype Session = Session(createdAt: int, expiresAt: int)

  datatype Reason = Ok | LockedOut | BadCredentials | RateLimited | WeakPassword | BadUsername
                  | AlreadyInitialized | RecoveryNotConfigured
  datatype LoginInfo = LoginInfo(reason: Reason, lockedRemaining: Option<int>, attemptsRemaining: Option<int>)

  function HashPassword(password: string, salt: string): Digest
  {
    Pbkdf2(password, salt, PBKDF2_ITERATIONS)
  }

  predicate PasswordMatches(u: Users, password: string)
  {
    Pbkdf2(password, u.salt, u.iterations) == u.hash
  }

  predicate CodeMatches(u: Users, code: string)
  {
    u.recovery.Some? && Pbkdf2(code, u.recovery.value.salt, u.iterations) == u.recovery.value.hash
  }

  function AfterRecovery(u: Users, password: string, salt: string, code: string, codeSalt: string): Users
  {
    u.(salt := salt, hash := HashPassword(password, salt),
       recovery := Some(Recovery(codeSalt, HashPassword(code, codeSalt))))
  }

  function AfterPasswordChange(u: Users, password: string, salt: string): Users
  {
    u.(salt := salt, hash := HashPassword(password, salt), iterations := PBKDF2_ITERATIONS)
  }

  /** A recovered password (and the new recovery code) work afterwards exactly when the stored iteration count
      is this version's: recovery hashes with the constant but leaves the stored count alone. */
  lemma {:induction false} RecoveryTakesEffectIff(u: Users, password: string, salt: string, code: string,
                                                  codeSalt: string, guess: string)
    ensures var v := AfterRecovery(u, password, salt, code, codeSalt);
            && (PasswordMatches(v, guess) <==> guess == password && u.iterations == PBKDF2_ITERATIONS)
            && (CodeMatches(v, guess) <==> guess == code && u.iterations == PBKDF2_ITERATIONS)
  {
  }

  /** A changed password always works and alone works; the recovery code it leaves in place keeps working
      exactly when the stored iteration count was already this version's. */
  lemma {:induction false} PasswordChangeKeepsRecoveryIff(u: Users, password: string, salt: string, guess: string,
                                                          code: string)
    requires CodeMatches(u, code)
    ensures var v := AfterPasswordChange(u, password, salt);
            && (PasswordMatches(v, guess) <==> guess == password)
            && (CodeMatches(v, code) <==> u.iterations == PBKDF2_ITERATIONS)
  {
  }

  // ---------- the account over its whole life ----------

  function NewAccount(username: string, password: string, salt: string, code: string, codeSalt: string): Users
  {
    Users(username, salt, HashPassword(password, salt), PBKDF2_ITERATIONS,
          Some(Recovery(codeSalt, HashPassword(code, codeSalt))))
  }

  ghost predicate ChangedByOwner(u: Users, after: Option<Users>)
  {
    || (exists password, salt :: after == Some(AfterPasswordChange(u, password, salt)))
    || (exists name :: after == Some(u.(username := name)))
  }

  ghost predicate Recovered(u: Users, after: Option<Users>)
  {
    exists password, salt, code, codeSalt :: after == Some(AfterRecovery(u, password, salt, code, codeSalt))
  }

  /** What an operation on the account may do to it: nothing, create it, or change it for someone who knows its
      password or its recovery code. */
  ghost predicate Moves(before: Option<Users>, after: Option<Users>)
  {
    || after == before
    || (before.None? &&
        exists name, password, salt, code, codeSalt :: after == Some(NewAccount(name, password, salt, code, codeSalt)))
    || (before.Some? && exists known :: PasswordMatches(before.value, known) && ChangedByOwner(before.value, after))
    || (before.Some? && exists code :: CodeMatches(before.value, code) && Recovered(before.value, after))
  }

  ghost predicate AccountRun(accounts: seq<Option<Users>>)
  {
    accounts != [] && forall i :: 0 <= i < |accounts| - 1 ==> Moves(accounts[i], accounts[i + 1])
  }

  /** An account created by this version stores this version's iteration count ever after; so in its life a recovered
      password always takes effect. */
  lemma {:induction false} CountStaysCurrent(accounts: seq<Option<Users>>, n: nat)
    requires AccountRun(accounts) && accounts[0].None? && n < |accounts|
    ensures accounts[n].Some? ==> accounts[n].value.iterations == PBKDF2_ITERATIONS
  {
    if n > 0 {
      CountStaysCurrent(accounts, n - 1);
      assert Moves(accounts[n - 1], accounts[n - 1 + 1]);
    }
  }

  /** No password and no recovery code is accepted. */
  ghost predicate LockedOutForGood(u: Users)
  {
    forall secret :: !PasswordMatches(u, secret) && !CodeMatches(u, secret)
  }

  /** After a recovery over another count, no login, password change, rename or recovery ever succeeds again: the
      account stays as it is, and no secret opens it. */
  lemma {:induction false} StaleRecoveryIsFinal(accounts: seq<Option<Users>>, u: Users, password: string, salt: string,
                                                code: string, codeSalt: string, n: nat)
    requires AccountRun(accounts) && accounts[0] == Some(AfterRecovery(u, password, salt, code, codeSalt))
    requires u.iterations != PBKDF2_ITERATIONS && n < |accounts|
    ensures accounts[n] == accounts[0] && LockedOutForGood(accounts[n].value)
  {
    if n > 0 {
      StaleRecoveryIsFinal(accounts, u, password, salt, code, codeSalt, n - 1);
      assert Moves(accounts[n - 1], accounts[n - 1 + 1]);
    }
  }

  /** The in-memory counters say what the log says. */
  ghost predicate CountersMatch(failures: map<string, int>, lockedUntil: map<string, real>, tr: Trace)
  {
    forall key :: Get(failures, key, 0) == GuardOf(tr, key).fails
               && Get(lockedUntil, key, 0.0) == GuardOf(tr, key).until
  }

  /** The pruned lists answer every later throttle question as the full history would. */
  ghost predicate TimesMatch(loginTimes: map<string, seq<real>>, tr: Trace)
  {
    forall key, now :: Clock(tr) <= now ==>
      Recent(Get(loginTimes, key, []), now, RATE_WINDOW) == Recent(Attempts(tr, key), now, RATE_WINDOW)
  }

  /** The pruned session file: nothing invented, and nothing missing that could still be accepted. */
  ghost predicate SessionsMatch(sessions: map<Digest, Session>, tr: Trace)
  {
    && (forall token :: Sha256(token) in sessions ==> Expiry(tr, token) == Some(sessions[Sha256(token)].expiresAt))
    && (forall token :: Expiry(tr, token).Some? && Expiry(tr, token).value as real > Clock(tr) ==>
          Sha256(token) in sessions)
  }

  /** What ties the pruned tables to the log. */
  ghost predicate Invariant(failures: map<string, int>, lockedUntil: map<string, real>,
                            loginTimes: map<string, seq<real>>, sessions: map<Digest, Session>, tr: Trace)
  {
    && Legal(tr)
    && CountersMatch(failures, lockedUntil, tr)
    && TimesMatch(loginTimes, tr)
    && SessionsMatch(sessions, tr)
  }

  lemma {:induction false} TimesStep(loginTimes: map<string, seq<real>>, tr: Trace, e: Event)
    requires TimesMatch(loginTimes, tr) && LegalNext(tr, e) && !e.Attempt?
    ensures TimesMatch(loginTimes, tr + [e])
  {
    Snoc(tr, e);
  }

  /** Pruning the list at one attempt never changes a later throttle decision. */
  lemma {:induction false} TimesAttempt(loginTimes: map<string, seq<real>>, tr: Trace, key: string, now: real)
    requires TimesMatch(loginTimes, tr) && Clock(tr) <= now
    ensures var times := Recent(Get(loginTimes, key, []), now, RATE_WINDOW);
            TimesMatch(loginTimes[key := times + [now]], tr + [Attempt(key, now)])
  {
    Snoc(tr, Attempt(key, now));
    var hits, all := Get(loginTimes, key, []), Attempts(tr, key);
    var times := Recent(hits, now, RATE_WINDOW);
    var after := loginTimes[key := times + [now]];
    forall k, later | now <= later
      ensures Recent(Get(after, k, []), later, RATE_WINDOW)
              == Recent(Attempts(tr + [Attempt(key, now)], k), later, RATE_WINDOW)
    {
      if k == key {
        PruneLossless(hits, now, RATE_WINDOW, later, RATE_WINDOW);
        RecentConcat(times, [now], later, RATE_WINDOW);
        RecentConcat(all, [now], later, RATE_WINDOW);
      }
    }
  }

  lemma {:induction false} SessionsStep(sessions: map<Digest, Session>, tr: Trace, e: Event)
    requires SessionsMatch(sessions, tr) && LegalNext(tr, e) && (e.Attempt? || e.Failure? || e.Success?)
    ensures SessionsMatch(sessions, tr + [e])
  {
    Snoc(tr, e);
  }

  /** Pruning expired sessions by the truncated clock loses nothing that could still be accepted. */
  lemma {:induction false} SessionsIssue(sessions: map<Digest, Session>, tr: Trace, token: string, now: real)
    requires SessionsMatch(sessions, tr) && Clock(tr) <= now
    ensures var kept := map d | d in sessions && sessions[d].expiresAt > now.Floor :: sessions[d];
            SessionsMatch(kept[Sha256(token) := Session(now.Floor, now.Floor + SESSION_TTL_SEC)],
                          tr + [Issued(token, now)])
  {
    Snoc(tr, Issued(token, now));
  }

  lemma {:induction false} SessionsLogout(sessions: map<Digest, Session>, tr: Trace, token: string)
    requires SessionsMatch(sessions, tr)
    ensures SessionsMatch(sessions - {Sha256(token)}, tr + [LoggedOut(token)])
  {
    Snoc(tr, LoggedOut(token));
  }

  lemma {:induction false} CountersStep(failures: map<string, int>, lockedUntil: map<string, real>, tr: Trace, e: Event)
    requires CountersMatch(failures, lockedUntil, tr) && !e.Failure? && !e.Success?
    ensures CountersMatch(failures, lockedUntil, tr + [e])
  {
    forall k { SnocKey(tr, e, k); }
  }

  lemma {:induction false} CountersSuccess(failures: map<string, int>, lockedUntil: map<string, real>, tr: Trace,
                                           key: string, now: real, drop: bool)
    requires CountersMatch(failures, lockedUntil, tr)
    ensures CountersMatch(if drop then failures - {key} else failures[key := 0], lockedUntil, tr + [Success(key, now)])
  {
    forall k { SnocKey(tr, Success(key, now), k); }
  }

  /** The counters after one more failure of a key, and the deadlines: the fifth failure locks and starts again. */
  function Bumped(failures: map<string, int>, key: string): map<string, int>
  {
    var fails := Get(failures, key, 0) + 1;
    failures[key := if fails >= MAX_FAILURES then 0 else fails]
  }

  function LockedBy(failures: map<string, int>, lockedUntil: map<string, real>, key: string, now: real)
    : map<string, real>
  {
    if Get(failures, key, 0) + 1 >= MAX_FAILURES then lockedUntil[key := now + LOCKOUT_SEC as real] else lockedUntil
  }

  lemma {:induction false} CountersFailure(failures: map<string, int>, lockedUntil: map<string, real>, tr: Trace,
                                           key: string, now: real)
    requires CountersMatch(failures, lockedUntil, tr)
    ensures CountersMatch(Bumped(failures, key), LockedBy(failures, lockedUntil, key, now), tr + [Failure(key, now)])
  {
    forall k { SnocKey(tr, Failure(key, now), k); }
  }

  // Each operation on the tables keeps the whole invariant.

  lemma {:induction false} InvariantFailure(failures: map<string, int>, lockedUntil: map<string, real>,
                                            loginTimes: map<string, seq<real>>,
                                            sessions: map<Digest, Session>, tr: Trace, key: string, now: real)
    requires Invariant(failures, lockedUntil, loginTimes, sessions, tr) && Clock(tr) <= now && !Locked(tr, key, now)
    ensures Invariant(Bumped(failures, key), LockedBy(failures, lockedUntil, key, now), loginTimes, sessions,
                      tr + [Failure(key, now)])
  {
    SnocKey(tr, Failure(key, now), key);
    CountersFailure(failures, lockedUntil, tr, key, now);
    TimesStep(loginTimes, tr, Failure(key, now));
    SessionsStep(sessions, tr, Failure(key, now));
  }

  lemma {:induction false} InvariantLogout(failures: map<string, int>, lockedUntil: map<string, real>,
                                           loginTimes: map<string, seq<real>>,
                                           sessions: map<Digest, Session>, tr: Trace, token: string)
    requires Invariant(failures, lockedUntil, loginTimes, sessions, tr)
    ensures Invariant(failures, lockedUntil, loginTimes, sessions - {Sha256(token)}, tr + [LoggedOut(token)])
  {
    SnocKey(tr, LoggedOut(token), "");
    TimesStep(loginTimes, tr, LoggedOut(token));
    CountersStep(failures, lockedUntil, tr, LoggedOut(token));
    SessionsLogout(sessions, tr, token);
  }

  /** The session file after a token is stored: what has expired by the truncated clock is dropped. */
  function Stored(sessions: map<Digest, Session>, token: string, now: real): map<Digest, Session>
  {
    (map d | d in sessions && sessions[d].expiresAt > now.Floor :: sessions[d])
      [Sha256(token) := Session(now.Floor, now.Floor + SESSION_TTL_SEC)]
  }

  lemma {:induction false} InvariantIssue(failures: map<string, int>, lockedUntil: map<string, real>,
                                          loginTimes: map<string, seq<real>>,
                                          sessions: map<Digest, Session>, tr: Trace, token: string, now: real)
    requires Invariant(failures, lockedUntil, loginTimes, sessions, tr) && Clock(tr) <= now
    ensures Invariant(failures, lockedUntil, loginTimes, Stored(sessions, token, now), tr + [Issued(token, now)])
  {
    SnocKey(tr, Issued(token, now), "");
    TimesStep(loginTimes, tr, Issued(token, now));
    CountersStep(failures, lockedUntil, tr, Issued(token, now));
    SessionsIssue(sessions, tr, token, now);
  }

  lemma {:induction false} InvariantAttempt(failures: map<string, int>, lockedUntil: map<string, real>,
                                            loginTimes: map<string, seq<real>>,
                                            sessions: map<Digest, Session>, tr: Trace, key: string, now: real)
    requires Invariant(failures, lockedUntil, loginTimes, sessions, tr) && Clock(tr) <= now
    requires !Locked(tr, key, now) && !Throttled(tr, key, now)
    ensures var times := Recent(Get(loginTimes, key, []), now, RATE_WINDOW);
            Invariant(failures, lockedUntil, loginTimes[key := times + [now]], sessions, tr + [Attempt(key, now)])
    ensures GuardOf(tr + [Attempt(key, now)], key) == GuardOf(tr, key) && Clock(tr + [Attempt(key, now)]) == now
  {
    SnocKey(tr, Attempt(key, now), key);
    TimesAttempt(loginTimes, tr, key, now);
    SessionsStep(sessions, tr, Attempt(key, now));
    CountersStep(failures, lockedUntil, tr, Attempt(key, now));
  }

  /** What a judged login adds to the log and answers: a token, or a refusal that says how many tries are left. */
  ghost predicate Judged(key: string, ok: bool, now: real, token: string, storeNow: real,
                         before: Trace, after: Trace, issued: Option<string>, info: LoginInfo)
  {
    if ok then
      && after == before + [Success(key, now)] + [Issued(token, storeNow)]
      && issued == Some(token) && info == LoginInfo(Ok, None, None)
    else
      && after == before + [Failure(key, now)] && issued == None
      && info == if Locked(after, key, now) then LoginInfo(LockedOut, Some(LOCKOUT_SEC), None)
                 else LoginInfo(BadCredentials, None, Some(MAX_FAILURES - GuardOf(after, key).fails))
  }

  /** How each ending of a recovery is logged. */
  lemma {:induction false} RecoveryLogged(lower: Fold, name: string, now: real, before: Trace)
    ensures var key := lower(if name == "" then "?" else name);
            && Logged(lower, Other, before, before)
            && Logged(lower, Wrong(name, now), before, before + [Failure(key, now)])
            && before + [Failure(key, now)] != before
            && Logged(lower, Right(name, now), before, before + [RevokedAll, Success(key, now)])
  {
    var key := lower(if name == "" then "?" else name);
    Unchanged(before);
    GrewBy(before, [], Failure(key, now), [], before + [Failure(key, now)]);
    GrewBy(before, [RevokedAll], Success(key, now), [], before + [RevokedAll, Success(key, now)]);
  }

  /** A login that was judged is logged as a right or a wrong credential under its name. */
  lemma {:induction false} JudgedLogged(lower: Fold, name: string, ok: bool, now: real, token: string, storeNow: real,
                                        before: Trace, after: Trace, issued: Option<string>, info: LoginInfo)
    requires Judged(lower(if name == "" then "?" else name), ok, now, token, storeNow,
                    before + [Attempt(lower(if name == "" then "?" else name), now)], after, issued, info)
    ensures after != before && Logged(lower, if issued.Some? then Right(name, now) else Wrong(name, now), before, after)
  {
    var key := lower(if name == "" then "?" else name);
    if ok {
      GrewBy(before, [Attempt(key, now)], Success(key, now), [Issued(token, storeNow)], after);
    } else {
      GrewBy(before, [Attempt(key, now)], Failure(key, now), [], after);
    }
  }

  class AuthService {
    const lower: string -> string
    const isAlpha: char -> bool
    const isDigit: char -> bool
    const isAlnum: char -> bool

    var users: Option<Users>
    var sessions: map<Digest, Session>
    var failures: map<string, int>
    var lockedUntil: map<string, real>
    var loginTimes: map<string, seq<real>>
    ghost var trace: Trace

    ghost predicate Valid()
      reads this
    {
      Invariant(failures, lockedUntil, loginTimes, sessions, trace)
    }

    predicate PasswordOk(password: string)
    {
      && |password| >= 8
      && (exists i :: 0 <= i < |password| && isAlpha(password[i]))
      && (exists i :: 0 <= i < |password| && isDigit(password[i]))
    }

    predicate ValidUsername(name: string)
    {
      3 <= |name| <= 32 && forall i :: 0 <= i < |name| ==> isAlnum(name[i])
    }

    /** What an accepted password is: at least eight characters, a letter among them and a digit. */
    lemma {:induction false} PasswordRule(password: string)
      ensures PasswordOk(password) <==>
              |password| >= 8 && (exists c :: c in password && isAlpha(c)) && (exists c :: c in password && isDigit(c))
    {
      forall i | 0 <= i < |password| ensures password[i] in password {}
    }

    /** What an accepted user name is: 3 to 32 characters, each a letter or a digit. */
    lemma {:induction false} NameRule(name: string)
      ensures ValidUsername(name) <==> 3 <= |name| <= 32 && forall c :: c in name ==> isAlnum(c)
    {
    }

    predicate CredentialsOk(username: string, password: string)
      reads this
    {
      users.Some? && username == users.value.username && PasswordMatches(users.value, password)
    }

    /** A service over whatever account file is already on disk; the in-memory tables start empty. */
    constructor (users: Option<Users>, lower: string -> string, isAlpha: char -> bool, isDigit: char -> bool,
                 isAlnum: char -> bool)
      ensures Valid() && trace == [] && this.users == users
      ensures this.lower == lower && this.isAlpha == isAlpha && this.isDigit == isDigit && this.isAlnum == isAlnum
    {
      this.users, this.lower, this.isAlpha, this.isDigit, this.isAlnum := users, lower, isAlpha, isDigit, isAlnum;
      sessions, failures, lockedUntil, loginTimes, trace := map[], map[], map[], map[], [];
    }

    method Setup(username: string, password: string, salt: string, code: string, codeSalt: string)
      returns (reason: Reason)
      modifies this`users
      ensures reason == if old(users).Some? then AlreadyInitialized
                        else if !ValidUsername(username) then BadUsername
                        else if !PasswordOk(password) then WeakPassword else Ok
      ensures reason != Ok ==> users == old(users)
      ensures reason == Ok ==>
                && users.Some? && users.value.username == username && users.value.iterations == 200000
                && (forall s :: PasswordMatches(users.value, s) <==> s == password)
                && (forall s :: CodeMatches(users.value, s) <==> s == code)
      ensures Moves(old(users), users)
    {
      if users.Some? { return AlreadyInitialized; }
      if !ValidUsername(username) { return BadUsername; }
      if !PasswordOk(password) { return WeakPassword; }
      users := Some(NewAccount(username, password, salt, code, codeSalt));
      return Ok;
    }

    method BumpFailure(key: string, now: real)
      requires Valid() && Clock(trace) <= now && !Locked(trace, key, now)
      modifies this`failures, this`lockedUntil, this`trace
      ensures Valid() && trace == old(trace) + [Failure(key, now)]
    {
      InvariantFailure(failures, lockedUntil, loginTimes, sessions, trace, key, now);
      ghost var bumped, locks := Bumped(failures, key), LockedBy(failures, lockedUntil, key, now);
      var fails := Get(failures, key, 0) + 1;
      failures := failures[key := fails];
      if fails >= MAX_FAILURES {
        lockedUntil := lockedUntil[key := now + LOCKOUT_SEC as real];
        failures := failures[key := 0];
      }
      assert failures == bumped && lockedUntil == locks;
      trace := trace + [Failure(key, now)];
    }

    /** A success clears the key's counter: login stores zero, recovery drops the entry. */
    method ClearFailures(key: string, now: real, drop: bool)
      requires Valid() && Clock(trace) <= now && !Locked(trace, key, now)
      modifies this`failures, this`trace
      ensures Valid() && trace == old(trace) + [Success(key, now)] && Clock(trace) == now
    {
      SnocKey(trace, Success(key, now), key);
      CountersSuccess(failures, lockedUntil, trace, key, now, drop);
      TimesStep(loginTimes, trace, Success(key, now));
      SessionsStep(sessions, trace, Success(key, now));
      failures := if drop then failures - {key} else failures[key := 0];
      trace := trace + [Success(key, now)];
    }

    method StoreSession(token: string, now: real)
      requires Valid() && Clock(trace) <= now
      modifies this`sessions, this`trace
      ensures Valid() && trace == old(trace) + [Issued(token, now)]
    {
      InvariantIssue(failures, lockedUntil, loginTimes, sessions, trace, token, now);
      ghost var stored := Stored(sessions, token, now);
      var second := now.Floor;
      sessions := map d | d in sessions && sessions[d].expiresAt > second :: sessions[d];
      sessions := sessions[Sha256(token) := Session(second, second + SESSION_TTL_SEC)];
      assert sessions == stored;
      trace := trace + [Issued(token, now)];
    }

    method RevokeAllSessions()
      requires Valid()
      modifies this`sessions, this`trace
      ensures Valid() && trace == old(trace) + [RevokedAll]
    {
      SnocKey(trace, RevokedAll, "");
      TimesStep(loginTimes, trace, RevokedAll);
      CountersStep(failures, lockedUntil, trace, RevokedAll);
      Snoc(trace, RevokedAll);
      sessions := map[];
      trace := trace + [RevokedAll];
    }

    method Logout(token: string)
      requires Valid()
      modifies this`sessions, this`trace
      ensures Valid() && trace == old(trace) + [LoggedOut(token)]
      ensures Logged(lower, Other, old(trace), trace)
    {
      InvariantLogout(failures, lockedUntil, loginTimes, sessions, trace, token);
      sessions := sessions - {Sha256(token)};
      trace := trace + [LoggedOut(token)];
    }

    method CheckSession(token: string, now: real) returns (ok: bool)
      requires Valid() && Clock(trace) <= now
      ensures ok == Live(trace, token, now)
    {
      if token == "" || Sha256(token) !in sessions {
        return false;
      }
      ok := sessions[Sha256(token)].expiresAt as real > now;
    }

    /** The throttle's bookkeeping for one attempt. */
    method NoteAttempt(key: string, now: real) returns (admitted: bool)
      requires Valid() && Clock(trace) <= now && !Locked(trace, key, now)
      modifies this`loginTimes, this`trace
      ensures Valid() && admitted == !Throttled(old(trace), key, now)
      ensures trace == if admitted then old(trace) + [Attempt(key, now)] else old(trace)
      ensures GuardOf(trace, key) == GuardOf(old(trace), key) && Clock(trace) <= now
    {
      var times := Recent(Get(loginTimes, key, []), now, RATE_WINDOW);
      if |times| >= LOGIN_RATE_PER_MIN {
        return false;
      }
      InvariantAttempt(failures, lockedUntil, loginTimes, sessions, trace, key, now);
      loginTimes := loginTimes[key := times + [now]];
      trace := trace + [Attempt(key, now)];
      return true;
    }

    /** Login's answer to a wrong credential. */
    method Refuse(key: string, now: real) returns (info: LoginInfo)
      requires Valid() && Clock(trace) <= now && !Locked(trace, key, now)
      modifies this`failures, this`lockedUntil, this`trace
      ensures Valid() && trace == old(trace) + [Failure(key, now)]
      ensures info == if Locked(trace, key, now) then LoginInfo(LockedOut, Some(LOCKOUT_SEC), None)
                      else LoginInfo(BadCredentials, None, Some(MAX_FAILURES - GuardOf(trace, key).fails))
    {
      SnocKey(trace, Failure(key, now), key);
      var fails := Get(failures, key, 0) + 1;
      BumpFailure(key, now);
      if fails >= MAX_FAILURES {
        return LoginInfo(LockedOut, Some(LOCKOUT_SEC), None);
      }
      return LoginInfo(BadCredentials, None, Some(MAX_FAILURES - fails));
    }

    /** The rest of a login whose attempt was admitted. */
    method Judge(key: string, ok: bool, now: real, token: string, storeNow: real)
      returns (issued: Option<string>, info: LoginInfo)
      requires Valid() && Clock(trace) <= now <= storeNow && !Locked(trace, key, now)
      modifies this`sessions, this`failures, this`lockedUntil, this`trace
      ensures Valid() && Judged(key, ok, now, token, storeNow, old(trace), trace, issued, info)
    {
      if !ok {
        info := Refuse(key, now);
        return None, info;
      }
      ClearFailures(key, now, false);
      StoreSession(token, storeNow);
      return Some(token), LoginInfo(Ok, None, None);
    }

    /** The rest of a login whose key is not locked. */
    method Try(key: string, ok: bool, now: real, token: string, storeNow: real)
      returns (issued: Option<string>, info: LoginInfo)
      requires Valid() && Clock(trace) <= now <= storeNow && !Locked(trace, key, now)
      modifies this`sessions, this`failures, this`lockedUntil, this`loginTimes, this`trace
      ensures Valid()
      ensures if Throttled(old(trace), key, now) then
                trace == old(trace) && issued == None && info == LoginInfo(RateLimited, None, None)
              else
                Judged(key, ok, now, token, storeNow, old(trace) + [Attempt(key, now)], trace, issued, info)
    {
      var admitted := NoteAttempt(key, now);
      if !admitted {
        return None, LoginInfo(RateLimited, None, None);
      }
      issued, info := Judge(key, ok, now, token, storeNow);
    }

    /** One login call at `now`; `storeNow` is the second clock reading, made when the session is stored. */
    method Login(username: string, password: string, now: real, token: string, storeNow: real)
      returns (issued: Option<string>, info: LoginInfo)
      requires Valid() && Clock(trace) <= now <= storeNow
      modifies this`sessions, this`failures, this`lockedUntil, this`loginTimes, this`trace
      ensures Valid()
      ensures Logged(lower, if issued.Some? then Right(username, now)
                            else if trace == old(trace) then Other else Wrong(username, now), old(trace), trace)
      ensures var key, before := lower(if username == "" then "?" else username), old(trace);
              if Locked(before, key, now) then
                && trace == before && issued == None
                && info == LoginInfo(LockedOut, Some((GuardOf(before, key).until - now).Floor), None)
              else if Throttled(before, key, now) then
                trace == before && issued == None && info == LoginInfo(RateLimited, None, None)
              else
                Judged(key, old(CredentialsOk(username, password)), now, token, storeNow,
                       before + [Attempt(key, now)], trace, issued, info)
    {
      var key := lower(if username == "" then "?" else username);
      if Get(lockedUntil, key, 0.0) > now {
        Unchanged(trace);
        return None, LoginInfo(LockedOut, Some((Get(lockedUntil, key, 0.0) - now).Floor), None);
      }
      ghost var before, ok := trace, CredentialsOk(username, password);
      issued, info := Try(key, CredentialsOk(username, password), now, token, storeNow);
      if Throttled(before, key, now) {
        Unchanged(before);
      } else {
        JudgedLogged(lower, username, ok, now, token, storeNow, before, trace, issued, info);
      }
    }

    /** Recovery's answer to a wrong user name or code. */
    method RefuseRecovery(key: string, now: real) returns (reason: Reason)
      requires Valid() && Clock(trace) <= now && !Locked(trace, key, now)
      modifies this`failures, this`lockedUntil, this`trace
      ensures Valid() && trace == old(trace) + [Failure(key, now)]
      ensures reason == if Locked(trace, key, now) then LockedOut else BadCredentials
    {
      BumpFailure(key, now);
      return if Get(lockedUntil, key, 0.0) > now then LockedOut else BadCredentials;
    }

    /** The rest of a recovery that is accepted. */
    method Renew(key: string, now: real, password: string, salt: string, newCode: string, newCodeSalt: string)
      requires Valid() && Clock(trace) <= now && !Locked(trace, key, now) && users.Some?
      modifies this`users, this`sessions, this`failures, this`trace
      ensures Valid() && trace == old(trace) + [RevokedAll, Success(key, now)]
      ensures users == Some(AfterRecovery(old(users).value, password, salt, newCode, newCodeSalt))
    {
      users := Some(AfterRecovery(users.value, password, salt, newCode, newCodeSalt));
      SnocKey(trace, RevokedAll, key);
      RevokeAllSessions();
      ClearFailures(key, now, true);
      assert trace == old(trace) + [RevokedAll, Success(key, now)];
    }

    /** One recovery call: a wrong user name or code counts as a login failure would. */
    method Recover(username: string, code: string, password: string, now: real,
                   salt: string, newCode: string, newCodeSalt: string)
      returns (reason: Reason)
      requires Valid() && Clock(trace) <= now
      modifies this`users, this`sessions, this`failures, this`lockedUntil, this`trace
      ensures Valid()
      ensures Logged(lower, if reason == Ok then Right(username, now)
                            else if trace == old(trace) then Other else Wrong(username, now), old(trace), trace)
      ensures var key, before, u := lower(if username == "" then "?" else username), old(trace), old(users);
              if Locked(before, key, now) then trace == before && reason == LockedOut
              else if u.None? then trace == before && reason == BadCredentials
              else if username == u.value.username && u.value.recovery.None? then
                trace == before && reason == RecoveryNotConfigured
              else if username != u.value.username || !CodeMatches(u.value, code) then
                && trace == before + [Failure(key, now)]
                && reason == if Locked(trace, key, now) then LockedOut else BadCredentials
              else if !PasswordOk(password) then trace == before && reason == WeakPassword
              else trace == before + [RevokedAll, Success(key, now)] && reason == Ok
      ensures users == if reason == Ok then Some(AfterRecovery(old(users).value, password, salt, newCode, newCodeSalt))
                       else old(users)
      ensures Moves(old(users), users)
    {
      var key := lower(if username == "" then "?" else username);
      RecoveryLogged(lower, username, now, trace);
      if Get(lockedUntil, key, 0.0) > now { return LockedOut; }
      if users.None? { return BadCredentials; }
      if username != users.value.username {
        reason := RefuseRecovery(key, now);
        return;
      }
      if users.value.recovery.None? { return RecoveryNotConfigured; }
      if !CodeMatches(users.value, code) {
        reason := RefuseRecovery(key, now);
        return;
      }
      if !PasswordOk(password) { return WeakPassword; }
      Renew(key, now, password, salt, newCode, newCodeSalt);
      return Ok;
    }

    method ChangePassword(oldPassword: string, password: string, salt: string) returns (reason: Reason)
      requires Valid()
      modifies this`users, this`sessions, this`trace
      ensures Valid()
      ensures reason == if old(users).None? || !PasswordMatches(old(users).value, oldPassword) then BadCredentials
                        else if !PasswordOk(password) then WeakPassword else Ok
      ensures reason != Ok ==> users == old(users) && trace == old(trace)
      ensures reason == Ok ==>
                && users == Some(AfterPasswordChange(old(users).value, password, salt))
                && trace == old(trace) + [RevokedAll]
      ensures Logged(lower, Other, old(trace), trace)
      ensures Moves(old(users), users)
    {
      Unchanged(trace);
      if users.None? || !PasswordMatches(users.value, oldPassword) { return BadCredentials; }
      if !PasswordOk(password) { return WeakPassword; }
      users := Some(AfterPasswordChange(users.value, password, salt));
      RevokeAllSessions();
      return Ok;
    }

    /** Only the holder of the password can rename the account. Afterwards the same password logs in under the new name
        and under no other, every secret is as good as before, and no session or lock has changed. */
    method ChangeUsername(password: string, name: string) returns (reason: Reason)
      requires Valid()
      modifies this`users
      ensures Valid()
      ensures reason == Ok <==> old(users).Some? && PasswordMatches(old(users).value, password) && ValidUsername(name)
      ensures reason == BadUsername ==> !ValidUsername(name)
      ensures reason == Ok || reason == BadUsername || reason == BadCredentials
      ensures reason == BadCredentials <==> old(users).None? || !PasswordMatches(old(users).value, password)
      ensures reason != Ok ==> users == old(users)
      ensures reason == Ok ==>
                && (forall n, p :: CredentialsOk(n, p) <==> n == name && PasswordMatches(old(users).value, p))
                && (forall c :: users.Some? && CodeMatches(users.value, c) <==> CodeMatches(old(users).value, c))
      ensures Moves(old(users), users)
    {
      if users.None? || !PasswordMatches(users.value, password) { return BadCredentials; }
      if !ValidUsername(name) { return BadUsername; }
      users := Some(users.value.(username := name));
      return Ok;
    }

    method LockoutRemaining(username: string, now: real) returns (seconds: int)
      requires Valid()
      ensures var left := GuardOf(trace, lower(if username == "" then "?" else username)).until - now;
              if left < 1.0 then seconds == 0 else seconds as real <= left < seconds as real + 1.0
    {
      var left := Get(lockedUntil, lower(if username == "" then "?" else username), 0.0) - now;
      seconds := if left.Floor > 0 then left.Floor else 0;
    }
  }
}
