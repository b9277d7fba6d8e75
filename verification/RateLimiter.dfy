/** lib/netcheck/router.py: the sliding-window limiter, over every run of calls. */
module RateLimiter {
  import opened PythonBasics
  import opened SlidingWindow

  datatype Call = Call(key: string, at: real, limit: int, window: real)

  /** One key's list and the decision, after one call. */
  function Decide(hits: seq<real>, c: Call): (seq<real>, bool)
  {
    var recent := Recent(hits, c.at, c.window);
    if |recent| >= c.limit then (recent, false) else (recent + [c.at], true)
  }

  /** The limiter's table after a run of calls, oldest first. */
  ghost function HitsAfter(calls: seq<Call>): map<string, seq<real>>
  {
    if calls == [] then map[]
    else
      var before := HitsAfter(calls[..|calls| - 1]);
      var c := calls[|calls| - 1];
      before[c.key := Decide(Get(before, c.key, []), c).0]
  }

  /** What the limiter answers to the last call of a run. */
  ghost predicate Allowed(calls: seq<Call>)
    requires calls != []
  {
    var c := calls[|calls| - 1];
    Decide(Get(HitsAfter(calls[..|calls| - 1]), c.key, []), c).1
  }

  /** The full history: every admitted time of a key, nothing pruned. */
  ghost function Admitted(calls: seq<Call>, key: string): seq<real>
  {
    if calls == [] then []
    else
      var before := Admitted(calls[..|calls| - 1], key);
      var c := calls[|calls| - 1];
      if c.key == key && Allowed(calls) then before + [c.at] else before
  }

  /** The clock never runs backwards. */
  ghost predicate ClockMonotone(calls: seq<Call>)
  {
    forall i, j :: 0 <= i < j < |calls| ==> calls[i].at <= calls[j].at
  }

  /** The call at i was one of the key's, and was allowed. */
  ghost predicate AdmittedAt(calls: seq<Call>, key: string, i: nat)
  {
    i < |calls| && calls[i].key == key && Allowed(calls[..i + 1])
  }

  /** Every admitted time that a call at `now` still wants was still wanted at each later call of its key. */
  ghost predicate KeptWanted(calls: seq<Call>, key: string, now: real, window: real)
  {
    forall i: nat, j: nat ::
      AdmittedAt(calls, key, i) && now - calls[i].at < window && i < j < |calls| && calls[j].key == key ==>
        calls[j].at - calls[i].at < calls[j].window
  }

  lemma {:induction false} AdmittedAtPrefix(calls: seq<Call>, c: Call, key: string, i: nat)
    requires i < |calls|
    ensures AdmittedAt(calls + [c], key, i) <==> AdmittedAt(calls, key, i)
  {
    assert (calls + [c])[..i + 1] == calls[..i + 1];
  }

  /** The time t is that of some admitted call. */
  ghost predicate AdmittedTime(calls: seq<Call>, key: string, t: real)
  {
    exists i: nat :: AdmittedAt(calls, key, i) && calls[i].at == t
  }

  lemma {:induction false} AdmittedTimeStep(calls: seq<Call>, c: Call, key: string, t: real)
    ensures AdmittedTime(calls + [c], key, t) <==>
            AdmittedTime(calls, key, t) || (c.key == key && Allowed(calls + [c]) && c.at == t)
  {
    var all := calls + [c];
    assert all[..|calls| + 1] == all;
    forall i: nat | i < |calls| ensures AdmittedAt(all, key, i) <==> AdmittedAt(calls, key, i) {
      AdmittedAtPrefix(calls, c, key, i);
    }
    if c.key == key && Allowed(all) {
      assert AdmittedAt(all, key, |calls|);
    }
  }

  /** The admitted times are those of the admitted calls. */
  lemma {:induction false} AdmittedMember(calls: seq<Call>, key: string, t: real)
    ensures t in Admitted(calls, key) <==> AdmittedTime(calls, key, t)
  {
    if calls != [] {
      var before, c := calls[..|calls| - 1], calls[|calls| - 1];
      assert calls == before + [c];
      AdmittedMember(before, key, t);
      AdmittedTimeStep(before, c, key, t);
    }
  }

  lemma {:induction false} RunStep(calls: seq<Call>, c: Call)
    ensures HitsAfter(calls + [c]) == HitsAfter(calls)[c.key := Decide(Get(HitsAfter(calls), c.key, []), c).0]
    ensures Allowed(calls + [c]) == Decide(Get(HitsAfter(calls), c.key, []), c).1
    ensures Admitted(calls + [c], c.key) ==
            Admitted(calls, c.key) + if Decide(Get(HitsAfter(calls), c.key, []), c).1 then [c.at] else []
  {
    assert (calls + [c])[..|calls|] == calls;
  }

  /** What a call adds to the stored list and to the full history, as a later call counts them. */
  lemma {:induction false} LastCall(before: seq<Call>, c: Call, key: string, now: real, window: real)
    ensures c.key == key ==>
              var hits, calls := Get(HitsAfter(before), key, []), before + [c];
              var more := if Allowed(calls) && now - c.at < window then [c.at] else [];
              && Recent(Get(HitsAfter(calls), key, []), now, window)
                 == Recent(Recent(hits, c.at, c.window), now, window) + more
              && Recent(Admitted(calls, key), now, window) == Recent(Admitted(before, key), now, window) + more
    ensures c.key != key ==>
              && Get(HitsAfter(before + [c]), key, []) == Get(HitsAfter(before), key, [])
              && Admitted(before + [c], key) == Admitted(before, key)
  {
    assert (before + [c])[..|before|] == before;
    RunStep(before, c);
    if c.key == key && Allowed(before + [c]) {
      RecentConcat(Recent(Get(HitsAfter(before), key, []), c.at, c.window), [c.at], now, window);
      RecentConcat(Admitted(before, key), [c.at], now, window);
    }
  }

  /** The stored list never holds more recent times than the full history. */
  lemma {:induction false} HitsAreFewer(calls: seq<Call>, key: string, now: real, window: real)
    ensures |Recent(Get(HitsAfter(calls), key, []), now, window)| <= |Recent(Admitted(calls, key), now, window)|
  {
    if calls != [] {
      var n := |calls| - 1;
      var before, c := calls[..n], calls[n];
      HitsAreFewer(before, key, now, window);
      assert calls == before + [c];
      LastCall(before, c, key, now, window);
      PruneLength(Get(HitsAfter(before), key, []), c.at, c.window, now, window);
    }
  }

  /** This call keeps every admitted time that the later call wants. */
  ghost predicate CallKeeps(before: seq<Call>, c: Call, key: string, now: real, window: real)
  {
    c.key == key ==> forall t :: t in Admitted(before, key) && now - t < window ==> c.at - t < c.window
  }

  lemma {:induction false} KeptBefore(before: seq<Call>, c: Call, key: string, now: real, window: real)
    requires forall i: nat | i < |before| :: AdmittedAt(before + [c], key, i) <==> AdmittedAt(before, key, i)
    requires KeptWanted(before + [c], key, now, window)
    ensures KeptWanted(before, key, now, window) && CallKeeps(before, c, key, now, window)
  {
    var calls, n := before + [c], |before|;
    assert KeptWanted(before, key, now, window) by {
      forall i: nat, j: nat | AdmittedAt(before, key, i) && now - before[i].at < window && i < j < n &&
          before[j].key == key
        ensures before[j].at - before[i].at < before[j].window
      {
        assert AdmittedAt(calls, key, i) && calls[i] == before[i] && calls[j] == before[j];
      }
    }
    if c.key == key {
      forall t | t in Admitted(before, key) && now - t < window ensures c.at - t < c.window {
        AdmittedMember(before, key, t);
        var i: nat :| AdmittedAt(before, key, i) && before[i].at == t;
        assert AdmittedAt(calls, key, i) && calls[n] == c && calls[i] == before[i];
      }
    }
  }

  lemma {:induction false} KeptNotBefore(before: seq<Call>, c: Call, key: string, now: real, window: real)
    requires forall i: nat | i < |before| :: AdmittedAt(before + [c], key, i) <==> AdmittedAt(before, key, i)
    requires !KeptWanted(before + [c], key, now, window)
    ensures !(KeptWanted(before, key, now, window) && CallKeeps(before, c, key, now, window))
  {
    var calls := before + [c];
    var i: nat, j: nat :| AdmittedAt(calls, key, i) && now - calls[i].at < window && i < j < |calls| &&
        calls[j].key == key
                       && !(calls[j].at - calls[i].at < calls[j].window);
    assert AdmittedAt(before, key, i) && calls[i] == before[i];
    if j < |before| {
      assert calls[j] == before[j];
    } else {
      AdmittedMember(before, key, before[i].at);
    }
  }

  /** One call further, the wanted times are kept exactly when they were before and this call keeps them too. */
  lemma {:induction false} KeptWantedStep(before: seq<Call>, c: Call, key: string, now: real, window: real)
    ensures KeptWanted(before + [c], key, now, window) <==>
            KeptWanted(before, key, now, window) && CallKeeps(before, c, key, now, window)
  {
    forall i: nat | i < |before| ensures AdmittedAt(before + [c], key, i) <==> AdmittedAt(before, key, i) {
      AdmittedAtPrefix(before, c, key, i);
    }
    if KeptWanted(before + [c], key, now, window) {
      KeptBefore(before, c, key, now, window);
    } else {
      KeptNotBefore(before, c, key, now, window);
    }
  }

  /** When two lists hold the same recent times, pruning the first loses none of them exactly when it keeps all that
      the second wants. */
  lemma {:induction false} SameWanted(hits: seq<real>, all: seq<real>, c: Call, now: real, window: real)
    ensures Recent(hits, now, window) == Recent(all, now, window) ==>
              ((forall t :: t in hits && now - t < window ==> c.at - t < c.window) <==>
               (forall t :: t in all && now - t < window ==> c.at - t < c.window))
    ensures (forall t :: t in hits && now - t < window ==> c.at - t < c.window) ==>
              Recent(Recent(hits, c.at, c.window), now, window) == Recent(hits, now, window)
  {
    forall t ensures t in Recent(hits, now, window) <==> t in hits && now - t < window {
      RecentMember(hits, now, window, t);
    }
    forall t ensures t in Recent(all, now, window) <==> t in all && now - t < window {
      RecentMember(all, now, window, t);
    }
    if forall t :: t in hits && now - t < window ==> c.at - t < c.window {
      assert forall i :: 0 <= i < |hits| ==> hits[i] in hits;
      PruneLossless(hits, c.at, c.window, now, window);
    }
  }

  ghost predicate AgreesIff(calls: seq<Call>, key: string, now: real, window: real)
  {
    var hits, all := Recent(Get(HitsAfter(calls), key, []), now, window), Recent(Admitted(calls, key), now, window);
    && (|hits| == |all| <==> KeptWanted(calls, key, now, window))
    && (hits == all <==> KeptWanted(calls, key, now, window))
  }

  lemma {:induction false} AgreesStep(before: seq<Call>, c: Call, key: string, now: real, window: real)
    requires AgreesIff(before, key, now, window)
    ensures AgreesIff(before + [c], key, now, window)
  {
    var hits := Get(HitsAfter(before), key, []);
    HitsAreFewer(before, key, now, window);
    LastCall(before, c, key, now, window);
    KeptWantedStep(before, c, key, now, window);
    if c.key == key {
      PruneLength(hits, c.at, c.window, now, window);
      SameWanted(hits, Admitted(before, key), c, now, window);
    }
  }

  /** Exactly when the pruned list serves as well as the full history, for any run at all: a later call counts as many
      recent times in the one as in the other, whatever its limit, if and only if every admitted time it still wants was
      still wanted at each later call of the key. The two lists of recent times are then the same. */
  lemma {:induction false} PrunedListAgreesIff(calls: seq<Call>, key: string, now: real, window: real)
    ensures var hits := Recent(Get(HitsAfter(calls), key, []), now, window);
            var all := Recent(Admitted(calls, key), now, window);
            && (|hits| == |all| <==> KeptWanted(calls, key, now, window))
            && (hits == all <==> KeptWanted(calls, key, now, window))
  {
    if calls != [] {
      var before, c := calls[..|calls| - 1], calls[|calls| - 1];
      assert calls == before + [c];
      PrunedListAgreesIff(before, key, now, window);
      AgreesStep(before, c, key, now, window);
    }
  }

  /** With a clock that never goes back and no earlier call of the key with a shorter window, it always does. */
  lemma {:induction false} PrunedListAgrees(calls: seq<Call>, key: string, now: real, window: real)
    requires ClockMonotone(calls)
    requires forall i :: 0 <= i < |calls| ==> calls[i].at <= now
    requires forall i :: 0 <= i < |calls| && calls[i].key == key ==> window <= calls[i].window
    ensures Recent(Get(HitsAfter(calls), key, []), now, window) == Recent(Admitted(calls, key), now, window)
  {
    PrunedListAgreesIff(calls, key, now, window);
  }

  /** The limiter then answers as if it kept every admitted time. */
  lemma {:induction false} DecisionMatchesFullHistory(calls: seq<Call>)
    requires calls != [] && ClockMonotone(calls)
    requires var c := calls[|calls| - 1];
             forall i :: 0 <= i < |calls| && calls[i].key == c.key ==> c.window <= calls[i].window
    ensures var c := calls[|calls| - 1];
            Allowed(calls) <==> |Recent(Admitted(calls[..|calls| - 1], c.key), c.at, c.window)| < c.limit
  {
    var c := calls[|calls| - 1];
    PrunedListAgrees(calls[..|calls| - 1], c.key, c.at, c.window);
  }

  lemma {:induction false} AdmittedIsAdmissible(calls: seq<Call>, key: string, limit: int, window: real)
    requires ClockMonotone(calls)
    requires forall i :: 0 <= i < |calls| && calls[i].key == key ==>
             calls[i].limit <= limit && window <= calls[i].window
    ensures Admissible(Admitted(calls, key), limit, window)
  {
    if calls != [] {
      var n := |calls| - 1;
      var before, c := Admitted(calls[..n], key), calls[n];
      AdmittedIsAdmissible(calls[..n], key, limit, window);
      if c.key == key && Allowed(calls) {
        PrunedListAgrees(calls[..n], key, c.at, window);
        NarrowerKeepsFewer(Get(HitsAfter(calls[..n]), key, []), c.at, window, c.window);
        var after := before + [c.at];
        forall i | 0 <= i < |after| ensures |Recent(after[..i], after[i], window)| < limit {
          assert after[..i] == before[..i];
          if i == |before| {
            assert before[..i] == before;
          }
        }
      }
    }
  }

  /** Over every run, any half-open window no longer than the calls' own holds at most `limit` admitted calls of
      a key. */
  lemma {:induction false} LimiterWindowBound(calls: seq<Call>, key: string, limit: int, window: real, from: real)
    requires 0 <= limit && ClockMonotone(calls)
    requires forall i :: 0 <= i < |calls| && calls[i].key == key ==>
             calls[i].limit <= limit && window <= calls[i].window
    ensures CountIn(Admitted(calls, key), from, from + window) <= limit
  {
    AdmittedIsAdmissible(calls, key, limit, window);
    WindowBound(Admitted(calls, key), limit, window, from);
  }

  class Limiter {
    var hits: map<string, seq<real>>
    ghost var calls: seq<Call>

    ghost predicate Valid()
      reads this
    {
      hits == HitsAfter(calls)
    }

    constructor ()
      ensures Valid() && calls == []
    {
      hits, calls := map[], [];
    }

    method Allow(key: string, limit: int, window: real, now: real) returns (allowed: bool)
      requires Valid()
      modifies this
      ensures Valid()
      ensures calls == old(calls) + [Call(key, now, limit, window)]
      ensures allowed == Allowed(calls)
    {
      ghost var c := Call(key, now, limit, window);
      assert (calls + [c])[..|calls|] == calls;
      var recent := Recent(Get(hits, key, []), now, window);
      calls := calls + [c];
      if |recent| >= limit {
        hits := hits[key := recent];
        return false;
      }
      hits := hits[key := recent + [now]];
      return true;
    }
  }
}
