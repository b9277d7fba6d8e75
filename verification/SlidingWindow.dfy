/** Sliding-window admission: the list comprehension `[t for t in ts if now - t < window]`
    shared by the router's limiter and the login throttle, and what pruning by it preserves. */
module SlidingWindow {

  /** The times of `ts` still inside the window at `now`, in order. */
  function Recent(ts: seq<real>, now: real, window: real): seq<real>
  {
    if ts == [] then []
    else
      var rest := Recent(ts[..|ts| - 1], now, window);
      var t := ts[|ts| - 1];
      if now - t < window then rest + [t] else rest
  }

  /** How many times fall in the half-open interval [from, to). */
  ghost function CountIn(ts: seq<real>, from: real, to: real): nat
  {
    if ts == [] then 0
    else
      var t := ts[|ts| - 1];
      CountIn(ts[..|ts| - 1], from, to) + if from <= t < to then 1 else 0
  }

  /** Every time was admitted when fewer than `limit` earlier ones were inside the window. */
  ghost predicate Admissible(ts: seq<real>, limit: int, window: real)
  {
    forall i :: 0 <= i < |ts| ==> |Recent(ts[..i], ts[i], window)| < limit
  }

  lemma {:induction false} RecentMember(ts: seq<real>, now: real, window: real, t: real)
    ensures t in Recent(ts, now, window) <==> t in ts && now - t < window
  {
    if ts != [] {
      RecentMember(ts[..|ts| - 1], now, window, t);
      assert ts == ts[..|ts| - 1] + [ts[|ts| - 1]];
    }
  }

  lemma {:induction false} RecentConcat(a: seq<real>, b: seq<real>, now: real, window: real)
    ensures Recent(a + b, now, window) == Recent(a, now, window) + Recent(b, now, window)
  {
    if b == [] {
      assert a + b == a;
    } else {
      assert (a + b)[..|a + b| - 1] == a + b[..|b| - 1];
      RecentConcat(a, b[..|b| - 1], now, window);
    }
  }

  lemma {:induction false} PruneLossless(ts: seq<real>, pruneAt: real, pruneWindow: real, now: real, window: real)
    requires forall i :: 0 <= i < |ts| && now - ts[i] < window ==> pruneAt - ts[i] < pruneWindow
    ensures Recent(Recent(ts, pruneAt, pruneWindow), now, window) == Recent(ts, now, window)
  {
    if ts != [] {
      PruneLossless(ts[..|ts| - 1], pruneAt, pruneWindow, now, window);
      var kept := Recent(ts[..|ts| - 1], pruneAt, pruneWindow);
      assert (kept + [ts[|ts| - 1]])[..|kept|] == kept;
    }
  }

  /** Pruning at one call changes a later call's list exactly when it drops a time the later call still wants. */
  lemma {:induction false} PruneLosslessIff(ts: seq<real>, pruneAt: real, pruneWindow: real, now: real, window: real)
    ensures Recent(Recent(ts, pruneAt, pruneWindow), now, window) == Recent(ts, now, window)
       <==> forall i :: 0 <= i < |ts| && now - ts[i] < window ==> pruneAt - ts[i] < pruneWindow
  {
    var pruned := Recent(ts, pruneAt, pruneWindow);
    if forall i :: 0 <= i < |ts| && now - ts[i] < window ==> pruneAt - ts[i] < pruneWindow {
      PruneLossless(ts, pruneAt, pruneWindow, now, window);
    } else {
      var i :| 0 <= i < |ts| && now - ts[i] < window && !(pruneAt - ts[i] < pruneWindow);
      var t := ts[i];
      RecentMember(ts, now, window, t);
      RecentMember(pruned, now, window, t);
      RecentMember(ts, pruneAt, pruneWindow, t);
    }
  }

  /** Pruning never lengthens what a later call counts, and leaves its length exactly when it loses none of it. */
  lemma {:induction false} PruneLength(ts: seq<real>, pruneAt: real, pruneWindow: real, now: real, window: real)
    ensures |Recent(Recent(ts, pruneAt, pruneWindow), now, window)| <= |Recent(ts, now, window)|
    ensures |Recent(Recent(ts, pruneAt, pruneWindow), now, window)| == |Recent(ts, now, window)| ==>
              forall t :: t in ts && now - t < window ==> pruneAt - t < pruneWindow
  {
    if ts != [] {
      var n := |ts| - 1;
      PruneLength(ts[..n], pruneAt, pruneWindow, now, window);
      var kept := Recent(ts[..n], pruneAt, pruneWindow);
      assert (kept + [ts[n]])[..|kept|] == kept;
      assert ts == ts[..n] + [ts[n]];
    }
  }

  /** What an admitted time sees: everything counted in a window that contains it. */
  lemma {:induction false} CountedAreRecent(ts: seq<real>, from: real, window: real, now: real)
    requires now < from + window
    ensures CountIn(ts, from, from + window) <= |Recent(ts, now, window)|
  {
    if ts != [] {
      CountedAreRecent(ts[..|ts| - 1], from, window, now);
    }
  }

  /** The sliding-window bound: no half-open window of the given length holds more than `limit` admissions. */
  lemma {:induction false} WindowBound(ts: seq<real>, limit: int, window: real, from: real)
    requires 0 <= limit && Admissible(ts, limit, window)
    ensures CountIn(ts, from, from + window) <= limit
  {
    if ts != [] {
      var n := |ts| - 1;
      var prefix := ts[..n];
      assert Admissible(prefix, limit, window) by {
        forall i | 0 <= i < n ensures |Recent(prefix[..i], prefix[i], window)| < limit {
          assert prefix[..i] == ts[..i];
        }
      }
      WindowBound(prefix, limit, window, from);
      if from <= ts[n] < from + window {
        CountedAreRecent(prefix, from, window, ts[n]);
      }
    }
  }

  /** A narrower window forgives no one: admissible for a long window is admissible for a shorter one. */
  lemma {:induction false} NarrowerKeepsFewer(ts: seq<real>, now: real, window: real, wider: real)
    requires window <= wider
    ensures |Recent(ts, now, window)| <= |Recent(ts, now, wider)|
  {
    if ts != [] {
      NarrowerKeepsFewer(ts[..|ts| - 1], now, window, wider);
    }
  }
}
