/** lib/netcheck/diag/report.py: the weighted health score, in exact arithmetic. */
module HealthScore {
  import opened Rounding

  datatype Status = Pass | Warn | Fail | NotApplicable

  /** A check's weight in hundredths: whatever the table says, it is positive. */
  type Weight = w: int | w > 0 witness 1

  datatype Result = Result(weight: Weight, status: Status)

  function Penalty(s: Status): int
  {
    if s == Fail then 10 else if s == Warn then 3 else 0
  }

  function Share(r: Result): int { if r.status == NotApplicable then 0 else r.weight }

  /** The total weight of the applicable results. */
  function Total(rs: seq<Result>): (t: int)
    ensures t >= 0
  {
    if rs == [] then 0 else Total(rs[..|rs| - 1]) + Share(rs[|rs| - 1])
  }

  /** The weighted penalty of the applicable results. */
  function Penalties(rs: seq<Result>): int
  {
    if rs == [] then 0 else Penalties(rs[..|rs| - 1]) + Penalty(rs[|rs| - 1].status) * rs[|rs| - 1].weight
  }

  /** compute_score: 100 - 100 * penalty / (10 * total), rounded, and not below 0. */
  function Score(rs: seq<Result>): int
  {
    var t, p := Total(rs), Penalties(rs);
    if t == 0 then 100
    else
      var s := RoundHalfEven(100 * t - 10 * p, t);
      if s < 0 then 0 else s
  }

  datatype Level = Fault | Warning | Healthy

  function LevelOf(score: int): Level { if score < 70 then Fault else if score < 90 then Warning else Healthy }

  // ---------- the sums ----------

  lemma {:induction false} SumBounds(rs: seq<Result>)
    ensures 0 <= Total(rs) && 0 <= Penalties(rs) <= 10 * Total(rs)
    ensures Total(rs) == 0 ==> Penalties(rs) == 0
  {
    if rs != [] {
      SumBounds(rs[..|rs| - 1]);
    }
  }

  lemma {:induction false} SumConcat(a: seq<Result>, b: seq<Result>)
    ensures Total(a + b) == Total(a) + Total(b) && Penalties(a + b) == Penalties(a) + Penalties(b)
  {
    if b == [] {
      assert a + b == a;
    } else {
      assert (a + b)[..|a + b| - 1] == a + b[..|b| - 1];
      SumConcat(a, b[..|b| - 1]);
    }
  }

  /** The sums of a list around one of its results. */
  lemma {:induction false} SumAround(a: seq<Result>, r: Result, b: seq<Result>)
    ensures Total(a + [r] + b) == Total(a) + Share(r) + Total(b)
    ensures Penalties(a + [r] + b) == Penalties(a) + Penalty(r.status) * r.weight + Penalties(b)
  {
    SumConcat(a + [r], b);
    SumConcat(a, [r]);
    assert [r][..0] == [];
    assert Total([r]) == Share(r) && Penalties([r]) == Penalty(r.status) * r.weight;
  }

  // ---------- the score as an order on the two sums ----------

  lemma {:induction false} RatioOrder(t: int, p: int, u: int, q: int)
    requires t > 0 && u > 0 && p * u >= q * t
    ensures RoundHalfEven(100 * t - 10 * p, t) <= RoundHalfEven(100 * u - 10 * q, u)
  {
    assert (100 * t - 10 * p) * u == 100 * (t * u) - 10 * (p * u);
    assert (100 * u - 10 * q) * t == 100 * (t * u) - 10 * (q * t);
    RoundMonotone(100 * t - 10 * p, t, 100 * u - 10 * q, u);
  }

  /** The score is always between 0 and 100. */
  lemma {:induction false} ScoreRange(rs: seq<Result>)
    ensures 0 <= Score(rs) <= 100
  {
    SumBounds(rs);
    var t, p := Total(rs), Penalties(rs);
    if t > 0 {
      RoundMonotone(100 * t - 10 * p, t, 100, 1);
    }
  }

  /** A smaller average penalty never scores lower. */
  lemma {:induction false} ScoreOrder(rs: seq<Result>, ss: seq<Result>)
    requires Total(ss) > 0 ==> Total(rs) > 0
    requires Penalties(rs) * Total(ss) >= Penalties(ss) * Total(rs)
    ensures Score(rs) <= Score(ss)
  {
    SumBounds(rs);
    SumBounds(ss);
    var t, p, u, q := Total(rs), Penalties(rs), Total(ss), Penalties(ss);
    if u == 0 {
      ScoreRange(rs);
    } else {
      RatioOrder(t, p, u, q);
    }
  }

  /** Nothing against any check: the full score. */
  lemma {:induction false} PerfectScore(rs: seq<Result>)
    requires Penalties(rs) == 0
    ensures Score(rs) == 100
  {
    SumBounds(rs);
    var t := Total(rs);
    if t > 0 {
      RoundMonotone(100 * t - 10 * 0, t, 100, 1);
      RoundMonotone(100, 1, 100 * t - 10 * 0, t);
    }
  }

  lemma {:induction false} UniformPenalties(rs: seq<Result>, s: Status)
    requires s != NotApplicable && forall i :: 0 <= i < |rs| ==> rs[i].status in {s, NotApplicable}
    ensures Penalties(rs) == Penalty(s) * Total(rs)
  {
    if rs != [] {
      UniformPenalties(rs[..|rs| - 1], s);
    }
  }

  /** The fixed points of the scale: all applicable checks failing, warning or passing score 0, 70 or 100, whatever
      their weights. */
  lemma {:induction false} UniformScore(rs: seq<Result>, s: Status)
    requires s != NotApplicable && forall i :: 0 <= i < |rs| ==> rs[i].status in {s, NotApplicable}
    requires Total(rs) > 0
    ensures Score(rs) == if s == Fail then 0 else if s == Warn then 70 else 100
  {
    UniformPenalties(rs, s);
    var t, score := Total(rs), 100 - 10 * Penalty(s);
    assert 100 * t - 10 * (Penalty(s) * t) == score * t;
    RoundMonotone(100 * t - 10 * Penalties(rs), t, score, 1);
    RoundMonotone(score, 1, 100 * t - 10 * Penalties(rs), t);
  }

  lemma {:induction false} Cancelled<T>(a: multiset<T>, b: multiset<T>, r: T)
    ensures a + multiset{r} == b + multiset{r} ==> a == b
  {
    assert a == (a + multiset{r}) - multiset{r};
    assert b == (b + multiset{r}) - multiset{r};
  }

  /** A permutation holds the other list's last result somewhere, and without it the rests are permutations. */
  lemma {:induction false} FindLast<T>(x: seq<T>, y: seq<T>) returns (i: nat)
    requires x != [] && multiset(x) == multiset(y)
    ensures i < |y| && y[i] == x[|x| - 1] && y == y[..i] + [y[i]] + y[i + 1..]
    ensures multiset(x[..|x| - 1]) == multiset(y[..i] + y[i + 1..])
  {
    var n := |x| - 1;
    assert x == x[..n] + [x[n]];
    assert x[n] in multiset(y);
    i :| 0 <= i < |y| && y[i] == x[n];
    assert y == y[..i] + [y[i]] + y[i + 1..];
    assert multiset(x[..n]) == multiset(y[..i] + y[i + 1..]) by {
      Cancelled(multiset(x[..n]), multiset(y[..i] + y[i + 1..]), x[n]);
    }
  }

  /** The order of the results does not matter. */
  lemma {:induction false} ScoreIgnoresOrder(rs: seq<Result>, ss: seq<Result>)
    requires multiset(rs) == multiset(ss)
    ensures Total(rs) == Total(ss) && Penalties(rs) == Penalties(ss) && Score(rs) == Score(ss)
  {
    if rs == [] {
      assert |multiset(ss)| == 0;
    } else {
      var i := FindLast(rs, ss);
      ScoreIgnoresOrder(rs[..|rs| - 1], ss[..i] + ss[i + 1..]);
      SumAround(ss[..i], ss[i], ss[i + 1..]);
      SumConcat(ss[..i], ss[i + 1..]);
    }
  }

  /** Improving one result's status (fail to warn to pass) never lowers the score. */
  lemma {:induction false} ImprovementNeverLowers(a: seq<Result>, w: Weight, worse: Status, better: Status,
                                                  b: seq<Result>)
    requires worse != NotApplicable && better != NotApplicable && Penalty(better) <= Penalty(worse)
    ensures Score(a + [Result(w, worse)] + b) <= Score(a + [Result(w, better)] + b)
  {
    var rs, ss := a + [Result(w, worse)] + b, a + [Result(w, better)] + b;
    SumAround(a, Result(w, worse), b);
    SumAround(a, Result(w, better), b);
    SumBounds(a);
    SumBounds(b);
    MulLe(Penalty(better), Penalty(worse), w);
    MulLe(Penalties(ss), Penalties(rs), Total(rs));
    ScoreOrder(rs, ss);
  }

  lemma {:induction false} RemovedShare(t: int, p: int, c: int, w: int)
    ensures p * (t - w) - (p - c * w) * t == c * t * w - p * w
  {
    assert p * (t - w) == p * t - p * w;
    assert (p - c * w) * t == p * t - c * w * t;
    assert c * w * t == c * t * w by { assert c * w * t == c * (w * t) == c * (t * w) == c * t * w; }
  }

  /** Taking one check out of the count: the score is not lowered when its penalty is at least the average, and not
      raised when it is at most the average. */
  lemma {:induction false} BecomingNotApplicable(a: seq<Result>, w: Weight, s: Status, b: seq<Result>)
    requires s != NotApplicable
    ensures var before, after := a + [Result(w, s)] + b, a + [Result(w, NotApplicable)] + b;
            && (Penalty(s) * Total(before) >= Penalties(before) ==> Score(before) <= Score(after))
            && (Penalty(s) * Total(before) <= Penalties(before) && Total(after) > 0 ==> Score(after) <= Score(before))
  {
    var before, after := a + [Result(w, s)] + b, a + [Result(w, NotApplicable)] + b;
    SumAround(a, Result(w, s), b);
    SumAround(a, Result(w, NotApplicable), b);
    SumBounds(a);
    SumBounds(b);
    var t, p, c := Total(before), Penalties(before), Penalty(s);
    assert Total(after) == t - w && Penalties(after) == p - c * w;
    RemovedShare(t, p, c, w);
    if c * t >= p {
      MulLe(p, c * t, w);
      ScoreOrder(before, after);
    }
    if c * t <= p && Total(after) > 0 {
      MulLe(c * t, p, w);
      ScoreOrder(after, before);
    }
  }

  lemma {:induction false} PassBecomingNotApplicable(a: seq<Result>, w: Weight, b: seq<Result>)
    ensures Score(a + [Result(w, NotApplicable)] + b) <= Score(a + [Result(w, Pass)] + b)
  {
    var before, after := a + [Result(w, Pass)] + b, a + [Result(w, NotApplicable)] + b;
    BecomingNotApplicable(a, w, Pass, b);
    SumBounds(before);
    SumBounds(after);
    SumAround(a, Result(w, Pass), b);
    SumAround(a, Result(w, NotApplicable), b);
    if Total(after) == 0 {
      PerfectScore(before);
      ScoreRange(after);
    }
  }

  /** A failing check becoming not applicable never lowers the score; a passing one never raises it. */
  lemma {:induction false} FailOrPassBecomingNotApplicable(a: seq<Result>, w: Weight, b: seq<Result>)
    ensures Score(a + [Result(w, Fail)] + b) <= Score(a + [Result(w, NotApplicable)] + b)
    ensures Score(a + [Result(w, NotApplicable)] + b) <= Score(a + [Result(w, Pass)] + b)
  {
    assert Score(a + [Result(w, Fail)] + b) <= Score(a + [Result(w, NotApplicable)] + b) by {
      BecomingNotApplicable(a, w, Fail, b);
      SumBounds(a + [Result(w, Fail)] + b);
    }
    PassBecomingNotApplicable(a, w, b);
  }

  lemma {:induction false} NoFailPenalties(rs: seq<Result>)
    requires forall i :: 0 <= i < |rs| ==> rs[i].status != Fail
    ensures Penalties(rs) <= 3 * Total(rs)
  {
    if rs != [] {
      NoFailPenalties(rs[..|rs| - 1]);
    }
  }

  /** A list without a failure scores at least 70: it never reaches the level "fault". */
  lemma {:induction false} NoFailNoFault(rs: seq<Result>)
    requires forall i :: 0 <= i < |rs| ==> rs[i].status != Fail
    ensures Score(rs) >= 70 && LevelOf(Score(rs)) != Fault
  {
    NoFailPenalties(rs);
    SumBounds(rs);
    var t, p := Total(rs), Penalties(rs);
    if t > 0 {
      RoundMonotone(70, 1, 100 * t - 10 * p, t);
    }
  }

  /** A rounded fraction reaches an even number n exactly from n - 1/2 on. */
  lemma {:induction false} ReachesIff(num: int, den: int, n: int)
    requires den > 0 && n % 2 == 0
    ensures RoundHalfEven(num, den) >= n <==> 2 * num >= (2 * n - 1) * den
  {
    var f := RoundHalfEven(num, den);
    RoundNear(num, den);
    if f >= n {
      MulLe(2 * n - 1, 2 * f - 1, den);
    } else if f < n - 1 {
      MulLt(2 * f + 1, 2 * n - 1, den);
    }
  }

  /** Which level a list of results gets, from its two sums alone: a fault from an average penalty above 3.05 on, and
      healthy up to 1.05, both of 10. */
  lemma {:induction false} LevelIff(rs: seq<Result>)
    ensures LevelOf(Score(rs)) == Fault <==> 20 * Penalties(rs) > 61 * Total(rs)
    ensures LevelOf(Score(rs)) == Healthy <==> 20 * Penalties(rs) <= 21 * Total(rs)
  {
    SumBounds(rs);
    var t, p := Total(rs), Penalties(rs);
    if t > 0 {
      ReachesIff(100 * t - 10 * p, t, 70);
      ReachesIff(100 * t - 10 * p, t, 90);
    }
  }
}
