/** lib/netcheck/bandwidth/traffic.py: the same telescoping from /proc/net/dev, in bytes a second. */
module TrafficSampling {
  import C = TrafficCounters

  datatype Sample = Sample(rxBytes: int, txBytes: int)
  datatype Entry = Entry(sample: Sample, rxBps: real, txBps: real)

  type Reading = map<string, Sample>

  datatype Sampler = Sampler(traffic: map<string, Entry>, prev: Reading, prevAt: real)

  function Max0(x: int): int { if x > 0 then x else 0 }

  /** Bytes a second; never negative. The caller has checked that time passed. */
  function Bps(current: int, previous: int, seconds: real): real
  {
    if seconds > 0.0 then Max0(current - previous) as real / seconds else 0.0
  }

  function EntryFor(s: Sampler, c: Sample, iface: string, now: real): Entry
  {
    if iface in s.prev && now > s.prevAt && s.prevAt > 0.0 then
      var dt := now - s.prevAt;
      Entry(c, Bps(c.rxBytes, s.prev[iface].rxBytes, dt), Bps(c.txBytes, s.prev[iface].txBytes, dt))
    else Entry(c, 0.0, 0.0)
  }

  /** The new entries of the interfaces read, but for those still to be treated. */
  function Entries(s: Sampler, cur: Reading, now: real, todo: set<string>): map<string, Entry>
  {
    map iface | iface in cur && iface !in todo :: EntryFor(s, cur[iface], iface, now)
  }

  /** One tick: every interface read gets a new entry; one no longer read keeps its last. */
  function Ticked(s: Sampler, cur: Reading, now: real): Sampler
  {
    Sampler(s.traffic + Entries(s, cur, now, {}), cur, now)
  }

  function BytesOf(s: Sample, outgoing: bool): int { if outgoing then s.txBytes else s.rxBytes }

  function EntryRate(e: Entry, outgoing: bool): real { if outgoing then e.txBps else e.rxBps }

  /** What an entry says: the bytes just read, and rates that are never negative. A rate is the growth over the time
      since the reading before; it is zero for an interface not read then, and for a counter that went back. */
  ghost predicate Rated(s: Sampler, e: Entry, c: Sample, iface: string, now: real, outgoing: bool)
  {
    && e.sample == c
    && EntryRate(e, outgoing) >= 0.0
    && if iface in s.prev && now > s.prevAt > 0.0 && BytesOf(s.prev[iface], outgoing) <= BytesOf(c, outgoing) then
         EntryRate(e, outgoing) * (now - s.prevAt) == (BytesOf(c, outgoing) - BytesOf(s.prev[iface], outgoing)) as real
       else EntryRate(e, outgoing) == 0.0
  }

  /** What a tick leaves: each interface read is rated anew in both directions, the others keep their entry. */
  ghost predicate Sampled(s: Sampler, after: Sampler, cur: Reading, now: real)
  {
    && after.prev == cur && after.prevAt == now && after.traffic.Keys == s.traffic.Keys + cur.Keys
    && (forall i, outgoing :: i in cur ==> Rated(s, after.traffic[i], cur[i], i, now, outgoing))
    && (forall i :: i in s.traffic && i !in cur ==> after.traffic[i] == s.traffic[i])
  }

  lemma {:induction false} TimesBack(bytes: int, dt: real)
    requires dt > 0.0
    ensures C.Amount(bytes as real / dt, dt) == bytes as real
  {
  }

  lemma {:induction false} EntryRated(s: Sampler, c: Sample, iface: string, now: real, outgoing: bool)
    ensures Rated(s, EntryFor(s, c, iface, now), c, iface, now, outgoing)
  {
    if iface in s.prev && now > s.prevAt > 0.0 {
      var grown := BytesOf(c, outgoing) - BytesOf(s.prev[iface], outgoing);
      TimesBack(Max0(grown), now - s.prevAt);
    }
  }

  lemma {:induction false} TickedSamples(s: Sampler, cur: Reading, now: real)
    ensures Sampled(s, Ticked(s, cur, now), cur, now)
  {
    var after := Ticked(s, cur, now);
    assert Entries(s, cur, now, {}).Keys == cur.Keys;
    forall i, outgoing | i in cur ensures Rated(s, after.traffic[i], cur[i], i, now, outgoing) {
      EntryRated(s, cur[i], i, now, outgoing);
    }
  }

  lemma {:induction false} OneEntryMore(s: Sampler, cur: Reading, now: real, todo: set<string>, iface: string)
    requires iface in cur && iface in todo
    ensures (s.traffic + Entries(s, cur, now, todo))[iface := EntryFor(s, cur[iface], iface, now)]
         == s.traffic + Entries(s, cur, now, todo - {iface})
  {
  }

  datatype Tick = Tick(reading: Reading, at: real)

  class TrafficSampler {
    var traffic: map<string, Entry>
    var prev: Reading
    var prevAt: real

    function View(): Sampler
      reads this
    {
      Sampler(traffic, prev, prevAt)
    }

    constructor ()
      ensures View() == Sampler(map[], map[], 0.0)
    {
      traffic, prev, prevAt := map[], map[], 0.0;
    }

    method Tick(cur: Reading, now: real)
      modifies this
      ensures View() == Ticked(old(View()), cur, now)
    {
      var todo := cur.Keys;
      while todo != {}
        invariant todo <= cur.Keys && prev == old(prev) && prevAt == old(prevAt)
        invariant traffic == old(traffic) + Entries(old(View()), cur, now, todo)
        decreases |todo|
      {
        var iface :| iface in todo;
        var c := cur[iface];
        var entry := Entry(c, 0.0, 0.0);
        if iface in prev && now > prevAt && prevAt > 0.0 {
          var dt := now - prevAt;
          entry := entry.(rxBps := Bps(c.rxBytes, prev[iface].rxBytes, dt));
          entry := entry.(txBps := Bps(c.txBytes, prev[iface].txBytes, dt));
        }
        assert entry == EntryFor(old(View()), cur[iface], iface, now);
        OneEntryMore(old(View()), cur, now, todo, iface);
        traffic := traffic[iface := entry];
        todo := todo - {iface};
      }
      prev := cur;
      prevAt := now;
    }
  }

  ghost function SamplerAfter(s: Sampler, ticks: seq<Tick>): Sampler
  {
    if ticks == [] then s
    else Ticked(SamplerAfter(s, ticks[..|ticks| - 1]), ticks[|ticks| - 1].reading, ticks[|ticks| - 1].at)
  }

  /** What the last tick reports of an interface in one direction: its rate times the time since the tick before. */
  ghost function LastReported(s: Sampler, ticks: seq<Tick>, iface: string, outgoing: bool): real
    requires |ticks| > 1
  {
    var n, now := |ticks| - 1, SamplerAfter(s, ticks);
    if iface in now.traffic then
      C.Amount(EntryRate(now.traffic[iface], outgoing), ticks[n].at - ticks[n - 1].at)
    else 0.0
  }

  /** That, summed over the ticks after the first. */
  ghost function Reported(s: Sampler, ticks: seq<Tick>, iface: string, outgoing: bool): real
  {
    if |ticks| <= 1 then 0.0
    else Reported(s, ticks[..|ticks| - 1], iface, outgoing) + LastReported(s, ticks, iface, outgoing)
  }

  /** An interface read at every tick, with a positive clock that moves on and a counter that never goes back. */
  ghost predicate Steady(ticks: seq<Tick>, iface: string, outgoing: bool)
  {
    && (forall i :: 0 <= i < |ticks| ==> iface in ticks[i].reading && ticks[i].at > 0.0)
    && (forall i :: 0 < i < |ticks| ==>
          && ticks[i - 1].at < ticks[i].at
          && BytesOf(ticks[i - 1].reading[iface], outgoing) <= BytesOf(ticks[i].reading[iface], outgoing))
  }

  lemma {:induction false} TickReports(s: Sampler, cur: Reading, now: real, iface: string, outgoing: bool)
    requires iface in cur && iface in s.prev && now > s.prevAt > 0.0
    requires BytesOf(s.prev[iface], outgoing) <= BytesOf(cur[iface], outgoing)
    ensures iface in Ticked(s, cur, now).traffic
    ensures C.Amount(EntryRate(Ticked(s, cur, now).traffic[iface], outgoing), now - s.prevAt)
         == (BytesOf(cur[iface], outgoing) - BytesOf(s.prev[iface], outgoing)) as real
  {
    TimesBack(BytesOf(cur[iface], outgoing) - BytesOf(s.prev[iface], outgoing), now - s.prevAt);
  }

  lemma {:induction false} Remembers(s: Sampler, ticks: seq<Tick>)
    requires ticks != []
    ensures SamplerAfter(s, ticks).prev == ticks[|ticks| - 1].reading &&
            SamplerAfter(s, ticks).prevAt == ticks[|ticks| - 1].at
  {
  }

  lemma {:induction false} SteadyBefore(ticks: seq<Tick>, iface: string, outgoing: bool)
    requires |ticks| > 1 && Steady(ticks, iface, outgoing)
    ensures var n := |ticks| - 1;
            && Steady(ticks[..n], iface, outgoing) && iface in ticks[n - 1].reading && iface in ticks[n].reading
            && 0.0 < ticks[n - 1].at < ticks[n].at
            && BytesOf(ticks[n - 1].reading[iface], outgoing) <= BytesOf(ticks[n].reading[iface], outgoing)
  {
    assert ticks[|ticks| - 1 - 1].at < ticks[|ticks| - 1].at;
  }

  lemma {:induction false} LastTickReports(s: Sampler, ticks: seq<Tick>, iface: string, outgoing: bool)
    requires |ticks| > 1 && Steady(ticks, iface, outgoing)
    ensures var n := |ticks| - 1;
            LastReported(s, ticks, iface, outgoing)
            == (BytesOf(ticks[n].reading[iface], outgoing) - BytesOf(ticks[n - 1].reading[iface], outgoing)) as real
  {
    var n := |ticks| - 1;
    SteadyBefore(ticks, iface, outgoing);
    Remembers(s, ticks[..n]);
    TickReports(SamplerAfter(s, ticks[..n]), ticks[n].reading, ticks[n].at, iface, outgoing);
  }

  /** In either direction the rates telescope to the bytes counted between the first and the last tick. */
  lemma {:induction false} SamplesConserveBytes(s: Sampler, ticks: seq<Tick>, iface: string, outgoing: bool)
    requires ticks != [] && Steady(ticks, iface, outgoing)
    ensures Reported(s, ticks, iface, outgoing)
         == (BytesOf(ticks[|ticks| - 1].reading[iface], outgoing) - BytesOf(ticks[0].reading[iface], outgoing)) as real
  {
    if |ticks| > 1 {
      SteadyBefore(ticks, iface, outgoing);
      SamplesConserveBytes(s, ticks[..|ticks| - 1], iface, outgoing);
      LastTickReports(s, ticks, iface, outgoing);
    }
  }
}
