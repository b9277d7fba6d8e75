/** bpfcollector/_bpf/traffic.bpf.c and bpfcollector/internal/collector/collector.go: per-interface byte counters in a
    bounded kernel map, and the rates a poller derives from them. */
module TrafficCounters {

  const MAX_ENTRIES := 512
  const TWO_64: int := 0x1_0000_0000_0000_0000

  datatype Counters = Counters(rxBytes: nat, rxPackets: nat, txBytes: nat, txPackets: nat)

  const ZERO := Counters(0, 0, 0, 0)

  type Table = map<nat, Counters>

  datatype Packet = Packet(ifindex: nat, len: nat, outgoing: bool)

  /** 64-bit addition in the kernel. */
  function Add(a: nat, b: nat): nat { (a + b) % TWO_64 }

  predicate Ignored(p: Packet) { p.len == 0 || p.ifindex == 0 }

  /** A missing key is inserted only while the map has room. */
  function Admit(t: Table, key: nat): Table
  {
    if key in t || |t| >= MAX_ENTRIES then t else t[key := ZERO]
  }

  function Bump(c: Counters, p: Packet): Counters
  {
    if p.outgoing then c.(txBytes := Add(c.txBytes, p.len), txPackets := Add(c.txPackets, 1))
    else c.(rxBytes := Add(c.rxBytes, p.len), rxPackets := Add(c.rxPackets, 1))
  }

  /** What one packet does to the map. */
  function Count(t: Table, p: Packet): Table
  {
    if Ignored(p) then t
    else
      var u := Admit(t, p.ifindex);
      if p.ifindex in u then u[p.ifindex := Bump(u[p.ifindex], p)] else u
  }

  function Bytes(c: Counters, outgoing: bool): nat { if outgoing then c.txBytes else c.rxBytes }

  function Packets(c: Counters, outgoing: bool): nat { if outgoing then c.txPackets else c.rxPackets }

  /** One direction's counters moved on by a packet of that direction, the other's stayed, within 64 bits. */
  ghost predicate Tallied(before: Counters, after: Counters, p: Packet)
  {
    && Bytes(after, p.outgoing) == (Bytes(before, p.outgoing) + p.len) % TWO_64
    && Packets(after, p.outgoing) == (Packets(before, p.outgoing) + 1) % TWO_64
    && Bytes(after, !p.outgoing) == Bytes(before, !p.outgoing) &&
       Packets(after, !p.outgoing) == Packets(before, !p.outgoing)
  }

  /** What a packet may do to the map: nothing when it is empty or has no interface; otherwise its interface, if it is
      there or there is room for it, has the packet added to its counters. No other entry is touched or evicted. */
  ghost predicate Counted(before: Table, after: Table, p: Packet)
  {
    && before.Keys <= after.Keys <= before.Keys + {p.ifindex}
    && (|before| <= MAX_ENTRIES ==> |after| <= MAX_ENTRIES)
    && (forall k :: k in before && k != p.ifindex ==> after[k] == before[k])
    && (if Ignored(p) then after == before
        else
          && (p.ifindex in after <==> p.ifindex in before || |before| < MAX_ENTRIES)
          && (p.ifindex in after ==>
              Tallied(if p.ifindex in before then before[p.ifindex] else Counters(0, 0, 0, 0), after[p.ifindex], p)))
  }

  lemma {:induction false} BumpTallies(c: Counters, p: Packet)
    ensures Tallied(c, Bump(c, p), p)
  {
  }

  lemma {:induction false} AdmitAdmits(t: Table, key: nat)
    ensures var u := Admit(t, key);
            && t.Keys <= u.Keys <= t.Keys + {key} && (|t| <= MAX_ENTRIES ==> |u| <= MAX_ENTRIES)
            && (key in u <==> key in t || |t| < MAX_ENTRIES)
            && (forall k :: k in t ==> u[k] == t[k]) && (key in u && key !in t ==> u[key] == ZERO)
  {
  }

  lemma {:induction false} Replaced(u: Table, key: nat, c: Counters)
    requires key in u
    ensures var v := u[key := c];
            v.Keys == u.Keys && |v| == |u| && v[key] == c && forall k :: k in u && k != key ==> v[k] == u[k]
  {
    assert u[key := c].Keys == u.Keys;
  }

  lemma {:induction false} CountCounts(before: Table, p: Packet)
    ensures Counted(before, Count(before, p), p)
  {
    if !Ignored(p) {
      var u := Admit(before, p.ifindex);
      AdmitAdmits(before, p.ifindex);
      if p.ifindex in u {
        BumpTallies(u[p.ifindex], p);
        Replaced(u, p.ifindex, Bump(u[p.ifindex], p));
      }
    }
  }

  lemma {:induction false} SameEntry(before: Table, a: Table, b: Table, p: Packet, k: nat)
    requires Counted(before, a, p) && Counted(before, b, p) && k in a
    ensures k in b && a[k] == b[k]
  {
    if k != p.ifindex {
      assert k in before;
    }
  }

  /** Those rules leave one result, and it is the function's. */
  lemma {:induction false} CountedIff(before: Table, after: Table, p: Packet)
    ensures Counted(before, after, p) <==> after == Count(before, p)
  {
    var result := Count(before, p);
    CountCounts(before, p);
    if Counted(before, after, p) {
      forall k | k in after ensures k in result && after[k] == result[k] { SameEntry(before, after, result, p, k); }
      forall k | k in result ensures k in after { SameEntry(before, result, after, p, k); }
      assert after.Keys == result.Keys;
    }
  }

  class TrafficMap {
    var table: Table

    constructor ()
      ensures table == map[]
    {
      table := map[];
    }

    method CountPacket(p: Packet)
      modifies this
      ensures Counted(old(table), table, p)
    {
      CountCounts(table, p);
      if p.len == 0 || p.ifindex == 0 {
        return;
      }
      if p.ifindex !in table {
        if |table| < MAX_ENTRIES {
          table := table[p.ifindex := ZERO];
        }
        if p.ifindex !in table {
          return;
        }
      }
      var value := table[p.ifindex];
      if p.outgoing {
        value := value.(txBytes := Add(value.txBytes, p.len));
        value := value.(txPackets := Add(value.txPackets, 1));
      } else {
        value := value.(rxBytes := Add(value.rxBytes, p.len));
        value := value.(rxPackets := Add(value.rxPackets, 1));
      }
      table := table[p.ifindex := value];
    }
  }

  function CountAll(t: Table, ps: seq<Packet>): Table
  {
    if ps == [] then t else Count(CountAll(t, ps[..|ps| - 1]), ps[|ps| - 1])
  }

  /** Over every run the map stays within its size, and an admitted interface is never evicted. */
  lemma {:induction false} MapBounded(t: Table, ps: seq<Packet>)
    requires |t| <= 512
    ensures |CountAll(t, ps)| <= 512 && t.Keys <= CountAll(t, ps).Keys
  {
    if ps != [] {
      var before, p := CountAll(t, ps[..|ps| - 1]), ps[|ps| - 1];
      MapBounded(t, ps[..|ps| - 1]);
      if p.ifindex in before {
        assert Count(before, p).Keys == before.Keys;
      }
    }
  }

  /** The total length of an interface's packets in one direction. */
  function Carried(ps: seq<Packet>, key: nat, outgoing: bool): nat
  {
    if ps == [] then 0
    else
      var p := ps[|ps| - 1];
      Carried(ps[..|ps| - 1], key, outgoing) + if p.ifindex == key && p.outgoing == outgoing then p.len else 0
  }

  lemma {:induction false} ModuloOf(r: nat, q: nat)
    ensures (TWO_64 * q + r) % TWO_64 == r % TWO_64
  {
    if q > 0 {
      ModuloOf(r, q - 1);
    }
  }

  lemma {:induction false} SumModulo(a: nat, b: nat)
    ensures (a % TWO_64 + b) % TWO_64 == (a + b) % TWO_64
  {
    var q := a / TWO_64;
    assert a == TWO_64 * q + a % TWO_64;
    ModuloOf(a % TWO_64 + b, q);
  }

  lemma {:induction false} CountBytes(t: Table, p: Packet, key: nat, outgoing: bool)
    requires key != 0 && key in t && Bytes(t[key], outgoing) < TWO_64
    ensures key in Count(t, p)
    ensures Bytes(Count(t, p)[key], outgoing) ==
            (Bytes(t[key], outgoing) + if p.ifindex == key && p.outgoing == outgoing then p.len else 0) % TWO_64
  {
  }

  /** In every run an admitted interface's counter is its starting value plus everything carried, modulo 2^64. */
  lemma {:induction false} CounterIsCarried(t: Table, ps: seq<Packet>, key: nat, outgoing: bool)
    requires key != 0 && key in t && Bytes(t[key], outgoing) < 0x1_0000_0000_0000_0000
    ensures key in CountAll(t, ps)
    ensures Bytes(CountAll(t, ps)[key], outgoing)
         == (Bytes(t[key], outgoing) + Carried(ps, key, outgoing)) % 0x1_0000_0000_0000_0000
  {
    if ps != [] {
      var before, p := ps[..|ps| - 1], ps[|ps| - 1];
      CounterIsCarried(t, before, key, outgoing);
      CountBytes(CountAll(t, before), p, key, outgoing);
      SumModulo(Bytes(t[key], outgoing) + Carried(before, key, outgoing),
                if p.ifindex == key && p.outgoing == outgoing then p.len else 0);
    }
  }

  lemma {:induction false} FirstPacket(t: Table, p: Packet, key: nat, outgoing: bool)
    requires key != 0 && key !in t
    ensures key in Count(t, p) <==> p.ifindex == key && p.len > 0 && |t| < MAX_ENTRIES
    ensures key in Count(t, p) ==>
              Bytes(Count(t, p)[key], outgoing) == (if p.outgoing == outgoing then p.len else 0) % TWO_64
    ensures |t| >= MAX_ENTRIES ==> |Count(t, p)| >= MAX_ENTRIES
  {
    if p.ifindex in t {
      assert Count(t, p).Keys == t.Keys;
    }
  }

  /** An interface not in the map is admitted with its first packet or, if the map is full by then, never: once it is
      there, its counter is all it has carried, modulo 2^64. */
  lemma {:induction false} AdmittedFromTheStart(t: Table, ps: seq<Packet>, key: nat, outgoing: bool)
    requires key != 0 && key !in t
    ensures key in CountAll(t, ps) ==>
              Bytes(CountAll(t, ps)[key], outgoing) == Carried(ps, key, outgoing) % 0x1_0000_0000_0000_0000
    ensures key !in CountAll(t, ps) ==> Carried(ps, key, outgoing) == 0 || |CountAll(t, ps)| >= 512
  {
    if ps != [] {
      var before, p := ps[..|ps| - 1], ps[|ps| - 1];
      AdmittedFromTheStart(t, before, key, outgoing);
      if key in CountAll(t, before) {
        CountBytes(CountAll(t, before), p, key, outgoing);
        SumModulo(Carried(before, key, outgoing), if p.ifindex == key && p.outgoing == outgoing then p.len else 0);
      } else {
        FirstPacket(CountAll(t, before), p, key, outgoing);
      }
    }
  }

  // ---------- the poller ----------

  datatype Rates = Rates(rx: real, tx: real)

  datatype Poller = Poller(current: map<nat, Rates>, last: Table, lastAt: real)

  /** Bits a second; nothing when no time passed or the counter went back. */
  function Rate(current: nat, previous: nat, seconds: real): real
  {
    if seconds <= 0.0 || current < previous then 0.0 else (current - previous) as real * 8.0 / seconds
  }

  function RatesFor(c: Poller, raw: Table, now: real, key: nat): Rates
    requires key in raw
  {
    if key in c.last && now > c.lastAt then
      Rates(Rate(raw[key].rxBytes, c.last[key].rxBytes, now - c.lastAt),
            Rate(raw[key].txBytes, c.last[key].txBytes, now - c.lastAt))
    else Rates(0.0, 0.0)
  }

  function Polled(c: Poller, raw: Table, now: real): Poller
  {
    Poller(map key | key in raw :: RatesFor(c, raw, now, key), raw, now)
  }

  class Collector {
    var current: map<nat, Rates>
    var last: Table
    var lastAt: real

    function View(): Poller
      reads this
    {
      Poller(current, last, lastAt)
    }

    constructor ()
      ensures View() == Poller(map[], map[], 0.0)
    {
      current, last, lastAt := map[], map[], 0.0;
    }

    method Poll(raw: Table, now: real)
      modifies this
      ensures View() == Polled(old(View()), raw, now)
    {
      current := map[];
      var todo := raw.Keys;
      while todo != {}
        invariant todo <= raw.Keys && last == old(last) && lastAt == old(lastAt)
        invariant current == map key | key in raw && key !in todo :: RatesFor(old(View()), raw, now, key)
        decreases |todo|
      {
        var key :| key in todo;
        var withRate := Rates(0.0, 0.0);
        if key in last && now > lastAt {
          var seconds := now - lastAt;
          withRate := withRate.(rx := Rate(raw[key].rxBytes, last[key].rxBytes, seconds));
          withRate := withRate.(tx := Rate(raw[key].txBytes, last[key].txBytes, seconds));
        }
        current := current[key := withRate];
        todo := todo - {key};
      }
      last := raw;
      lastAt := now;
    }
  }

  // ---------- end to end ----------

  /** The packets between one poll and the next, and the time of the latter. */
  datatype Interval = Interval(packets: seq<Packet>, at: real)

  ghost function TableAfter(t: Table, ivs: seq<Interval>): Table
  {
    if ivs == [] then t else CountAll(TableAfter(t, ivs[..|ivs| - 1]), ivs[|ivs| - 1].packets)
  }

  /** The poller after the first poll (at `start`, of table t) and one more after each interval. */
  ghost function PollerAfter(c: Poller, t: Table, start: real, ivs: seq<Interval>): Poller
  {
    if ivs == [] then Polled(c, t, start)
    else Polled(PollerAfter(c, t, start, ivs[..|ivs| - 1]), TableAfter(t, ivs), ivs[|ivs| - 1].at)
  }

  ghost function TimeAfter(start: real, ivs: seq<Interval>): real { if ivs == [] then start else ivs[|ivs| - 1].at }

  ghost predicate TimesIncrease(start: real, ivs: seq<Interval>)
  {
    ivs == [] || (TimesIncrease(start, ivs[..|ivs| - 1]) && TimeAfter(start, ivs[..|ivs| - 1]) < ivs[|ivs| - 1].at)
  }

  ghost function AllPackets(ivs: seq<Interval>): seq<Packet>
  {
    if ivs == [] then [] else AllPackets(ivs[..|ivs| - 1]) + ivs[|ivs| - 1].packets
  }

  function RateOf(r: Rates, outgoing: bool): real { if outgoing then r.tx else r.rx }

  /** What a rate amounts to over a time. */
  function Amount(rate: real, seconds: real): real { rate * seconds }

  lemma {:induction false} CountConcat(t: Table, a: seq<Packet>, b: seq<Packet>, key: nat, outgoing: bool)
    ensures CountAll(t, a + b) == CountAll(CountAll(t, a), b)
    ensures Carried(a + b, key, outgoing) == Carried(a, key, outgoing) + Carried(b, key, outgoing)
  {
    if b == [] {
      assert a + b == a;
    } else {
      assert (a + b)[..|a + b| - 1] == a + b[..|b| - 1];
      CountConcat(t, a, b[..|b| - 1], key, outgoing);
    }
  }

  lemma {:induction false} TableIsCountAll(t: Table, ivs: seq<Interval>)
    ensures TableAfter(t, ivs) == CountAll(t, AllPackets(ivs))
  {
    if ivs != [] {
      TableIsCountAll(t, ivs[..|ivs| - 1]);
      CountConcat(t, AllPackets(ivs[..|ivs| - 1]), ivs[|ivs| - 1].packets, 0, false);
    }
  }

  /** What a poll makes of a counter's step: nothing when it went back. */
  function Step(current: nat, previous: nat): nat { if current < previous then 0 else current - previous }

  lemma {:induction false} RateTimesTime(current: nat, previous: nat, seconds: real)
    requires seconds > 0.0
    ensures Amount(Rate(current, previous, seconds), seconds) == 8.0 * Step(current, previous) as real
  {
  }

  /** A counter's step never exceeds what was carried, and equals it exactly when the counter did not wrap. */
  lemma {:induction false} StepIsCarriedIff(previous: nat, carried: nat)
    requires previous < TWO_64
    ensures Step((previous + carried) % TWO_64, previous) <= carried
    ensures Step((previous + carried) % TWO_64, previous) == carried <==> previous + carried < TWO_64
  {
    var q := (previous + carried) / TWO_64;
    assert previous + carried == TWO_64 * q + (previous + carried) % TWO_64;
  }

  lemma {:induction false} PollReports(c: Poller, raw: Table, now: real, key: nat, outgoing: bool)
    requires key in raw && key in c.last && now > c.lastAt
    ensures key in Polled(c, raw, now).current
    ensures Amount(RateOf(Polled(c, raw, now).current[key], outgoing), now - c.lastAt)
         == 8.0 * Step(Bytes(raw[key], outgoing), Bytes(c.last[key], outgoing)) as real
  {
    RateTimesTime(Bytes(raw[key], outgoing), Bytes(c.last[key], outgoing), now - c.lastAt);
  }

  /** What the last poll reports of an interface: its rate times the time since the poll before. */
  ghost function LastReported(c: Poller, t: Table, start: real, ivs: seq<Interval>, key: nat, outgoing: bool): real
    requires ivs != []
  {
    var before, now := ivs[..|ivs| - 1], PollerAfter(c, t, start, ivs);
    if key in now.current then Amount(RateOf(now.current[key], outgoing), ivs[|ivs| - 1].at - TimeAfter(start, before))
    else 0.0
  }

  /** The sum over the polls of the reported rate times the time since the poll before. */
  ghost function Reported(c: Poller, t: Table, start: real, ivs: seq<Interval>, key: nat, outgoing: bool): real
  {
    if ivs == [] then 0.0
    else Reported(c, t, start, ivs[..|ivs| - 1], key, outgoing) + LastReported(c, t, start, ivs, key, outgoing)
  }

  /** An interface's counter in the table after those intervals. */
  ghost function CounterAt(t: Table, ivs: seq<Interval>, key: nat, outgoing: bool): nat
  {
    if key in TableAfter(t, ivs) then Bytes(TableAfter(t, ivs)[key], outgoing) else 0
  }

  ghost function CarriedSoFar(ivs: seq<Interval>, key: nat, outgoing: bool): nat
  {
    Carried(AllPackets(ivs), key, outgoing)
  }

  lemma {:induction false} CounterAfter(t: Table, ivs: seq<Interval>, key: nat, outgoing: bool)
    requires key != 0 && key in t && Bytes(t[key], outgoing) < TWO_64
    ensures key in TableAfter(t, ivs)
    ensures CounterAt(t, ivs, key, outgoing) == (Bytes(t[key], outgoing) + CarriedSoFar(ivs, key, outgoing)) % TWO_64
  {
    TableIsCountAll(t, ivs);
    CounterIsCarried(t, AllPackets(ivs), key, outgoing);
  }

  lemma {:induction false} CarriedLast(ivs: seq<Interval>, key: nat, outgoing: bool)
    requires ivs != []
    ensures CarriedSoFar(ivs, key, outgoing)
         == CarriedSoFar(ivs[..|ivs| - 1], key, outgoing) + Carried(ivs[|ivs| - 1].packets, key, outgoing)
  {
    CountConcat(map[], AllPackets(ivs[..|ivs| - 1]), ivs[|ivs| - 1].packets, key, outgoing);
  }

  lemma {:induction false} PollerRemembers(c: Poller, t: Table, start: real, ivs: seq<Interval>)
    ensures PollerAfter(c, t, start, ivs).last == TableAfter(t, ivs)
    ensures PollerAfter(c, t, start, ivs).lastAt == TimeAfter(start, ivs)
  {
  }

  lemma {:induction false} LastPoll(c: Poller, t: Table, start: real, ivs: seq<Interval>, key: nat, outgoing: bool)
    requires ivs != [] && TimesIncrease(start, ivs)
    requires key in TableAfter(t, ivs) && key in TableAfter(t, ivs[..|ivs| - 1])
    ensures LastReported(c, t, start, ivs, key, outgoing)
         == 8.0 * Step(CounterAt(t, ivs, key, outgoing), CounterAt(t, ivs[..|ivs| - 1], key, outgoing)) as real
  {
    var before, last := ivs[..|ivs| - 1], ivs[|ivs| - 1];
    PollerRemembers(c, t, start, before);
    PollReports(PollerAfter(c, t, start, before), TableAfter(t, ivs), last.at, key, outgoing);
  }

  /** From one poll to the next the counter moves on by what the interval carried, modulo 2^64. */
  lemma {:induction false} CounterMoves(t: Table, ivs: seq<Interval>, key: nat, outgoing: bool)
    requires key != 0 && key in t && Bytes(t[key], outgoing) < TWO_64 && ivs != []
    ensures key in TableAfter(t, ivs) && key in TableAfter(t, ivs[..|ivs| - 1])
    ensures CounterAt(t, ivs[..|ivs| - 1], key, outgoing) < TWO_64
    ensures CounterAt(t, ivs, key, outgoing)
         == (CounterAt(t, ivs[..|ivs| - 1], key, outgoing) + Carried(ivs[|ivs| - 1].packets, key, outgoing)) % TWO_64
  {
    CounterAfter(t, ivs[..|ivs| - 1], key, outgoing);
    CounterIsCarried(TableAfter(t, ivs[..|ivs| - 1]), ivs[|ivs| - 1].packets, key, outgoing);
  }

  /** One poll never reports more than eight times what its interval carried, and reports exactly that if and only if
      the counter did not wrap meanwhile. */
  lemma {:induction false} IntervalConservedIff(c: Poller, t: Table, start: real, ivs: seq<Interval>, key: nat,
                                                outgoing: bool)
    requires key != 0 && key in t && Bytes(t[key], outgoing) < TWO_64 && ivs != [] && TimesIncrease(start, ivs)
    ensures var previous := CounterAt(t, ivs[..|ivs| - 1], key, outgoing);
            var carried := Carried(ivs[|ivs| - 1].packets, key, outgoing);
            && LastReported(c, t, start, ivs, key, outgoing) <= 8.0 * carried as real
            && (LastReported(c, t, start, ivs, key, outgoing) == 8.0 * carried as real <==> previous + carried < TWO_64)
  {
    CounterMoves(t, ivs, key, outgoing);
    LastPoll(c, t, start, ivs, key, outgoing);
    StepIsCarriedIff(CounterAt(t, ivs[..|ivs| - 1], key, outgoing), Carried(ivs[|ivs| - 1].packets, key, outgoing));
  }

  lemma {:induction false} SumOfReports(earlier: real, last: real, bytes: nat, before: nat, carried: nat)
    requires earlier <= 8.0 * before as real && (earlier == 8.0 * before as real <==> bytes + before < TWO_64)
    requires last <= 8.0 * carried as real
    requires last == 8.0 * carried as real <==> (bytes + before) % TWO_64 + carried < TWO_64
    ensures earlier + last <= 8.0 * (before + carried) as real
    ensures earlier + last == 8.0 * (before + carried) as real <==> bytes + before + carried < TWO_64
  {
  }

  /** Conservation from the packets to the reported rates, for an interface present at the first poll and strictly
      increasing times: rate times elapsed time never adds up to more than eight times the bytes carried, and adds up to
      exactly that if and only if the counter never wrapped. */
  lemma {:induction false} RatesConserveTrafficIff(c: Poller, t: Table, start: real, ivs: seq<Interval>, key: nat,
                                                   outgoing: bool)
    requires key != 0 && key in t && Bytes(t[key], outgoing) < TWO_64 && TimesIncrease(start, ivs)
    ensures var carried := CarriedSoFar(ivs, key, outgoing);
            && Reported(c, t, start, ivs, key, outgoing) <= 8.0 * carried as real
            && (Reported(c, t, start, ivs, key, outgoing) == 8.0 * carried as real
                <==> Bytes(t[key], outgoing) + carried < TWO_64)
  {
    if ivs != [] {
      var before, carried := ivs[..|ivs| - 1], Carried(ivs[|ivs| - 1].packets, key, outgoing);
      RatesConserveTrafficIff(c, t, start, before, key, outgoing);
      CounterAfter(t, before, key, outgoing);
      CarriedLast(ivs, key, outgoing);
      IntervalConservedIff(c, t, start, ivs, key, outgoing);
      SumOfReports(Reported(c, t, start, before, key, outgoing), LastReported(c, t, start, ivs, key, outgoing),
                   Bytes(t[key], outgoing), CarriedSoFar(before, key, outgoing), carried);
    }
  }
}
