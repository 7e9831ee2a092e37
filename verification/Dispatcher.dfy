/** One tick of the dispatcher: read shared memory, turn every active port into a
    cached snapshot, overwrite the snapshot's risk and address through the same
    reference, evaluate the policies on it and build the live table. */
module Dispatcher {
  import opened Text
  import opened SlotCodec
  import opened PortScan
  import opened SlidingWindow
  import PM = PortMetrics
  import Shm = SharedMemory
  import Policy

  /** What threat intelligence knows about an address. */
  datatype Meta = Meta(org: string, country: string, risk: nat)

  datatype Row = Row(port: u16, pid: u32, appName: string, kbIn: real, kbOut: real, kb: real, protocol: string,
                     riskScore: nat, remoteIp: string, org: string, country: string, timestamp: real)

  function RowOf(s: PortSnapshot, round: real -> real): Row
    reads s
  {
    Row(s.port, s.pid, s.appName, s.kbIn, s.kbOut, round(s.kbIn + s.kbOut), s.protocol,
        s.riskScore, s.remoteIp, s.org, s.country, s.timestamp)
  }

  predicate KeyedByPort(cache: Cache) {
    forall p | p in cache :: forall i | 0 <= i < |cache[p]| :: cache[p][i].port == p
  }

  class TrafficAccumulator {
    const metrics: PM.Calculator
    const cache: SlidingWindowCache

    constructor (maxEntries: nat, round: real -> real)
      ensures fresh(metrics) && fresh(cache) && metrics.round == round && cache.maxEntries == maxEntries
      ensures metrics.lastSnapshot == map[] && cache.cache == map[]
    {
      metrics := new PM.Calculator(round);
      cache := new SlidingWindowCache(maxEntries);
    }

    /** Turns raw counters into a snapshot with rates and caches it. */
    method ProcessPortData(port: u16, bytesIn: u64, bytesOut: u64, pid: u32, protocol: byte, timestamp: real,
                           riskScore: nat, remoteIp: string, appName: u32 -> string, meta: string -> Meta)
      returns (snapshot: PortSnapshot)
      modifies metrics, cache
      ensures fresh(snapshot)
      ensures snapshot.port == port && snapshot.pid == pid && snapshot.timestamp == timestamp && snapshot.appName == appName(pid)
      ensures snapshot.protocol == if protocol == 0 then "TCP" else "UDP"
      ensures var rates := PM.RatesBetween(metrics.round, old(metrics.Last(port)), PM.ByteSnapshot(timestamp, bytesIn, bytesOut));
              snapshot.kbIn == rates.kbIn && snapshot.kbOut == rates.kbOut
      ensures snapshot.org == meta(remoteIp).org && snapshot.country == meta(remoteIp).country && snapshot.remoteIp == remoteIp
      ensures snapshot.riskScore >= riskScore && snapshot.riskScore >= meta(remoteIp).risk
      ensures snapshot.riskScore in {riskScore, meta(remoteIp).risk}
      ensures metrics.lastSnapshot == old(metrics.lastSnapshot)[port := PM.ByteSnapshot(timestamp, bytesIn, bytesOut)]
      ensures cache.cache == AfterAdd(old(cache.cache), snapshot, cache.maxEntries)
    {
      var rates := metrics.CalculateDelta(port, bytesIn, bytesOut, timestamp);
      var m := meta(remoteIp);
      snapshot := new PortSnapshot(timestamp, port, pid, appName(pid), rates.kbIn, rates.kbOut,
                                   if protocol == 0 then "TCP" else "UDP",
                                   if riskScore >= m.risk then riskScore else m.risk, remoteIp, m.org, m.country);
      cache.AddSnapshot(snapshot);
    }

    /** The latest snapshot of each port, if it is recent, by ascending port. */
    method GetPortTable(now: real) returns (table: seq<Row>)
      requires KeyedByPort(cache.cache)
      ensures exists rows: seq<PortSnapshot> :: IsTable(rows, InCache(cache.cache, now)) && ShowsRows(table, rows, metrics.round)
    {
      hide IsTable, InCache;
      var latest := map p | p in cache.cache && cache.cache[p] != [] :: cache.cache[p][|cache.cache[p]| - 1];
      var sorted := SortedByPort(latest);
      table := [];
      ghost var rows := [];
      var i := 0;
      while i < |sorted|
        invariant i <= |sorted|
        invariant rows == FreshOnes(sorted[..i], now)
        invariant |table| == |rows| && forall k | 0 <= k < |rows| :: table[k] == RowOf(rows[k], metrics.round)
      {
        assert sorted[..i + 1][..i] == sorted[..i];
        if now - sorted[i].timestamp <= TTL_SECONDS {
          table, rows := table + [RowOf(sorted[i], metrics.round)], rows + [sorted[i]];
        }
        i := i + 1;
      }
      assert sorted[..i] == sorted;
      FreshOnesAreTable(cache.cache, now, latest, sorted);
    }
  }

  /** The table has a row for each snapshot, as that is now. */
  ghost predicate ShowsRows(table: seq<Row>, rows: seq<PortSnapshot>, round: real -> real)
    reads rows
  {
    |table| == |rows| && forall i | 0 <= i < |rows| :: table[i] == RowOf(rows[i], round)
  }

  function FreshOnes(sorted: seq<PortSnapshot>, now: real): seq<PortSnapshot> {
    if sorted == [] then []
    else
      var s := sorted[|sorted| - 1];
      FreshOnes(sorted[..|sorted| - 1], now) + if now - s.timestamp <= TTL_SECONDS then [s] else []
  }

  predicate Sorted(rows: seq<PortSnapshot>) {
    forall i, j | 0 <= i < j < |rows| :: rows[i].port < rows[j].port
  }

  lemma {:induction false} FreshOnesMembers(sorted: seq<PortSnapshot>, now: real, s: PortSnapshot)
    ensures s in FreshOnes(sorted, now) <==> s in sorted && now - s.timestamp <= TTL_SECONDS
  {
    if sorted == [] {
    } else {
      FreshOnesMembers(sorted[..|sorted| - 1], now, s);
      assert s in sorted <==> s in sorted[..|sorted| - 1] || s == sorted[|sorted| - 1];
    }
  }

  lemma {:induction false} FreshOnesSorted(sorted: seq<PortSnapshot>, now: real)
    requires Sorted(sorted)
    ensures Sorted(FreshOnes(sorted, now))
  {
    if sorted == [] {
    } else {
      var front := sorted[..|sorted| - 1];
      var rows := FreshOnes(front, now);
      FreshOnesSorted(front, now);
      forall i | 0 <= i < |rows|
        ensures rows[i].port < sorted[|sorted| - 1].port
      {
        FreshOnesMembers(front, now, rows[i]);
      }
    }
  }

  lemma LatestEntry(cache: Cache, now: real, p: u16)
    ensures InCache(cache, now)(p) == if p in cache && cache[p] != [] then Fresh(cache[p][|cache[p]| - 1], now) else None
  {}

  lemma FreshOnesAreTable(cache: Cache, now: real, latest: map<u16, PortSnapshot>, sorted: seq<PortSnapshot>)
    requires KeyedByPort(cache)
    requires latest == map p | p in cache && cache[p] != [] :: cache[p][|cache[p]| - 1]
    requires Sorted(sorted) && (forall s :: s in sorted <==> s.port in latest && latest[s.port] == s)
    ensures IsTable(FreshOnes(sorted, now), InCache(cache, now))
  {
    hide InCache, FreshOnes;
    FreshOnesSorted(sorted, now);
    var rows, entry := FreshOnes(sorted, now), InCache(cache, now);
    forall i | 0 <= i < |rows|
      ensures entry(rows[i].port) == Some(rows[i])
    {
      FreshOnesMembers(sorted, now, rows[i]);
      LatestEntry(cache, now, rows[i].port);
    }
    forall p: u16 | entry(p).Some?
      ensures entry(p).value in rows
    {
      LatestEntry(cache, now, p);
      FreshOnesMembers(sorted, now, entry(p).value);
    }
  }

  /** `sorted(latest.values(), key=port)` */
  method SortedByPort(latest: map<u16, PortSnapshot>) returns (sorted: seq<PortSnapshot>)
    requires forall p | p in latest :: latest[p].port == p
    ensures Sorted(sorted) && forall s :: s in sorted <==> s.port in latest && latest[s.port] == s
  {
    sorted := [];
    var todo := latest.Keys;
    while todo != {}
      invariant todo <= latest.Keys && Sorted(sorted)
      invariant forall i, q | 0 <= i < |sorted| && q in todo :: sorted[i].port < q
      invariant forall s :: s in sorted <==> s.port in latest && s.port !in todo && latest[s.port] == s
      decreases todo
    {
      var p := Smallest(todo);
      sorted := sorted + [latest[p]];
      todo := todo - {p};
    }
  }

  /** The first port in sorted order. */
  method Smallest(ports: set<u16>) returns (p: u16)
    requires ports != {}
    ensures p in ports && forall q | q in ports :: p <= q
  {
    p :| p in ports;
    var rest := ports - {p};
    while rest != {}
      invariant p in ports && rest <= ports && forall q | q in ports && q !in rest :: p <= q
      decreases rest
    {
      var q :| q in rest;
      if q < p {
        p := q;
      }
      rest := rest - {q};
    }
  }

  // ---- the specification of a tick

  function AddAll(cache: Cache, made: seq<PortSnapshot>, max: nat): Cache {
    if made == [] then cache else AfterAdd(AddAll(cache, made[..|made| - 1], max), made[|made| - 1], max)
  }

  lemma {:induction false} AddAllKeyed(cache: Cache, made: seq<PortSnapshot>, max: nat)
    requires KeyedByPort(cache)
    ensures KeyedByPort(AddAll(cache, made, max))
  {
    if made == [] {
    } else {
      AddAllKeyed(cache, made[..|made| - 1], max);
    }
  }

  /** Every cache that adds and cleanups lead to is keyed by port. */
  lemma {:induction false} AfterOpsKeyed(max: nat, ops: seq<Op>)
    ensures KeyedByPort(AfterOps(max, ops))
  {
    if ops == [] {
    } else {
      var cache := AfterOps(max, ops[..|ops| - 1]);
      AfterOpsKeyed(max, ops[..|ops| - 1]);
      match ops[|ops| - 1]
      case Add(s) =>
      case Evict(now, maxAge) => EvictKeyed(cache, now - maxAge);
    }
  }

  lemma EvictKeyed(cache: Cache, cutoff: real)
    requires KeyedByPort(cache)
    ensures KeyedByPort(AfterEvict(cache, cutoff))
  {
    forall p | p in AfterEvict(cache, cutoff)
      ensures forall s | s in AfterEvict(cache, cutoff)[p] :: s.port == p
    {
      var k := PoppedIsSuffix(cache[p], cutoff);
    }
  }

  /** A snapshot stays the last of its port until that port is added again. */
  lemma {:induction false} AddedStaysLast(cache: Cache, made: seq<PortSnapshot>, max: nat, i: nat)
    requires i < |made| && max >= 1
    requires forall j | i < j < |made| :: made[j].port != made[i].port
    ensures var dq := Deque(AddAll(cache, made, max), made[i].port); dq != [] && dq[|dq| - 1] == made[i]
  {
    if i == |made| - 1 {
    } else {
      AddedStaysLast(cache, made[..|made| - 1], max, i);
    }
  }

  /** The view of a snapshot that the policy engine evaluates. */
  function ViewOf(s: PortSnapshot): Policy.View
    reads s
  {
    Policy.View(s.port, s.pid, s.appName, s.kbIn, s.kbOut, s.riskScore)
  }

  function EvaluateAll(e: Policy.Engine, views: seq<Policy.View>, clock: nat -> Policy.Clock): Policy.Engine {
    if views == [] then e
    else Policy.AfterEvaluate(EvaluateAll(e, views[..|views| - 1], clock), views[|views| - 1], clock(|views| - 1))
  }

  function Triggered(e: Policy.Engine, views: seq<Policy.View>, clock: nat -> Policy.Clock): seq<Policy.Evaluated> {
    if views == [] then []
    else
      var front := views[..|views| - 1];
      Triggered(e, front, clock) + AsSeq(Policy.Outcome(EvaluateAll(e, front, clock), views[|views| - 1], clock(|views| - 1)))
  }

  lemma NothingHandled(cache: Cache, max: nat, e: Policy.Engine, clock: nat -> Policy.Clock)
    ensures AddAll(cache, [], max) == cache && EvaluateAll(e, [], clock) == e && Triggered(e, [], clock) == []
  {}

  lemma AddNext(cache: Cache, made: seq<PortSnapshot>, s: PortSnapshot, max: nat)
    ensures AddAll(cache, made + [s], max) == AfterAdd(AddAll(cache, made, max), s, max)
  {
    assert (made + [s])[..|made|] == made;
  }

  lemma TurnNext(e: Policy.Engine, views: seq<Policy.View>, v: Policy.View, clock: nat -> Policy.Clock)
    ensures EvaluateAll(e, views + [v], clock) == Policy.AfterEvaluate(EvaluateAll(e, views, clock), v, clock(|views|))
    ensures Triggered(e, views + [v], clock) ==
            Triggered(e, views, clock) + AsSeq(Policy.Outcome(EvaluateAll(e, views, clock), v, clock(|views|)))
  {
    assert (views + [v])[..|views|] == views;
  }

  lemma {:induction false} EvaluateAllLeavesOthers(e: Policy.Engine, views: seq<Policy.View>, clock: nat -> Policy.Clock, port: u16)
    requires forall v | v in views :: v.port != port
    ensures Policy.SameFor(e, EvaluateAll(e, views, clock), port)
  {
    hide Policy.AfterEvaluate;
    if views == [] {
    } else {
      var front := views[..|views| - 1];
      EvaluateAllLeavesOthers(e, front, clock, port);
      assert views[|views| - 1] in views;
      Policy.EvaluateLeavesOthers(EvaluateAll(e, front, clock), views[|views| - 1], clock(|views| - 1), port);
    }
  }

  /** An event that the view gives by itself, evaluated on the engine as it is. */
  predicate Alone(e: Policy.Engine, views: seq<Policy.View>, clock: nat -> Policy.Clock, i: nat, event: Policy.Evaluated) {
    i < |views| && Policy.Outcome(e, views[i], clock(i)) == Some(event)
  }

  /** The events are exactly those that the views give by themselves, one a port. */
  ghost predicate AreAlone(events: seq<Policy.Evaluated>, e: Policy.Engine, views: seq<Policy.View>, clock: nat -> Policy.Clock) {
    && (forall event :: event in events <==> exists i: nat :: Alone(e, views, clock, i, event))
    && forall i, j | 0 <= i < j < |events| :: events[i].targetPort != events[j].targetPort
  }

  /** Ports do not compete for a policy: over the views of one tick, of distinct ports,
      the events are exactly those that each view gives on the engine as it was
      before, and no port has two. */
  lemma {:induction false} PortsDoNotInterfere(e: Policy.Engine, views: seq<Policy.View>, clock: nat -> Policy.Clock)
    requires forall i, j | 0 <= i < j < |views| :: views[i].port != views[j].port
    ensures AreAlone(Triggered(e, views, clock), e, views, clock)
  {
    hide EvaluateAll, Policy.FirstFiring, Policy.Outcome;
    if views == [] {
    } else {
      var front, v, n: nat := views[..|views| - 1], views[|views| - 1], |views| - 1;
      PortsDoNotInterfere(e, front, clock);
      EvaluateAllLeavesOthers(e, front, clock, v.port);
      OutcomeSame(e, EvaluateAll(e, front, clock), v, clock(n));
      AloneNext(e, views, clock, Triggered(e, front, clock));
    }
  }

  lemma OutcomeSame(e: Policy.Engine, e': Policy.Engine, v: Policy.View, clock: Policy.Clock)
    requires Policy.SameFor(e, e', v.port)
    ensures Policy.Outcome(e', v, clock) == Policy.Outcome(e, v, clock)
  {
    hide Policy.FirstFiring;
    Policy.FirstFiringSame(e, e', v, clock, 0);
  }

  lemma AloneNext(e: Policy.Engine, views: seq<Policy.View>, clock: nat -> Policy.Clock, events: seq<Policy.Evaluated>)
    requires views != [] && forall i, j | 0 <= i < j < |views| :: views[i].port != views[j].port
    requires AreAlone(events, e, views[..|views| - 1], clock)
    ensures AreAlone(events + AsSeq(Policy.Outcome(e, views[|views| - 1], clock(|views| - 1))), e, views, clock)
  {
    hide Policy.FirstFiring;
    var front, v, n: nat := views[..|views| - 1], views[|views| - 1], |views| - 1;
    var last := Policy.Outcome(e, v, clock(n));
    forall event
      ensures event in events + AsSeq(last) <==> exists i: nat :: Alone(e, views, clock, i, event)
    {
      assert forall i: nat | i < n :: Alone(e, views, clock, i, event) == Alone(e, front, clock, i, event);
      assert Alone(e, views, clock, n, event) <==> last == Some(event);
    }
    forall i | 0 <= i < |events|
      ensures events[i].targetPort != v.port
    {
      assert events[i] in events;
      var k: nat :| Alone(e, front, clock, k, events[i]);
      assert events[i].targetPort == views[k].port;
    }
    assert last.Some? ==> last.value.targetPort == v.port;
  }

  /** The snapshot made for a reading: timed at the tick, showing the reading's own
      risk score and remote address, and the metadata of the default address. */
  ghost predicate MadeFor(s: PortSnapshot, r: Shm.Reading, now: real, appName: u32 -> string, meta: string -> Meta)
    reads s
  {
    && s.port == r.port && s.pid == r.pid && s.timestamp == now && s.appName == appName(r.pid)
    && s.protocol == (if r.protocol == 0 then "TCP" else "UDP")
    && s.riskScore == r.risk && s.remoteIp == r.remoteIp
    && s.org == meta("0.0.0.0").org && s.country == meta("0.0.0.0").country
  }

  /** The policy engine's view of a reading: its port, process and risk score. */
  ghost predicate ViewFor(v: Policy.View, r: Shm.Reading, s: PortSnapshot) {
    v.port == r.port && v.pid == r.pid && v.risk == r.risk && v.appName == s.appName && v.kbIn == s.kbIn && v.kbOut == s.kbOut
  }

  /** The row of a reading's port in the live table, with the rates that the policies
      saw and their rounded sum. */
  ghost predicate RowFor(t: Row, r: Shm.Reading, s: PortSnapshot, now: real, appName: u32 -> string, meta: string -> Meta,
                         round: real -> real) {
    && t.port == r.port && t.pid == r.pid && t.timestamp == now && t.appName == appName(r.pid)
    && t.kbIn == s.kbIn && t.kbOut == s.kbOut && t.kb == round(s.kbIn + s.kbOut)
    && t.protocol == (if r.protocol == 0 then "TCP" else "UDP")
    && t.riskScore == r.risk && t.remoteIp == r.remoteIp
    && t.org == meta("0.0.0.0").org && t.country == meta("0.0.0.0").country
  }

  /** The last snapshots after the given readings have been accumulated at `now`. */
  function Remembered(last: map<u16, PM.ByteSnapshot>, readings: seq<Shm.Reading>, now: real): map<u16, PM.ByteSnapshot> {
    if readings == [] then last
    else
      var r := readings[|readings| - 1];
      Remembered(last, readings[..|readings| - 1], now)[r.port := PM.ByteSnapshot(now, r.bytesIn, r.bytesOut)]
  }

  /** The rates of the i-th reading, measured since its port's previous snapshot. */
  function RatesAt(round: real -> real, last: map<u16, PM.ByteSnapshot>, readings: seq<Shm.Reading>, i: nat, now: real): PM.Rates
    requires i < |readings|
  {
    var known, r := Remembered(last, readings[..i], now), readings[i];
    PM.RatesBetween(round, if r.port in known then Some(known[r.port]) else None, PM.ByteSnapshot(now, r.bytesIn, r.bytesOut))
  }

  lemma {:induction false} RememberedPort(last: map<u16, PM.ByteSnapshot>, readings: seq<Shm.Reading>, now: real, p: u16)
    requires forall i | 0 <= i < |readings| :: readings[i].port != p
    ensures p in Remembered(last, readings, now) <==> p in last
    ensures p in last ==> Remembered(last, readings, now)[p] == last[p]
  {
    if readings == [] {
    } else {
      RememberedPort(last, readings[..|readings| - 1], now, p);
    }
  }

  /** A port without a last snapshot shows no rate; any other the bytes since then. */
  lemma RatesAtMean(round: real -> real, last: map<u16, PM.ByteSnapshot>, readings: seq<Shm.Reading>, i: nat, now: real)
    requires i < |readings| && Shm.DistinctPorts(readings)
    ensures var p := readings[i].port;
            && (p !in last || now <= last[p].time ==> RatesAt(round, last, readings, i, now) == PM.Rates(0.0, 0.0))
            && (p in last && now > last[p].time ==>
                  var elapsed := now - last[p].time;
                  RatesAt(round, last, readings, i, now) ==
                  PM.Rates(round(((readings[i].bytesIn - last[p].bytesIn) % 0x1_0000_0000_0000_0000) as real / 1024.0 / elapsed),
                           round(((readings[i].bytesOut - last[p].bytesOut) % 0x1_0000_0000_0000_0000) as real / 1024.0 / elapsed)))
  {
    hide PM.RatesBetween, Remembered;
    var p, known := readings[i].port, Remembered(last, readings[..i], now);
    RememberedPort(last, readings[..i], now, p);
    PM.RatesMean(round, if p in known then Some(known[p]) else None, PM.ByteSnapshot(now, readings[i].bytesIn, readings[i].bytesOut));
  }

  lemma RememberedNone(last: map<u16, PM.ByteSnapshot>, readings: seq<Shm.Reading>, now: real)
    ensures Remembered(last, readings[..0], now) == last
  {}

  lemma RatesNext(round: real -> real, last: map<u16, PM.ByteSnapshot>, readings: seq<Shm.Reading>, i: nat, now: real)
    requires i < |readings|
    ensures var known := Remembered(last, readings[..i], now);
            && RatesAt(round, known, [readings[i]], 0, now) == RatesAt(round, last, readings, i, now)
            && Remembered(known, [readings[i]], now) == Remembered(last, readings[..i + 1], now)
  {
    assert readings[..i + 1][..i] == readings[..i] && [readings[i]][..0] == [];
  }

  lemma ViewsDistinct(views: seq<Policy.View>, readings: seq<Shm.Reading>, made: seq<PortSnapshot>)
    requires |views| == |readings| == |made| && Shm.DistinctPorts(readings)
    requires forall i | 0 <= i < |views| :: ViewFor(views[i], readings[i], made[i])
    ensures forall i, j | 0 <= i < j < |views| :: views[i].port != views[j].port
  {}

  class DispatcherLoop {
    const accumulator: TrafficAccumulator
    const engine: Policy.PolicyEngine
    const shm: Shm.Segment

    constructor (accumulator: TrafficAccumulator, engine: Policy.PolicyEngine, shm: Shm.Segment)
      ensures this.accumulator == accumulator && this.engine == engine && this.shm == shm
    {
      this.accumulator, this.engine, this.shm := accumulator, engine, shm;
    }

    /** Accumulates and evaluates one active port. */
    method HandleEntry(e: Shm.Reading, now: real, clock: Policy.Clock, appName: u32 -> string, meta: string -> Meta)
      returns (snapshot: PortSnapshot, event: Option<Policy.Evaluated>, ghost view: Policy.View)
      modifies accumulator.metrics, accumulator.cache, engine`lastTrigger
      ensures fresh(snapshot) && MadeFor(snapshot, e, now, appName, meta) && ViewFor(view, e, snapshot)
      ensures PM.Rates(snapshot.kbIn, snapshot.kbOut) == RatesAt(accumulator.metrics.round, old(accumulator.metrics.lastSnapshot), [e], 0, now)
      ensures accumulator.metrics.lastSnapshot == Remembered(old(accumulator.metrics.lastSnapshot), [e], now)
      ensures accumulator.cache.cache == AfterAdd(old(accumulator.cache.cache), snapshot, accumulator.cache.maxEntries)
      ensures engine.Abstract() == Policy.AfterEvaluate(old(engine.Abstract()), view, clock)
      ensures event == Policy.Outcome(old(engine.Abstract()), view, clock)
    {
      snapshot := accumulator.ProcessPortData(e.port, e.bytesIn, e.bytesOut, e.pid, e.protocol, now, 0, "0.0.0.0", appName, meta);
      snapshot.remoteIp := e.remoteIp;
      snapshot.riskScore := e.risk;
      view := ViewOf(snapshot);
      event := engine.Evaluate(ViewOf(snapshot), clock);
    }

    /** Accumulates and evaluates every active port, in order. */
    method HandleAll(activePorts: seq<Shm.Reading>, now: real, clock: nat -> Policy.Clock, appName: u32 -> string, meta: string -> Meta)
      returns (events: seq<Policy.Evaluated>, ghost made: seq<PortSnapshot>, ghost views: seq<Policy.View>)
      modifies accumulator.metrics, accumulator.cache, engine`lastTrigger
      ensures |made| == |views| == |activePorts|
      ensures forall i | 0 <= i < |made| :: fresh(made[i]) && MadeFor(made[i], activePorts[i], now, appName, meta)
      ensures forall i | 0 <= i < |views| :: ViewFor(views[i], activePorts[i], made[i])
      ensures forall i | 0 <= i < |made| :: PM.Rates(made[i].kbIn, made[i].kbOut)
                      == RatesAt(accumulator.metrics.round, old(accumulator.metrics.lastSnapshot), activePorts, i, now)
      ensures accumulator.metrics.lastSnapshot == Remembered(old(accumulator.metrics.lastSnapshot), activePorts, now)
      ensures accumulator.cache.cache == AddAll(old(accumulator.cache.cache), made, accumulator.cache.maxEntries)
      ensures engine.Abstract() == EvaluateAll(old(engine.Abstract()), views, clock)
      ensures events == Triggered(old(engine.Abstract()), views, clock)
    {
      hide Policy.AfterEvaluate, Policy.Outcome, AfterAdd, MadeFor, ViewFor, RatesAt, Remembered, AddAll, EvaluateAll, Triggered;
      ghost var last0 := accumulator.metrics.lastSnapshot;
      RememberedNone(last0, activePorts, now);
      NothingHandled(accumulator.cache.cache, accumulator.cache.maxEntries, engine.Abstract(), clock);
      events, made, views := [], [], [];
      ghost var cache0, engine0 := accumulator.cache.cache, engine.Abstract();
      var i := 0;
      while i < |activePorts|
        invariant i <= |activePorts| && |made| == |views| == i
        invariant forall j | 0 <= j < i :: fresh(made[j]) && MadeFor(made[j], activePorts[j], now, appName, meta)
        invariant forall j | 0 <= j < i :: ViewFor(views[j], activePorts[j], made[j])
        invariant forall j | 0 <= j < i :: PM.Rates(made[j].kbIn, made[j].kbOut) == RatesAt(accumulator.metrics.round, last0, activePorts, j, now)
        invariant accumulator.metrics.lastSnapshot == Remembered(last0, activePorts[..i], now)
        invariant accumulator.cache.cache == AddAll(cache0, made, accumulator.cache.maxEntries)
        invariant engine.Abstract() == EvaluateAll(engine0, views, clock) && events == Triggered(engine0, views, clock)
      {
        var snapshot, event;
        ghost var view;
        snapshot, event, view := HandleEntry(activePorts[i], now, clock(i), appName, meta);
        if event.Some? {
          events := events + [event.value];
        }
        AddNext(cache0, made, snapshot, accumulator.cache.maxEntries);
        TurnNext(engine0, views, view, clock);
        made, views := made + [snapshot], views + [view];
        RatesNext(accumulator.metrics.round, last0, activePorts, i, now);
        i := i + 1;
      }
      assert activePorts[..i] == activePorts;
    }

    /** One pass of the loop body.  `clock(i)` gives the readings taken while the
        i-th active port is evaluated. */
    method Tick(now: real, clock: nat -> Policy.Clock, appName: u32 -> string, meta: string -> Meta)
      returns (events: seq<Policy.Evaluated>, table: Option<seq<Row>>, ghost made: seq<PortSnapshot>, ghost views: seq<Policy.View>)
      requires shm.Valid() && KeyedByPort(accumulator.cache.cache) && accumulator.cache.maxEntries >= 1
      modifies accumulator.metrics, accumulator.cache, engine`lastTrigger
      ensures KeyedByPort(accumulator.cache.cache)
      // each active port is accumulated exactly once ...
      ensures var readings := Shm.Scan(shm.mac, shm.Contents());
              && |made| == |readings|
              && (forall i | 0 <= i < |made| :: fresh(made[i]) && MadeFor(made[i], readings[i], now, appName, meta))
              && (forall i | 0 <= i < |made| :: PM.Rates(made[i].kbIn, made[i].kbOut)
                    == RatesAt(accumulator.metrics.round, old(accumulator.metrics.lastSnapshot), readings, i, now))
              && accumulator.cache.cache == AddAll(old(accumulator.cache.cache), made, accumulator.cache.maxEntries)
              && accumulator.metrics.lastSnapshot == Remembered(old(accumulator.metrics.lastSnapshot), readings, now)
      // ... with no rate for a port without a last snapshot ...
      ensures var readings := Shm.Scan(shm.mac, shm.Contents());
              forall i | 0 <= i < |readings| && readings[i].port !in old(accumulator.metrics.lastSnapshot) ::
                made[i].kbIn == 0.0 && made[i].kbOut == 0.0
      // ... and evaluated exactly once, in the same order, with the risk score that memory held
      ensures var readings := Shm.Scan(shm.mac, shm.Contents());
              && |views| == |readings|
              && (forall i | 0 <= i < |views| :: ViewFor(views[i], readings[i], made[i]))
              && engine.Abstract() == EvaluateAll(old(engine.Abstract()), views, clock)
              && events == Triggered(old(engine.Abstract()), views, clock)
      ensures AreAlone(events, old(engine.Abstract()), views, clock)
      // the table is the live table of the cache ...
      ensures table.Some? ==> exists rows: seq<PortSnapshot> ::
                IsTable(rows, InCache(accumulator.cache.cache, now)) && ShowsRows(table.value, rows, accumulator.metrics.round)
      // ... and its one row in the table carries the same risk score and address
      ensures var readings := Shm.Scan(shm.mac, shm.Contents());
              && (table.Some? <==> readings != [])
              && (table.Some? ==> OneRowEach(table.value)
                                  && Shows(table.value, made, readings, accumulator.metrics.round, now, appName, meta))
    {
      hide MadeFor, ViewFor, Shm.Scan, Shows, OneRowEach, KeyedByPort, IsTable, InCache, Shm.DistinctPorts, Shm.OwnSlots, AddAll, EvaluateAll, Triggered, AreAlone, ShowsRows, RatesAt, Remembered;
      ghost var cache0 := accumulator.cache.cache;
      var activePorts := shm.ReadAllActivePorts();
      events, made, views := HandleAll(activePorts, now, clock, appName, meta);
      AddAllKeyed(cache0, made, accumulator.cache.maxEntries);
      Shm.OwnSlotsScanDistinct(shm.mac, shm.Contents());
      ViewsDistinct(views, activePorts, made);
      PortsDoNotInterfere(old(engine.Abstract()), views, clock);
      forall i | 0 <= i < |activePorts| && activePorts[i].port !in old(accumulator.metrics.lastSnapshot)
        ensures made[i].kbIn == 0.0 && made[i].kbOut == 0.0
      {
        RatesAtMean(accumulator.metrics.round, old(accumulator.metrics.lastSnapshot), activePorts, i, now);
      }
      table := None;
      if |activePorts| > 0 {
        var rows := accumulator.GetPortTable(now);
        table := Some(rows);
        ghost var shown :| IsTable(shown, InCache(accumulator.cache.cache, now)) && ShowsRows(rows, shown, accumulator.metrics.round);
        TableShows(cache0, made, activePorts, accumulator.cache.maxEntries, rows, shown, accumulator.metrics.round, now, appName, meta);
      }
    }
  }

  /** The rows ascend strictly by port, so that every port has at most one. */
  predicate OneRowEach(rows: seq<Row>) {
    forall i, j | 0 <= i < j < |rows| :: rows[i].port < rows[j].port
  }

  /** Every new snapshot is in the table, as it is now: with its reading's own risk
      score and remote address. */
  ghost predicate Shows(rows: seq<Row>, made: seq<PortSnapshot>, readings: seq<Shm.Reading>, round: real -> real,
                        now: real, appName: u32 -> string, meta: string -> Meta)
    reads made
  {
    |made| == |readings| &&
    forall i | 0 <= i < |made| :: exists t | t in rows :: RowFor(t, readings[i], made[i], now, appName, meta, round)
  }

  lemma TableShows(cache: Cache, made: seq<PortSnapshot>, readings: seq<Shm.Reading>, max: nat, rows: seq<Row>,
                   shown: seq<PortSnapshot>, round: real -> real, now: real, appName: u32 -> string, meta: string -> Meta)
    requires max >= 1 && |made| == |readings| && Shm.DistinctPorts(readings)
    requires forall i | 0 <= i < |made| :: MadeFor(made[i], readings[i], now, appName, meta)
    requires IsTable(shown, InCache(AddAll(cache, made, max), now))
    requires ShowsRows(rows, shown, round)
    ensures Shows(rows, made, readings, round, now, appName, meta) && OneRowEach(rows)
  {
    forall j | 0 <= j < |made|
      ensures RowOf(made[j], round) in rows && RowFor(RowOf(made[j], round), readings[j], made[j], now, appName, meta, round)
    {
      AddedStaysLast(cache, made, max, j);
      assert InCache(AddAll(cache, made, max), now)(made[j].port) == Some(made[j]);
      var k :| 0 <= k < |shown| && shown[k] == made[j];
      assert rows[k] == RowOf(made[j], round);
    }
  }
}
