/** A run in which a port is dropped and comes back between two reads: the one case
    in which bytes are not conserved can be reached. */
module DroppedPort {
  import opened Text
  import opened SlotCodec
  import opened SharedMemory
  import opened PortMetrics
  import opened Conservation
  import Inet
  import Sniffer

  const PORT: u16 := 1

  /** `length` bytes that arrive for a port. */
  function Arriving(port: u16, length: nat): Sniffer.Packet {
    Sniffer.Transport("", "", 0, port, 0, length)
  }

  function NoRisk(): string -> byte {
    (_: string) => 0
  }

  function AfterArriving(accum: Sniffer.Accum, port: u16, length: nat, time: real): Sniffer.Accum {
    Sniffer.Count(accum, port, 0, false, length, 0, "", time)
  }

  ghost predicate Runs(mac: Mac, round: real -> real, worlds: seq<World>, events: seq<Event>, w: World) {
    Behaviour(mac, round, PORT, worlds, events) && worlds[|events|] == w
  }

  lemma Extend(mac: Mac, round: real -> real, worlds: seq<World>, events: seq<Event>, w: World, e: Event, w': World)
    requires Runs(mac, round, worlds, events, w) && Step(mac, round, PORT, w, e, w')
    ensures Runs(mac, round, worlds + [w'], events + [e], w')
  {
    hide Step;
    var ws, es := worlds + [w'], events + [e];
    forall i | 0 <= i < |es|
      ensures Step(mac, round, PORT, ws[i], es[i], ws[i + 1])
    {
      if i < |events| {
        assert Step(mac, round, PORT, worlds[i], events[i], worlds[i + 1]);
      }
    }
  }

  /** The world after bytes have arrived for a port. */
  function Arrived(w: World, port: u16, length: nat, time: real): World {
    w.(sniffer := w.sniffer.(accum := AfterArriving(w.sniffer.accum, port, length, time)),
       seen := if port == PORT then Plus(w.seen, Totals(length, 0)) else w.seen)
  }

  lemma Arrive(mac: Mac, round: real -> real, worlds: seq<World>, events: seq<Event>, w: World, port: u16, length: nat, time: real)
    returns (ws: seq<World>, es: seq<Event>)
    requires Runs(mac, round, worlds, events, w) && port > 0
    ensures Runs(mac, round, ws, es, Arrived(w, port, length, time))
  {
    var e := Sniffed(Sniffer.Captured(Arriving(port, length), NoRisk(), time, time));
    var w' := Arrived(w, port, length, time);
    assert Step(mac, round, PORT, w, e, w') by {
      hide Sniffer.Count;
    }
    Extend(mac, round, worlds, events, w, e, w');
    ws, es := worlds + [w'], events + [e];
  }

  lemma Flush(mac: Mac, round: real -> real, worlds: seq<World>, events: seq<Event>, w: World, now: real)
    returns (ws: seq<World>, es: seq<Event>, w': World)
    requires Runs(mac, round, worlds, events, w)
    ensures Runs(mac, round, ws, es, w')
    ensures Sniffer.FlushStep(mac, w.sniffer, now, map[], w'.sniffer) && w' == AfterFlush(w, PORT, w'.sniffer)
  {
    hide Sniffer.FlushStep, Runs;
    var s := Sniffer.FlushExists(mac, w.sniffer, now, map[]);
    w' := AfterFlush(w, PORT, s);
    var e := Sniffed(Sniffer.Flushed(now, map[]));
    Extend(mac, round, worlds, events, w, e, w');
    ws, es := worlds + [w'], events + [e];
  }

  /** A flush without a pid table leaves the counters as they are, up to drops. */
  lemma FlushedAccum(mac: Mac, s: Sniffer.State, now: real, s': Sniffer.State)
    requires Sniffer.FlushStep(mac, s, now, map[], s')
    ensures s'.accum == Sniffer.Evicted(s.accum, now)
  {
    hide Sniffer.Rewritten, Sniffer.Evicted;
    assert Sniffer.Refreshed(s.accum, now, map[]) == s.accum;
  }

  /** A flush that finds the port active makes its counters readable. */
  lemma FlushedReading(mac: Mac, round: real -> real, worlds: seq<World>, events: seq<Event>, w: World, now: real, w': World)
    requires Runs(mac, round, worlds, events, w)
    requires Sniffer.FlushStep(mac, w.sniffer, now, map[], w'.sniffer)
    requires PORT in w.sniffer.accum && w.sniffer.accum[PORT].lastSeen == now
    ensures var r, c := ReadEntry(mac, w'.sniffer.mem, PORT), w.sniffer.accum[PORT];
            r.Some? && r.value.bytesIn == c.bytesIn % TWO64 && r.value.bytesOut == c.bytesOut % TWO64
  {
    hide Sniffer.FlushStep, ReadEntry, Step, Inet.ReadBack;
    AlwaysConsistent(mac, round, PORT, worlds, events, |events|);
    ConsistentIsValid(mac, round, PORT, w);
    Sniffer.FlushPublishes(mac, w.sniffer, now, map[], w'.sniffer, PORT);
  }

  lemma ConsistentIsValid(mac: Mac, round: real -> real, p: u16, w: World)
    requires Consistent(mac, round, p, w)
    ensures Sniffer.Owned(w.sniffer) && Sniffer.Indexed(mac, w.sniffer)
  {
    hide Sniffer.Owned, Sniffer.Indexed, Sampled, Publishes;
  }

  lemma ReadOnce(mac: Mac, round: real -> real, worlds: seq<World>, events: seq<Event>, w: World, time: real)
    returns (ws: seq<World>, es: seq<Event>)
    requires Runs(mac, round, worlds, events, w)
    ensures Runs(mac, round, ws, es, AfterRead(mac, round, PORT, w, time, false))
  {
    hide AfterRead, Runs;
    var w' := AfterRead(mac, round, PORT, w, time, false);
    Extend(mac, round, worlds, events, w, Read(time, false), w');
    ws, es := worlds + [w'], events + [Read(time, false)];
  }

  /** `n` more ports tracked beside the first, all last seen at `time`. */
  ghost predicate Crowded(before: World, w: World, n: nat, time: real) {
    && w == before.(sniffer := before.sniffer.(accum := w.sniffer.accum))
    && var accum := w.sniffer.accum;
       && |accum| == n + 1 && PORT in accum && PORT in before.sniffer.accum && accum[PORT] == before.sniffer.accum[PORT]
       && forall q | q in accum && q != PORT :: q <= n + 1 && accum[q].lastSeen == time
  }

  lemma {:induction false} Crowd(mac: Mac, round: real -> real, worlds: seq<World>, events: seq<Event>, before: World, n: nat, time: real)
    returns (ws: seq<World>, es: seq<Event>, w: World)
    requires Runs(mac, round, worlds, events, before) && before.sniffer.accum.Keys == {PORT} && n < 60000
    ensures Runs(mac, round, ws, es, w) && Crowded(before, w, n, time)
  {
    hide Runs;
    if n == 0 {
      ws, es, w := worlds, events, before;
      assert before.sniffer.accum == map[PORT := before.sniffer.accum[PORT]];
    } else {
      var crowded;
      ws, es, crowded := Crowd(mac, round, worlds, events, before, n - 1, time);
      ws, es := Arrive(mac, round, ws, es, crowded, n + 1, 0, time);
      w := Arrived(crowded, n + 1, 0, time);
      OneMorePort(before, crowded, n, time);
    }
  }

  lemma OneMorePort(before: World, w: World, n: nat, time: real)
    requires 0 < n < 60000 && Crowded(before, w, n - 1, time)
    ensures Crowded(before, Arrived(w, n + 1, 0, time), n, time)
  {
    var accum := w.sniffer.accum;
    var q: u16 := n + 1;
    assert q !in accum;
    var more := AfterArriving(accum, q, 0, time);
    assert more.Keys == accum.Keys + {q};
    assert |more| == |more.Keys| && |accum| == |accum.Keys|;
  }

  /** The first read: a thousand bytes, published and read at time 0. */
  lemma FirstRead(mac: Mac, round: real -> real) returns (worlds: seq<World>, events: seq<Event>, w: World)
    ensures Runs(mac, round, worlds, events, w)
    ensures w.sniffer.accum.Keys == {PORT} && w.sniffer.accum[PORT].lastSeen == 0.0
    ensures Counted(w.sniffer, PORT) == Totals(1000, 0) && w.seen == Totals(1000, 0) && w.dropped == Totals(0, 0)
    ensures |w.samples| == 1
    ensures var s := w.samples[0];
            s.shown == ByteSnapshot(0.0, 1000, 0) && s.total == Totals(1000, 0) && s.lost == Totals(0, 0)
  {
    hide ReadEntry, RatesBetween, Sniffer.FlushStep, Behaviour;
    assert Behaviour(mac, round, PORT, [Start()], []) by { Starting(mac, round); }
    worlds, events := Arrive(mac, round, [Start()], [], Start(), PORT, 1000, 0.0);
    var arrived := Arrived(Start(), PORT, 1000, 0.0);
    var flushed;
    var ws, es := worlds, events;
    worlds, events, flushed := Flush(mac, round, ws, es, arrived, 0.0);
    FlushedReading(mac, round, ws, es, arrived, 0.0, flushed);
    FlushedAccum(mac, arrived.sniffer, 0.0, flushed.sniffer);
    FewStay(arrived.sniffer.accum, 0.0);
    worlds, events := ReadOnce(mac, round, worlds, events, flushed, 0.0);
    w := AfterRead(mac, round, PORT, flushed, 0.0, false);
  }

  lemma Starting(mac: Mac, round: real -> real)
    ensures Behaviour(mac, round, PORT, [Start()], [])
  {}

  lemma FewStay(accum: Sniffer.Accum, now: real)
    requires accum.Keys == {PORT}
    ensures Sniffer.Evicted(accum, now) == accum
  {
    assert |accum| == |accum.Keys| == 1;
  }

  /** The crowd: more than 5000 ports are tracked when the next flush finds the port
      400 seconds idle, so the port is dropped. */
  lemma Dropped(mac: Mac, round: real -> real) returns (worlds: seq<World>, events: seq<Event>, first: World, w: World)
    ensures Runs(mac, round, worlds, events, w)
    ensures PORT !in w.sniffer.accum && |w.sniffer.accum| > 0
    ensures w.seen == Totals(1000, 0) && w.dropped == Totals(1000, 0) && w.samples == first.samples && w.last == first.last
    ensures |w.samples| == 1
    ensures var s := w.samples[0];
            s.shown == ByteSnapshot(0.0, 1000, 0) && s.total == Totals(1000, 0) && s.lost == Totals(0, 0)
  {
    hide Runs, ReadEntry, Sniffer.FlushStep;
    worlds, events, first := FirstRead(mac, round);
    var crowded;
    worlds, events, crowded := Crowd(mac, round, worlds, events, first, 5001, 400.0);
    worlds, events, w := Flush(mac, round, worlds, events, crowded, 400.0);
    FlushedAccum(mac, crowded.sniffer, 400.0, w.sniffer);
    var q := OtherPort(crowded.sniffer.accum);
    assert q in w.sniffer.accum;
    assert |w.sniffer.accum.Keys| > 0;
  }

  lemma OtherPort(accum: Sniffer.Accum) returns (q: u16)
    requires |accum| > 1
    ensures q in accum && q != PORT
  {
    var rest := accum.Keys - {PORT};
    assert accum.Keys * {PORT} == if PORT in accum then {PORT} else {};
    assert |accum.Keys| <= |rest| + 1 && |accum| == |accum.Keys|;
    q :| q in rest;
  }

  /** The port comes back with five hundred bytes: the delta between the two reads is
      not those five hundred but 2^64 less five hundred. */
  lemma DroppedPortMisreads(mac: Mac, round: real -> real) returns (worlds: seq<World>, events: seq<Event>)
    ensures Behaviour(mac, round, PORT, worlds, events)
    ensures var samples := worlds[|events|].samples;
            && |samples| == 2 && Regular(samples, false)
            && Lost(samples[0], samples[1], false) == 1000
            && Grown(samples[0], samples[1], false) == 500 && Delta(samples[0], samples[1], false) == TWO64 - 500
  {
    hide ReadEntry, RatesBetween, Sniffer.FlushStep;
    var first, dropped;
    worlds, events, first, dropped := Dropped(mac, round);
    worlds, events := Arrive(mac, round, worlds, events, dropped, PORT, 500, 401.0);
    var arrived := Arrived(dropped, PORT, 500, 401.0);
    var ws, es := worlds, events;
    var flushed;
    worlds, events, flushed := Flush(mac, round, ws, es, arrived, 401.0);
    FlushedReading(mac, round, ws, es, arrived, 401.0, flushed);
    worlds, events := ReadOnce(mac, round, worlds, events, flushed, 401.0);
  }
}
