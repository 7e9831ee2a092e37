/** One port followed end to end: packets are counted, counters are flushed to
    shared memory and may be dropped, the dispatcher reads them and turns them
    into rates. */
module Conservation {
  import opened Text
  import opened SlotCodec
  import opened SharedMemory
  import opened PortMetrics
  import Inet
  import Sniffer

  /** Bytes of the port, inbound and outbound. */
  datatype Totals = Totals(inbound: nat, outbound: nat)

  /** A successful read: the counters that were read and when, the rates it gave,
      and the bytes captured and the counter values dropped before the flush that
      it saw. */
  datatype Sample = Sample(shown: ByteSnapshot, rates: Rates, total: Totals, lost: Totals)

  /** `seen` are all bytes captured for the port, `dropped` the counter values that
      went when it was dropped; `published` and `publishedDropped` are the same as of the
      last flush. */
  datatype World = World(sniffer: Sniffer.State, seen: Totals, dropped: Totals, published: Totals, publishedDropped: Totals,
                         last: Option<ByteSnapshot>, samples: seq<Sample>)

  /** A read that overlaps a write may copy a torn record, which its MAC gives away. */
  datatype Event = Sniffed(event: Sniffer.Event) | Read(time: real, torn: bool)

  /** The bytes that a packet adds to the port's totals. */
  function Added(packet: Sniffer.Packet, p: u16): Totals {
    match packet
    case Other => Totals(0, 0)
    case Transport(_, _, sport, dport, _, length) =>
      Totals(if dport == p then length else 0, if sport == p then length else 0)
  }

  function Plus(a: Totals, b: Totals): Totals {
    Totals(a.inbound + b.inbound, a.outbound + b.outbound)
  }

  function Counted(s: Sniffer.State, p: u16): Totals {
    if p in s.accum then Totals(s.accum[p].bytesIn, s.accum[p].bytesOut) else Totals(0, 0)
  }

  function AfterCapture(w: World, p: u16, packet: Sniffer.Packet, s: Sniffer.State): World {
    w.(sniffer := s, seen := Plus(w.seen, Added(packet, p)))
  }

  predicate DropsPort(s: Sniffer.State, p: u16, s': Sniffer.State) {
    p in s.accum && p !in s'.accum
  }

  function AfterFlush(w: World, p: u16, s: Sniffer.State): World {
    w.(sniffer := s, published := w.seen, publishedDropped := w.dropped,
       dropped := if DropsPort(w.sniffer, p, s) then Plus(w.dropped, Counted(w.sniffer, p)) else w.dropped)
  }

  function AfterRead(mac: Mac, round: real -> real, p: u16, w: World, time: real, torn: bool): World {
    match if torn then None else ReadEntry(mac, w.sniffer.mem, p)
    case None => w
    case Some(r) =>
      var now := ByteSnapshot(time, r.bytesIn, r.bytesOut);
      w.(last := Some(now),
         samples := w.samples + [Sample(now, RatesBetween(round, w.last, now), w.published, w.publishedDropped)])
  }

  ghost predicate Step(mac: Mac, round: real -> real, p: u16, w: World, event: Event, w': World) {
    match event
    case Sniffed(e) =>
      && Sniffer.Step(mac, w.sniffer, e, w'.sniffer)
      && w' == if e.Captured? then AfterCapture(w, p, e.packet, w'.sniffer) else AfterFlush(w, p, w'.sniffer)
    case Read(time, torn) => w' == AfterRead(mac, round, p, w, time, torn)
  }

  function Start(): World {
    World(Sniffer.State(map[], Zeroed()), Totals(0, 0), Totals(0, 0), Totals(0, 0), Totals(0, 0), None, [])
  }

  ghost predicate Behaviour(mac: Mac, round: real -> real, p: u16, worlds: seq<World>, events: seq<Event>) {
    && |worlds| == |events| + 1
    && worlds[0] == Start()
    && forall i | 0 <= i < |events| :: Step(mac, round, p, worlds[i], events[i], worlds[i + 1])
  }

  // ---- what the reader's samples have in common

  function Of(t: Totals, outbound: bool): nat {
    if outbound then t.outbound else t.inbound
  }

  function RateOf(r: Rates, outbound: bool): real {
    if outbound then r.kbOut else r.kbIn
  }

  function CounterOf(b: ByteSnapshot, outbound: bool): u64 {
    if outbound then b.bytesOut else b.bytesIn
  }

  predicate NoLess(a: Totals, b: Totals) {
    a.inbound <= b.inbound && a.outbound <= b.outbound
  }

  /** The counter that is left of `total` when `lost` is gone, as it is published. */
  function Left(total: Totals, lost: Totals, outbound: bool): u64 {
    (Of(total, outbound) - Of(lost, outbound)) % TWO64
  }

  /** The sample shows what was captured and not lost. */
  predicate ShowsLeft(s: Sample) {
    && NoLess(s.lost, s.total)
    && s.shown.bytesIn == Left(s.total, s.lost, false) && s.shown.bytesOut == Left(s.total, s.lost, true)
  }

  /** The rates of a sample are computed from its own and the previous reading. */
  predicate Follows(round: real -> real, a: Sample, b: Sample) {
    NoLess(a.total, b.total) && b.rates == RatesBetween(round, Some(a.shown), b.shown)
  }

  predicate FollowsAt(round: real -> real, samples: seq<Sample>, i: int)
    requires 0 < i < |samples|
  {
    Follows(round, samples[i - 1], samples[i])
  }

  ghost predicate Linked(round: real -> real, samples: seq<Sample>) {
    && (forall i | 0 <= i < |samples| :: ShowsLeft(samples[i]))
    && forall i | 0 < i < |samples| :: FollowsAt(round, samples, i)
  }

  /** What was captured is counted or was dropped. */
  predicate Accounted(p: u16, w: World) {
    w.seen == Plus(Counted(w.sniffer, p), w.dropped) && NoLess(w.published, w.seen)
  }

  ghost predicate Sampled(round: real -> real, w: World) {
    && Linked(round, w.samples)
    && (w.samples == [] <==> w.last == None)
    && (w.samples != [] ==>
          var s := w.samples[|w.samples| - 1];
          w.last == Some(s.shown) && NoLess(s.total, w.published))
  }

  ghost predicate Consistent(mac: Mac, round: real -> real, p: u16, w: World) {
    && Sniffer.Owned(w.sniffer) && Sniffer.Indexed(mac, w.sniffer)
    && Accounted(p, w) && Publishes(mac, p, w) && Sampled(round, w)
  }

  /** A port that can be read shows what was captured and not lost up to the last
      flush, and has not been dropped since. */
  ghost predicate Publishes(mac: Mac, p: u16, w: World) {
    match ReadEntry(mac, w.sniffer.mem, p)
    case None => true
    case Some(r) =>
      && NoLess(w.publishedDropped, w.published) && w.publishedDropped == w.dropped
      && r.bytesIn == Left(w.published, w.publishedDropped, false) && r.bytesOut == Left(w.published, w.publishedDropped, true)
  }

  lemma CaptureCounts(s: Sniffer.State, p: u16, packet: Sniffer.Packet, risk: string -> byte, sentAt: real, receivedAt: real)
    requires p > 0
    ensures Counted(s.(accum := Sniffer.AfterPacket(s.accum, packet, risk, sentAt, receivedAt)), p)
         == Plus(Counted(s, p), Added(packet, p))
  {
    hide Sniffer.Outbound, Sniffer.Inbound, Counted, ReadEntry, Zeroed, Sniffer.Owned, Sniffer.Indexed, Sniffer.FlushStep;
    if packet.Transport? {
      var sent := s.(accum := Sniffer.Outbound(s.accum, packet, risk, sentAt));
      OutboundCounts(s, p, packet, risk, sentAt);
      InboundCounts(sent, p, packet, risk, receivedAt);
    }
  }

  lemma OutboundCounts(s: Sniffer.State, p: u16, packet: Sniffer.Packet, risk: string -> byte, now: real)
    requires p > 0 && packet.Transport?
    ensures Counted(s.(accum := Sniffer.Outbound(s.accum, packet, risk, now)), p) == Plus(Counted(s, p), Totals(0, Added(packet, p).outbound))
  {
    hide Sniffer.Count;
    CountCounts(s, p, packet.sport, packet.protocol, true, packet.length, risk(packet.destination), packet.destination, now);
  }

  lemma InboundCounts(s: Sniffer.State, p: u16, packet: Sniffer.Packet, risk: string -> byte, now: real)
    requires p > 0 && packet.Transport?
    ensures Counted(s.(accum := Sniffer.Inbound(s.accum, packet, risk, now)), p) == Plus(Counted(s, p), Totals(Added(packet, p).inbound, 0))
  {
    hide Sniffer.Count;
    CountCounts(s, p, packet.dport, packet.protocol, false, packet.length, risk(packet.source), packet.source, now);
  }

  lemma CountCounts(s: Sniffer.State, p: u16, port: nat, protocol: byte, outbound: bool, length: nat, risk: byte, remoteIp: string, now: real)
    requires p > 0
    ensures Sniffer.Tracked(port) ==>
              Counted(s.(accum := Sniffer.Count(s.accum, port, protocol, outbound, length, risk, remoteIp, now)), p)
              == (if port != p then Counted(s, p) else Plus(Counted(s, p), if outbound then Totals(0, length) else Totals(length, 0)))
  {}

  /** A flush keeps a port's counters or drops them whole, and an active port's. */
  lemma FlushCounts(mac: Mac, s: Sniffer.State, p: u16, now: real, pids: map<u16, u32>, s': Sniffer.State)
    requires Sniffer.FlushStep(mac, s, now, pids, s')
    ensures Counted(s', p) == if DropsPort(s, p, s') then Totals(0, 0) else Counted(s, p)
    ensures DropsPort(s, p, s') ==> !Sniffer.Active(s.accum[p], now)
  {}

  lemma CaptureKeeps(mac: Mac, round: real -> real, p: u16, w: World, e: Sniffer.Event, w': World)
    requires Consistent(mac, round, p, w) && e.Captured? && Step(mac, round, p, w, Sniffed(e), w') && p > 0
    ensures Consistent(mac, round, p, w')
  {
    hide ReadEntry, Linked, Left, Counted, Added, Sniffer.FlushStep, Sniffer.Owned, Sniffer.Indexed, Sniffer.AfterPacket;
    Sniffer.StepKeepsValid(mac, w.sniffer, e, w'.sniffer);
    CaptureCounts(w.sniffer, p, e.packet, e.risk, e.sentAt, e.receivedAt);
  }

  lemma FlushKeeps(mac: Mac, round: real -> real, p: u16, w: World, e: Sniffer.Event, w': World)
    requires Consistent(mac, round, p, w) && e.Flushed? && Step(mac, round, p, w, Sniffed(e), w')
    ensures Consistent(mac, round, p, w')
  {
    hide ReadEntry, Linked, Sniffer.Owned, Sniffer.Indexed, Sniffer.FlushStep, Inet.ReadBack;
    Sniffer.StepKeepsValid(mac, w.sniffer, e, w'.sniffer);
    FlushCounts(mac, w.sniffer, p, e.now, e.pids, w'.sniffer);
    Sniffer.FlushPublishes(mac, w.sniffer, e.now, e.pids, w'.sniffer, p);
  }

  lemma ReadKeeps(mac: Mac, round: real -> real, p: u16, w: World, time: real, torn: bool, w': World)
    requires Consistent(mac, round, p, w) && Step(mac, round, p, w, Read(time, torn), w')
    ensures Consistent(mac, round, p, w')
  {
    hide ReadEntry, RatesBetween, Left, Sniffer.Owned, Sniffer.Indexed, Linked;
    if !torn && ReadEntry(mac, w.sniffer.mem, p).Some? {
      LinkedNext(round, w.samples, w'.samples[|w.samples|]);
    }
  }

  lemma LinkedNext(round: real -> real, samples: seq<Sample>, s: Sample)
    requires Linked(round, samples) && ShowsLeft(s)
    requires samples != [] ==> Follows(round, samples[|samples| - 1], s)
    ensures Linked(round, samples + [s])
  {
    hide ShowsLeft, Follows;
    var more := samples + [s];
    forall i | 0 < i < |more|
      ensures FollowsAt(round, more, i)
    {
      assert i < |samples| ==> FollowsAt(round, samples, i);
    }
  }

  /** At every point of every run the counters, the published record and the samples
      agree with the bytes captured and the counter values dropped. */
  lemma {:induction false} AlwaysConsistent(mac: Mac, round: real -> real, p: u16, worlds: seq<World>, events: seq<Event>, i: nat)
    requires Behaviour(mac, round, p, worlds, events) && p > 0 && i < |worlds|
    ensures Consistent(mac, round, p, worlds[i])
  {
    hide Consistent, Step;
    if i == 0 {
      StartConsistent(mac, round, p);
    } else {
      var w, w' := worlds[i - 1], worlds[i];
      AlwaysConsistent(mac, round, p, worlds, events, i - 1);
      assert Step(mac, round, p, w, events[i - 1], w');
      match events[i - 1]
      case Sniffed(Captured(a, b, c, d)) => CaptureKeeps(mac, round, p, w, Sniffer.Captured(a, b, c, d), w');
      case Sniffed(Flushed(now, pids)) => FlushKeeps(mac, round, p, w, Sniffer.Flushed(now, pids), w');
      case Read(time, torn) => ReadKeeps(mac, round, p, w, time, torn, w');
    }
  }

  lemma StartConsistent(mac: Mac, round: real -> real, p: u16)
    ensures Consistent(mac, round, p, Start())
  {
    hide ReadEntry, Bit, Sniffer.Owned, Sniffer.Indexed, Consistent;
    Sniffer.InitiallyIndexed(mac);
    ZeroedReads(mac, p);
    EmptyConsistent(mac, round, p, Start());
  }

  lemma EmptyConsistent(mac: Mac, round: real -> real, p: u16, w: World)
    requires p !in w.sniffer.accum && w.seen == w.dropped == w.published == Totals(0, 0) && w.last == None && w.samples == []
    requires ReadEntry(mac, w.sniffer.mem, p) == None
    requires Sniffer.Owned(w.sniffer) && Sniffer.Indexed(mac, w.sniffer)
    ensures Consistent(mac, round, p, w)
  {
    hide ReadEntry, Accounted, Sampled, Sniffer.Owned, Sniffer.Indexed;
    EmptyAccounted(p, w);
    EmptySampled(round, w);
  }

  lemma EmptyAccounted(p: u16, w: World)
    requires p !in w.sniffer.accum && w.seen == w.dropped == w.published == Totals(0, 0)
    ensures Accounted(p, w)
  {
    hide ReadEntry, Zeroed, Bit, Slot, RatesBetween, Linked, Left, Sniffer.Owned, Sniffer.Indexed, Sniffer.FlushStep;
  }

  lemma EmptySampled(round: real -> real, w: World)
    requires w.last == None && w.samples == []
    ensures Sampled(round, w)
  {}

  // ---- the sums

  /** The delta that the calculator derives from two readings. */
  function Delta(a: Sample, b: Sample, outbound: bool): nat {
    SafeDelta(CounterOf(b.shown, outbound), CounterOf(a.shown, outbound))
  }

  /** The bytes captured between the flushes that two samples saw. */
  function Grown(a: Sample, b: Sample, outbound: bool): int {
    Of(b.total, outbound) - Of(a.total, outbound)
  }

  /** The counter values dropped between them. */
  function Lost(a: Sample, b: Sample, outbound: bool): int {
    Of(b.lost, outbound) - Of(a.lost, outbound)
  }

  /** Consecutive reads are strictly later, and fewer than 2^64 bytes apart. */
  ghost predicate Regular(samples: seq<Sample>, outbound: bool) {
    forall i | 0 < i < |samples| :: RegularAt(samples, i, outbound)
  }

  predicate RegularAt(samples: seq<Sample>, i: int, outbound: bool)
    requires 0 < i < |samples|
  {
    samples[i - 1].shown.time < samples[i].shown.time && Grown(samples[i - 1], samples[i], outbound) < TWO64
  }

  /** The interval that ends with sample `i` loses nothing that its delta would show. */
  predicate Conserves(samples: seq<Sample>, i: int, outbound: bool)
    requires 0 < i < |samples|
  {
    Lost(samples[i - 1], samples[i], outbound) % TWO64 == 0
  }

  /** The delta of the interval is the bytes captured in it. */
  predicate Exact(samples: seq<Sample>, i: int, outbound: bool)
    requires 0 < i < |samples|
  {
    Delta(samples[i - 1], samples[i], outbound) == Grown(samples[i - 1], samples[i], outbound)
  }

  /** The sum of the deltas that the calculator derives from its readings. */
  function DeltaSum(samples: seq<Sample>, outbound: bool): nat {
    if |samples| < 2 then 0
    else DeltaSum(samples[..|samples| - 1], outbound) + Delta(samples[|samples| - 2], samples[|samples| - 1], outbound)
  }

  /** The bytes that the rounded rates stand for. */
  function RebuiltSum(samples: seq<Sample>, outbound: bool): real {
    if |samples| < 2 then 0.0
    else
      var a, b := samples[|samples| - 2], samples[|samples| - 1];
      RebuiltSum(samples[..|samples| - 1], outbound) + Rebuilt(RateOf(b.rates, outbound), b.shown.time - a.shown.time)
  }

  /** The delta of one interval is the growth modulo 2^64 of what was not lost, and
      the rate is that delta to within the rounding. */
  lemma OneInterval(round: real -> real, samples: seq<Sample>, i: nat, outbound: bool)
    requires RoundsToHundredths(round) && Linked(round, samples) && Regular(samples, outbound) && 0 < i < |samples|
    ensures var a, b := samples[i - 1], samples[i];
            && Grown(a, b, outbound) >= 0
            && (Exact(samples, i, outbound) <==> Conserves(samples, i, outbound))
            && var elapsed := b.shown.time - a.shown.time;
               Within(Rebuilt(RateOf(b.rates, outbound), elapsed), Delta(a, b, outbound) as real, 5.12 * elapsed)
  {
    hide SafeDelta, Rebuilt, Within, RoundsToHundredths;
    var a, b := samples[i - 1], samples[i];
    assert ShowsLeft(a) && ShowsLeft(b) && FollowsAt(round, samples, i) && RegularAt(samples, i, outbound);
    RestartReadsAsWrap(Of(a.total, outbound), Of(a.lost, outbound), Of(b.total, outbound), Of(b.lost, outbound));
    RebuiltBytes(round, CounterOf(b.shown, outbound), CounterOf(a.shown, outbound), b.shown.time - a.shown.time);
  }

  lemma Prefix(round: real -> real, samples: seq<Sample>, outbound: bool)
    requires samples != [] && Linked(round, samples) && Regular(samples, outbound)
    ensures var front := samples[..|samples| - 1]; Linked(round, front) && Regular(front, outbound)
  {
    hide ShowsLeft, Follows, Grown;
    var front := samples[..|samples| - 1];
    forall i | 0 < i < |front|
      ensures FollowsAt(round, front, i) && RegularAt(front, i, outbound)
    {
      assert FollowsAt(round, samples, i) && RegularAt(samples, i, outbound);
    }
  }

  /** The rounded rates stand for the deltas to within the rounding, and the deltas
      add up to the growth if no interval loses anything. */
  lemma {:induction false} SumsTelescope(round: real -> real, samples: seq<Sample>, outbound: bool)
    requires RoundsToHundredths(round) && Linked(round, samples) && Regular(samples, outbound) && samples != []
    ensures var first, last := samples[0], samples[|samples| - 1];
            && Within(RebuiltSum(samples, outbound), DeltaSum(samples, outbound) as real, 5.12 * (last.shown.time - first.shown.time))
            && ((forall i | 0 < i < |samples| :: Conserves(samples, i, outbound)) ==>
                  DeltaSum(samples, outbound) == Grown(first, last, outbound))
  {
    hide Delta, Conserves, Rebuilt, Within, Linked, Regular, RoundsToHundredths;
    if |samples| == 1 {
      WithinSelf();
    } else {
      var front, a, b := samples[..|samples| - 1], samples[|samples| - 2], samples[|samples| - 1];
      Prefix(round, samples, outbound);
      OneInterval(round, samples, |samples| - 1, outbound);
      SumsTelescope(round, front, outbound);
      WithinAdds(RebuiltSum(front, outbound), DeltaSum(front, outbound) as real, 5.12 * (a.shown.time - samples[0].shown.time),
                 Rebuilt(RateOf(b.rates, outbound), b.shown.time - a.shown.time), Delta(a, b, outbound) as real,
                 5.12 * (b.shown.time - a.shown.time));
      if forall i | 0 < i < |samples| :: Conserves(samples, i, outbound) {
        forall i | 0 < i < |front|
          ensures Conserves(front, i, outbound)
        {
          assert Conserves(samples, i, outbound);
          SameIntervals(samples, i, outbound);
        }
      }
    }
  }

  lemma SameIntervals(samples: seq<Sample>, i: nat, outbound: bool)
    requires 0 < i < |samples| - 1
    ensures Conserves(samples[..|samples| - 1], i, outbound) == Conserves(samples, i, outbound)
  {}

  lemma WithinAdds(a: real, b: real, x: real, c: real, d: real, y: real)
    requires Within(a, b, x) && Within(c, d, y)
    ensures Within(a + c, b + d, x + y)
  {}

  lemma WithinSelf()
    ensures Within(0.0, 0.0, 0.0)
  {}

  lemma ConsistentIsLinked(mac: Mac, round: real -> real, p: u16, w: World)
    requires Consistent(mac, round, p, w)
    ensures Linked(round, w.samples)
  {
    hide ReadEntry, Linked, Sniffer.Owned, Sniffer.Indexed;
  }

  /** End-to-end conservation: over any run with regular reads, whether or not the
      port is dropped on the way, the delta of an interval is exactly the bytes
      captured in it if and only if the counter values dropped in it are a multiple
      of 2^64 (in particular, none); if that holds throughout, the deltas add up to
      exactly the bytes captured; and the bytes rebuilt from the published rates
      miss the deltas by at most 5.12 per second in every case. */
  lemma ByteConservation(mac: Mac, round: real -> real, p: u16, worlds: seq<World>, events: seq<Event>, outbound: bool)
    requires RoundsToHundredths(round) && p > 0
    requires Behaviour(mac, round, p, worlds, events)
    requires var samples := worlds[|events|].samples; samples != [] && Regular(samples, outbound)
    ensures var samples := worlds[|events|].samples;
            var first, last := samples[0], samples[|samples| - 1];
            && (forall i | 0 < i < |samples| :: Exact(samples, i, outbound) <==> Conserves(samples, i, outbound))
            && ((forall i | 0 < i < |samples| :: Conserves(samples, i, outbound)) ==>
                  DeltaSum(samples, outbound) == Grown(first, last, outbound))
            && Within(RebuiltSum(samples, outbound), DeltaSum(samples, outbound) as real, 5.12 * (last.shown.time - first.shown.time))
  {
    hide Step, Within, Regular, Conserves, Exact, Delta, RoundsToHundredths, Consistent, DeltaSum, RebuiltSum, Grown;
    AlwaysConsistent(mac, round, p, worlds, events, |events|);
    var samples := worlds[|events|].samples;
    ConsistentIsLinked(mac, round, p, worlds[|events|]);
    SumsTelescope(round, samples, outbound);
    forall i | 0 < i < |samples|
      ensures Exact(samples, i, outbound) <==> Conserves(samples, i, outbound)
    {
      OneInterval(round, samples, i, outbound);
    }
  }

  // ---- which reads are samples

  lemma {:induction false} CapturesPublishNothing(mac: Mac, round: real -> real, p: u16, worlds: seq<World>, events: seq<Event>, i: nat, j: nat)
    requires Behaviour(mac, round, p, worlds, events) && i <= j <= |events|
    requires forall k | i <= k < j :: events[k].Sniffed? && events[k].event.Captured?
    ensures worlds[j].sniffer.mem == worlds[i].sniffer.mem && worlds[j].published == worlds[i].published
  {
    if i < j {
      CapturesPublishNothing(mac, round, p, worlds, events, i, j - 1);
      assert Step(mac, round, p, worlds[j - 1], events[j - 1], worlds[j]);
    }
  }

  /** A whole read that follows a flush is a sample exactly if the port was tracked and
      at most 30 seconds idle then, whatever is captured in between; it shows the counters as they
      were at the flush, and stands for all bytes captured up to it. */
  lemma FlushedIsSampled(mac: Mac, round: real -> real, p: u16, worlds: seq<World>, events: seq<Event>, i: nat, j: nat)
    requires Behaviour(mac, round, p, worlds, events) && p > 0 && i < j < |events|
    requires events[i].Sniffed? && events[i].event.Flushed? && events[j].Read? && !events[j].torn
    requires forall k | i < k < j :: events[k].Sniffed? && events[k].event.Captured?
    ensures var accum, now := worlds[i].sniffer.accum, events[i].event.now;
            var before, after := worlds[j].samples, worlds[j + 1].samples;
            if p in accum && now - accum[p].lastSeen <= 30.0 then
              && |after| == |before| + 1 && after[..|before|] == before
              && after[|before|].shown == ByteSnapshot(events[j].time, accum[p].bytesIn % 0x1_0000_0000_0000_0000, accum[p].bytesOut % 0x1_0000_0000_0000_0000)
              && after[|before|].total == worlds[i].seen
            else after == before
  {
    hide ReadEntry, RatesBetween, Consistent, Inet.ReadBack;
    var w, w', e := worlds[i], worlds[i + 1], events[i].event;
    AlwaysConsistent(mac, round, p, worlds, events, i);
    ConsistentIsIndexed(mac, round, p, w);
    assert Step(mac, round, p, w, events[i], w');
    Sniffer.FlushPublishes(mac, w.sniffer, e.now, e.pids, w'.sniffer, p);
    CapturesPublishNothing(mac, round, p, worlds, events, i + 1, j);
    assert Step(mac, round, p, worlds[j], events[j], worlds[j + 1]);
  }

  lemma ConsistentIsIndexed(mac: Mac, round: real -> real, p: u16, w: World)
    requires Consistent(mac, round, p, w)
    ensures Sniffer.Owned(w.sniffer) && Sniffer.Indexed(mac, w.sniffer)
  {
    hide ReadEntry, Linked, Left, Sniffer.Owned, Sniffer.Indexed, Accounted, Publishes, Sampled;
  }

  // ---- the first reading

  /** The first reading of a port, however large its counters are, shows no rate. */
  lemma {:induction false} FirstSampleIsZero(mac: Mac, round: real -> real, p: u16, worlds: seq<World>, events: seq<Event>, i: nat)
    requires Behaviour(mac, round, p, worlds, events) && p > 0 && i < |worlds| && worlds[i].samples != []
    ensures worlds[i].samples[0].rates == Rates(0.0, 0.0)
  {
    hide Sniffer.Step, Consistent, ReadEntry;
    if i == 0 {
    } else {
      AlwaysConsistent(mac, round, p, worlds, events, i - 1);
      LastOfSamples(mac, round, p, worlds[i - 1]);
      assert Step(mac, round, p, worlds[i - 1], events[i - 1], worlds[i]);
      if worlds[i - 1].samples != [] {
        FirstSampleIsZero(mac, round, p, worlds, events, i - 1);
      }
    }
  }

  lemma LastOfSamples(mac: Mac, round: real -> real, p: u16, w: World)
    requires Consistent(mac, round, p, w)
    ensures w.samples == [] ==> w.last == None
  {
    hide ReadEntry, Sniffer.Owned, Sniffer.Indexed, Linked, Publishes;
  }

  // ---- ports that are not dropped

  /** No flush drops the port once it has been sampled. */
  ghost predicate KeptWhileSampled(p: u16, worlds: seq<World>) {
    forall i | 0 <= i < |worlds| - 1 && worlds[i].samples != [] :: !DropsPort(worlds[i].sniffer, p, worlds[i + 1].sniffer)
  }

  ghost predicate NothingLost(w: World) {
    forall i | 0 <= i < |w.samples| :: w.samples[i].lost == w.dropped
  }

  lemma {:induction false} KeptLosesNothing(mac: Mac, round: real -> real, p: u16, worlds: seq<World>, events: seq<Event>, i: nat)
    requires Behaviour(mac, round, p, worlds, events) && KeptWhileSampled(p, worlds) && p > 0 && i < |worlds|
    ensures NothingLost(worlds[i])
  {
    hide Sniffer.Step, Linked, ReadEntry, Sniffer.Owned, Sniffer.Indexed, DropsPort;
    if i == 0 {
    } else {
      KeptLosesNothing(mac, round, p, worlds, events, i - 1);
      AlwaysConsistent(mac, round, p, worlds, events, i - 1);
      assert Step(mac, round, p, worlds[i - 1], events[i - 1], worlds[i]);
    }
  }

  /** A port that is not dropped once it has been sampled is conserved exactly, even
      if it was dropped before. */
  lemma KeptConserves(mac: Mac, round: real -> real, p: u16, worlds: seq<World>, events: seq<Event>, outbound: bool)
    requires RoundsToHundredths(round) && p > 0
    requires Behaviour(mac, round, p, worlds, events) && KeptWhileSampled(p, worlds)
    requires var samples := worlds[|events|].samples; samples != [] && Regular(samples, outbound)
    ensures var samples := worlds[|events|].samples;
            var first, last := samples[0], samples[|samples| - 1];
            && DeltaSum(samples, outbound) == Grown(first, last, outbound)
            && Within(RebuiltSum(samples, outbound), Grown(first, last, outbound) as real, 5.12 * (last.shown.time - first.shown.time))
  {
    hide Step, Regular, DeltaSum, RebuiltSum, Grown, Delta, KeptWhileSampled;
    KeptLosesNothing(mac, round, p, worlds, events, |events|);
    ByteConservation(mac, round, p, worlds, events, outbound);
    var samples := worlds[|events|].samples;
    forall i | 0 < i < |samples|
      ensures Conserves(samples, i, outbound)
    {
      assert samples[i - 1].lost == samples[i].lost;
    }
  }
}
