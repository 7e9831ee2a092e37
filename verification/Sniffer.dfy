/** The sniffer process: per-port counters accumulated from packets, and the
    flush that publishes them, marks idle ports and drops long-idle ones. */
module Sniffer {
  import opened Text
  import opened SlotCodec
  import opened SharedMemory
  import opened Inet

  const ACTIVE_SECONDS := 30.0
  const STALE_SECONDS := 300.0
  const ACCUM_LIMIT := 5000

  datatype Counters = Counters(bytesIn: nat, bytesOut: nat, pid: u32, protocol: byte, risk: byte,
                               remoteIp: string, lastSeen: real)

  /** A captured packet with an IP layer and a TCP (0) or UDP (1) layer, or any other. */
  datatype Packet =
    | Transport(source: string, destination: string, sport: nat, dport: nat, protocol: byte, length: nat)
    | Other

  type Accum = map<u16, Counters>

  predicate Tracked(port: nat) {
    0 < port < MAX_PORTS
  }

  function Known(accum: Accum, port: u16, protocol: byte): Counters {
    if port in accum then accum[port] else Counters(0, 0, 0, protocol, 0, "0.0.0.0", 0.0)
  }

  function Max(a: byte, b: byte): byte {
    if a < b then b else a
  }

  /** `length` more bytes seen on `port`, outbound or inbound. */
  function Count(accum: Accum, port: u16, protocol: byte, outbound: bool, length: nat, risk: byte,
                 remoteIp: string, now: real): Accum {
    var c := Known(accum, port, protocol);
    accum[port := c.(bytesIn := c.bytesIn + if outbound then 0 else length,
                     bytesOut := c.bytesOut + if outbound then length else 0,
                     risk := Max(c.risk, risk), remoteIp := remoteIp, lastSeen := now)]
  }

  function Outbound(accum: Accum, packet: Packet, risk: string -> byte, now: real): Accum
    requires packet.Transport?
  {
    if Tracked(packet.sport)
    then Count(accum, packet.sport, packet.protocol, true, packet.length, risk(packet.destination), packet.destination, now)
    else accum
  }

  function Inbound(accum: Accum, packet: Packet, risk: string -> byte, now: real): Accum
    requires packet.Transport?
  {
    if Tracked(packet.dport)
    then Count(accum, packet.dport, packet.protocol, false, packet.length, risk(packet.source), packet.source, now)
    else accum
  }

  /** A packet counts for its source port as outbound and for its destination
      port as inbound; `risk` scores the remote address of each. */
  function AfterPacket(accum: Accum, packet: Packet, risk: string -> byte, sentAt: real, receivedAt: real): Accum {
    if packet.Other? then accum else Inbound(Outbound(accum, packet, risk, sentAt), packet, risk, receivedAt)
  }

  /** What a packet does to the counters of one port, field by field. */
  lemma PacketMeans(accum: Accum, packet: Packet, risk: string -> byte, sentAt: real, receivedAt: real, p: u16)
    ensures packet.Other? ==> AfterPacket(accum, packet, risk, sentAt, receivedAt) == accum
    ensures packet.Transport? ==>
              var after := AfterPacket(accum, packet, risk, sentAt, receivedAt);
              var sends, receives := 0 < packet.sport < 65536 && p == packet.sport, 0 < packet.dport < 65536 && p == packet.dport;
              && (p in after <==> p in accum || sends || receives)
              && (p in accum && !sends && !receives ==> after[p] == accum[p])
              && (sends || receives ==>
                    var c, c' := if p in accum then accum[p] else Counters(0, 0, 0, packet.protocol, 0, "0.0.0.0", 0.0), after[p];
                    && c'.bytesOut == c.bytesOut + (if sends then packet.length else 0)
                    && c'.bytesIn == c.bytesIn + (if receives then packet.length else 0)
                    && c'.pid == c.pid && c'.protocol == c.protocol
                    && c'.risk >= c.risk
                    && (sends ==> c'.risk >= risk(packet.destination)) && (receives ==> c'.risk >= risk(packet.source))
                    && (c'.risk == c.risk || (sends && c'.risk == risk(packet.destination)) || (receives && c'.risk == risk(packet.source)))
                    && c'.remoteIp == (if receives then packet.source else packet.destination)
                    && c'.lastSeen == if receives then receivedAt else sentAt)
  {
    if packet.Transport? {
      var sent := Outbound(accum, packet, risk, sentAt);
      assert p in sent <==> p in accum || (0 < packet.sport < 65536 && p == packet.sport);
    }
  }

  predicate Active(c: Counters, now: real) {
    now - c.lastSeen <= ACTIVE_SECONDS
  }

  function PidAt(port: u16, c: Counters, now: real, pids: map<u16, u32>): u32 {
    if Active(c, now) && port in pids then pids[port] else c.pid
  }

  /** What a flush at `now` writes for a port. */
  function Published(port: u16, c: Counters, now: real, pids: map<u16, u32>): Entry {
    MakeEntry(port, c.bytesIn, c.bytesOut, PidAt(port, c, now, pids), c.protocol,
              if Active(c, now) then 1 else 0, c.risk, c.remoteIp)
  }

  function Refreshed(accum: Accum, now: real, pids: map<u16, u32>): Accum {
    map p | p in accum :: accum[p].(pid := PidAt(p, accum[p], now, pids))
  }

  function Evicted(accum: Accum, now: real): Accum {
    if |accum| > ACCUM_LIMIT
    then map p | p in accum && !(now - accum[p].lastSeen > STALE_SECONDS) :: accum[p]
    else accum
  }

  datatype State = State(accum: Accum, mem: Memory)

  /** The memory after the flush: the tracked ports' slots and bits rewritten,
      nothing else touched.  The order in which the ports are written is free. */
  ghost predicate Rewritten(mac: Mac, before: State, done: set<u16>, now: real, pids: map<u16, u32>, mem: Memory)
    requires done <= before.accum.Keys
  {
    forall p: u16 ::
      && Slot(mem, p) == (if p in done then Record(mac, Published(p, before.accum[p], now, pids)) else Slot(before.mem, p))
      && Bit(mem, p) == (if p in done then Active(before.accum[p], now) else Bit(before.mem, p))
  }

  ghost predicate FlushStep(mac: Mac, s: State, now: real, pids: map<u16, u32>, s': State) {
    && Rewritten(mac, s, s.accum.Keys, now, pids, s'.mem)
    && s'.accum == Evicted(Refreshed(s.accum, now, pids), now)
  }

  // ---- what holds between flushes

  /** Every set bit belongs to a port that is still tracked. */
  ghost predicate Owned(s: State) {
    forall p: u16 | Bit(s.mem, p) :: p in s.accum
  }

  /** The bitmap says which ports can be read. */
  ghost predicate Indexed(mac: Mac, s: State) {
    forall p: u16 :: Bit(s.mem, p) == ReadEntry(mac, s.mem, p).Some?
  }

  /** After a flush, a port's bit is set exactly when the port was tracked and at
      most 30 seconds idle; dropping ports never orphans a set bit. */
  lemma FlushDecidesBits(mac: Mac, s: State, now: real, pids: map<u16, u32>, s': State)
    requires FlushStep(mac, s, now, pids, s') && Owned(s)
    ensures forall p: u16 :: Bit(s'.mem, p) <==> p in s.accum && now - s.accum[p].lastSeen <= 30.0
    ensures Owned(s')
  {
    hide Record, Published, Slot, Bit;
    forall p: u16
      ensures Bit(s'.mem, p) <==> p in s.accum && now - s.accum[p].lastSeen <= 30.0
      ensures Bit(s'.mem, p) ==> p in s'.accum
    {
      assert Slot(s'.mem, p) == Slot(s'.mem, p);
    }
  }

  /** What the reader of a port sees after a flush: the port's counters modulo
      2^64 while it is active, and nothing otherwise. */
  lemma FlushPublishes(mac: Mac, s: State, now: real, pids: map<u16, u32>, s': State, p: u16)
    requires FlushStep(mac, s, now, pids, s') && Owned(s) && Indexed(mac, s)
    ensures ReadEntry(mac, s'.mem, p) ==
            if p in s.accum && now - s.accum[p].lastSeen <= 30.0 then
              var c := s.accum[p];
              Some(Reading(p, c.bytesIn % TWO64, c.bytesOut % TWO64, if p in pids then pids[p] else c.pid, c.protocol, 1, c.risk,
                           ReadBack(c.remoteIp)))
            else None
  {
    if p in s.accum {
      var c := s.accum[p];
      AcceptRecord(mac, Published(p, c, now, pids));
      ReadingOfMadeEntry(p, c.bytesIn, c.bytesOut, PidAt(p, c, now, pids), c.protocol,
                         if Active(c, now) then 1 else 0, c.risk, c.remoteIp);
    } else {
      assert !Bit(s.mem, p);
    }
  }

  /** What a flush leaves of the counters: only with more than 5000 ports tracked does it
      drop any, and then exactly those idle for more than 300 seconds; of the others
      it changes nothing but the process of an active port that is in the pid table. */
  lemma FlushMeans(mac: Mac, s: State, now: real, pids: map<u16, u32>, s': State, p: u16)
    requires FlushStep(mac, s, now, pids, s')
    ensures p in s'.accum <==> p in s.accum && !(|s.accum| > 5000 && now - s.accum[p].lastSeen > 300.0)
    ensures p in s'.accum ==>
              s'.accum[p] == s.accum[p].(pid := if now - s.accum[p].lastSeen <= 30.0 && p in pids then pids[p] else s.accum[p].pid)
  {
    hide Rewritten;
    var refreshed := Refreshed(s.accum, now, pids);
    assert refreshed.Keys == s.accum.Keys && |refreshed| == |refreshed.Keys| && |s.accum| == |s.accum.Keys|;
  }

  lemma FlushKeepsIndexed(mac: Mac, s: State, now: real, pids: map<u16, u32>, s': State)
    requires FlushStep(mac, s, now, pids, s') && Owned(s) && Indexed(mac, s)
    ensures Indexed(mac, s')
  {
    FlushDecidesBits(mac, s, now, pids, s');
    forall p: u16
      ensures Bit(s'.mem, p) == ReadEntry(mac, s'.mem, p).Some?
    {
      FlushPublishes(mac, s, now, pids, s', p);
    }
  }

  lemma PacketKeepsValid(mac: Mac, s: State, packet: Packet, risk: string -> byte, sentAt: real, receivedAt: real)
    requires Owned(s) && Indexed(mac, s)
    ensures var s' := s.(accum := AfterPacket(s.accum, packet, risk, sentAt, receivedAt)); Owned(s') && Indexed(mac, s')
  {}

  // ---- runs

  datatype Event =
    | Captured(packet: Packet, risk: string -> byte, sentAt: real, receivedAt: real)
    | Flushed(now: real, pids: map<u16, u32>)

  ghost predicate Step(mac: Mac, s: State, event: Event, s': State) {
    match event
    case Captured(packet, risk, sentAt, receivedAt) => s' == s.(accum := AfterPacket(s.accum, packet, risk, sentAt, receivedAt))
    case Flushed(now, pids) => FlushStep(mac, s, now, pids, s')
  }

  /** States joined by events, starting from zeroed memory and no counters. */
  ghost predicate Behaviour(mac: Mac, states: seq<State>, events: seq<Event>) {
    && |states| == |events| + 1
    && states[0] == State(map[], Zeroed())
    && forall i | 0 <= i < |events| :: Step(mac, states[i], events[i], states[i + 1])
  }

  lemma InitiallyIndexed(mac: Mac)
    ensures Indexed(mac, State(map[], Zeroed())) && Owned(State(map[], Zeroed()))
  {
    forall p: u16
      ensures !Bit(Zeroed(), p) && ReadEntry(mac, Zeroed(), p) == None
    {
      ZeroedReads(mac, p);
    }
  }

  lemma StepKeepsValid(mac: Mac, s: State, event: Event, s': State)
    requires Owned(s) && Indexed(mac, s) && Step(mac, s, event, s')
    ensures Owned(s') && Indexed(mac, s')
  {
    hide Owned, Indexed, FlushStep, AfterPacket;
    match event
    case Captured(packet, risk, sentAt, receivedAt) => PacketKeepsValid(mac, s, packet, risk, sentAt, receivedAt);
    case Flushed(now, pids) =>
      FlushDecidesBits(mac, s, now, pids, s');
      FlushKeepsIndexed(mac, s, now, pids, s');
  }

  lemma {:induction false} AlwaysOwned(mac: Mac, states: seq<State>, events: seq<Event>, i: nat)
    requires Behaviour(mac, states, events) && i < |states|
    ensures Owned(states[i]) && Indexed(mac, states[i])
  {
    if i == 0 {
      InitiallyIndexed(mac);
    } else {
      AlwaysOwned(mac, states, events, i - 1);
      assert Step(mac, states[i - 1], events[i - 1], states[i]);
      StepKeepsValid(mac, states[i - 1], events[i - 1], states[i]);
    }
  }

  /** After every flush of every run, a port's bit is set exactly when the port was
      tracked with at most 30 idle seconds, every set bit belongs to a port that
      is still tracked, and the scan returns exactly the ports with a set bit. */
  lemma FlushOwnership(mac: Mac, states: seq<State>, events: seq<Event>, i: nat)
    requires Behaviour(mac, states, events) && i < |events| && events[i].Flushed?
    ensures var s, s' := states[i], states[i + 1];
            && (forall p: u16 :: Bit(s'.mem, p) <==> p in s.accum && events[i].now - s.accum[p].lastSeen <= 30.0)
            && (forall p: u16 | Bit(s'.mem, p) :: p in s'.accum)
            && Scan(mac, s'.mem) == BruteForce(mac, s'.mem)
  {
    AlwaysOwned(mac, states, events, i);
    AlwaysOwned(mac, states, events, i + 1);
    assert Step(mac, states[i], events[i], states[i + 1]);
    FlushDecidesBits(mac, states[i], events[i].now, events[i].pids, states[i + 1]);
    IndexedScan(mac, states[i + 1]);
  }

  lemma IndexedScan(mac: Mac, s: State)
    requires Indexed(mac, s)
    ensures Scan(mac, s.mem) == BruteForce(mac, s.mem)
  {
    forall p: u16 | !BitsOf(s.mem)(p)
      ensures EntriesOf(mac, s.mem)(p) == None
    {
      assert Bit(s.mem, p) == ReadEntry(mac, s.mem, p).Some?;
    }
    PortScan.IndexIsComplete(AllPorts(s.mem), BitsOf(s.mem), EntriesOf(mac, s.mem));
  }

  /** In every state of every run a scan returns every port at most once. */
  lemma ScanDistinct(mac: Mac, states: seq<State>, events: seq<Event>, i: nat)
    requires Behaviour(mac, states, events) && i < |states|
    ensures DistinctPorts(Scan(mac, states[i].mem))
  {
    hide Scan, OwnSlots;
    AlwaysOwnSlots(mac, states, events, i);
    OwnSlotsScanDistinct(mac, states[i].mem);
  }

  lemma {:induction false} AlwaysOwnSlots(mac: Mac, states: seq<State>, events: seq<Event>, i: nat)
    requires Behaviour(mac, states, events) && i < |states|
    ensures OwnSlots(mac, states[i].mem)
  {
    hide OwnSlots, FlushStep, AfterPacket, Zeroed;
    if i == 0 {
      ZeroedOwnSlots(mac);
    } else {
      AlwaysOwnSlots(mac, states, events, i - 1);
      assert Step(mac, states[i - 1], events[i - 1], states[i]);
      match events[i - 1]
      case Captured(_, _, _, _) =>
      case Flushed(now, pids) =>
        FlushKeepsOwnSlots(mac, states[i - 1], now, pids, states[i]);
    }
  }

  lemma FlushKeepsOwnSlots(mac: Mac, s: State, now: real, pids: map<u16, u32>, s': State)
    requires FlushStep(mac, s, now, pids, s') && OwnSlots(mac, s.mem)
    ensures OwnSlots(mac, s'.mem)
  {
    hide Accept, Record, Slot, Bit, Published, Refreshed, Evicted;
    forall p: u16
      ensures var r := ReadEntry(mac, s'.mem, p); r.Some? ==> r.value.port == p
    {
      assert ReadEntry(mac, s.mem, p).Some? ==> ReadEntry(mac, s.mem, p).value.port == p;
      if p in s.accum {
        AcceptRecord(mac, Published(p, s.accum[p], now, pids));
        PublishedPort(p, s.accum[p], now, pids);
      }
    }
  }

  lemma PublishedPort(port: u16, c: Counters, now: real, pids: map<u16, u32>)
    ensures Published(port, c, now, pids).port == port
  {}

  // ---- the process

  class SnifferProcess {
    var accum: Accum
    const shm: Segment

    ghost predicate Valid()
      reads this, shm.buf
    {
      shm.Valid() && Owned(Abstract()) && Indexed(shm.mac, Abstract())
    }

    ghost function Abstract(): State
      requires shm.Valid()
      reads this, shm.buf
    {
      State(accum, shm.Contents())
    }

    constructor (mac: Mac)
      ensures Valid() && fresh(shm.buf) && shm.mac == mac
      ensures Abstract() == State(map[], Zeroed())
    {
      var segment := new Segment(mac);
      accum := map[];
      shm := segment;
      new;
      InitiallyIndexed(mac);
    }

    /** Adds `length` bytes to a port's counters, starting them if need be. */
    method Accumulate(port: u16, protocol: byte, outbound: bool, length: nat, score: byte, remoteIp: string, now: real)
      modifies this`accum
      ensures accum == Count(old(accum), port, protocol, outbound, length, score, remoteIp, now)
    {
      if port !in accum {
        accum := accum[port := Counters(0, 0, 0, protocol, 0, "0.0.0.0", 0.0)];
      }
      var data := accum[port];
      if outbound {
        data := data.(bytesOut := data.bytesOut + length);
      } else {
        data := data.(bytesIn := data.bytesIn + length);
      }
      data := data.(risk := Max(data.risk, score), remoteIp := remoteIp, lastSeen := now);
      accum := accum[port := data];
    }

    /** Counts a captured packet for the ports at its two ends. */
    method PacketCallback(packet: Packet, risk: string -> byte, sentAt: real, receivedAt: real)
      requires Valid()
      modifies this
      ensures Valid()
      ensures Abstract() == old(Abstract()).(accum := AfterPacket(old(accum), packet, risk, sentAt, receivedAt))
    {
      PacketKeepsValid(shm.mac, Abstract(), packet, risk, sentAt, receivedAt);
      if packet.Other? {
        return;
      }
      if packet.sport > 0 && packet.sport < MAX_PORTS {
        var remoteIp := packet.destination;
        Accumulate(packet.sport, packet.protocol, true, packet.length, risk(remoteIp), remoteIp, sentAt);
      }
      if packet.dport > 0 && packet.dport < MAX_PORTS {
        var remoteIp := packet.source;
        Accumulate(packet.dport, packet.protocol, false, packet.length, risk(remoteIp), remoteIp, receivedAt);
      }
    }

    /** Publishes one port's counters and remembers its process while it is active. */
    method Publish(port: u16, now: real, pids: map<u16, u32>)
      requires shm.Valid() && port in accum
      modifies this`accum, shm.buf
      ensures shm.Valid()
      ensures shm.Contents() == Write(shm.mac, old(shm.Contents()), Published(port, old(accum)[port], now, pids))
      ensures accum == old(accum)[port := old(accum)[port].(pid := PidAt(port, old(accum)[port], now, pids))]
    {
      hide Write, MakeEntry, OwnSlots;
      var data := accum[port];
      var active: byte := if now - data.lastSeen <= ACTIVE_SECONDS then 1 else 0;
      var pid := if active == 1 && port in pids then pids[port] else data.pid;
      shm.WritePortEntry(port, data.bytesIn, data.bytesOut, pid, data.protocol, active, data.risk, data.remoteIp);
      if active == 1 {
        accum := accum[port := data.(pid := pid)];
      }
    }

    /** Publishes every tracked port, in whatever order the table yields them. */
    method PublishAll(now: real, pids: map<u16, u32>)
      requires shm.Valid()
      modifies this`accum, shm.buf
      ensures shm.Valid()
      ensures Rewritten(shm.mac, old(Abstract()), old(accum).Keys, now, pids, shm.Contents())
      ensures accum == Refreshed(old(accum), now, pids)
    {
      hide Rewritten, Write, Published, PidAt, OwnSlots;
      ghost var before, done := Abstract(), {};
      NothingRewritten(shm.mac, before, now, pids);
      var todo := accum.Keys;
      while todo != {}
        invariant shm.Valid() && accum.Keys == before.accum.Keys == todo + done && todo !! done
        invariant forall p | p in todo :: accum[p] == before.accum[p]
        invariant forall p | p in done :: accum[p] == before.accum[p].(pid := PidAt(p, before.accum[p], now, pids))
        invariant Rewritten(shm.mac, before, done, now, pids, shm.Contents())
        decreases todo
      {
        var port :| port in todo;
        WriteKeepsRewritten(shm.mac, before, done, now, pids, shm.Contents(), port);
        Publish(port, now, pids);
        todo, done := todo - {port}, done + {port};
      }
      assert done == before.accum.Keys;
    }

    /** Publishes every tracked port, then drops long-idle ports if the table has
        grown past its limit. */
    method FlushToShm(now: real, pids: map<u16, u32>)
      requires Valid()
      modifies this, shm.buf
      ensures Valid()
      ensures FlushStep(shm.mac, old(Abstract()), now, pids, Abstract())
    {
      hide Rewritten, Owned, Indexed, Refreshed, OwnSlots;
      ghost var before := Abstract();
      PublishAll(now, pids);
      if |accum| > ACCUM_LIMIT {
        accum := map p | p in accum && !(now - accum[p].lastSeen > STALE_SECONDS) :: accum[p];
      }
      FlushDecidesBits(shm.mac, before, now, pids, Abstract());
      FlushKeepsIndexed(shm.mac, before, now, pids, Abstract());
    }
  }

  lemma NothingRewritten(mac: Mac, before: State, now: real, pids: map<u16, u32>)
    ensures Rewritten(mac, before, {}, now, pids, before.mem)
  {}

  lemma WriteKeepsRewritten(mac: Mac, before: State, done: set<u16>, now: real, pids: map<u16, u32>, mem: Memory, port: u16)
    requires done <= before.accum.Keys && port in before.accum && Rewritten(mac, before, done, now, pids, mem)
    ensures Rewritten(mac, before, done + {port}, now, pids, Write(mac, mem, Published(port, before.accum[port], now, pids)))
  {
    var e := Published(port, before.accum[port], now, pids);
    forall p: u16
      ensures var m := Write(mac, mem, e);
              && Slot(m, p) == (if p in done + {port} then Record(mac, Published(p, before.accum[p], now, pids)) else Slot(before.mem, p))
              && Bit(m, p) == (if p in done + {port} then Active(before.accum[p], now) else Bit(before.mem, p))
    {
      WriteEffect(mac, mem, e, p);
      assert Slot(mem, p) == Slot(mem, p);
    }
  }

  /** Whatever is tracked, a flush is possible: its writes can be made one by one. */
  lemma {:induction false} Rewrite(mac: Mac, before: State, done: set<u16>, todo: set<u16>, now: real, pids: map<u16, u32>, mem: Memory)
    returns (mem': Memory)
    requires done + todo == before.accum.Keys && Rewritten(mac, before, done, now, pids, mem)
    ensures Rewritten(mac, before, before.accum.Keys, now, pids, mem')
    decreases todo
  {
    hide Rewritten, Write, Published;
    if todo == {} {
      assert done == before.accum.Keys;
      mem' := mem;
    } else {
      var port :| port in todo;
      WriteKeepsRewritten(mac, before, done, now, pids, mem, port);
      assert (done + {port}) + (todo - {port}) == before.accum.Keys;
      mem' := Rewrite(mac, before, done + {port}, todo - {port}, now, pids, Write(mac, mem, Published(port, before.accum[port], now, pids)));
    }
  }

  lemma FlushExists(mac: Mac, s: State, now: real, pids: map<u16, u32>) returns (s': State)
    ensures FlushStep(mac, s, now, pids, s')
  {
    hide Rewritten;
    NothingRewritten(mac, s, now, pids);
    var mem := Rewrite(mac, s, {}, s.accum.Keys, now, pids, s.mem);
    s' := State(Evicted(Refreshed(s.accum, now, pids), now), mem);
  }
}
