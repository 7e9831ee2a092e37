/** The shared segment between the sniffer and the dispatcher: 65536 slots of
    64 bytes (32 data bytes, 32 MAC bytes) followed by a bitmap of active ports. */
module SharedMemory {
  import opened Text
  import opened SlotCodec
  import opened Inet
  import Bits
  import opened PortScan

  const MAX_PORTS := 65536
  const ENTRY_SIZE := 64
  const BITMAP_SIZE := 8192
  const BITMAP_OFFSET := MAX_PORTS * ENTRY_SIZE
  const SHM_SIZE := BITMAP_OFFSET + BITMAP_SIZE

  type Memory = m: seq<byte> | |m| == SHM_SIZE witness seq(SHM_SIZE, _ => 0)
  type Raw = r: seq<byte> | |r| == ENTRY_SIZE witness seq(ENTRY_SIZE, _ => 0)

  /** The keyed MAC (HMAC, section 2 of RFC 2104) under the process's key: any
      function from data bytes to 32 bytes. */
  type Mac = Data -> Data

  // ---- reading and writing on values

  function Slot(m: Memory, p: u16): Raw {
    m[p * ENTRY_SIZE..p * ENTRY_SIZE + ENTRY_SIZE]
  }

  predicate Bit(m: Memory, p: u16) {
    Bits.HasBit(m[BITMAP_OFFSET + p / 8], p % 8)
  }

  /** `b | (1 << k)` or `b & ~(1 << k)` */
  function UpdateBit(b: byte, k: nat, on: bool): byte
    requires k < 8
  {
    Bits.ByteWidth();
    Bits.InRange(b, k, 8);
    if on then Bits.WithBit(b, k) else Bits.WithoutBit(b, k)
  }

  function Record(mac: Mac, e: Entry): Raw {
    Pack(e) + mac(Pack(e))
  }

  function StoreSlot(m: Memory, p: u16, r: Raw): Memory {
    m[..p * ENTRY_SIZE] + r + m[p * ENTRY_SIZE + ENTRY_SIZE..]
  }

  function StoreBit(m: Memory, p: u16, on: bool): Memory {
    var at := BITMAP_OFFSET + p / 8;
    m[at := UpdateBit(m[at], p % 8, on)]
  }

  function Write(mac: Mac, m: Memory, e: Entry): Memory {
    StoreBit(StoreSlot(m, e.port, Record(mac, e)), e.port, e.active != 0)
  }

  /** What the writer is called with: counters of any size and an address as text. */
  function MakeEntry(port: u16, bytesIn: nat, bytesOut: nat, pid: u32, protocol: byte, active: byte,
                     risk: byte, remoteIp: string): Entry {
    var address := match Aton(remoteIp) case Some(a) => a case None => [0, 0, 0, 0];
    Entry(port, bytesIn % TWO64, bytesOut % TWO64, pid, protocol, active, risk, address)
  }

  datatype Reading = Reading(port: u16, bytesIn: u64, bytesOut: u64, pid: u32, protocol: byte,
                             active: byte, risk: byte, remoteIp: string)

  function ReadingOf(e: Entry): Reading {
    Reading(e.port, e.bytesIn, e.bytesOut, e.pid, e.protocol, e.active, e.risk, Ntoa(e.address))
  }

  /** The reader's verdict on the 64 bytes it copied out. */
  function Accept(mac: Mac, raw: Raw): Option<Reading> {
    if mac(raw[..32]) != raw[32..] then None
    else
      var e := Unpack(raw[..32]);
      if e.active == 0 then None else Some(ReadingOf(e))
  }

  function ReadEntry(mac: Mac, m: Memory, p: u16): Option<Reading> {
    Accept(mac, Slot(m, p))
  }

  function BitsOf(m: Memory): u16 -> bool {
    (p: u16) => Bit(m, p)
  }

  function EntriesOf(mac: Mac, m: Memory): u16 -> Option<Reading> {
    (p: u16) => ReadEntry(mac, m, p)
  }

  /** 0, 1, 2, ..., 65535: the ports that have a slot in the memory. */
  function AllPorts(m: Memory): (ports: seq<u16>)
    ensures |ports| == MAX_PORTS && forall i | 0 <= i < MAX_PORTS :: ports[i] == i
  {
    seq((|m| - BITMAP_SIZE) / ENTRY_SIZE, i requires 0 <= i < MAX_PORTS => i)
  }

  /** What the reader returns: the entries of the ports whose bitmap bit is set. */
  function Scan(mac: Mac, m: Memory): seq<Reading> {
    ReadIndexed(AllPorts(m), BitsOf(m), EntriesOf(mac, m))
  }

  /** What reading all 65536 ports one by one returns. */
  function BruteForce(mac: Mac, m: Memory): seq<Reading> {
    ReadEach(AllPorts(m), EntriesOf(mac, m))
  }

  // ---- one write

  lemma StoreSlotEffect(m: Memory, p: u16, r: Raw, q: u16)
    ensures Slot(StoreSlot(m, p, r), q) == if q == p then r else Slot(m, q)
    ensures Bit(StoreSlot(m, p, r), q) == Bit(m, q)
  {
    var m' := StoreSlot(m, p, r);
    if q < p {
      assert q * ENTRY_SIZE + ENTRY_SIZE <= p * ENTRY_SIZE;
    } else if p < q {
      assert p * ENTRY_SIZE + ENTRY_SIZE <= q * ENTRY_SIZE;
    }
    if q == p {
      assert m'[p * ENTRY_SIZE..p * ENTRY_SIZE + ENTRY_SIZE] == r;
    } else {
      assert Slot(m', q) == Slot(m, q);
    }
    assert m'[BITMAP_OFFSET + q / 8] == m[BITMAP_OFFSET + q / 8];
  }

  lemma StoreBitEffect(m: Memory, p: u16, on: bool, q: u16)
    ensures Slot(StoreBit(m, p, on), q) == Slot(m, q)
    ensures Bit(StoreBit(m, p, on), q) == if q == p then on else Bit(m, q)
  {
    assert Slot(StoreBit(m, p, on), q) == Slot(m, q);
    assert q == 8 * (q / 8) + q % 8 && p == 8 * (p / 8) + p % 8;
    Bits.BitLaws(m[BITMAP_OFFSET + p / 8], p % 8, q % 8);
  }

  /** A write puts the whole signed record and its active bit in place and
      leaves every other port's slot and bit alone. */
  lemma WriteEffect(mac: Mac, m: Memory, e: Entry, q: u16)
    ensures Slot(Write(mac, m, e), q) == if q == e.port then Record(mac, e) else Slot(m, q)
    ensures Bit(Write(mac, m, e), q) == if q == e.port then e.active != 0 else Bit(m, q)
  {
    StoreSlotEffect(m, e.port, Record(mac, e), q);
    StoreBitEffect(StoreSlot(m, e.port, Record(mac, e)), e.port, e.active != 0, q);
  }

  /** Where a write leaves its record and its bit: 64 bytes a port, the data first, and
      after the 65536 slots a bit a port, eight to a byte from the lowest up. */
  lemma WriteLayout(mac: Mac, m: Memory, e: Entry) returns (high: nat, low: nat)
    ensures var m', at := Write(mac, m, e), 64 * e.port;
            && m'[at..at + 32] == Pack(e) && m'[at + 32..at + 64] == mac(Pack(e))
            && low < Bits.Pow2(e.port % 8)
            && m'[4194304 + e.port / 8] == Bits.Pow2(e.port % 8) * (2 * high + if e.active != 0 then 1 else 0) + low
  {
    hide Write, Pack;
    WriteEffect(mac, m, e, e.port);
    var m' := Write(mac, m, e);
    assert Slot(m', e.port)[..32] == Pack(e) && Slot(m', e.port)[32..] == mac(Pack(e));
    high, low := Bits.BitMeans(m'[BITMAP_OFFSET + e.port / 8], e.port % 8);
  }

  lemma AcceptRecord(mac: Mac, e: Entry)
    ensures Accept(mac, Record(mac, e)) == if e.active == 0 then None else Some(ReadingOf(e))
  {
    assert Record(mac, e)[..32] == Pack(e);
    assert Record(mac, e)[32..] == mac(Pack(e));
    UnpackPack(e);
  }

  /** The arguments a reader gets back: counters modulo 2^64, and the address text
      unchanged exactly when it was canonical, else as its four bytes print. */
  lemma ReadingOfMadeEntry(port: u16, bytesIn: nat, bytesOut: nat, pid: u32, protocol: byte, active: byte,
                           risk: byte, remoteIp: string)
    ensures ReadingOf(MakeEntry(port, bytesIn, bytesOut, pid, protocol, active, risk, remoteIp))
         == Reading(port, bytesIn % TWO64, bytesOut % TWO64, pid, protocol, active, risk, ReadBack(remoteIp))
    ensures ReadBack(remoteIp) == remoteIp <==> Canonical(remoteIp)
  {
    hide Aton, Ntoa, Canonical;
    ZeroAddress();
    ReadBackIff(remoteIp);
  }

  // ---- runs of writes from zeroed memory

  function Zeroed(): Memory {
    seq(SHM_SIZE, _ => 0)
  }

  function AfterWrites(mac: Mac, writes: seq<Entry>): Memory {
    if writes == [] then Zeroed()
    else Write(mac, AfterWrites(mac, writes[..|writes| - 1]), writes[|writes| - 1])
  }

  function LastWrite(writes: seq<Entry>, p: u16): Option<Entry> {
    if writes == [] then None
    else if writes[|writes| - 1].port == p then Some(writes[|writes| - 1])
    else LastWrite(writes[..|writes| - 1], p)
  }

  lemma ZeroedReads(mac: Mac, p: u16)
    ensures !Bit(Zeroed(), p) && ReadEntry(mac, Zeroed(), p) == None
  {
    var d := Slot(Zeroed(), p)[..32];
    assert d[23] == 0;
    Bits.ZeroHasNoBit(p % 8);
  }

  /** After any run of writes, a port reads as its last write if that was active
      and as nothing otherwise, and its bit says which. */
  lemma {:induction false} ReadsLastWrite(mac: Mac, writes: seq<Entry>, p: u16)
    ensures var m, last := AfterWrites(mac, writes), LastWrite(writes, p);
            && ReadEntry(mac, m, p) == (if last.Some? && last.value.active != 0 then Some(ReadingOf(last.value)) else None)
            && Bit(m, p) == (last.Some? && last.value.active != 0)
  {
    if writes == [] {
      ZeroedReads(mac, p);
    } else {
      var front, e := writes[..|writes| - 1], writes[|writes| - 1];
      ReadsLastWrite(mac, front, p);
      WriteEffect(mac, AfterWrites(mac, front), e, p);
      AcceptRecord(mac, e);
    }
  }

  /** The bitmap scan of a memory that writes have produced returns exactly what
      reading all 65536 ports in ascending order returns. */
  lemma BitmapRefinesBruteForce(mac: Mac, writes: seq<Entry>)
    ensures Scan(mac, AfterWrites(mac, writes)) == BruteForce(mac, AfterWrites(mac, writes))
  {
    var m := AfterWrites(mac, writes);
    forall p: u16 | !BitsOf(m)(p)
      ensures EntriesOf(mac, m)(p) == None
    {
      ReadsLastWrite(mac, writes, p);
    }
    IndexIsComplete(AllPorts(m), BitsOf(m), EntriesOf(mac, m));
  }

  /** The port's record and bit in memory are what its last write left. */
  ghost predicate ShowsLast(mac: Mac, m: Memory, writes: seq<Entry>, p: u16) {
    var last := LastWrite(writes, p);
    && ReadEntry(mac, m, p) == (if last.Some? && last.value.active != 0 then Some(ReadingOf(last.value)) else None)
    && Bit(m, p) == (last.Some? && last.value.active != 0)
  }

  /** A scan of such a memory returns, in strictly ascending port order, exactly the
      ports whose last write was active, each with that write's entry. */
  lemma ScanShowsLast(mac: Mac, m: Memory, writes: seq<Entry>)
    requires forall p: u16 :: ShowsLast(mac, m, writes, p)
    ensures var rs := Scan(mac, m);
            && (forall i, j | 0 <= i < j < |rs| :: rs[i].port < rs[j].port)
            && forall r :: r in rs <==> exists e :: LastWrite(writes, r.port) == Some(e) && e.active != 0 && r == ReadingOf(e)
  {
    hide ReadEntry, Bit, LastWrite;
    forall p: u16
      ensures var last := LastWrite(writes, p);
              && EntriesOf(mac, m)(p) == (if last.Some? && last.value.active != 0 then Some(ReadingOf(last.value)) else None)
              && BitsOf(m)(p) == (last.Some? && last.value.active != 0)
              && (last.Some? ==> last.value.port == p)
    {
      assert ShowsLast(mac, m, writes, p);
      LastWritePort(writes, p);
    }
    ReadIndexedSound(AllPorts(m), BitsOf(m), EntriesOf(mac, m), (r: Reading) => r.port);
    var rs := Scan(mac, m);
    forall r
      ensures r in rs <==> exists e :: LastWrite(writes, r.port) == Some(e) && e.active != 0 && r == ReadingOf(e)
    {
      assert AllPorts(m)[r.port] == r.port;
      if e :| LastWrite(writes, r.port) == Some(e) && e.active != 0 && r == ReadingOf(e) {
        assert EntriesOf(mac, m)(r.port) == Some(r);
      }
    }
  }

  /** After any writes a scan returns, in strictly ascending port order, exactly the
      ports whose last write was active, each with that write's entry. */
  lemma ScanMeans(mac: Mac, writes: seq<Entry>)
    ensures var rs := Scan(mac, AfterWrites(mac, writes));
            && (forall i, j | 0 <= i < j < |rs| :: rs[i].port < rs[j].port)
            && forall r :: r in rs <==> exists e :: LastWrite(writes, r.port) == Some(e) && e.active != 0 && r == ReadingOf(e)
  {
    hide ReadEntry, Bit, AfterWrites, LastWrite, Scan;
    forall p: u16
      ensures ShowsLast(mac, AfterWrites(mac, writes), writes, p)
    {
      ReadsLastWrite(mac, writes, p);
    }
    ScanShowsLast(mac, AfterWrites(mac, writes), writes);
  }

  lemma {:induction false} LastWritePort(writes: seq<Entry>, p: u16)
    ensures LastWrite(writes, p).Some? ==> LastWrite(writes, p).value.port == p && LastWrite(writes, p).value in writes
  {
    if writes == [] {
    } else {
      LastWritePort(writes[..|writes| - 1], p);
    }
  }

  // ---- every slot holds its own port

  /** What a slot reads as is an entry of its own port. */
  ghost predicate OwnSlots(mac: Mac, m: Memory) {
    forall p: u16 :: ReadEntry(mac, m, p).Some? ==> ReadEntry(mac, m, p).value.port == p
  }

  lemma ZeroedOwnSlots(mac: Mac)
    ensures OwnSlots(mac, Zeroed())
  {
    hide ReadEntry, Bit;
    forall p: u16
      ensures ReadEntry(mac, Zeroed(), p) == None
    {
      ZeroedReads(mac, p);
    }
  }

  lemma WriteKeepsOwnSlots(mac: Mac, m: Memory, e: Entry)
    requires OwnSlots(mac, m)
    ensures OwnSlots(mac, Write(mac, m, e))
  {
    hide Write, Bit, Slot, Record, Accept;
    forall p: u16
      ensures var r := ReadEntry(mac, Write(mac, m, e), p); r.Some? ==> r.value.port == p
    {
      WriteEffect(mac, m, e, p);
      AcceptRecord(mac, e);
      assert ReadEntry(mac, m, p).Some? ==> ReadEntry(mac, m, p).value.port == p;
    }
  }

  lemma {:induction false} WritesOwnSlots(mac: Mac, writes: seq<Entry>)
    ensures OwnSlots(mac, AfterWrites(mac, writes))
  {
    hide OwnSlots, Write, Zeroed;
    if writes == [] {
      ZeroedOwnSlots(mac);
    } else {
      WritesOwnSlots(mac, writes[..|writes| - 1]);
      WriteKeepsOwnSlots(mac, AfterWrites(mac, writes[..|writes| - 1]), writes[|writes| - 1]);
    }
  }

  predicate DistinctPorts(rs: seq<Reading>) {
    forall i, j | 0 <= i < j < |rs| :: rs[i].port != rs[j].port
  }

  lemma OwnSlotsScanDistinct(mac: Mac, m: Memory)
    requires OwnSlots(mac, m)
    ensures DistinctPorts(Scan(mac, m))
  {
    hide ReadEntry, Bit;
    ReadIndexedSound(AllPorts(m), BitsOf(m), EntriesOf(mac, m), (r: Reading) => r.port);
  }

  /** Whatever has been written, a scan returns every port at most once. */
  lemma ScanDistinct(mac: Mac, writes: seq<Entry>)
    ensures DistinctPorts(Scan(mac, AfterWrites(mac, writes)))
  {
    hide Scan, OwnSlots;
    WritesOwnSlots(mac, writes);
    OwnSlotsScanDistinct(mac, AfterWrites(mac, writes));
  }

  // ---- the segment itself

  class Segment {
    const buf: array<byte>
    const mac: Mac

    ghost predicate Valid()
      reads buf
    {
      buf.Length == SHM_SIZE && OwnSlots(mac, Contents())
    }

    ghost function Contents(): Memory
      requires buf.Length == SHM_SIZE
      reads buf
    {
      buf[..]
    }

    /** A new segment, zero-initialised. */
    constructor (mac: Mac)
      ensures Valid() && fresh(buf) && this.mac == mac
      ensures Contents() == Zeroed()
    {
      this.mac := mac;
      buf := new byte[SHM_SIZE](_ => 0);
      new;
      assert buf[..] == Zeroed();
      ZeroedOwnSlots(mac);
    }

    /** Signs one port's entry, stores it and sets or clears the port's bit. */
    method WritePortEntry(port: u16, bytesIn: nat, bytesOut: nat, pid: u32, protocol: byte, active: byte,
                          risk: byte, remoteIp: string)
      requires Valid()
      modifies buf
      ensures Valid()
      ensures Contents() == Write(mac, old(Contents()), MakeEntry(port, bytesIn, bytesOut, pid, protocol, active, risk, remoteIp))
    {
      hide OwnSlots, Aton, Pack;
      var offset := port * ENTRY_SIZE;
      var parsed := Aton(remoteIp);
      var address: Address := [0, 0, 0, 0];
      if parsed.Some? {
        address := parsed.value;
      }
      var entry := Entry(port, bytesIn % TWO64, bytesOut % TWO64, pid, protocol, active, risk, address);
      var data := Pack(entry);
      var record: Raw := data + mac(data);
      assert entry == MakeEntry(port, bytesIn, bytesOut, pid, protocol, active, risk, remoteIp);
      assert record == Record(mac, entry);
      ghost var before := buf[..];
      forall i | 0 <= i < ENTRY_SIZE {
        buf[offset + i] := record[i];
      }
      assert buf[..] == StoreSlot(before, port, record);
      var at := BITMAP_OFFSET + port / 8;
      buf[at] := UpdateBit(buf[at], port % 8, active != 0);
      WriteKeepsOwnSlots(mac, before, entry);
    }

    method ReadPortEntry(port: u16) returns (reading: Option<Reading>)
      requires Valid()
      ensures reading == ReadEntry(mac, Contents(), port)
    {
      hide OwnSlots;
      var offset := port * ENTRY_SIZE;
      var raw := buf[offset..offset + ENTRY_SIZE];
      assert raw == Slot(Contents(), port);
      var data, tag := raw[..32], raw[32..];
      if tag != mac(data) {
        return None;
      }
      var entry := Unpack(data);
      if entry.active == 0 {
        return None;
      }
      return Some(ReadingOf(entry));
    }

    /** Scans the bitmap byte by byte and reads the slots whose bit is set. */
    method ReadAllActivePorts() returns (active: seq<Reading>)
      requires Valid()
      ensures active == Scan(mac, Contents())
    {
      hide ScannedTo, ReadEntry, Bits.HasBit, OwnSlots;
      active := [];
      NothingScanned(mac, Contents());
      for i := 0 to BITMAP_SIZE
        invariant active == ScannedTo(mac, Contents(), 8 * i)
      {
        var b := buf[BITMAP_OFFSET + i];
        if b == 0 {
          ZeroByte(mac, Contents(), i);
        } else {
          for bit := 0 to 8
            invariant active == ScannedTo(mac, Contents(), 8 * i + bit)
          {
            if Bits.HasBit(b, bit) {
              var entry := ReadPortEntry(i * 8 + bit);
              if entry.Some? {
                active := active + [entry.value];
              }
            }
            ScanNext(mac, Contents(), i, bit);
          }
        }
      }
      AllScanned(mac, Contents());
    }
  }

  /** What the scan has found when it has dealt with the ports 0..n. */
  function ScannedTo(mac: Mac, m: Memory, n: nat): seq<Reading>
    requires n <= MAX_PORTS
  {
    ReadIndexed(AllPorts(m)[..n], BitsOf(m), EntriesOf(mac, m))
  }

  lemma NothingScanned(mac: Mac, m: Memory)
    ensures ScannedTo(mac, m, 0) == []
  {}

  lemma AllScanned(mac: Mac, m: Memory)
    ensures ScannedTo(mac, m, MAX_PORTS) == Scan(mac, m)
  {
    assert AllPorts(m)[..MAX_PORTS] == AllPorts(m);
  }

  lemma ScanNext(mac: Mac, m: Memory, i: nat, k: nat)
    requires i < BITMAP_SIZE && k < 8
    ensures ScannedTo(mac, m, 8 * i + k + 1) == ScannedTo(mac, m, 8 * i + k)
            + if Bits.HasBit(m[BITMAP_OFFSET + i], k) then AsSeq(ReadEntry(mac, m, 8 * i + k)) else []
  {
    hide ReadEntry, Bits.HasBit;
    var n := 8 * i + k;
    BitOfByte(m, i, k);
    ReadNext(AllPorts(m)[..n], n, BitsOf(m), EntriesOf(mac, m));
    assert AllPorts(m)[..n + 1] == AllPorts(m)[..n] + [n];
  }

  lemma BitOfByte(m: Memory, i: nat, k: nat)
    requires i < BITMAP_SIZE && k < 8
    ensures BitsOf(m)(8 * i + k) == Bits.HasBit(m[BITMAP_OFFSET + i], k)
  {
    assert (8 * i + k) / 8 == i && (8 * i + k) % 8 == k;
  }

  /** A zero bitmap byte indexes nothing. */
  lemma ZeroByte(mac: Mac, m: Memory, i: nat)
    requires i < BITMAP_SIZE && m[BITMAP_OFFSET + i] == 0
    ensures ScannedTo(mac, m, 8 * i + 8) == ScannedTo(mac, m, 8 * i)
  {
    var eight := AllPorts(m)[8 * i..8 * i + 8];
    forall p | p in eight
      ensures !BitsOf(m)(p)
    {
      BitOfByte(m, i, p - 8 * i);
      Bits.ZeroHasNoBit(p - 8 * i);
    }
    SkipUnindexed(AllPorts(m)[..8 * i], eight, BitsOf(m), EntriesOf(mac, m));
    assert AllPorts(m)[..8 * i] + eight == AllPorts(m)[..8 * i + 8];
  }
}
