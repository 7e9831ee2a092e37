/** The writer and the lock-free reader of the shared segment, one memory byte at
    a time.  A write signs its entry, stores the 64 slot bytes in any order, then
    loads and stores one bitmap byte; a read loads a bitmap byte, then for each
    set bit copies the 64 slot bytes in any order and checks what it copied. */
module LockFree {
  import opened Text
  import opened SlotCodec
  import opened SharedMemory
  import opened PortScan
  import Bits

  /** Which bytes of a slot have been stored, and which have been copied to what. */
  type Stored = d: seq<bool> | |d| == ENTRY_SIZE witness seq(ENTRY_SIZE, _ => false)
  type Copied = c: seq<Option<byte>> | |c| == ENTRY_SIZE witness seq(ENTRY_SIZE, _ => None)

  datatype Writer =
    | Idle
    | Storing(entry: Entry, done: Stored)
    | StoringBits(entry: Entry, loaded: byte)

  /** `since` is the number of writes whose slot was complete when the copy began. */
  datatype Reader =
    | AtByte(i: nat)
    | AtBit(i: nat, b: byte, k: nat)
    | Copying(i: nat, b: byte, k: nat, since: nat, got: Copied)

  /** A tuple that the reader returned for the port it was visiting; the copy took
      from when `since` slots had been completed to when `until` writes had begun. */
  datatype Return = Return(port: u16, reading: Reading, since: nat, until: nat)

  datatype State = State(mem: Memory, signed: seq<Entry>, writer: Writer, reader: Reader, returned: seq<Return>)

  datatype Step =
    | BeginWrite(entry: Entry) | StoreByte(j: nat) | LoadBits | StoreBits
    | LoadByte | TestBit | CopyByte(j: nat) | Check

  function Initial(): State {
    State(Zeroed(), [], Idle, AtByte(0), [])
  }

  predicate ReaderOk(r: Reader) {
    match r
    case AtByte(i) => i <= BITMAP_SIZE
    case AtBit(i, _, k) => i < BITMAP_SIZE && k <= 8
    case Copying(i, _, k, _, _) => i < BITMAP_SIZE && k < 8
  }

  function PortAt(i: nat, k: nat): u16
    requires i < BITMAP_SIZE && k < 8
  {
    i * 8 + k
  }

  function Stores(n: nat): Stored {
    seq(ENTRY_SIZE, j => j < n)
  }

  function NothingCopied(): Copied {
    seq(ENTRY_SIZE, _ => None)
  }

  /** Bytes 0..n of a slot. */
  function Copies(raw: Raw, n: nat): Copied {
    seq(ENTRY_SIZE, j requires 0 <= j < ENTRY_SIZE => if j < n then Some(raw[j]) else None)
  }

  predicate Complete(got: Copied) {
    forall j | 0 <= j < ENTRY_SIZE :: got[j].Some?
  }

  function Assemble(got: Copied): Raw
    requires Complete(got)
  {
    seq(ENTRY_SIZE, j requires 0 <= j < ENTRY_SIZE => got[j].value)
  }

  function NextWriter(mac: Mac, s: State, step: Step): State {
    match (step, s.writer)
    case (BeginWrite(e), Idle) =>
      s.(signed := s.signed + [e], writer := Storing(e, Stores(0)))
    case (StoreByte(j), Storing(e, done)) =>
      if j < ENTRY_SIZE && !done[j] then
        s.(mem := s.mem[e.port * ENTRY_SIZE + j := Record(mac, e)[j]], writer := Storing(e, done[j := true]))
      else s
    case (LoadBits, Storing(e, done)) =>
      if forall j | 0 <= j < ENTRY_SIZE :: done[j]
      then s.(writer := StoringBits(e, s.mem[BITMAP_OFFSET + e.port / 8])) else s
    case (StoreBits, StoringBits(e, loaded)) =>
      s.(mem := s.mem[BITMAP_OFFSET + e.port / 8 := UpdateBit(loaded, e.port % 8, e.active != 0)], writer := Idle)
    case _ => s
  }

  /** How many writes have stored their whole slot. */
  function Completed(s: State): nat {
    if s.writer.Storing? && s.signed != [] then |s.signed| - 1 else |s.signed|
  }

  function NextReader(mac: Mac, s: State, step: Step): (s': State)
    requires ReaderOk(s.reader)
    ensures ReaderOk(s'.reader)
  {
    match (step, s.reader)
    case (LoadByte, AtByte(i)) =>
      if i == BITMAP_SIZE then s.(reader := AtByte(0))
      else s.(reader := AtBit(i, s.mem[BITMAP_OFFSET + i], 0))
    case (TestBit, AtBit(i, b, k)) =>
      if k == 8 then s.(reader := AtByte(i + 1))
      else if Bits.HasBit(b, k) then s.(reader := Copying(i, b, k, Completed(s), NothingCopied()))
      else s.(reader := AtBit(i, b, k + 1))
    case (CopyByte(j), Copying(i, b, k, since, got)) =>
      if j < ENTRY_SIZE then s.(reader := Copying(i, b, k, since, got[j := Some(Slot(s.mem, PortAt(i, k))[j])])) else s
    case (Check, Copying(i, b, k, since, got)) =>
      if !Complete(got) then s
      else
        var verdict := Accept(mac, Assemble(got));
        s.(reader := AtBit(i, b, k + 1),
           returned := s.returned + if verdict.Some? then [Return(PortAt(i, k), verdict.value, since, |s.signed|)] else [])
    case _ => s
  }

  /** One step of either side; a step that is not possible changes nothing. */
  function Next(mac: Mac, s: State, step: Step): State
    requires ReaderOk(s.reader)
  {
    if step.BeginWrite? || step.StoreByte? || step.LoadBits? || step.StoreBits?
    then NextWriter(mac, s, step) else NextReader(mac, s, step)
  }

  /** Any interleaving of writer and reader steps. */
  function Run(mac: Mac, s: State, steps: seq<Step>): (s': State)
    requires ReaderOk(s.reader)
    ensures ReaderOk(s'.reader)
  {
    if steps == [] then s else Next(mac, Run(mac, s, steps[..|steps| - 1]), steps[|steps| - 1])
  }

  // ---- where bytes come from

  /** `b` is byte `j` of some record signed for port `p`, or the initial zero. */
  ghost predicate FromSigned(mac: Mac, signed: seq<Entry>, p: u16, j: nat, b: byte)
    requires j < ENTRY_SIZE
  {
    b == 0 || exists e :: e in signed && e.port == p && Record(mac, e)[j] == b
  }

  /** Every byte of `raw` is at its place in some record signed for port `p`,
      not necessarily all in the same record. */
  ghost predicate Spliced(mac: Mac, signed: seq<Entry>, p: u16, raw: Raw) {
    forall j: nat | j < ENTRY_SIZE :: FromSigned(mac, signed, p, j, raw[j])
  }

  /** The assumption on the MAC: a record spliced from signed records of a port
      (and initial zeros) does not verify unless its data is one signed for that
      port in full, or still all zero. */
  ghost predicate IdealMac(mac: Mac, signed: seq<Entry>) {
    forall p: u16, raw: Raw | Spliced(mac, signed, p, raw) && mac(raw[..32]) == raw[32..] ::
      raw[..32] == seq(32, _ => 0) || exists e :: e in signed && e.port == p && raw[..32] == Pack(e)
  }

  ghost predicate AcceptedSplice(mac: Mac, signed: seq<Entry>, t: Return, raw: Raw) {
    Spliced(mac, signed, t.port, raw) && Accept(mac, raw) == Some(t.reading)
  }

  ghost predicate MemoryFromSigned(mac: Mac, s: State) {
    forall p: u16 :: Spliced(mac, s.signed, p, Slot(s.mem, p))
  }

  ghost predicate ReaderFromSigned(mac: Mac, s: State)
    requires ReaderOk(s.reader)
  {
    s.reader.Copying? ==>
      forall j | 0 <= j < ENTRY_SIZE && s.reader.got[j].Some? ::
        FromSigned(mac, s.signed, PortAt(s.reader.i, s.reader.k), j, s.reader.got[j].value)
  }

  ghost predicate ReturnsFromSigned(mac: Mac, s: State) {
    forall t | t in s.returned :: exists raw :: AcceptedSplice(mac, s.signed, t, raw)
  }

  ghost predicate Invariant(mac: Mac, s: State) {
    && ReaderOk(s.reader)
    && (s.writer.Storing? ==> s.writer.entry in s.signed)
    && MemoryFromSigned(mac, s)
    && ReaderFromSigned(mac, s)
    && ReturnsFromSigned(mac, s)
  }

  lemma ByteStored(m: Memory, p: u16, j: nat, b: byte, q: u16)
    requires j < ENTRY_SIZE
    ensures Slot(m[p * ENTRY_SIZE + j := b], q) == if q == p then Slot(m, p)[j := b] else Slot(m, q)
  {
    if q < p {
      assert q * ENTRY_SIZE + ENTRY_SIZE <= p * ENTRY_SIZE;
    } else if p < q {
      assert p * ENTRY_SIZE + ENTRY_SIZE <= q * ENTRY_SIZE;
    }
  }

  lemma BitsStored(m: Memory, i: nat, b: byte, q: u16)
    requires i < BITMAP_SIZE
    ensures Slot(m[BITMAP_OFFSET + i := b], q) == Slot(m, q)
  {}

  lemma SignedGrows(mac: Mac, signed: seq<Entry>, e: Entry, p: u16, raw: Raw)
    requires Spliced(mac, signed, p, raw)
    ensures Spliced(mac, signed + [e], p, raw)
  {
    forall j: nat | j < ENTRY_SIZE
      ensures FromSigned(mac, signed + [e], p, j, raw[j])
    {
      assert FromSigned(mac, signed, p, j, raw[j]);
    }
  }

  lemma BeginWriteKeeps(mac: Mac, s: State, e: Entry)
    requires Invariant(mac, s) && s.writer.Idle?
    ensures Invariant(mac, NextWriter(mac, s, BeginWrite(e)))
  {
    var s' := NextWriter(mac, s, BeginWrite(e));
    forall p: u16
      ensures Spliced(mac, s'.signed, p, Slot(s'.mem, p))
    {
      SignedGrows(mac, s.signed, e, p, Slot(s.mem, p));
    }
    forall t | t in s'.returned
      ensures exists raw :: AcceptedSplice(mac, s'.signed, t, raw)
    {
      var raw :| AcceptedSplice(mac, s.signed, t, raw);
      SignedGrows(mac, s.signed, e, t.port, raw);
      assert AcceptedSplice(mac, s'.signed, t, raw);
    }
    assert forall x | x in s.signed :: x in s'.signed;
  }

  lemma StoreByteKeeps(mac: Mac, s: State, j: nat)
    requires Invariant(mac, s) && s.writer.Storing?
    ensures Invariant(mac, NextWriter(mac, s, StoreByte(j)))
  {
    var s', e := NextWriter(mac, s, StoreByte(j)), s.writer.entry;
    if j < ENTRY_SIZE && !s.writer.done[j] {
      forall p: u16
        ensures Spliced(mac, s'.signed, p, Slot(s'.mem, p))
      {
        ByteStored(s.mem, e.port, j, Record(mac, e)[j], p);
        assert Spliced(mac, s.signed, p, Slot(s.mem, p));
        assert FromSigned(mac, s.signed, e.port, j, Record(mac, e)[j]);
      }
    }
  }

  lemma StoreBitsKeeps(mac: Mac, s: State)
    requires Invariant(mac, s) && s.writer.StoringBits?
    ensures Invariant(mac, NextWriter(mac, s, StoreBits))
  {
    var s' := NextWriter(mac, s, StoreBits);
    forall p: u16
      ensures Spliced(mac, s'.signed, p, Slot(s'.mem, p))
    {
      BitsStored(s.mem, s.writer.entry.port / 8, UpdateBit(s.writer.loaded, s.writer.entry.port % 8, s.writer.entry.active != 0), p);
      assert Spliced(mac, s.signed, p, Slot(s.mem, p));
    }
  }

  lemma CopyByteKeeps(mac: Mac, s: State, j: nat)
    requires Invariant(mac, s) && s.reader.Copying? && j < ENTRY_SIZE
    ensures Invariant(mac, NextReader(mac, s, CopyByte(j)))
  {
    var p := PortAt(s.reader.i, s.reader.k);
    assert Spliced(mac, s.signed, p, Slot(s.mem, p));
    assert FromSigned(mac, s.signed, p, j, Slot(s.mem, p)[j]);
  }

  lemma CheckKeeps(mac: Mac, s: State)
    requires Invariant(mac, s) && s.reader.Copying? && Complete(s.reader.got)
    ensures Invariant(mac, NextReader(mac, s, Check))
  {
    hide UpdateBit, Completed, Bits.HasBit, Record, Slot;
    var s', p, raw := NextReader(mac, s, Check), PortAt(s.reader.i, s.reader.k), Assemble(s.reader.got);
    forall t | t in s'.returned
      ensures exists raw :: AcceptedSplice(mac, s'.signed, t, raw)
    {
      if t !in s.returned {
        assert AcceptedSplice(mac, s'.signed, t, raw);
      }
    }
  }

  lemma NextKeeps(mac: Mac, s: State, step: Step)
    requires Invariant(mac, s)
    ensures Invariant(mac, Next(mac, s, step))
  {
    match (step, s.writer, s.reader)
    case (BeginWrite(e), Idle, _) => BeginWriteKeeps(mac, s, e);
    case (StoreByte(j), Storing(_, _), _) => StoreByteKeeps(mac, s, j);
    case (StoreBits, StoringBits(_, _), _) => StoreBitsKeeps(mac, s);
    case (CopyByte(j), _, Copying(_, _, _, _, _)) => if j < ENTRY_SIZE { CopyByteKeeps(mac, s, j); }
    case (Check, _, Copying(_, _, _, _, got)) => if Complete(got) { CheckKeeps(mac, s); }
    case _ =>
  }

  lemma {:induction false} RunKeeps(mac: Mac, steps: seq<Step>)
    ensures Invariant(mac, Run(mac, Initial(), steps))
  {
    if steps == [] {
      forall p: u16
        ensures Spliced(mac, [], p, Slot(Zeroed(), p))
      {}
    } else {
      RunKeeps(mac, steps[..|steps| - 1]);
      NextKeeps(mac, Run(mac, Initial(), steps[..|steps| - 1]), steps[|steps| - 1]);
    }
  }

  lemma ZeroDataIsInactive()
    ensures Unpack(seq(32, _ => 0)).active == 0
  {}

  /** The entry behind an accepted splice. */
  lemma AcceptedIsSigned(mac: Mac, signed: seq<Entry>, t: Return, raw: Raw) returns (e: Entry)
    requires IdealMac(mac, signed) && AcceptedSplice(mac, signed, t, raw)
    ensures e in signed && e.port == t.port && e.active != 0 && t.reading == ReadingOf(e)
  {
    ZeroDataIsInactive();
    e :| e in signed && e.port == t.port && raw[..32] == Pack(e);
    UnpackPack(e);
  }

  /** Lock-free read safety: however writer and reader steps interleave, every
      tuple the reader returns is, whole, one that a single write signed as
      active for the port being read. */
  lemma LockFreeReadSafety(mac: Mac, steps: seq<Step>, t: Return)
    requires IdealMac(mac, Run(mac, Initial(), steps).signed)
    requires t in Run(mac, Initial(), steps).returned
    ensures exists e :: e in Run(mac, Initial(), steps).signed && e.port == t.port && e.active != 0 && t.reading == ReadingOf(e)
  {
    RunKeeps(mac, steps);
    var s := Run(mac, Initial(), steps);
    var raw :| AcceptedSplice(mac, s.signed, t, raw);
    var e := AcceptedIsSigned(mac, s.signed, t, raw);
  }

  // ---- the assumption can be met

  function PortTag(p: u16): (t: seq<byte>)
    ensures |t| == 4 && forall k | 0 <= k < 4 :: t[k] > 0
  {
    [1, 1 + p % 64, 1 + p / 64 % 64, 1 + p / 64 / 64]
  }

  function Tag(d: Data, signed: bool): Data {
    (if signed then PortTag(Unpack(d).port) else [2]) + seq(if signed then 28 else 31, _ => 0)
  }

  /** Signs exactly the given entries; the tag spells out their port. */
  ghost function TaggingMac(signed: seq<Entry>): Mac {
    (d: Data) => Tag(d, exists e :: e in signed && Pack(e) == d)
  }

  lemma TagOfSigned(signed: seq<Entry>, e: Entry, k: nat)
    requires e in signed && k < 4
    ensures TaggingMac(signed)(Pack(e))[k] == PortTag(e.port)[k]
  {
    UnpackPack(e);
  }

  lemma TagByteOfSplice(signed: seq<Entry>, p: u16, raw: Raw, k: nat)
    requires Spliced(TaggingMac(signed), signed, p, raw) && k < 4
    ensures raw[32 + k] == 0 || raw[32 + k] == PortTag(p)[k]
  {
    hide Pack, Unpack, Slot;
    assert FromSigned(TaggingMac(signed), signed, p, 32 + k, raw[32 + k]);
    if raw[32 + k] != 0 {
      var e :| e in signed && e.port == p && Record(TaggingMac(signed), e)[32 + k] == raw[32 + k];
      TagOfSigned(signed, e, k);
    }
  }

  lemma PortTagInjective(p: u16, q: u16)
    requires PortTag(p) == PortTag(q)
    ensures p == q
  {
    var a, b := p / 64, q / 64;
    assert PortTag(p)[2] == PortTag(q)[2] && PortTag(p)[3] == PortTag(q)[3];
    assert a % 64 == b % 64 && a / 64 == b / 64;
    assert PortTag(p)[1] == PortTag(q)[1];
  }

  lemma VerifiedIsSigned(signed: seq<Entry>, p: u16, raw: Raw) returns (e: Entry)
    requires Spliced(TaggingMac(signed), signed, p, raw) && TaggingMac(signed)(raw[..32]) == raw[32..]
    ensures e in signed && raw[..32] == Pack(e)
  {
    TagByteOfSplice(signed, p, raw, 0);
    assert TaggingMac(signed)(raw[..32])[0] != 2;
    e :| e in signed && Pack(e) == raw[..32];
  }

  lemma TaggedSplice(signed: seq<Entry>, p: u16, raw: Raw) returns (e: Entry)
    requires Spliced(TaggingMac(signed), signed, p, raw) && TaggingMac(signed)(raw[..32]) == raw[32..]
    ensures e in signed && e.port == p && raw[..32] == Pack(e)
  {
    e := VerifiedIsSigned(signed, p, raw);
    var t, u := PortTag(e.port), PortTag(p);
    forall k | 0 <= k < 4
      ensures t[k] == u[k]
    {
      TagOfSigned(signed, e, k);
      TagByteOfSplice(signed, p, raw, k);
      assert raw[32 + k] == t[k];
    }
    assert t == u;
    PortTagInjective(e.port, p);
  }

  /** For every set of signed entries there are MACs that satisfy the assumption. */
  lemma IdealMacExists(signed: seq<Entry>) returns (mac: Mac)
    ensures IdealMac(mac, signed)
  {
    mac := TaggingMac(signed);
    forall p: u16, raw: Raw | Spliced(mac, signed, p, raw) && mac(raw[..32]) == raw[32..]
      ensures exists e :: e in signed && e.port == p && raw[..32] == Pack(e)
    {
      var e := TaggedSplice(signed, p, raw);
    }
  }

  // ---- undisturbed steps are the sequential operations

  function StoreSteps(n: nat): seq<Step> {
    seq(n, (j: nat) => StoreByte(j))
  }

  function CopySteps(n: nat): seq<Step> {
    seq(n, (j: nat) => CopyByte(j))
  }

  /** A write that nothing comes between, as steps. */
  function WriteSteps(e: Entry): seq<Step> {
    [BeginWrite(e)] + StoreSteps(ENTRY_SIZE) + [LoadBits] + [StoreBits]
  }

  lemma {:induction false} RunConcat(mac: Mac, s: State, a: seq<Step>, b: seq<Step>)
    requires ReaderOk(s.reader)
    ensures Run(mac, s, a + b) == Run(mac, Run(mac, s, a), b)
  {
    if b == [] {
      assert a + b == a;
    } else {
      RunConcat(mac, s, a, b[..|b| - 1]);
      assert (a + b)[..|a + b| - 1] == a + b[..|b| - 1];
    }
  }

  /** Port `p`'s slot when `n` bytes of the record have been stored in it. */
  function Partly(m: Memory, p: u16, r: Raw, n: nat): Raw
    requires n <= ENTRY_SIZE
  {
    r[..n] + Slot(m, p)[n..]
  }

  lemma StoreNone(m: Memory, p: u16, r: Raw)
    ensures StoreSlot(m, p, Partly(m, p, r, 0)) == m
  {
    assert Partly(m, p, r, 0) == Slot(m, p);
  }

  lemma StoreOneMore(m: Memory, p: u16, r: Raw, n: nat)
    requires n < ENTRY_SIZE
    ensures StoreSlot(m, p, Partly(m, p, r, n))[p * ENTRY_SIZE + n := r[n]] == StoreSlot(m, p, Partly(m, p, r, n + 1))
  {}

  lemma {:induction false} RunStores(mac: Mac, s: State, e: Entry, n: nat)
    requires ReaderOk(s.reader) && s.writer == Storing(e, Stores(0)) && n <= ENTRY_SIZE
    ensures Run(mac, s, StoreSteps(n)) ==
            s.(writer := Storing(e, Stores(n)), mem := StoreSlot(s.mem, e.port, Partly(s.mem, e.port, Record(mac, e), n)))
  {
    hide Accept, UpdateBit, Completed, Bits.HasBit;
    if n == 0 {
      StoreNone(s.mem, e.port, Record(mac, e));
    } else {
      var s1 := Run(mac, s, StoreSteps(n - 1));
      RunStores(mac, s, e, n - 1);
      assert StoreSteps(n)[..n - 1] == StoreSteps(n - 1);
      assert Run(mac, s, StoreSteps(n)) == NextWriter(mac, s1, StoreByte(n - 1));
      assert Stores(n) == Stores(n - 1)[n - 1 := true];
      StoreOneMore(s.mem, e.port, Record(mac, e), n - 1);
    }
  }

  /** Undisturbed, the steps of a write do what the sequential write does. */
  lemma QuietWrite(mac: Mac, s: State, e: Entry)
    requires ReaderOk(s.reader) && s.writer.Idle?
    ensures Run(mac, s, WriteSteps(e)) == s.(mem := Write(mac, s.mem, e), signed := s.signed + [e])
  {
    var s0 := Next(mac, s, BeginWrite(e));
    var s1 := Run(mac, s0, StoreSteps(ENTRY_SIZE));
    RunOne(mac, s, BeginWrite(e));
    RunConcat(mac, s, [BeginWrite(e)], StoreSteps(ENTRY_SIZE));
    RunOne(mac, s1, LoadBits);
    RunConcat(mac, s, [BeginWrite(e)] + StoreSteps(ENTRY_SIZE), [LoadBits]);
    RunOne(mac, Next(mac, s1, LoadBits), StoreBits);
    RunConcat(mac, s, [BeginWrite(e)] + StoreSteps(ENTRY_SIZE) + [LoadBits], [StoreBits]);
    QuietStores(mac, s0, e);
  }

  lemma QuietStores(mac: Mac, s: State, e: Entry)
    requires ReaderOk(s.reader) && s.writer == Storing(e, Stores(0))
    ensures Next(mac, Next(mac, Run(mac, s, StoreSteps(ENTRY_SIZE)), LoadBits), StoreBits)
         == s.(mem := Write(mac, s.mem, e), writer := Idle)
  {
    hide Accept, UpdateBit, Record, Completed, Bits.HasBit;
    RunStores(mac, s, e, ENTRY_SIZE);
    assert Partly(s.mem, e.port, Record(mac, e), ENTRY_SIZE) == Record(mac, e);
    QuietBits(mac, Run(mac, s, StoreSteps(ENTRY_SIZE)), e);
  }

  lemma QuietBits(mac: Mac, s: State, e: Entry)
    requires ReaderOk(s.reader) && s.writer == Storing(e, Stores(ENTRY_SIZE))
    ensures Next(mac, Next(mac, s, LoadBits), StoreBits)
         == s.(mem := StoreBit(s.mem, e.port, e.active != 0), writer := Idle)
  {
    assert forall j | 0 <= j < ENTRY_SIZE :: Stores(ENTRY_SIZE)[j];
    assert Next(mac, s, LoadBits).writer == StoringBits(e, s.mem[BITMAP_OFFSET + e.port / 8]);
  }

  lemma RunOne(mac: Mac, s: State, step: Step)
    requires ReaderOk(s.reader)
    ensures Run(mac, s, [step]) == Next(mac, s, step)
  {
    assert [step][..0] == [];
  }

  lemma {:induction false} RunCopies(mac: Mac, s: State, n: nat)
    requires ReaderOk(s.reader) && s.reader.Copying? && s.reader.got == NothingCopied() && n <= ENTRY_SIZE
    ensures Run(mac, s, CopySteps(n))
         == s.(reader := s.reader.(got := Copies(Slot(s.mem, PortAt(s.reader.i, s.reader.k)), n)))
  {
    hide Accept, UpdateBit, Record, Completed, Bits.HasBit;
    var raw := Slot(s.mem, PortAt(s.reader.i, s.reader.k));
    if n == 0 {
      assert Copies(raw, 0) == NothingCopied();
    } else {
      RunCopies(mac, s, n - 1);
      assert CopySteps(n)[..n - 1] == CopySteps(n - 1);
      assert Copies(raw, n) == Copies(raw, n - 1)[n - 1 := Some(raw[n - 1])];
    }
  }

  /** Undisturbed, copying and checking a slot returns what the sequential read of
      that port returns. */
  lemma QuietRead(mac: Mac, s: State)
    requires ReaderOk(s.reader) && s.reader.Copying? && s.reader.got == NothingCopied()
    ensures var p := PortAt(s.reader.i, s.reader.k);
            var s', entry := Run(mac, s, CopySteps(ENTRY_SIZE) + [Check]), ReadEntry(mac, s.mem, p);
            && s' == s.(reader := AtBit(s.reader.i, s.reader.b, s.reader.k + 1), returned := s'.returned)
            && s'.returned == s.returned + if entry.Some? then [Return(p, entry.value, s.reader.since, |s.signed|)] else []
  {
    hide Accept, UpdateBit, Record, Completed, Bits.HasBit, Run, Slot;
    var raw := Slot(s.mem, PortAt(s.reader.i, s.reader.k));
    RunCopies(mac, s, ENTRY_SIZE);
    var s1 := Run(mac, s, CopySteps(ENTRY_SIZE));
    RunConcat(mac, s, CopySteps(ENTRY_SIZE), [Check]);
    RunOne(mac, s1, Check);
    assert Complete(s1.reader.got);
    assert Assemble(s1.reader.got) == raw;
  }
}
