/** What a lock-free read returns is not only whole but current: it is the last write
    completed before its copy began, or one that overlapped the copy. */
module Freshness {
  import opened Text
  import opened SlotCodec
  import opened SharedMemory
  import opened PortScan
  import opened LockFree

  /** The entry is what the port's slot held when the copy began, or was signed for
      the port by a write that overlapped the copy. */
  predicate Current(signed: seq<Entry>, since: nat, until: nat, p: u16, e: Entry)
    requires since <= until <= |signed|
  {
    LastWrite(signed[..since], p) == Some(e) || (e in signed[since..until] && e.port == p)
  }

  /** `b` is byte `j` of the record of a current entry, or the initial zero of a slot
      that had not been written. */
  ghost predicate FromCurrent(mac: Mac, signed: seq<Entry>, since: nat, until: nat, p: u16, j: nat, b: byte)
    requires since <= until <= |signed| && j < ENTRY_SIZE
  {
    (b == 0 && LastWrite(signed[..since], p) == None) || exists e :: Current(signed, since, until, p, e) && Record(mac, e)[j] == b
  }

  ghost predicate SplicedFromCurrent(mac: Mac, signed: seq<Entry>, since: nat, until: nat, p: u16, raw: Raw)
    requires since <= until <= |signed|
  {
    forall j: nat | j < ENTRY_SIZE :: FromCurrent(mac, signed, since, until, p, j, raw[j])
  }

  /** The assumption on the MAC, for one copy: a record spliced from the records that
      the copy could meet does not verify unless its data is that of one of them,
      or still all zero. */
  ghost predicate IdealInWindow(mac: Mac, signed: seq<Entry>, t: Return)
    requires t.since <= t.until <= |signed|
  {
    forall raw: Raw | SplicedFromCurrent(mac, signed, t.since, t.until, t.port, raw) && mac(raw[..32]) == raw[32..] ::
      raw[..32] == seq(32, _ => 0) || exists e :: Current(signed, t.since, t.until, t.port, e) && raw[..32] == Pack(e)
  }

  // ---- what memory holds

  /** The byte that the last completed write has left. */
  function Settled(mac: Mac, s: State, p: u16, j: nat): byte
    requires j < ENTRY_SIZE && Completed(s) <= |s.signed|
  {
    match LastWrite(s.signed[..Completed(s)], p)
    case None => 0
    case Some(e) => Record(mac, e)[j]
  }

  /** Byte `j` of a port's slot is that of the write under way if it has stored it, and
      else that of the last completed write. */
  predicate SlotByte(mac: Mac, s: State, p: u16, j: nat)
    requires j < ENTRY_SIZE
  {
    && Completed(s) <= |s.signed|
    && Slot(s.mem, p)[j] == if s.writer.Storing? && s.writer.entry.port == p && s.writer.done[j]
                            then Record(mac, s.writer.entry)[j] else Settled(mac, s, p, j)
  }

  ghost predicate MemoryIsCurrent(mac: Mac, s: State) {
    && (s.writer.Storing? ==> s.signed != [] && s.signed[|s.signed| - 1] == s.writer.entry)
    && forall p: u16, j: nat | j < ENTRY_SIZE :: SlotByte(mac, s, p, j)
  }

  ghost predicate CopyIsCurrent(mac: Mac, s: State)
    requires ReaderOk(s.reader)
  {
    s.reader.Copying? ==>
      && s.reader.since <= Completed(s) <= |s.signed|
      && forall j: nat | j < ENTRY_SIZE && s.reader.got[j].Some? ::
           FromCurrent(mac, s.signed, s.reader.since, |s.signed|, PortAt(s.reader.i, s.reader.k), j, s.reader.got[j].value)
  }

  ghost predicate AcceptedCurrent(mac: Mac, signed: seq<Entry>, t: Return, raw: Raw) {
    && t.since <= t.until <= |signed|
    && SplicedFromCurrent(mac, signed, t.since, t.until, t.port, raw) && Accept(mac, raw) == Some(t.reading)
  }

  ghost predicate ReturnsAreCurrent(mac: Mac, s: State) {
    forall t | t in s.returned :: exists raw :: AcceptedCurrent(mac, s.signed, t, raw)
  }

  ghost predicate InWindow(mac: Mac, s: State) {
    ReaderOk(s.reader) && MemoryIsCurrent(mac, s) && CopyIsCurrent(mac, s) && ReturnsAreCurrent(mac, s)
  }

  // ---- candidates

  /** A write completed since the copy began is the last before it or overlaps it. */
  lemma {:induction false} LastIsCurrent(signed: seq<Entry>, since: nat, c: nat, until: nat, p: u16)
    requires since <= c <= until <= |signed|
    ensures var last := LastWrite(signed[..c], p);
            && (last.None? ==> LastWrite(signed[..since], p) == None)
            && (last.Some? ==> Current(signed, since, until, p, last.value))
  {
    if c == since {
    } else {
      LastIsCurrent(signed, since, c - 1, until, p);
      assert signed[..c][..c - 1] == signed[..c - 1];
      assert signed[c - 1] == signed[since..until][c - 1 - since];
    }
  }

  lemma CurrentGrows(mac: Mac, signed: seq<Entry>, e: Entry, since: nat, until: nat, p: u16, j: nat, b: byte)
    requires since <= until <= |signed| && j < ENTRY_SIZE && FromCurrent(mac, signed, since, until, p, j, b)
    ensures FromCurrent(mac, signed + [e], since, until, p, j, b)
    ensures until == |signed| ==> FromCurrent(mac, signed + [e], since, until + 1, p, j, b)
  {
    hide Record;
    var more := signed + [e];
    assert more[..since] == signed[..since] && more[since..until] == signed[since..until];
    assert until == |signed| ==> more[since..until + 1] == signed[since..until] + [e];
    if !(b == 0 && LastWrite(signed[..since], p) == None) {
      var x :| Current(signed, since, until, p, x) && Record(mac, x)[j] == b;
      assert Current(more, since, until, p, x);
      assert until == |signed| ==> Current(more, since, until + 1, p, x);
    }
  }

  /** A byte that is copied now is current. */
  lemma CopiedIsCurrent(mac: Mac, s: State, since: nat, p: u16, j: nat)
    requires MemoryIsCurrent(mac, s) && since <= Completed(s) && j < ENTRY_SIZE
    ensures Completed(s) <= |s.signed| && FromCurrent(mac, s.signed, since, |s.signed|, p, j, Slot(s.mem, p)[j])
  {
    hide Record, Slot, LastWrite;
    assert SlotByte(mac, s, p, j);
    LastIsCurrent(s.signed, since, Completed(s), |s.signed|, p);
    if s.writer.Storing? && s.writer.entry.port == p && s.writer.done[j] {
      var e := s.writer.entry;
      assert s.signed[since..|s.signed|][|s.signed| - 1 - since] == e;
      assert Current(s.signed, since, |s.signed|, p, e);
    }
  }

  // ---- steps of the writer

  lemma BeginKeeps(mac: Mac, s: State, e: Entry)
    requires InWindow(mac, s) && s.writer.Idle?
    ensures InWindow(mac, NextWriter(mac, s, BeginWrite(e)))
  {
    hide Record, Slot, LastWrite, FromCurrent, Accept;
    var s' := NextWriter(mac, s, BeginWrite(e));
    forall p: u16, j: nat | j < ENTRY_SIZE
      ensures SlotByte(mac, s', p, j)
    {
      assert SlotByte(mac, s, p, j);
      assert s'.signed[..|s.signed|] == s.signed == s.signed[..|s.signed|];
    }
    if s.reader.Copying? {
      var p := PortAt(s.reader.i, s.reader.k);
      forall j: nat | j < ENTRY_SIZE && s.reader.got[j].Some?
        ensures FromCurrent(mac, s'.signed, s.reader.since, |s'.signed|, p, j, s.reader.got[j].value)
      {
        CurrentGrows(mac, s.signed, e, s.reader.since, |s.signed|, p, j, s.reader.got[j].value);
      }
    }
    forall t | t in s'.returned
      ensures exists raw :: AcceptedCurrent(mac, s'.signed, t, raw)
    {
      var raw :| AcceptedCurrent(mac, s.signed, t, raw);
      forall j: nat | j < ENTRY_SIZE
        ensures FromCurrent(mac, s'.signed, t.since, t.until, t.port, j, raw[j])
      {
        CurrentGrows(mac, s.signed, e, t.since, t.until, t.port, j, raw[j]);
      }
      assert AcceptedCurrent(mac, s'.signed, t, raw);
    }
  }

  lemma StoreKeeps(mac: Mac, s: State, k: nat)
    requires InWindow(mac, s) && s.writer.Storing?
    ensures InWindow(mac, NextWriter(mac, s, StoreByte(k)))
  {
    hide Record, LastWrite, FromCurrent, Accept, Slot;
    var s', e := NextWriter(mac, s, StoreByte(k)), s.writer.entry;
    if k < ENTRY_SIZE && !s.writer.done[k] {
      forall p: u16, j: nat | j < ENTRY_SIZE
        ensures SlotByte(mac, s', p, j)
      {
        assert SlotByte(mac, s, p, j);
        ByteStored(s.mem, e.port, k, Record(mac, e)[k], p);
      }
    }
  }

  /** When all bytes are stored the write is the last completed one. */
  lemma LoadKeeps(mac: Mac, s: State)
    requires InWindow(mac, s) && s.writer.Storing?
    ensures InWindow(mac, NextWriter(mac, s, LoadBits))
  {
    hide Record, FromCurrent, Accept, Slot;
    var s', e := NextWriter(mac, s, LoadBits), s.writer.entry;
    if forall j | 0 <= j < ENTRY_SIZE :: s.writer.done[j] {
      var front := s.signed[..|s.signed| - 1];
      assert s'.signed[..|s'.signed|] == s.signed && s.signed == front + [e];
      forall p: u16, j: nat | j < ENTRY_SIZE
        ensures SlotByte(mac, s', p, j)
      {
        assert SlotByte(mac, s, p, j);
        assert LastWrite(s.signed, p) == if e.port == p then Some(e) else LastWrite(front, p);
      }
    }
  }

  lemma StoreBitsKeepsCurrent(mac: Mac, s: State)
    requires InWindow(mac, s) && s.writer.StoringBits?
    ensures InWindow(mac, NextWriter(mac, s, StoreBits))
  {
    hide Record, LastWrite, FromCurrent, Accept, Slot, UpdateBit;
    var s', e := NextWriter(mac, s, StoreBits), s.writer.entry;
    forall p: u16, j: nat | j < ENTRY_SIZE
      ensures SlotByte(mac, s', p, j)
    {
      assert SlotByte(mac, s, p, j);
      BitsStored(s.mem, e.port / 8, UpdateBit(s.writer.loaded, e.port % 8, e.active != 0), p);
    }
  }

  // ---- steps of the reader

  lemma ReaderKeeps(mac: Mac, s: State, step: Step)
    requires InWindow(mac, s)
    ensures InWindow(mac, NextReader(mac, s, step))
  {
    hide Record, LastWrite, FromCurrent, Accept, Slot, MemoryIsCurrent;
    var s' := NextReader(mac, s, step);
    SameMemory(mac, s, s');
    match (step, s.reader)
    case (TestBit, AtBit(i, b, k)) =>
      SettledBelow(mac, s);
      assert forall j | 0 <= j < ENTRY_SIZE :: NothingCopied()[j] == None;
    case (CopyByte(j), Copying(i, b, k, since, got)) =>
      if j < ENTRY_SIZE {
        CopiedIsCurrent(mac, s, since, PortAt(i, k), j);
        forall n: nat | n < ENTRY_SIZE && s'.reader.got[n].Some?
          ensures FromCurrent(mac, s.signed, since, |s.signed|, PortAt(i, k), n, s'.reader.got[n].value)
        {
          assert n != j ==> s'.reader.got[n] == got[n];
        }
      }
    case (Check, Copying(i, b, k, since, got)) =>
      if Complete(got) {
        forall t | t in s'.returned
          ensures exists raw :: AcceptedCurrent(mac, s'.signed, t, raw)
        {
          if t !in s.returned {
            assert AcceptedCurrent(mac, s'.signed, t, Assemble(got));
          }
        }
      }
    case (LoadByte, AtByte(i)) => assert !s'.reader.Copying?;
    case _ => assert s' == s;
  }

  lemma SameMemory(mac: Mac, s: State, s': State)
    requires s'.mem == s.mem && s'.signed == s.signed && s'.writer == s.writer
    ensures MemoryIsCurrent(mac, s) ==> MemoryIsCurrent(mac, s')
  {
    hide Slot, Record, LastWrite;
    if MemoryIsCurrent(mac, s) {
      forall p: u16, j: nat | j < ENTRY_SIZE
        ensures SlotByte(mac, s', p, j)
      {
        assert SlotByte(mac, s, p, j);
      }
    }
  }

  lemma SettledBelow(mac: Mac, s: State)
    requires MemoryIsCurrent(mac, s)
    ensures Completed(s) <= |s.signed|
  {
    assert SlotByte(mac, s, 0, 0);
  }

  lemma NextKeepsCurrent(mac: Mac, s: State, step: Step)
    requires InWindow(mac, s)
    ensures InWindow(mac, Next(mac, s, step))
  {
    hide InWindow, NextReader;
    ReadersOk(mac, s);
    match (step, s.writer)
    case (BeginWrite(e), Idle) => BeginKeeps(mac, s, e);
    case (StoreByte(j), Storing(_, _)) => StoreKeeps(mac, s, j);
    case (LoadBits, Storing(_, _)) => LoadKeeps(mac, s);
    case (StoreBits, StoringBits(_, _)) => StoreBitsKeepsCurrent(mac, s);
    case _ => if step.LoadByte? || step.TestBit? || step.CopyByte? || step.Check? { ReaderKeeps(mac, s, step); }
  }

  lemma ReadersOk(mac: Mac, s: State)
    requires InWindow(mac, s)
    ensures ReaderOk(s.reader)
  {}

  lemma {:induction false} RunKeepsCurrent(mac: Mac, steps: seq<Step>)
    ensures InWindow(mac, Run(mac, Initial(), steps))
  {
    hide InWindow, Next;
    if steps == [] {
      InitialIsCurrent(mac);
    } else {
      RunKeepsCurrent(mac, steps[..|steps| - 1]);
      NextKeepsCurrent(mac, Run(mac, Initial(), steps[..|steps| - 1]), steps[|steps| - 1]);
    }
  }

  lemma InitialIsCurrent(mac: Mac)
    ensures InWindow(mac, Initial())
  {
    forall p: u16, j: nat | j < ENTRY_SIZE
      ensures SlotByte(mac, Initial(), p, j)
    {
      assert Slot(Zeroed(), p)[j] == 0;
    }
  }

  /** Lock-free reads are current: however writer and reader steps interleave, every
      tuple that the reader returns is the entry whose write was the last for that
      port to complete before the copy began, or one whose write overlapped the
      copy. */
  lemma ReadsAreCurrent(mac: Mac, steps: seq<Step>, t: Return)
    requires t in Run(mac, Initial(), steps).returned
    ensures t.since <= t.until <= |Run(mac, Initial(), steps).signed|
    ensures var signed := Run(mac, Initial(), steps).signed;
            IdealInWindow(mac, signed, t) ==>
              exists e :: Current(signed, t.since, t.until, t.port, e) && e.active != 0 && t.reading == ReadingOf(e)
  {
    hide Run, MemoryIsCurrent, CopyIsCurrent, SplicedFromCurrent, Current, LastWrite;
    RunKeepsCurrent(mac, steps);
    var s := Run(mac, Initial(), steps);
    var raw :| AcceptedCurrent(mac, s.signed, t, raw);
    if IdealInWindow(mac, s.signed, t) {
      ZeroDataIsInactive();
      var e :| Current(s.signed, t.since, t.until, t.port, e) && raw[..32] == Pack(e);
      UnpackPack(e);
    }
  }

  /** Without an overlapping write to the port there is one record to copy from, so no
      assumption on the MAC is needed: the tuple is the last completed write. */
  lemma UndisturbedReadIsLast(mac: Mac, steps: seq<Step>, t: Return)
    requires t in Run(mac, Initial(), steps).returned
    ensures t.since <= t.until <= |Run(mac, Initial(), steps).signed|
    ensures var signed := Run(mac, Initial(), steps).signed;
            (forall e | e in signed[t.since..t.until] :: e.port != t.port) ==>
              var last := LastWrite(signed[..t.since], t.port);
              last.Some? && last.value.active != 0 && t.reading == ReadingOf(last.value)
  {
    hide Run, MemoryIsCurrent, CopyIsCurrent, SplicedFromCurrent, LastWrite, Accept, Record;
    RunKeepsCurrent(mac, steps);
    var s := Run(mac, Initial(), steps);
    var raw :| AcceptedCurrent(mac, s.signed, t, raw);
    if forall e | e in s.signed[t.since..t.until] :: e.port != t.port {
      OneRecord(mac, s.signed, t, raw);
    }
  }

  lemma OneRecord(mac: Mac, signed: seq<Entry>, t: Return, raw: Raw)
    requires AcceptedCurrent(mac, signed, t, raw)
    requires forall e | e in signed[t.since..t.until] :: e.port != t.port
    ensures var last := LastWrite(signed[..t.since], t.port);
            last.Some? && last.value.active != 0 && t.reading == ReadingOf(last.value)
  {
    hide Record, LastWrite, Accept;
    var last := LastWrite(signed[..t.since], t.port);
    forall j: nat | j < ENTRY_SIZE
      ensures raw[j] == if last.None? then 0 else Record(mac, last.value)[j]
    {
      assert FromCurrent(mac, signed, t.since, t.until, t.port, j, raw[j]);
    }
    if last.None? {
      ZeroRaw(mac, raw);
    } else {
      assert raw == Record(mac, last.value);
      AcceptRecord(mac, last.value);
    }
  }

  lemma ZeroRaw(mac: Mac, raw: Raw)
    requires forall j: nat | j < ENTRY_SIZE :: raw[j] == 0
    ensures Accept(mac, raw) == None
  {
    assert raw[..32] == seq(32, _ => 0);
    ZeroDataIsInactive();
  }
}
