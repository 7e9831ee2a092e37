/** When things happen in a run of the lock-free protocol: which steps a returned
    tuple was copied between, and what the bitmap says meanwhile. */
module Timeline {
  import opened Text
  import opened SlotCodec
  import opened SharedMemory
  import opened LockFree
  import Bits
  import Freshness
  import QuietScan

  /** The state before step `n` of a run. */
  function Before(mac: Mac, steps: seq<Step>, n: nat): (s: State)
    requires n <= |steps|
    ensures ReaderOk(s.reader)
  {
    Run(mac, Initial(), steps[..n])
  }

  /** Before step `n` the reader is copying the slot of this port. */
  predicate CopyingAt(mac: Mac, steps: seq<Step>, n: nat, p: u16) {
    n <= |steps| && var r := Before(mac, steps, n).reader; r.Copying? && PortAt(r.i, r.k) == p
  }

  /** Step `n` finds the port's bit set, after `since` writes of a whole record. */
  predicate BeginsAt(mac: Mac, steps: seq<Step>, n: nat, p: u16, since: nat) {
    && n < |steps| && steps[n] == TestBit
    && var s := Before(mac, steps, n);
       && s.reader.AtBit? && s.reader.k < 8 && PortAt(s.reader.i, s.reader.k) == p && Bits.HasBit(s.reader.b, s.reader.k)
       && since == |s.signed| - if s.writer.Storing? then 1 else 0
  }

  /** Step `m` checks a whole copy and accepts it, after `t.until` writes were begun. */
  predicate EndsAt(mac: Mac, steps: seq<Step>, m: nat, t: Return) {
    && m < |steps| && steps[m] == Check && CopyingAt(mac, steps, m, t.port)
    && var s := Before(mac, steps, m);
       && Complete(s.reader.got) && Accept(mac, Assemble(s.reader.got)) == Some(t.reading)
       && t.since == s.reader.since && t.until == |s.signed|
  }

  /** One copy of the port's slot lasts from step `n` to step `m`. */
  predicate CopyLasts(mac: Mac, steps: seq<Step>, n: nat, m: nat, p: u16, since: nat) {
    && n < m && BeginsAt(mac, steps, n, p, since)
    && forall k: nat | n < k <= m :: CopyingAt(mac, steps, k, p)
  }

  lemma Prefixes(mac: Mac, steps: seq<Step>, n: nat)
    requires steps != [] && n < |steps|
    ensures Before(mac, steps[..|steps| - 1], n) == Before(mac, steps, n)
  {
    assert steps[..|steps| - 1][..n] == steps[..n];
  }

  lemma CopyStillLasts(mac: Mac, steps: seq<Step>, n: nat, m: nat, p: u16, since: nat)
    requires steps != [] && CopyLasts(mac, steps[..|steps| - 1], n, m, p, since)
    ensures CopyLasts(mac, steps, n, m, p, since)
  {
    hide Before;
    Prefixes(mac, steps, n);
    forall k: nat | n < k <= m
      ensures CopyingAt(mac, steps, k, p)
    {
      assert CopyingAt(mac, steps[..|steps| - 1], k, p);
      Prefixes(mac, steps, k);
    }
  }

  lemma Last(mac: Mac, steps: seq<Step>)
    requires steps != []
    ensures Before(mac, steps, |steps|) == Next(mac, Before(mac, steps, |steps| - 1), steps[|steps| - 1])
  {
    assert steps[..|steps|] == steps;
  }

  /** What there is to know about the writer's count. */
  predicate CountsWrites(s: State) {
    s.writer.Storing? ==> s.signed != []
  }

  lemma {:induction false} WritesAreCounted(mac: Mac, steps: seq<Step>)
    ensures CountsWrites(Before(mac, steps, |steps|))
  {
    hide Record, UpdateBit, Accept;
    if steps != [] {
      var front := steps[..|steps| - 1];
      WritesAreCounted(mac, front);
      Prefixes(mac, steps, |front|);
      Last(mac, steps);
    }
  }

  /** The copy under way began at some step and has lasted since. */
  lemma {:induction false} CopyHasBegun(mac: Mac, steps: seq<Step>) returns (n: nat)
    ensures var r := Before(mac, steps, |steps|).reader;
            r.Copying? ==> CopyLasts(mac, steps, n, |steps|, PortAt(r.i, r.k), r.since)
  {
    hide Record, UpdateBit, Accept, Before, Run, CopyLasts;
    n := 0;
    if steps == [] {
      assert !Before(mac, steps, 0).reader.Copying? by { hide *; StartsOutside(mac); }
    } else {
      var front := steps[..|steps| - 1];
      Prefixes(mac, steps, |front|);
      Last(mac, steps);
      var s, s' := Before(mac, steps, |front|), Before(mac, steps, |steps|);
      n := CopyHasBegun(mac, front);
      if s'.reader.Copying? {
        var p := PortAt(s'.reader.i, s'.reader.k);
        if s.reader.Copying? {
          CopyStillLasts(mac, steps, n, |front|, p, s'.reader.since);
          OneStepMore(mac, steps, n, p, s'.reader.since);
        } else {
          n := |front|;
          WritesAreCounted(mac, front);
          JustBegun(mac, steps);
        }
      }
    }
  }

  lemma StartsOutside(mac: Mac)
    ensures !Before(mac, [], 0).reader.Copying?
  {}

  lemma OneStepMore(mac: Mac, steps: seq<Step>, n: nat, p: u16, since: nat)
    requires steps != [] && CopyLasts(mac, steps, n, |steps| - 1, p, since) && CopyingAt(mac, steps, |steps|, p)
    ensures CopyLasts(mac, steps, n, |steps|, p, since)
  {
    hide CopyingAt, BeginsAt;
  }

  lemma JustBegun(mac: Mac, steps: seq<Step>)
    requires steps != []
    requires var s, s' := Before(mac, steps, |steps| - 1), Before(mac, steps, |steps|);
             !s.reader.Copying? && s'.reader.Copying? && CountsWrites(s)
    ensures var r := Before(mac, steps, |steps|).reader;
            CopyLasts(mac, steps, |steps| - 1, |steps|, PortAt(r.i, r.k), r.since)
  {
    hide Record, UpdateBit, Accept, Before, Run;
    Last(mac, steps);
  }

  /** Every tuple was copied between a test that found its bit set and a check that
      accepted it, and carries the number of whole records written before the one and
      of writes begun before the other. */
  lemma {:induction false} ReturnHasWindow(mac: Mac, steps: seq<Step>, t: Return) returns (n: nat, m: nat)
    requires t in Run(mac, Initial(), steps).returned
    ensures CopyLasts(mac, steps, n, m, t.port, t.since) && EndsAt(mac, steps, m, t)
  {
    hide Record, UpdateBit, Accept, Before, Run, CopyLasts;
    assert steps != [] by { hide Next; NothingReturned(mac, steps); }
    var front := steps[..|steps| - 1];
    Prefixes(mac, steps, |front|);
    Last(mac, steps);
    WholeRun(mac, steps);
    WholeRun(mac, front);
    var s := Before(mac, steps, |front|);
    if t in s.returned {
      n, m := ReturnHasWindow(mac, front, t);
      CopyStillLasts(mac, steps, n, m, t.port, t.since);
      Prefixes(mac, steps, m);
    } else {
      m := |front|;
      n := CopyHasBegun(mac, front);
      CopyStillLasts(mac, steps, n, m, t.port, t.since);
    }
  }

  lemma NothingReturned(mac: Mac, steps: seq<Step>)
    ensures steps == [] ==> Run(mac, Initial(), steps).returned == []
  {}

  lemma WholeRun(mac: Mac, steps: seq<Step>)
    ensures Before(mac, steps, |steps|) == Run(mac, Initial(), steps)
  {
    assert steps[..|steps|] == steps;
  }

  // ---- the bitmap

  /** The writes whose bit is stored, too. */
  function Finished(s: State): nat {
    if s.writer.Idle? || s.signed == [] then |s.signed| else |s.signed| - 1
  }

  predicate BitIsCurrent(s: State, p: u16) {
    && Finished(s) <= |s.signed|
    && Bit(s.mem, p) == (LastWrite(s.signed[..Finished(s)], p).Some? && LastWrite(s.signed[..Finished(s)], p).value.active != 0)
  }

  ghost predicate BitmapIsCurrent(s: State) {
    && (!s.writer.Idle? ==> s.signed != [] && s.signed[|s.signed| - 1] == s.writer.entry)
    && (s.writer.StoringBits? ==> s.writer.loaded == s.mem[BITMAP_OFFSET + s.writer.entry.port / 8])
    && forall p: u16 :: BitIsCurrent(s, p)
  }

  lemma StoringKeepsBits(m: Memory, p: u16, j: nat, b: byte, q: u16)
    requires j < ENTRY_SIZE
    ensures Bit(m[p * ENTRY_SIZE + j := b], q) == Bit(m, q)
  {
    hide Bits.HasBit;
  }

  lemma BitStored(s: State, e: Entry, p: u16)
    requires s.signed != [] && s.signed[|s.signed| - 1] == e
    requires var front := s.signed[..|s.signed| - 1];
             Bit(s.mem, p) == (LastWrite(front, p).Some? && LastWrite(front, p).value.active != 0)
    ensures Bit(StoreBit(s.mem, e.port, e.active != 0), p) == (LastWrite(s.signed, p).Some? && LastWrite(s.signed, p).value.active != 0)
  {
    hide StoreBit, Bit;
    StoreBitEffect(s.mem, e.port, e.active != 0, p);
  }

  lemma NextKeepsBitmap(mac: Mac, s: State, step: Step)
    requires ReaderOk(s.reader) && BitmapIsCurrent(s)
    ensures BitmapIsCurrent(Next(mac, s, step))
  {
    hide Record, Accept, LastWrite, Bit, UpdateBit;
    var s' := Next(mac, s, step);
    forall p: u16
      ensures BitIsCurrent(s', p)
    {
      assert BitIsCurrent(s, p);
      match (step, s.writer)
      case (BeginWrite(e), Idle) =>
        assert s'.signed[..|s.signed|] == s.signed == s.signed[..|s.signed|];
      case (StoreByte(j), Storing(e, done)) =>
        if j < ENTRY_SIZE && !done[j] {
          StoringKeepsBits(s.mem, e.port, j, Record(mac, e)[j], p);
        }
      case (StoreBits, StoringBits(e, loaded)) =>
        BitStored(s, e, p);
        assert s.signed[..|s.signed|] == s.signed;
      case _ =>
    }
  }

  /** In every interleaving a port's bit is what its last write says among those that
      are done; a bit is stored only after the whole record. */
  lemma BitsAreCurrent(mac: Mac, steps: seq<Step>, p: u16)
    ensures var s := Run(mac, Initial(), steps);
            var done := if s.writer.Idle? || s.signed == [] then s.signed else s.signed[..|s.signed| - 1];
            Bit(s.mem, p) <==> LastWrite(done, p).Some? && LastWrite(done, p).value.active != 0
  {
    hide Run, LastWrite, Bit;
    BitmapKept(mac, steps);
    var s := Run(mac, Initial(), steps);
    assert BitIsCurrent(s, p) && s.signed[..|s.signed|] == s.signed;
  }

  lemma {:induction false} BitmapKept(mac: Mac, steps: seq<Step>)
    ensures BitmapIsCurrent(Run(mac, Initial(), steps))
  {
    hide BitmapIsCurrent, Next;
    if steps == [] {
      ZeroedIsCurrent(mac);
    } else {
      BitmapKept(mac, steps[..|steps| - 1]);
      NextKeepsBitmap(mac, Run(mac, Initial(), steps[..|steps| - 1]), steps[|steps| - 1]);
    }
  }

  lemma ZeroedIsCurrent(mac: Mac)
    ensures BitmapIsCurrent(Initial())
  {
    forall p: u16
      ensures BitIsCurrent(Initial(), p)
    {
      ZeroedReads(mac, p);
    }
  }

  // ---- scans between writes

  /** Between writes the memory shows every port's last write. */
  lemma IdleShowsLast(mac: Mac, steps: seq<Step>, p: u16)
    requires Run(mac, Initial(), steps).writer.Idle?
    ensures var s := Run(mac, Initial(), steps); ShowsLast(mac, s.mem, s.signed, p)
  {
    hide Run, Accept, Record, LastWrite, Bit, Slot;
    var s := Run(mac, Initial(), steps);
    Freshness.RunKeepsCurrent(mac, steps);
    BitsAreCurrent(mac, steps, p);
    var raw, last := Slot(s.mem, p), LastWrite(s.signed, p);
    forall j: nat | j < ENTRY_SIZE
      ensures raw[j] == if last.None? then 0 else Record(mac, last.value)[j]
    {
      assert Freshness.SlotByte(mac, s, p, j);
      assert s.signed[..|s.signed|] == s.signed;
    }
    if last.None? {
      Freshness.ZeroRaw(mac, raw);
    } else {
      assert raw == Record(mac, last.value);
      AcceptRecord(mac, last.value);
    }
  }

  /** After any interleaving, a scan that begins between writes and is not disturbed
      returns exactly the ports whose last write was active, in ascending order. */
  lemma QuietScanReadsLastWrites(mac: Mac, steps: seq<Step>) returns (scan: seq<Step>)
    requires Run(mac, Initial(), steps).writer.Idle? && Run(mac, Initial(), steps).reader == AtByte(0)
    ensures QuietScan.ReaderSteps(scan)
    ensures var s, s' := Run(mac, Initial(), steps), Run(mac, Initial(), steps + scan);
            && s'.reader == AtByte(BITMAP_SIZE) && |s.returned| <= |s'.returned|
            && var rs := QuietScan.Readings(s'.returned[|s.returned|..]);
               && (forall i, j | 0 <= i < j < |rs| :: rs[i].port < rs[j].port)
               && forall r :: r in rs <==> exists e :: LastWrite(s.signed, r.port) == Some(e) && e.active != 0 && r == ReadingOf(e)
  {
    hide Run, LastWrite, Scan, ShowsLast, QuietScan.Readings;
    var s := Run(mac, Initial(), steps);
    scan := QuietScan.QuietScanIsScan(mac, s);
    RunConcat(mac, Initial(), steps, scan);
    forall p: u16
      ensures ShowsLast(mac, s.mem, s.signed, p)
    {
      IdleShowsLast(mac, steps, p);
    }
    ScanShowsLast(mac, s.mem, s.signed);
  }
}
