/** What a lock-free scan finds when no write comes between its steps: every port
    whose bit is set is visited, and what is returned is the sequential scan. */
module QuietScan {
  import opened Text
  import opened SlotCodec
  import opened SharedMemory
  import opened PortScan
  import opened LockFree
  import Bits

  predicate IsReaderStep(step: Step) {
    step.LoadByte? || step.TestBit? || step.CopyByte? || step.Check?
  }

  predicate ReaderSteps(steps: seq<Step>) {
    forall step | step in steps :: IsReaderStep(step)
  }

  /** The readings of what was returned, in order. */
  function Readings(rs: seq<Return>): seq<Reading> {
    seq(|rs|, i requires 0 <= i < |rs| => rs[i].reading)
  }

  /** The steps lead from one state to the other; they only move the reader and add
      the readings to what was returned. */
  ghost predicate Scans(mac: Mac, s: State, steps: seq<Step>, s': State, found: seq<Reading>) {
    && ReaderOk(s.reader) && ReaderSteps(steps) && Run(mac, s, steps) == s'
    && s' == s.(reader := s'.reader, returned := s'.returned)
    && Readings(s'.returned) == Readings(s.returned) + found
  }

  lemma Then(mac: Mac, s: State, a: seq<Step>, s1: State, x: seq<Reading>, b: seq<Step>, s2: State, y: seq<Reading>)
    requires Scans(mac, s, a, s1, x) && Scans(mac, s1, b, s2, y)
    ensures Scans(mac, s, a + b, s2, x + y)
  {
    hide Run;
    RunConcat(mac, s, a, b);
    assert Readings(s.returned) + (x + y) == Readings(s.returned) + x + y;
  }

  lemma One(mac: Mac, s: State, step: Step)
    requires ReaderOk(s.reader) && IsReaderStep(step) && NextReader(mac, s, step) == s.(reader := NextReader(mac, s, step).reader)
    ensures Scans(mac, s, [step], NextReader(mac, s, step), [])
  {
    hide NextReader;
    RunOne(mac, s, step);
    assert Readings(s.returned) + [] == Readings(s.returned);
  }

  lemma CopyAndCheck(mac: Mac, s: State) returns (s': State)
    requires ReaderOk(s.reader) && s.reader.Copying? && s.reader.got == NothingCopied()
    ensures Scans(mac, s, CopySteps(ENTRY_SIZE) + [Check], s', AsSeq(ReadEntry(mac, s.mem, PortAt(s.reader.i, s.reader.k))))
    ensures s'.reader == AtBit(s.reader.i, s.reader.b, s.reader.k + 1)
  {
    hide ReadEntry, Run;
    QuietRead(mac, s);
    s' := Run(mac, s, CopySteps(ENTRY_SIZE) + [Check]);
    assert ReaderSteps(CopySteps(ENTRY_SIZE) + [Check]);
    var p := PortAt(s.reader.i, s.reader.k);
    var entry := ReadEntry(mac, s.mem, p);
    assert Readings(s'.returned) == Readings(s.returned) + AsSeq(entry);
  }

  /** One bit: the port is copied, checked and returned exactly if the bit is set. */
  lemma ScanBit(mac: Mac, s: State) returns (steps: seq<Step>, s': State)
    requires s.reader.AtBit? && s.reader.i < BITMAP_SIZE && s.reader.k < 8
    ensures s'.reader == AtBit(s.reader.i, s.reader.b, s.reader.k + 1)
    ensures Scans(mac, s, steps, s',
                  if Bits.HasBit(s.reader.b, s.reader.k) then AsSeq(ReadEntry(mac, s.mem, PortAt(s.reader.i, s.reader.k))) else [])
  {
    hide ReadEntry, Run, Bits.HasBit, Scans, Completed;
    One(mac, s, TestBit);
    var s1 := NextReader(mac, s, TestBit);
    if Bits.HasBit(s.reader.b, s.reader.k) {
      s' := CopyAndCheck(mac, s1);
      var found := AsSeq(ReadEntry(mac, s.mem, PortAt(s.reader.i, s.reader.k)));
      Then(mac, s, [TestBit], s1, [], CopySteps(ENTRY_SIZE) + [Check], s', found);
      steps := [TestBit] + (CopySteps(ENTRY_SIZE) + [Check]);
      assert [] + found == found;
    } else {
      steps, s' := [TestBit], s1;
    }
  }

  /** The bits from `k` on of a byte that was loaded from the bitmap. */
  lemma {:induction false} ScanBits(mac: Mac, s: State) returns (steps: seq<Step>, s': State, found: seq<Reading>)
    requires s.reader.AtBit? && s.reader.i < BITMAP_SIZE && s.reader.k <= 8 && s.reader.b == s.mem[BITMAP_OFFSET + s.reader.i]
    ensures s'.reader == AtByte(s.reader.i + 1) && Scans(mac, s, steps, s', found)
    ensures ScannedTo(mac, s.mem, 8 * s.reader.i + s.reader.k) + found == ScannedTo(mac, s.mem, 8 * s.reader.i + 8)
    decreases 8 - s.reader.k
  {
    hide ReadEntry, Bits.HasBit, ScannedTo, Run, Scans;
    var i, k := s.reader.i, s.reader.k;
    if k == 8 {
      One(mac, s, TestBit);
      steps, s', found := [TestBit], NextReader(mac, s, TestBit), [];
      assert ScannedTo(mac, s.mem, 8 * i + 8) + [] == ScannedTo(mac, s.mem, 8 * i + 8);
    } else {
      var a, s1 := ScanBit(mac, s);
      var x := if Bits.HasBit(s.reader.b, k) then AsSeq(ReadEntry(mac, s.mem, PortAt(i, k))) else [];
      ScansKeeps(mac, s, a, s1, x);
      var b, s2, y := ScanBits(mac, s1);
      Then(mac, s, a, s1, x, b, s2, y);
      ScanNext(mac, s.mem, i, k);
      steps, s', found := a + b, s2, x + y;
      assert ScannedTo(mac, s.mem, 8 * i + k) + (x + y) == ScannedTo(mac, s.mem, 8 * i + k) + x + y;
    }
  }

  lemma ScansKeeps(mac: Mac, s: State, steps: seq<Step>, s': State, found: seq<Reading>)
    requires Scans(mac, s, steps, s', found)
    ensures s'.mem == s.mem && s'.writer == s.writer && s'.signed == s.signed
  {}

  lemma {:induction false} ScanBytes(mac: Mac, s: State) returns (steps: seq<Step>, s': State, found: seq<Reading>)
    requires s.reader.AtByte? && s.reader.i <= BITMAP_SIZE
    ensures s'.reader == AtByte(BITMAP_SIZE) && Scans(mac, s, steps, s', found)
    ensures ScannedTo(mac, s.mem, 8 * s.reader.i) + found == Scan(mac, s.mem)
    decreases BITMAP_SIZE - s.reader.i
  {
    hide ReadEntry, Bits.HasBit, ScannedTo, Run, Scans, Scan;
    var i := s.reader.i;
    if i == BITMAP_SIZE {
      Nothing(mac, s);
      steps, s', found := [], s, [];
      AllScanned(mac, s.mem);
      assert ScannedTo(mac, s.mem, 8 * i) + [] == ScannedTo(mac, s.mem, 8 * i);
    } else {
      One(mac, s, LoadByte);
      var s1 := NextReader(mac, s, LoadByte);
      var a, s2, x := ScanBits(mac, s1);
      Then(mac, s, [LoadByte], s1, [], a, s2, x);
      ScansKeeps(mac, s1, a, s2, x);
      var b, s3, y := ScanBytes(mac, s2);
      Then(mac, s, [LoadByte] + a, s2, [] + x, b, s3, y);
      steps, s', found := [LoadByte] + a + b, s3, [] + x + y;
      assert [] + x == x;
      assert ScannedTo(mac, s.mem, 8 * i) + (x + y) == ScannedTo(mac, s.mem, 8 * i) + x + y;
    }
  }

  lemma Nothing(mac: Mac, s: State)
    requires ReaderOk(s.reader)
    ensures Scans(mac, s, [], s, [])
  {
    assert Readings(s.returned) + [] == Readings(s.returned);
  }

  /** Whatever state it starts from, a scan that no write comes between visits every
      byte of the bitmap, leaves all else alone and returns exactly what the
      sequential scan of that memory returns, in order. */
  lemma QuietScanIsScan(mac: Mac, s: State) returns (steps: seq<Step>)
    requires s.reader == AtByte(0)
    ensures ReaderSteps(steps)
    ensures var s' := Run(mac, s, steps);
            && s'.reader == AtByte(BITMAP_SIZE)
            && s'.mem == s.mem && s'.writer == s.writer && s'.signed == s.signed
            && |s.returned| <= |s'.returned| && s'.returned[..|s.returned|] == s.returned
            && Readings(s'.returned[|s.returned|..]) == Scan(mac, s.mem)
  {
    hide Scan, ScannedTo;
    var s', found;
    steps, s', found := ScanBytes(mac, s);
    NothingScanned(mac, s.mem);
    assert [] + found == found;
    ReturnedGrows(mac, s, steps);
    assert Readings(s'.returned)[|s.returned|..] == found;
    assert Readings(s'.returned[|s.returned|..]) == Readings(s'.returned)[|s.returned|..];
  }

  /** Nothing that was returned is taken back. */
  lemma {:induction false} ReturnedGrows(mac: Mac, s: State, steps: seq<Step>)
    requires ReaderOk(s.reader)
    ensures var s' := Run(mac, s, steps); |s.returned| <= |s'.returned| && s'.returned[..|s.returned|] == s.returned
  {
    hide Accept, UpdateBit, Record;
    if steps == [] {
    } else {
      ReturnedGrows(mac, s, steps[..|steps| - 1]);
    }
  }
}
