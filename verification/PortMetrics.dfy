/** Rates from consecutive byte counters: the wrap-around guard, the rounding to
    two decimals and the table of last snapshots. */
module PortMetrics {
  import opened Text
  import opened SlotCodec

  datatype ByteSnapshot = ByteSnapshot(time: real, bytesIn: u64, bytesOut: u64)

  /** Rates in KB/s. */
  datatype Rates = Rates(kbIn: real, kbOut: real)

  // ---- rounding

  predicate IsHundredth(r: real) {
    (r * 100.0).Floor as real == r * 100.0
  }

  predicate Within(a: real, b: real, bound: real) {
    -bound <= a - b <= bound
  }

  /** `round` picks some nearest two-decimal number; which one on a tie is left open. */
  ghost predicate RoundsToHundredths(round: real -> real) {
    forall x: real :: IsHundredth(round(x)) && Within(round(x), x, 0.005)
  }

  function HalfUp(x: real): real {
    (x * 100.0 + 0.5).Floor as real / 100.0
  }

  /** Rounding half up is one such choice. */
  lemma HalfUpRounds()
    ensures RoundsToHundredths(HalfUp)
  {
    forall x: real
      ensures IsHundredth(HalfUp(x)) && Within(HalfUp(x), x, 0.005)
    {
      var k := (x * 100.0 + 0.5).Floor;
      assert HalfUp(x) * 100.0 == k as real;
      assert (k as real).Floor == k;
    }
  }

  // ---- deltas

  /** Bytes since the previous counter value, taking a smaller value for a wrap. */
  function SafeDelta(current: u64, previous: u64): nat {
    if current >= previous then current - previous else current + (TWO64 - previous)
  }

  /** The guard computes the difference modulo 2^64, whatever the counters are. */
  lemma SafeDeltaIsModular(current: u64, previous: u64)
    ensures SafeDelta(current, previous) == (current - previous) % TWO64
  {}

  lemma ModularDifference(a: int, b: int)
    ensures (b % TWO64 - a % TWO64) % TWO64 == (b - a) % TWO64
  {
    var d := b / TWO64 - a / TWO64;
    assert b - a == TWO64 * d + (b % TWO64 - a % TWO64);
  }

  /** Between two readings of a growing counter the delta is the true growth
      exactly when fewer than 2^64 bytes arrived. */
  lemma DeltaIsGrowth(a: nat, b: nat)
    requires a <= b
    ensures SafeDelta(b % TWO64, a % TWO64) == b - a <==> b - a < TWO64
  {
    SafeDeltaIsModular(b % TWO64, a % TWO64);
    ModularDifference(a, b);
  }

  /** When counter values are lost between two readings, because the counter was
      dropped and restarted, the delta is the growth less the loss modulo 2^64.  It
      is the true growth exactly when a multiple of 2^64 was lost; otherwise the
      restart reads as a wrap. */
  lemma RestartReadsAsWrap(total: nat, lost: nat, total': nat, lost': nat)
    requires lost <= total && lost' <= total'
    ensures var delta, growth, loss := SafeDelta((total' - lost') % TWO64, (total - lost) % TWO64), total' - total, lost' - lost;
            && delta == (growth - loss) % TWO64
            && (0 <= growth < TWO64 ==> (delta == growth <==> loss % TWO64 == 0))
  {
    var growth, loss := total' - total, lost' - lost;
    SafeDeltaIsModular((total' - lost') % TWO64, (total - lost) % TWO64);
    ModularDifference(total - lost, total' - lost');
    LossShows(growth, loss);
  }

  lemma LossShows(growth: int, loss: int)
    ensures 0 <= growth < TWO64 ==> ((growth - loss) % TWO64 == growth <==> loss % TWO64 == 0)
  {
    var q, r := (growth - loss) / TWO64, (growth - loss) % TWO64;
    assert growth - loss == TWO64 * q + r;
    if r == growth {
      assert loss == TWO64 * -q;
      MultipleIsZero(-q);
    }
    if loss % TWO64 == 0 {
      var k := loss / TWO64;
      assert growth - loss == TWO64 * -k + growth;
      Remainder(growth, -k);
    }
  }

  lemma MultipleIsZero(k: int)
    ensures (TWO64 * k) % TWO64 == 0
  {}

  lemma Remainder(r: int, k: int)
    ensures 0 <= r < TWO64 ==> (TWO64 * k + r) % TWO64 == r
  {}

  function Rate(round: real -> real, current: u64, previous: u64, elapsed: real): real
    requires elapsed > 0.0
  {
    round(SafeDelta(current, previous) as real / 1024.0 / elapsed)
  }

  function RatesBetween(round: real -> real, previous: Option<ByteSnapshot>, current: ByteSnapshot): Rates {
    if previous.None? || current.time - previous.value.time <= 0.0 then Rates(0.0, 0.0)
    else
      var p, elapsed := previous.value, current.time - previous.value.time;
      Rates(Rate(round, current.bytesIn, p.bytesIn, elapsed), Rate(round, current.bytesOut, p.bytesOut, elapsed))
  }

  /** No rate without a previous reading or without time passing; otherwise the bytes
      modulo 2^64 since then, in units of 1024 a second, rounded. */
  lemma RatesMean(round: real -> real, previous: Option<ByteSnapshot>, current: ByteSnapshot)
    ensures previous == None ==> RatesBetween(round, previous, current) == Rates(0.0, 0.0)
    ensures previous.Some? && current.time <= previous.value.time ==> RatesBetween(round, previous, current) == Rates(0.0, 0.0)
    ensures previous.Some? && current.time > previous.value.time ==>
              var p, elapsed := previous.value, current.time - previous.value.time;
              RatesBetween(round, previous, current) ==
              Rates(round(((current.bytesIn - p.bytesIn) % 0x1_0000_0000_0000_0000) as real / 1024.0 / elapsed),
                    round(((current.bytesOut - p.bytesOut) % 0x1_0000_0000_0000_0000) as real / 1024.0 / elapsed))
  {
    hide SafeDelta;
    if previous.Some? {
      SafeDeltaIsModular(current.bytesIn, previous.value.bytesIn);
      SafeDeltaIsModular(current.bytesOut, previous.value.bytesOut);
    }
  }

  function Rebuilt(rate: real, elapsed: real): real {
    rate * 1024.0 * elapsed
  }

  lemma RebuiltMonotone(a: real, b: real, elapsed: real)
    requires a <= b && elapsed > 0.0
    ensures Rebuilt(a, elapsed) <= Rebuilt(b, elapsed)
  {
    assert (b - a) * elapsed >= 0.0;
  }

  lemma RebuiltShift(x: real, elapsed: real)
    ensures Rebuilt(x + 0.005, elapsed) == Rebuilt(x, elapsed) + 5.12 * elapsed
    ensures Rebuilt(x - 0.005, elapsed) == Rebuilt(x, elapsed) - 5.12 * elapsed
  {}

  lemma RebuiltExact(bytes: real, elapsed: real)
    requires elapsed > 0.0
    ensures Rebuilt(bytes / 1024.0 / elapsed, elapsed) == bytes
  {
    var a := bytes / 1024.0;
    assert a / elapsed * elapsed == a;
  }

  /** Bytes rebuilt from a rounded rate are off by at most 5.12 per second. */
  lemma RebuiltBytes(round: real -> real, current: u64, previous: u64, elapsed: real)
    requires RoundsToHundredths(round) && elapsed > 0.0
    ensures Within(Rebuilt(Rate(round, current, previous, elapsed), elapsed), SafeDelta(current, previous) as real, 5.12 * elapsed)
  {
    hide Rebuilt;
    var delta := SafeDelta(current, previous) as real;
    var x := delta / 1024.0 / elapsed;
    assert Within(round(x), x, 0.005);
    RebuiltMonotone(round(x), x + 0.005, elapsed);
    RebuiltMonotone(x - 0.005, round(x), elapsed);
    RebuiltShift(x, elapsed);
    RebuiltExact(delta, elapsed);
  }

  // ---- the calculator

  class Calculator {
    var lastSnapshot: map<u16, ByteSnapshot>
    const round: real -> real

    constructor (round: real -> real)
      ensures lastSnapshot == map[] && this.round == round
    {
      lastSnapshot := map[];
      this.round := round;
    }

    ghost function Last(port: u16): Option<ByteSnapshot>
      reads this
    {
      if port in lastSnapshot then Some(lastSnapshot[port]) else None
    }

    /** The rates of a port since its previous snapshot, which the new one replaces. */
    method CalculateDelta(port: u16, bytesIn: u64, bytesOut: u64, time: real) returns (rates: Rates)
      modifies this`lastSnapshot
      ensures lastSnapshot == old(lastSnapshot)[port := ByteSnapshot(time, bytesIn, bytesOut)]
      ensures rates == RatesBetween(round, old(Last(port)), ByteSnapshot(time, bytesIn, bytesOut))
      ensures port !in old(lastSnapshot) || time <= old(lastSnapshot)[port].time ==> rates == Rates(0.0, 0.0)
      ensures port in old(lastSnapshot) && time > old(lastSnapshot)[port].time ==>
                var p, elapsed := old(lastSnapshot)[port], time - old(lastSnapshot)[port].time;
                rates == Rates(round(((bytesIn - p.bytesIn) % 0x1_0000_0000_0000_0000) as real / 1024.0 / elapsed),
                               round(((bytesOut - p.bytesOut) % 0x1_0000_0000_0000_0000) as real / 1024.0 / elapsed))
    {
      RatesMean(round, Last(port), ByteSnapshot(time, bytesIn, bytesOut));
      hide SafeDelta;
      var known := port in lastSnapshot;
      var prev := if known then lastSnapshot[port] else ByteSnapshot(0.0, 0, 0);
      lastSnapshot := lastSnapshot[port := ByteSnapshot(time, bytesIn, bytesOut)];
      if !known {
        return Rates(0.0, 0.0);
      }
      var elapsed := time - prev.time;
      if elapsed <= 0.0 {
        return Rates(0.0, 0.0);
      }
      var deltaIn, deltaOut := SafeDelta(bytesIn, prev.bytesIn), SafeDelta(bytesOut, prev.bytesOut);
      rates := Rates(round(deltaIn as real / 1024.0 / elapsed), round(deltaOut as real / 1024.0 / elapsed));
    }
  }
}
