/**
 * The crate's unit tests as client code: each method builds fresh
 * generators over a scripted clock, makes the calls the test makes, and
 * promises what the test asserts, for every clock script that meets its
 * requires clauses. The tests run in the test build, where
 * SEQUENCE_BITS is 1; the two ordering tests hold for every width.
 */
module Scenarios {
  import opened U64
  import opened Layout
  import opened Clock
  import opened Sequential
  import opened Timestamped

  // ---------------------------------------------------------------------
  // Seq

  /** Sequential calls on `Seq::from(seed)` return seed, seed + 1, ... wrapping at 2^64. */
  method SeqCountsFrom(seed: u64, n: nat) returns (ids: seq<u64>)
    ensures |ids| == n
    ensures forall k :: 0 <= k < n ==> ids[k] == (seed + k) % MODULUS
  {
    var s := new Seq.From(seed);
    ids := [];
    while |ids| < n
      invariant |ids| <= n
      invariant s.counter == (seed + |ids|) % MODULUS
      invariant forall k :: 0 <= k < |ids| ==> ids[k] == (seed + k) % MODULUS
    {
      var id := s.NextId();
      ids := ids + [id];
    }
  }

  /**
   * The first result of `Seq::new()` is 0, that of `Seq::from(seed)` is
   * `seed`, and after `reset` the next result is 0 again.
   */
  method SeqStartsAndResets(seed: u64) returns (fromNew: u64, fromSeed: u64, afterReset: u64)
    ensures fromNew == 0 && fromSeed == seed && afterReset == 0
  {
    var unseeded := new Seq();
    fromNew := unseeded.NextId();
    var seeded := new Seq.From(seed);
    fromSeed := seeded.NextId();
    var _ := seeded.NextId();
    seeded.Reset();
    afterReset := seeded.NextId();
  }

  // ---------------------------------------------------------------------
  // TimestampSeq: one call at a time

  /** The first call of a fresh generator rolls over without waiting and packs the first reading with sequence 0. */
  method FirstCall(clock: WallClock, g: TimestampSeq) returns (id: u64)
    requires clock.taken == 0 && clock.NotBefore(EPOCH) && Fits(clock.readings(0) - EPOCH, g.bits)
    requires g.sequence == 0 && g.lastCycleTimestamp == 0
    modifies clock, g
    ensures clock.taken == 1 && g.sequence == 1 && g.lastCycleTimestamp == clock.readings(0)
    ensures IntoParts(id, g.bits) == (clock.readings(0) - EPOCH, 0)
  {
    id := g.NextId(clock);
    PackedParts(clock.readings(0) - EPOCH, 0, g.bits);
  }

  /** A call that does not roll over takes one reading and leaves the ratchet alone. */
  method PlainCall(clock: WallClock, g: TimestampSeq) returns (id: u64)
    requires clock.NotBefore(EPOCH) && !g.RollsOver() && Fits(clock.readings(clock.taken) - EPOCH, g.bits)
    modifies clock, g
    ensures clock.taken == old(clock.taken) + 1 && g.sequence == WrappingAdd(old(g.sequence), 1)
    ensures g.lastCycleTimestamp == old(g.lastCycleTimestamp)
    ensures IntoParts(id, g.bits) == (clock.readings(old(clock.taken)) - EPOCH, old(g.sequence) % Pow2(g.bits))
  {
    ghost var t := clock.readings(clock.taken);
    ghost var s := g.NextSequence();
    id := g.NextId(clock);
    PackedParts(t - EPOCH, s, g.bits);
  }

  /** A call that rolls over on a clock that does not run backwards packs a reading after the ratchet, with sequence 0. */
  method RolloverCall(clock: WallClock, g: TimestampSeq) returns (id: u64)
    requires clock.NotBefore(EPOCH) && InRange(clock.readings, g.bits)
    requires g.RollsOver() && g.WaitEnds(clock) && g.BehindClock(clock)
    modifies clock, g
    ensures old(clock.taken) < clock.taken && g.sequence == WrappingAdd(old(g.sequence), 1)
    ensures clock.readings(old(clock.taken)) != old(g.lastCycleTimestamp) ==> clock.taken == old(clock.taken) + 1
    ensures old(g.lastCycleTimestamp) < g.lastCycleTimestamp == clock.readings(clock.taken - 1)
    ensures g.BehindClock(clock)
    ensures IntoParts(id, g.bits) == (g.lastCycleTimestamp - EPOCH, 0)
  {
    id := g.NextId(clock);
    PackedParts(g.lastCycleTimestamp - EPOCH, 0, g.bits);
  }

  /**
   * A rollover whose reading is the ratchet, on a clock that ticks on the
   * next reading: one reading, one for the wait, one more, and the last is
   * packed with sequence 0.
   */
  method WaitingCall(clock: WallClock, g: TimestampSeq) returns (id: u64)
    requires clock.NotBefore(EPOCH) && Fits(clock.readings(clock.taken + 2) - EPOCH, g.bits)
    requires g.RollsOver() && clock.readings(clock.taken) == g.lastCycleTimestamp < clock.readings(clock.taken + 1)
    modifies clock, g
    ensures clock.taken == old(clock.taken) + 3
    ensures IntoParts(id, g.bits) == (clock.readings(old(clock.taken) + 2) - EPOCH, 0)
  {
    ghost var t, tick := clock.readings(clock.taken + 2), clock.taken + 1;
    id := g.NextId(clock);
    assert !(tick < clock.taken - 2);
    PackedParts(t - EPOCH, 0, g.bits);
  }

  // ---------------------------------------------------------------------
  // TimestampSeq: the tests

  /**
   * `test_next_generates_unique_ids`: three consecutive identifiers of a
   * fresh generator are pairwise distinct, provided the clock ticks at
   * least once after its first reading (the third call waits for that
   * tick when the clock has not moved).
   */
  method ThreeIdsDistinct(readings: nat -> u64) returns (id1: u64, id2: u64, id3: u64)
    requires NonDecreasing(readings) && InRange(readings, TEST_SEQUENCE_BITS)
    requires exists k: nat :: readings(0) < readings(k)
    ensures id1 != id2 && id2 != id3 && id1 != id3
  {
    var clock := new WallClock(readings);
    var g := new TimestampSeq(TEST_SEQUENCE_BITS);
    id1, id2, id3 := FirstThree(clock, g);
  }

  /**
   * `test_next_does_not_repeat_ids`: of four consecutive identifiers, the
   * neighbours and the first and last are distinct.
   */
  method FourIdsDistinct(readings: nat -> u64) returns (id1: u64, id2: u64, id3: u64, id4: u64)
    requires NonDecreasing(readings) && InRange(readings, TEST_SEQUENCE_BITS)
    requires exists k: nat :: readings(0) < readings(k)
    ensures id1 != id2 && id2 != id3 && id3 != id4 && id1 != id4
  {
    var clock := new WallClock(readings);
    var g := new TimestampSeq(TEST_SEQUENCE_BITS);
    id1, id2, id3 := FirstThree(clock, g);
    id4 := PlainCall(clock, g);
  }

  /**
   * The first three calls of a fresh test-build generator: the third rolls
   * over, waiting for the tick if the clock has not moved since the first.
   */
  method FirstThree(clock: WallClock, g: TimestampSeq) returns (id1: u64, id2: u64, id3: u64)
    requires clock.taken == 0 && NonDecreasing(clock.readings) && InRange(clock.readings, TEST_SEQUENCE_BITS)
    requires exists k: nat :: clock.readings(0) < clock.readings(k)
    requires g.bits == TEST_SEQUENCE_BITS && g.sequence == 0 && g.lastCycleTimestamp == 0
    modifies clock, g
    ensures id1 != id2 && id2 != id3 && id1 != id3
    ensures g.sequence == 3 && !g.RollsOver() && g.BehindClock(clock)
    ensures IntoParts(id1, TEST_SEQUENCE_BITS).1 == 0 && IntoParts(id3, TEST_SEQUENCE_BITS).1 == 0
    ensures Fits(clock.readings(clock.taken) - EPOCH, TEST_SEQUENCE_BITS)
  {
    ghost var r := clock.readings;
    id1 := FirstCall(clock, g);
    id2 := PlainCall(clock, g);
    assert g.WaitEnds(clock) by {
      if r(2) == r(0) {
        var k: nat :| r(0) < r(k);
        assert 3 <= k;
      }
    }
    id3 := RolloverCall(clock, g);
  }

  /**
   * The second and fourth identifiers are not always distinct, which is why
   * the test leaves that pair out: when the clock ticks once after the first
   * call and then stands still (say 100, 101, 101, 101 ms after EPOCH), the
   * third call rolls over without waiting and the fourth packs the same
   * timestamp and sequence value as the second.
   */
  method SecondAndFourthMayCollide(readings: nat -> u64) returns (id2: u64, id4: u64)
    requires NonDecreasing(readings) && InRange(readings, TEST_SEQUENCE_BITS)
    requires readings(0) < readings(1) == readings(3)
    ensures id2 == id4 && IntoParts(id2, TEST_SEQUENCE_BITS) == (readings(1) - EPOCH, 1)
  {
    var clock := new WallClock(readings);
    var g := new TimestampSeq(TEST_SEQUENCE_BITS);
    assert Pow2(TEST_SEQUENCE_BITS) == 2;
    var id1 := FirstCall(clock, g);
    id2 := PlainCall(clock, g);
    assert readings(2) != g.lastCycleTimestamp;
    var id3 := RolloverCall(clock, g);
    assert clock.taken == 3 && g.sequence == 3;
    id4 := PlainCall(clock, g);
    PartsInjective(id2, id4, TEST_SEQUENCE_BITS);
  }

  /**
   * A rollover in the millisecond of the last one waits for exactly the
   * first tick: with zero sequence bits and readings t, t, t', ... where
   * t < t', the second call reads t, waits on t', and packs the reading
   * after t'.
   */
  method SameMillisecondRollover(readings: nat -> u64) returns (id2: u64)
    requires InRange(readings, 0) && readings(0) == readings(1) < readings(2)
    ensures IntoParts(id2, 0) == (readings(3) - EPOCH, 0)
  {
    var clock := new WallClock(readings);
    var g := new TimestampSeq(0);
    var id1 := FirstCall(clock, g);
    id2 := WaitingCall(clock, g);
  }

  /**
   * `test_next_increases_sequence`: the second identifier of a fresh
   * generator is larger than the first. With zero sequence bits both calls
   * roll over, and the second waits for a tick if the clock has not moved.
   */
  method TwoIdsIncrease(readings: nat -> u64, bits: ShiftAmount) returns (id1: u64, id2: u64)
    requires NonDecreasing(readings) && InRange(readings, bits)
    requires bits == 0 ==> exists k: nat :: readings(0) < readings(k)
    ensures id1 < id2
  {
    var clock := new WallClock(readings);
    var g := new TimestampSeq(bits);
    id1 := FirstCall(clock, g);
    if bits == 0 {
      assert g.WaitEnds(clock) by {
        if readings(1) == readings(0) {
          var k: nat :| readings(0) < readings(k);
          assert 2 <= k;
        }
      }
      id2 := RolloverCall(clock, g);
    } else {
      id2 := PlainCall(clock, g);
    }
    PartsOrder(id1, id2, bits);
  }

  /**
   * `test_next_wait_for_next_millis`: when the clock has ticked between two
   * calls on a fresh generator, the second identifier's timestamp part
   * `id >> bits` is larger.
   */
  method TimestampAdvancesAcrossTick(readings: nat -> u64, bits: ShiftAmount) returns (id1: u64, id2: u64)
    requires NonDecreasing(readings) && InRange(readings, bits)
    requires readings(0) < readings(1)
    ensures Shr(id1, bits) < Shr(id2, bits)
  {
    var clock := new WallClock(readings);
    var g := new TimestampSeq(bits);
    id1 := FirstCall(clock, g);
    if bits == 0 {
      id2 := RolloverCall(clock, g);
    } else {
      id2 := PlainCall(clock, g);
    }
  }
}
