/**
 * `TimestampSeq`, the generator of timestamped identifiers.
 *
 * Two u64 fields: `sequence`, a free-running counter whose low `bits`
 * bits become the low bits of each identifier, and `lastCycleTimestamp`,
 * the clock reading at the last rollover of those bits to 0. A rollover
 * that happens within the same millisecond as the previous one waits for
 * the clock to tick, so the pair (timestamp, 0) is not handed out twice
 * in one millisecond.
 *
 * The atomics are plain fields and calls are sequential; the clock is a
 * `WallClock` passed to each call.
 */
module Timestamped {
  import opened U64
  import opened Layout
  import opened Clock

  class TimestampSeq {
    /** SEQUENCE_BITS, which is also TIMESTAMP_SHIFT. */
    const bits: ShiftAmount
    var sequence: u64
    var lastCycleTimestamp: u64

    /** `TimestampSeq::new()`, the derived default: both fields 0. */
    constructor (bits: ShiftAmount)
      ensures this.bits == bits && sequence == 0 && lastCycleTimestamp == 0
    {
      this.bits := bits;
      sequence := 0;
      lastCycleTimestamp := 0;
    }

    /** The value `sequence & SEQUENCE_MASK` that the next call packs. */
    function NextSequence(): (s: u64)
      reads this
      ensures s == sequence % Pow2(bits)
    {
      MaskedSequence(sequence, bits)
    }

    /** The next call rolls over: its masked sequence value is 0. */
    predicate RollsOver()
      reads this
    {
      NextSequence() == 0
    }

    /**
     * The next call returns: when it rolls over and its first reading equals
     * `lastCycleTimestamp`, some later reading passes `lastCycleTimestamp`,
     * which ends the wait.
     */
    ghost predicate WaitEnds(clock: WallClock)
      reads this, clock
    {
      RollsOver() && clock.readings(clock.taken) == lastCycleTimestamp ==>
        clock.PassesAfter(clock.taken + 1, lastCycleTimestamp)
    }

    /** `lastCycleTimestamp` is 0 or a past reading of a clock that does not run backwards. */
    ghost predicate BehindClock(clock: WallClock)
      reads this, clock
    {
      NonDecreasing(clock.readings) && lastCycleTimestamp <= clock.readings(clock.taken)
    }

    /**
     * `wait_next_millis`: loads `lastCycleTimestamp` once and reads the clock
     * until a reading is strictly after that value. Every reading it skips
     * is at or before that value.
     */
    method WaitNextMillis(clock: WallClock)
      requires clock.PassesAfter(clock.taken, lastCycleTimestamp)
      modifies clock
      ensures old(clock.taken) < clock.taken
      ensures lastCycleTimestamp < clock.readings(clock.taken - 1)
      ensures forall k :: old(clock.taken) <= k < clock.taken - 1 ==> clock.readings(k) <= lastCycleTimestamp
    {
      var lastTimestamp := lastCycleTimestamp;
      clock.WaitPast(lastTimestamp);
    }

    /**
     * `next_id`: takes the masked sequence value and bumps `sequence`, reads
     * the clock, and on a rollover waits for the clock to pass
     * `lastCycleTimestamp` if it has not, then ratchets that field up to the
     * reading. The identifier packs the last reading, minus EPOCH, above the
     * masked sequence value.
     */
    method NextId(clock: WallClock) returns (id: u64)
      requires clock.NotBefore(EPOCH)
      requires WaitEnds(clock)
      modifies this, clock
      // the sequence counter
      ensures sequence == WrappingAdd(old(sequence), 1)
      // the identifier: the last reading taken above the masked sequence value
      ensures old(clock.taken) < clock.taken
      ensures var ts := clock.readings(clock.taken - 1);
        EPOCH <= ts && id == Compose(ts - EPOCH, old(NextSequence()), bits)
      // without a rollover: one reading, the ratchet is untouched
      ensures !old(RollsOver()) ==>
        clock.taken == old(clock.taken) + 1 && lastCycleTimestamp == old(lastCycleTimestamp)
      // a rollover after the clock has moved on: one reading
      ensures old(RollsOver()) && clock.readings(old(clock.taken)) != old(lastCycleTimestamp) ==>
        clock.taken == old(clock.taken) + 1
      // a rollover in the same millisecond: readings up to a tick, then one more
      ensures old(RollsOver()) && clock.readings(old(clock.taken)) == old(lastCycleTimestamp) ==>
        clock.WaitedPast(old(clock.taken), clock.taken, old(lastCycleTimestamp))
      // the ratchet
      ensures old(RollsOver()) ==>
        lastCycleTimestamp == Max(old(lastCycleTimestamp), clock.readings(clock.taken - 1))
      ensures old(lastCycleTimestamp) <= lastCycleTimestamp
      // with a clock that does not run backwards, a rollover packs a timestamp after the previous one
      ensures old(RollsOver()) && old(BehindClock(clock)) ==>
        old(lastCycleTimestamp) < clock.readings(clock.taken - 1) == lastCycleTimestamp
      ensures old(BehindClock(clock)) ==> BehindClock(clock)
    {
      var masked := NextSequence();
      sequence := WrappingAdd(sequence, 1);
      var newTimestamp := clock.Now();
      if masked == 0 {
        var lastTimestamp := lastCycleTimestamp;
        if lastTimestamp == newTimestamp {
          WaitNextMillis(clock);
          ghost var tick := clock.readings(clock.taken - 1);
          newTimestamp := clock.Now();
          assert NonDecreasing(clock.readings) ==> tick <= newTimestamp;
        }
        lastCycleTimestamp := Max(lastCycleTimestamp, newTimestamp);
      }
      assert newTimestamp == clock.readings(clock.taken - 1);
      id := Compose(newTimestamp - EPOCH, masked, bits);
    }
  }
}
