/**
 * A corrected `TimestampSeq` whose identifiers strictly increase, and so
 * never repeat, on a clock that does not run backwards.
 *
 * `next_id` ratchets `last_cycle_timestamp` only when the sequence rolls
 * over, so a cycle that spans a millisecond boundary can start its
 * successor in a millisecond where it already handed out identifiers, and
 * the successor then repeats them. Moving the ratchet out of the rollover
 * branch makes the field hold the timestamp of the last identifier handed
 * out, and the rollover wait then always moves past it. Everything else is
 * as in `Timestamped.TimestampSeq.NextId`.
 */
module Unique {
  import opened U64
  import opened Layout
  import opened Clock

  /**
   * The successor of a packed identifier: the sequence value advances by one
   * modulo 2^bits, at a timestamp that does not go back and that moves on
   * when the sequence value wraps to 0. It packs to a larger identifier.
   */
  lemma SuccessorIncreases(t1: u64, s1: u64, t2: u64, s2: u64, bits: ShiftAmount)
    requires Fits(t1, bits) && Fits(t2, bits) && s1 < Pow2(bits)
    requires s2 == (s1 + 1) % Pow2(bits)
    requires t1 <= t2 && (s2 == 0 ==> t1 < t2)
    ensures Compose(t1, s1, bits) < Compose(t2, s2, bits)
  {
    var d := Pow2(bits);
    assert s1 < s2 || s2 == 0 by {
      if s1 + 1 < d {
        DivModUnique(s1 + 1, d, 0, s1 + 1);
      } else {
        DivModUnique(s1 + 1, d, 1, 0);
      }
    }
    ComposeOrder(t1, s1, t2, s2, bits);
  }

  /**
   * The last identifier handed out (-1 before the first) packs the last
   * timestamp with the sequence value just before the one the counter will
   * give next.
   */
  ghost predicate Follows(lastId: int, lastTimestamp: u64, lastSequence: u64, sequence: u64, bits: ShiftAmount) {
    lastId != -1 ==>
      EPOCH <= lastTimestamp && Fits(lastTimestamp - EPOCH, bits) && lastSequence < Pow2(bits) &&
      MaskedSequence(sequence, bits) == (lastSequence + 1) % Pow2(bits) &&
      lastId == Compose(lastTimestamp - EPOCH, lastSequence, bits)
  }

  /**
   * One call: packing a timestamp that does not go back, and that moves on
   * when the masked counter is 0, gives an identifier above the last one,
   * and the bumped counter is linked to it.
   */
  lemma FollowsStep(lastId: int, lastTimestamp: u64, lastSequence: u64, sequence: u64, ts: u64, bits: ShiftAmount)
    requires Follows(lastId, lastTimestamp, lastSequence, sequence, bits)
    requires EPOCH <= ts && Fits(ts - EPOCH, bits)
    requires lastTimestamp <= ts && (MaskedSequence(sequence, bits) == 0 ==> lastTimestamp < ts)
    ensures var masked := MaskedSequence(sequence, bits);
      var id := Compose(ts - EPOCH, masked, bits);
      lastId < id && Follows(id, ts, masked, WrappingAdd(sequence, 1), bits)
  {
    var masked := MaskedSequence(sequence, bits);
    MaskedStep(sequence, bits);
    if lastId != -1 {
      SuccessorIncreases(lastTimestamp - EPOCH, lastSequence, ts - EPOCH, masked, bits);
    }
  }

  class UniqueTimestampSeq {
    const bits: ShiftAmount
    var sequence: u64
    /** The timestamp of the last identifier handed out, ratcheted on every call; 0 before the first. */
    var lastTimestamp: u64
    /** The last identifier handed out, -1 before the first, and its sequence part. */
    ghost var lastId: int
    ghost var lastSequence: u64

    constructor (bits: ShiftAmount)
      ensures this.bits == bits && sequence == 0 && lastTimestamp == 0 && lastId == -1
    {
      this.bits := bits;
      sequence := 0;
      lastTimestamp := 0;
      lastId := -1;
      lastSequence := 0;
    }

    /**
     * The generator is consistent with a clock that does not run backwards:
     * `lastTimestamp` is not after the next reading, and once an identifier
     * has been handed out it packs `lastTimestamp` with the sequence value
     * just before the one the next call takes.
     */
    ghost predicate Valid(clock: WallClock)
      reads this, clock
    {
      NonDecreasing(clock.readings) && lastTimestamp <= clock.readings(clock.taken) &&
      Follows(lastId, lastTimestamp, lastSequence, sequence, bits)
    }

    /** The next call returns: a rollover in the millisecond of `lastTimestamp` sees the clock pass it. */
    ghost predicate WaitEnds(clock: WallClock)
      reads this, clock
    {
      MaskedSequence(sequence, bits) == 0 && clock.readings(clock.taken) == lastTimestamp ==>
        clock.PassesAfter(clock.taken + 1, lastTimestamp)
    }

    /**
     * The reading `next_id` packs: one reading, and on a rollover whose
     * reading is `lastTimestamp` the wait for the clock to pass it and a
     * second reading. On a clock that does not run backwards the reading is
     * not before `lastTimestamp`, and strictly after it on a rollover.
     */
    method ReadTimestamp(clock: WallClock, rollover: bool) returns (ts: u64)
      requires rollover && clock.readings(clock.taken) == lastTimestamp ==>
        clock.PassesAfter(clock.taken + 1, lastTimestamp)
      modifies clock
      ensures old(clock.taken) < clock.taken && ts == clock.readings(clock.taken - 1)
      ensures !(rollover && clock.readings(old(clock.taken)) == lastTimestamp) ==> clock.taken == old(clock.taken) + 1
      ensures rollover && clock.readings(old(clock.taken)) == lastTimestamp ==>
        clock.WaitedPast(old(clock.taken), clock.taken, lastTimestamp)
      ensures NonDecreasing(clock.readings) && lastTimestamp <= clock.readings(old(clock.taken)) ==>
        lastTimestamp <= ts && (rollover ==> lastTimestamp < ts)
    {
      ts := clock.Now();
      if rollover {
        var last := lastTimestamp;
        if last == ts {
          clock.WaitPast(last);
          ghost var tick := clock.readings(clock.taken - 1);
          ts := clock.Now();
          assert NonDecreasing(clock.readings) ==> tick <= ts;
        }
      }
    }

    /** `next_id` with the ratchet on every call: the identifier is larger than every earlier one. */
    method NextId(clock: WallClock) returns (id: u64)
      requires InRange(clock.readings, bits) && Valid(clock) && WaitEnds(clock)
      modifies this, clock
      ensures Valid(clock)
      ensures old(lastId) < id && lastId == id
      ensures sequence == WrappingAdd(old(sequence), 1) && old(clock.taken) < clock.taken
      // one reading, unless a rollover finds the clock still at the last timestamp and waits
      ensures !(MaskedSequence(old(sequence), bits) == 0 && clock.readings(old(clock.taken)) == old(lastTimestamp)) ==>
        clock.taken == old(clock.taken) + 1
      // a rollover in the millisecond of the last identifier: readings up to a tick past it, then one more
      ensures MaskedSequence(old(sequence), bits) == 0 && clock.readings(old(clock.taken)) == old(lastTimestamp) ==>
        clock.WaitedPast(old(clock.taken), clock.taken, old(lastTimestamp))
      ensures var ts := clock.readings(clock.taken - 1);
        lastTimestamp == ts && id == Compose(ts - EPOCH, MaskedSequence(old(sequence), bits), bits)
    {
      var previous := sequence;
      sequence := WrappingAdd(previous, 1);
      var newTimestamp := ReadTimestamp(clock, MaskedSequence(previous, bits) == 0);
      id := Ratchet(previous, newTimestamp);
    }

    /**
     * The end of `next_id` on the reading `ts`, once the counter has been
     * bumped from `previous`: `fetch_max` of the timestamp, on every call,
     * and the packing. On a timestamp that does not go back, and that moves
     * on after a rollover, the identifier is above the last one.
     */
    method Ratchet(previous: u64, ts: u64) returns (id: u64)
      requires Follows(lastId, lastTimestamp, lastSequence, previous, bits) && sequence == WrappingAdd(previous, 1)
      requires EPOCH <= ts && Fits(ts - EPOCH, bits)
      requires lastTimestamp <= ts && (MaskedSequence(previous, bits) == 0 ==> lastTimestamp < ts)
      modifies this
      ensures old(lastId) < id && lastId == id && id == Compose(ts - EPOCH, MaskedSequence(previous, bits), bits)
      ensures lastTimestamp == ts && sequence == old(sequence)
      ensures Follows(lastId, lastTimestamp, lastSequence, sequence, bits)
    {
      var masked := MaskedSequence(previous, bits);
      FollowsStep(lastId, lastTimestamp, lastSequence, previous, ts, bits);
      lastTimestamp := Max(lastTimestamp, ts);
      id := Compose(ts - EPOCH, masked, bits);
      lastId := id;
      lastSequence := masked;
    }
  }

  /**
   * The four calls of `test_next_does_not_repeat_ids` on the corrected
   * generator in the test build: the identifiers strictly increase, so the
   * second and fourth differ too, on every clock that does not run
   * backwards and ticks after its second reading (the third call rolls over
   * and waits for that tick if the clock has stood still since the second).
   */
  method FourIdsIncrease(readings: nat -> u64) returns (id1: u64, id2: u64, id3: u64, id4: u64)
    requires NonDecreasing(readings) && InRange(readings, TEST_SEQUENCE_BITS)
    requires exists k: nat :: readings(1) < readings(k)
    ensures id1 < id2 < id3 < id4
  {
    var clock := new WallClock(readings);
    var g := new UniqueTimestampSeq(TEST_SEQUENCE_BITS);
    assert Pow2(TEST_SEQUENCE_BITS) == 2;
    id1 := g.NextId(clock);
    assert clock.taken == 1 && g.sequence == 1;
    id2 := g.NextId(clock);
    assert clock.taken == 2 && g.sequence == 2;
    assert g.WaitEnds(clock) by {
      if readings(2) == readings(1) {
        var k: nat :| readings(1) < readings(k);
        assert 3 <= k;
      }
    }
    id3 := g.NextId(clock);
    assert g.sequence == 3;
    id4 := g.NextId(clock);
  }
}
