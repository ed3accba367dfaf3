/**
 * The millisecond wall clock that `get_timestamp` reads.
 *
 * The system clock is replaced by a fixed, unbounded script of readings:
 * the k-th call of `Now` returns `readings(k)`. Properties of the real
 * clock (it does not run backwards, it is past EPOCH, it eventually
 * ticks) are stated as predicates over the script and assumed only by
 * the callers that need them.
 */
module Clock {
  import opened U64

  /** The clock never runs backwards. */
  ghost predicate NonDecreasing(readings: nat -> u64) {
    forall i: nat, j: nat :: i <= j ==> readings(i) <= readings(j)
  }

  class WallClock {
    /** Milliseconds since the Unix epoch returned by each successive read. */
    const readings: nat -> u64
    /** The number of reads made so far. */
    var taken: nat

    constructor (readings: nat -> u64)
      ensures this.readings == readings && taken == 0
    {
      this.readings := readings;
      taken := 0;
    }

    /** No reading from now on lies before `t`. */
    ghost predicate NotBefore(t: u64)
      reads this
    {
      forall k: nat :: taken <= k ==> t <= readings(k)
    }

    /** Some reading from index `from` on lies strictly after `t`. */
    ghost predicate PassesAfter(from: nat, t: u64) {
      exists k: nat :: from <= k && t < readings(k)
    }

    /**
     * The reads after the one at index `from`, up to index `to`, were a busy
     * wait past `t` and then one more read: the wait skipped only readings at
     * or before `t` and ended on the reading at `to - 2`, which is after `t`.
     */
    ghost predicate WaitedPast(from: nat, to: nat, t: u64) {
      from + 3 <= to && t < readings(to - 2) &&
      forall k :: from + 1 <= k < to - 2 ==> readings(k) <= t
    }

    /** `get_timestamp()`: the current time in milliseconds since the Unix epoch. */
    method Now() returns (t: u64)
      modifies this
      ensures t == readings(old(taken))
      ensures taken == old(taken) + 1
    {
      t := readings(taken);
      taken := taken + 1;
    }

    /**
     * The busy wait `while get_timestamp() <= t {}`: reads the clock until a
     * reading is strictly after `t`. Every reading it skips is at or before `t`.
     */
    method WaitPast(t: u64)
      requires PassesAfter(taken, t)
      modifies this
      ensures old(taken) < taken
      ensures t < readings(taken - 1)
      ensures forall k :: old(taken) <= k < taken - 1 ==> readings(k) <= t
    {
      ghost var tick :| taken <= tick && t < readings(tick);
      var now := Now();
      while now <= t
        invariant old(taken) < taken <= tick + 1
        invariant now == readings(taken - 1)
        invariant forall k :: old(taken) <= k < taken - 1 ==> readings(k) <= t
        decreases tick + 1 - taken
      {
        now := Now();
      }
    }
  }
}
