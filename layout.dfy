/**
 * The layout of a timestamped identifier: the elapsed milliseconds since
 * EPOCH in the high bits and the masked sequence value in the low
 * SEQUENCE_BITS bits, packed as `(elapsed << bits) | sequence` and
 * unpacked by `into_parts` as `(id >> bits, id & mask)`.
 *
 * The width `bits` is a parameter: the crate fixes it at compile time to
 * 12, or to 1 in its test build.
 */
module Layout {
  import opened U64

  /** Milliseconds since the Unix epoch that every packed timestamp is measured from. */
  const EPOCH: u64 := 1637806706000

  /** SEQUENCE_BITS of the normal build. */
  const PRODUCTION_SEQUENCE_BITS: ShiftAmount := 12

  /** SEQUENCE_BITS of the test build, chosen so that the sequence rolls over every second call. */
  const TEST_SEQUENCE_BITS: ShiftAmount := 1

  /** SEQUENCE_MASK, `(1 << bits) - 1`: the low `bits` bits set. */
  function SequenceMask(bits: ShiftAmount): (m: u64)
    ensures m + 1 == Pow2(bits)
  {
    Pow2Monotone(1, 64 - bits);
    DivModUnique(1, Pow2(64 - bits), 0, 1);
    Shl(1, bits) - 1
  }

  /** The elapsed time survives `<< bits`: no set bit is shifted past bit 63. */
  predicate Fits(elapsed: u64, bits: ShiftAmount) {
    elapsed < Pow2(64 - bits)
  }

  /** The packing `(elapsed << TIMESTAMP_SHIFT) | sequence`, where TIMESTAMP_SHIFT is SEQUENCE_BITS. */
  function Compose(elapsed: u64, sequence: u64, bits: ShiftAmount): (id: u64)
    ensures Shl(elapsed, bits) <= id && sequence <= id
  {
    Or(Shl(elapsed, bits), sequence)
  }

  /** `into_parts`: the timestamp part `id >> bits` and the sequence part `id & mask`. */
  function IntoParts(id: u64, bits: ShiftAmount): (parts: (u64, u64))
    ensures parts.1 <= SequenceMask(bits)
  {
    (Shr(id, bits), And(id, SequenceMask(bits)))
  }

  /** `sequence & SEQUENCE_MASK`: the sequence value an identifier carries, the counter modulo 2^bits. */
  function MaskedSequence(sequence: u64, bits: ShiftAmount): (s: u64)
    ensures s == sequence % Pow2(bits)
  {
    IntoPartsValue(sequence, bits);
    And(sequence, SequenceMask(bits))
  }

  /** Every reading is at or after EPOCH and its elapsed time fits above `bits` sequence bits. */
  ghost predicate InRange(readings: nat -> u64, bits: ShiftAmount) {
    forall k: nat :: EPOCH <= readings(k) && Fits(readings(k) - EPOCH, bits)
  }

  // ---------------------------------------------------------------------
  // The layout in arithmetic terms

  /** Packing is `elapsed * 2^bits + sequence`, after the shift has dropped the high bits of `elapsed`. */
  lemma ComposeValue(elapsed: u64, sequence: u64, bits: ShiftAmount)
    requires sequence <= SequenceMask(bits)
    ensures Compose(elapsed, sequence, bits) == (elapsed % Pow2(64 - bits)) * Pow2(bits) + sequence
  {
    var h := elapsed % Pow2(64 - bits);
    assert Shl(elapsed, bits) == h * Pow2(bits);
    BitOrDisjoint(h, sequence, bits);
  }

  /** Unpacking is the quotient and the remainder of a division by 2^bits. */
  lemma IntoPartsValue(id: u64, bits: ShiftAmount)
    ensures IntoParts(id, bits) == (id / Pow2(bits), id % Pow2(bits))
  {
    BitAndLowMask(id, bits);
  }

  // ---------------------------------------------------------------------
  // Packing and unpacking are inverse to each other

  /**
   * Unpacking a packed identifier gives back its sequence part in every
   * case, and its timestamp part reduced modulo 2^(64 - bits): the shift
   * never corrupts the low bits, only loses high bits of the timestamp.
   */
  lemma ComposeParts(elapsed: u64, sequence: u64, bits: ShiftAmount)
    requires sequence <= SequenceMask(bits)
    ensures IntoParts(Compose(elapsed, sequence, bits), bits) == (elapsed % Pow2(64 - bits), sequence)
  {
    var id := Compose(elapsed, sequence, bits);
    ComposeValue(elapsed, sequence, bits);
    IntoPartsValue(id, bits);
    DivModUnique(id, Pow2(bits), elapsed % Pow2(64 - bits), sequence);
  }

  /** `into_parts` inverts the packing when the timestamp fits above the sequence bits. */
  lemma RoundTrip(elapsed: u64, sequence: u64, bits: ShiftAmount)
    requires sequence <= SequenceMask(bits) && Fits(elapsed, bits)
    ensures IntoParts(Compose(elapsed, sequence, bits), bits) == (elapsed, sequence)
  {
    ComposeParts(elapsed, sequence, bits);
    DivModUnique(elapsed, Pow2(64 - bits), 0, elapsed);
  }

  /** What unpacking recovers from any packing: always the sequence part, and the timestamp part when it fits. */
  lemma PackedParts(elapsed: u64, sequence: u64, bits: ShiftAmount)
    requires sequence <= SequenceMask(bits)
    ensures IntoParts(Compose(elapsed, sequence, bits), bits).1 == sequence
    ensures Fits(elapsed, bits) ==> IntoParts(Compose(elapsed, sequence, bits), bits).0 == elapsed
  {
    ComposeParts(elapsed, sequence, bits);
    if Fits(elapsed, bits) {
      RoundTrip(elapsed, sequence, bits);
    }
  }

  /** Every identifier is the packing of its own parts, so packing is onto and unpacking one-to-one. */
  lemma PartsRoundTrip(id: u64, bits: ShiftAmount)
    ensures var (elapsed, sequence) := IntoParts(id, bits);
      Fits(elapsed, bits) && Compose(elapsed, sequence, bits) == id
  {
    var (elapsed, sequence) := IntoParts(id, bits);
    var d, m := Pow2(bits), Pow2(64 - bits);
    assert elapsed == id / d && sequence == id % d by { IntoPartsValue(id, bits); }
    assert elapsed < m by {
      assert d * m == MODULUS by { Pow2Of64(); Pow2Add(bits, 64 - bits); }
      QuotientBelow(id, d, m);
    }
    assert id == elapsed * d + sequence by {
      DivBounds(id, d);
      assert id == (id / d) * d + id % d;
    }
    assert elapsed % m == elapsed by { DivModUnique(elapsed, m, 0, elapsed); }
    ComposeValue(elapsed, sequence, bits);
  }

  /**
   * Packed identifiers compare as their (timestamp, sequence) pairs compare
   * lexicographically: a later timestamp always gives a larger identifier.
   */
  lemma ComposeOrder(e1: u64, s1: u64, e2: u64, s2: u64, bits: ShiftAmount)
    requires s1 <= SequenceMask(bits) && Fits(e1, bits)
    requires s2 <= SequenceMask(bits) && Fits(e2, bits)
    ensures Compose(e1, s1, bits) < Compose(e2, s2, bits) <==> e1 < e2 || (e1 == e2 && s1 < s2)
  {
    ComposeValue(e1, s1, bits);
    ComposeValue(e2, s2, bits);
    DivModUnique(e1, Pow2(64 - bits), 0, e1);
    DivModUnique(e2, Pow2(64 - bits), 0, e2);
    LexOrder(e1, s1, e2, s2, Pow2(bits));
  }

  /**
   * Bumping the counter with a wrapping add advances the masked sequence
   * value by one modulo 2^bits, also across the wrap of the counter at
   * 2^64, because 2^bits divides 2^64.
   */
  lemma MaskedStep(sequence: u64, bits: ShiftAmount)
    ensures MaskedSequence(WrappingAdd(sequence, 1), bits) == (MaskedSequence(sequence, bits) + 1) % Pow2(bits)
  {
    assert Pow2(bits) * Pow2(64 - bits) == MODULUS by { Pow2Of64(); Pow2Add(bits, 64 - bits); }
    ModSuccessor(sequence, WrappingAdd(sequence, 1), Pow2(bits), Pow2(64 - bits));
  }

  /** Identifiers with the same parts are the same identifier. */
  lemma PartsInjective(id1: u64, id2: u64, bits: ShiftAmount)
    ensures IntoParts(id1, bits) == IntoParts(id2, bits) ==> id1 == id2
  {
    PartsRoundTrip(id1, bits);
    PartsRoundTrip(id2, bits);
  }

  /** Identifiers compare as their (timestamp, sequence) parts compare lexicographically. */
  lemma PartsOrder(id1: u64, id2: u64, bits: ShiftAmount)
    ensures var (e1, s1) := IntoParts(id1, bits);
      var (e2, s2) := IntoParts(id2, bits);
      id1 < id2 <==> e1 < e2 || (e1 == e2 && s1 < s2)
  {
    var (e1, s1) := IntoParts(id1, bits);
    var (e2, s2) := IntoParts(id2, bits);
    PartsRoundTrip(id1, bits);
    PartsRoundTrip(id2, bits);
    ComposeOrder(e1, s1, e2, s2, bits);
  }

  /** The normal build allows 4096 sequence values per millisecond and 2^52 milliseconds of timestamps. */
  lemma ProductionLayout()
    ensures SequenceMask(PRODUCTION_SEQUENCE_BITS) == 4095
    ensures Fits(0xF_FFFF_FFFF_FFFF, PRODUCTION_SEQUENCE_BITS)
    ensures !Fits(0x10_0000_0000_0000, PRODUCTION_SEQUENCE_BITS)
  {
    assert SequenceMask(12) + 1 == Pow2(12);
    assert Pow2(12) == 4096;
    Pow2Add(26, 26);
    assert Pow2(26) == 0x400_0000;
    assert Pow2(52) == 0x10_0000_0000_0000;
  }
}
