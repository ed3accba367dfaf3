/**
 * Unsigned 64-bit machine integers as used by the generators: the value
 * range, Rust's wrapping `fetch_add`, the shifts `<<` and `>>` with an
 * in-range shift amount, and the bitwise `|` and `&`.
 *
 * Values are mathematical integers restricted to [0, 2^64); every operator
 * writes out its truncation explicitly. The bitwise operators are defined
 * bit by bit on naturals, and the lemmas below connect them to arithmetic:
 * an `|` of two values without common bits is their sum, and an `&` with a
 * low mask of k ones is the remainder modulo 2^k.
 */
module U64 {

  /** 2^64, the number of distinct u64 values. */
  const MODULUS: int := 0x1_0000_0000_0000_0000

  type u64 = x: int | 0 <= x < 0x1_0000_0000_0000_0000

  /** A shift amount that Rust accepts for a u64 without panicking. */
  type ShiftAmount = k: nat | k < 64

  /** 2^k. */
  function Pow2(k: nat): (r: nat)
    ensures r >= 1
  {
    if k == 0 then 1 else 2 * Pow2(k - 1)
  }

  /** Bitwise or of two naturals, one binary digit at a time. */
  function BitOr(a: nat, b: nat): (r: nat)
    decreases a
  {
    if a == 0 then b
    else if b == 0 then a
    else 2 * BitOr(a / 2, b / 2) + (if a % 2 == 1 || b % 2 == 1 then 1 else 0)
  }

  /** Bitwise and of two naturals, one binary digit at a time. */
  function BitAnd(a: nat, b: nat): (r: nat)
    decreases a
  {
    if a == 0 || b == 0 then 0
    else 2 * BitAnd(a / 2, b / 2) + (if a % 2 == 1 && b % 2 == 1 then 1 else 0)
  }

  // ---------------------------------------------------------------------
  // The u64 operators used by the source

  /** `x.wrapping_add(y)`, which is what `fetch_add` stores. */
  function WrappingAdd(x: u64, y: u64): (r: u64)
    ensures x + y < MODULUS ==> r == x + y
    ensures x + y >= MODULUS ==> r == x + y - MODULUS
  {
    (x + y) % MODULUS
  }

  /** `x << k`: the bits shifted past bit 63 are dropped. */
  function Shl(x: u64, k: ShiftAmount): (r: u64)
    ensures r == Pow2(k) * (x % Pow2(64 - k))
  {
    ShlValue(x, k);
    (x * Pow2(k)) % MODULUS
  }

  /** `x >> k`. */
  function Shr(x: u64, k: ShiftAmount): (r: u64)
    ensures r * Pow2(k) <= x < (r + 1) * Pow2(k)
  {
    DivBounds(x, Pow2(k));
    x / Pow2(k)
  }

  /** `x | y`. */
  function Or(x: u64, y: u64): (r: u64)
    ensures x <= r && y <= r
  {
    Pow2Of64();
    BitOrBelow(x, y, 64);
    BitOrAtLeast(x, y);
    BitOr(x, y)
  }

  /** `x & y`. */
  function And(x: u64, y: u64): (r: u64)
    ensures r <= x && r <= y
  {
    BitAndAtMost(x, y);
    BitAnd(x, y)
  }

  /** `x.max(y)`, which is what `fetch_max` stores. */
  function Max(x: u64, y: u64): (r: u64)
    ensures x <= r && y <= r && (r == x || r == y)
  {
    if x < y then y else x
  }

  // ---------------------------------------------------------------------
  // Powers of two

  lemma {:induction false} Pow2Add(a: nat, b: nat)
    ensures Pow2(a + b) == Pow2(a) * Pow2(b)
  {
    if a > 0 {
      Pow2Add(a - 1, b);
      DoubleMul(Pow2(a - 1), Pow2(b));
    }
  }

  lemma DoubleMul(x: int, y: int)
    ensures (2 * x) * y == 2 * (x * y)
  {
  }

  lemma {:induction false} Pow2Monotone(a: nat, b: nat)
    requires a <= b
    ensures Pow2(a) <= Pow2(b)
  {
    if a < b {
      Pow2Monotone(a, b - 1);
    }
  }

  lemma Pow2Of64()
    ensures Pow2(64) == MODULUS
  {
    Pow2Square(1, 2);
    Pow2Square(2, 4);
    Pow2Square(4, 16);
    Pow2Square(8, 256);
    Pow2Square(16, 0x1_0000);
    Pow2Square(32, 0x1_0000_0000);
  }

  lemma Pow2Square(a: nat, p: nat)
    requires Pow2(a) == p
    ensures Pow2(2 * a) == p * p
  {
    Pow2Add(a, a);
  }

  // ---------------------------------------------------------------------
  // Euclidean division

  /** Division and remainder are determined by `x == q * d + r` with `0 <= r < d`. */
  lemma DivModUnique(x: int, d: int, q: int, r: int)
    requires d > 0 && 0 <= r < d && x == q * d + r
    ensures x / d == q && x % d == r
  {
    var q', r' := x / d, x % d;
    assert (q - q') * d == r' - r;
    MulSign(q - q', d);
  }

  /** Adding one, possibly minus a multiple `d * m`, steps the remainder modulo `d` by one. */
  lemma ModSuccessor(x: int, w: int, d: int, m: int)
    requires d > 0 && (w == x + 1 || w == x + 1 - d * m)
    ensures w % d == (x % d + 1) % d
  {
    var q, r := x / d, x % d;
    var q' := if w == x + 1 then q else q - m;
    assert w == q' * d + (r + 1) by {
      if w != x + 1 {
        assert q * d - m * d == (q - m) * d;
      }
    }
    if r + 1 < d {
      DivModUnique(w, d, q', r + 1);
      DivModUnique(r + 1, d, 0, r + 1);
    } else {
      DivModUnique(w, d, q' + 1, 0);
      DivModUnique(r + 1, d, 1, 0);
    }
  }

  /** A nonzero multiple of d is at least d away from zero. */
  lemma MulSign(m: int, d: int)
    requires d > 0
    ensures m >= 1 ==> m * d >= d
    ensures m <= -1 ==> m * d <= -d
    ensures m >= 0 ==> m * d >= m
  {
  }

  lemma MulMonotone(a: int, b: int, d: int)
    requires a <= b && d >= 0
    ensures a * d <= b * d
  {
    assert b * d - a * d == (b - a) * d;
  }

  lemma DivBounds(x: nat, d: nat)
    requires d > 0
    ensures 0 <= x / d <= x
    ensures x == (x / d) * d + x % d
    ensures (x / d) * d <= x < (x / d + 1) * d
  {
    var q := x / d;
    assert x == q * d + x % d;
    MulSign(q, d);
    assert (q + 1) * d == q * d + d;
  }

  /** A value below `d * m` has a quotient by d below m. */
  lemma QuotientBelow(x: int, d: int, m: int)
    requires d > 0 && m > 0 && 0 <= x < d * m
    ensures x / d < m
  {
    var q := x / d;
    assert q * d <= x by { DivBounds(x, d); }
    if m <= q {
      MulMonotone(m, q, d);
      assert false;
    }
  }

  /** With remainders below d, `e * d + s` orders lexicographically by (e, s). */
  lemma LexOrder(e1: int, s1: int, e2: int, s2: int, d: int)
    requires 0 <= s1 < d && 0 <= s2 < d
    ensures e1 * d + s1 < e2 * d + s2 <==> e1 < e2 || (e1 == e2 && s1 < s2)
  {
    if e1 < e2 {
      MulMonotone(e1 + 1, e2, d);
    } else if e2 < e1 {
      MulMonotone(e2 + 1, e1, d);
    }
  }

  /** `(x * d) % (d * m) == d * (x % m)`: scaling by d scales the remainder. */
  lemma ScaledMod(x: nat, d: nat, m: nat)
    requires d > 0 && m > 0
    ensures (x * d) % (d * m) == d * (x % m)
  {
    var q, r := x / m, x % m;
    assert x == q * m + r;
    assert x * d == q * (d * m) + r * d by {
      assert x * d == (q * m + r) * d;
    }
    assert r * d < d * m by { MulSign(m - r, d); }
    DivModUnique(x * d, d * m, q, r * d);
  }

  lemma ShlValue(x: u64, k: ShiftAmount)
    ensures (x * Pow2(k)) % MODULUS == Pow2(k) * (x % Pow2(64 - k))
  {
    Pow2Of64();
    Pow2Add(k, 64 - k);
    ScaledMod(x, Pow2(k), Pow2(64 - k));
  }

  // ---------------------------------------------------------------------
  // Bitwise operators

  /** `|` of two values below 2^n stays below 2^n. */
  lemma {:induction false} BitOrBelow(a: nat, b: nat, n: nat)
    requires a < Pow2(n) && b < Pow2(n)
    ensures BitOr(a, b) < Pow2(n)
  {
    if n > 0 && a != 0 && b != 0 {
      BitOrBelow(a / 2, b / 2, n - 1);
    }
  }

  /** `|` sets every bit of either operand. */
  lemma {:induction false} BitOrAtLeast(a: nat, b: nat)
    ensures a <= BitOr(a, b) && b <= BitOr(a, b)
    decreases a
  {
    if a != 0 && b != 0 {
      BitOrAtLeast(a / 2, b / 2);
    }
  }

  /** `&` keeps only bits of both operands. */
  lemma {:induction false} BitAndAtMost(a: nat, b: nat)
    ensures BitAnd(a, b) <= a && BitAnd(a, b) <= b
    decreases a
  {
    if a != 0 && b != 0 {
      BitAndAtMost(a / 2, b / 2);
    }
  }

  /** An `|` of a multiple of 2^k with a value below 2^k is their sum. */
  lemma {:induction false} BitOrDisjoint(h: nat, s: nat, k: nat)
    requires s < Pow2(k)
    ensures BitOr(h * Pow2(k), s) == h * Pow2(k) + s
  {
    if k > 0 {
      var p := Pow2(k - 1);
      MulDouble(h, p);
      var a: nat := MulNat(h, p);
      if a != 0 && s != 0 {
        BitOrDisjoint(h, s / 2, k - 1);
        BitOrDisjointStep(a, s);
      }
    }
  }

  /** The inductive step of BitOrDisjoint, on plain naturals: a low zero bit of `2a` takes the low bit of s. */
  lemma BitOrDisjointStep(a: nat, s: nat)
    requires a != 0 && s != 0
    requires BitOr(a, s / 2) == a + s / 2
    ensures BitOr(2 * a, s) == 2 * a + s
  {
    assert (2 * a) / 2 == a && (2 * a) % 2 == 0;
  }

  /** The product of two naturals, as a natural. */
  function MulNat(h: nat, p: nat): (r: nat) {
    h * p
  }

  lemma MulDouble(h: int, p: int)
    ensures h * (2 * p) == 2 * (h * p)
  {
  }

  /** An `&` with k low one bits is the remainder modulo 2^k. */
  lemma {:induction false} BitAndLowMask(x: nat, k: nat)
    ensures BitAnd(x, Pow2(k) - 1) == x % Pow2(k)
  {
    if k == 0 {
      assert Pow2(k) - 1 == 0;
    } else if x == 0 {
      assert BitAnd(x, Pow2(k) - 1) == 0;
    } else {
      BitAndLowMask(x / 2, k - 1);
      BitAndLowMaskStep(x, k);
    }
  }

  /** The inductive step of BitAndLowMask: from the mask one bit narrower on x / 2 to x. */
  lemma BitAndLowMaskStep(x: nat, k: nat)
    requires k > 0 && x != 0
    requires BitAnd(x / 2, Pow2(k - 1) - 1) == (x / 2) % Pow2(k - 1)
    ensures BitAnd(x, Pow2(k) - 1) == x % Pow2(k)
  {
    var p := Pow2(k - 1);
    var m := Pow2(k) - 1;
    assert BitAnd(x, m) == 2 * BitAnd(x / 2, p - 1) + x % 2 by {
      assert m / 2 == p - 1 && m % 2 == 1 by {
        assert m == (p - 1) * 2 + 1;
        DivModUnique(m, 2, p - 1, 1);
      }
    }
    assert x % (2 * p) == 2 * ((x / 2) % p) + x % 2 by { HalvingMod(x, p); }
  }

  /** `x % 2p == 2 * ((x / 2) % p) + x % 2`. */
  lemma HalvingMod(x: nat, p: nat)
    requires p > 0
    ensures x % (2 * p) == 2 * ((x / 2) % p) + x % 2
  {
    var q, r := (x / 2) / p, (x / 2) % p;
    assert x / 2 == q * p + r;
    assert x == q * (2 * p) + (2 * r + x % 2);
    DivModUnique(x, 2 * p, q, 2 * r + x % 2);
  }
}
