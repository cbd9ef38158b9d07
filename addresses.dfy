/**
 * Unsigned 64-bit file addresses (`haddr_t`) and sizes (`size_t`), with the
 * wrap-around arithmetic of C and the sentinel HADDR_UNDEF.  Also the bit-length
 * and power-of-two helpers that the signature search is built on.
 */
module Addresses {

  const TWO_TO_THE_64: int := 0x1_0000_0000_0000_0000

  /** An unsigned 64-bit machine word: both `haddr_t` and `size_t`. */
  type U64 = x: int | 0 <= x < TWO_TO_THE_64

  /** `HADDR_UNDEF`: all bits set, the largest `haddr_t`. */
  const HADDR_UNDEF: U64 := TWO_TO_THE_64 - 1

  /**
   * C `a + b` on 64-bit unsigned values: the true sum, less 2^64 when it
   * does not fit.
   */
  function Add(a: U64, b: U64): (r: U64)
    ensures r == a + b || r == a + b - TWO_TO_THE_64
    ensures r < a ==> a + b >= TWO_TO_THE_64
  {
    if a + b < TWO_TO_THE_64 then a + b else a + b - TWO_TO_THE_64
  }

  /** C `a - b` on 64-bit unsigned values: the inverse of adding `b`. */
  function Sub(a: U64, b: U64): (r: U64)
    ensures Add(r, b) == a
    ensures b <= a ==> r == a - b
  {
    if b <= a then a - b else a - b + TWO_TO_THE_64
  }

  /** The `MAX` macro of the C sources. */
  function Max(a: U64, b: U64): (r: U64)
    ensures a <= r && b <= r && (r == a || r == b)
    ensures r == HADDR_UNDEF <==> a == HADDR_UNDEF || b == HADDR_UNDEF
  {
    if a > b then a else b
  }

  /** Translating a relative address to absolute and back gives it back. */
  lemma RelativeAbsoluteRoundTrip(rel: U64, base: U64)
    ensures Sub(Add(rel, base), base) == rel
  {
    var abs := Add(rel, base);
    var back := Sub(abs, base);
    assert Add(back, base) == abs;
    if rel + base < TWO_TO_THE_64 {
      assert back + base == rel + base || back + base == rel + base + TWO_TO_THE_64;
    } else {
      assert back + base == rel + base - TWO_TO_THE_64 || back + base == rel + base;
    }
  }

  function Pow2(n: nat): (r: nat)
    ensures r >= 1
  {
    if n == 0 then 1 else 2 * Pow2(n - 1)
  }

  lemma {:induction false} Pow2StrictlyIncreasing(i: nat, j: nat)
    requires i < j
    ensures Pow2(i) < Pow2(j)
  {
    if i + 1 < j {
      Pow2StrictlyIncreasing(i, j - 1);
    }
  }

  lemma {:induction false} Pow2Add(a: nat, b: nat)
    ensures Pow2(a + b) == Pow2(a) * Pow2(b)
  {
    if b > 0 {
      Pow2Add(a, b - 1);
      assert Pow2(a + b) == 2 * Pow2(a + b - 1);
    }
  }

  /** Pow2Add with the two factors already known. */
  lemma Pow2Product(a: nat, b: nat, x: nat, y: nat)
    requires Pow2(a) == x && Pow2(b) == y
    ensures Pow2(a + b) == x * y
  {
    Pow2Add(a, b);
  }

  /** 2^63 and 2^64 written out. */
  lemma Pow2TopValues()
    ensures Pow2(63) == 0x8000_0000_0000_0000
    ensures Pow2(64) == TWO_TO_THE_64
  {
    assert Pow2(8) == 0x100;
    Pow2Product(8, 8, 0x100, 0x100);
    Pow2Product(16, 16, 0x1_0000, 0x1_0000);
    Pow2Product(32, 31, 0x1_0000_0000, 0x8000_0000);
    assert Pow2(64) == 2 * Pow2(63);
  }

  /** Number of significant bits of `x`: how often `x >>= 1` runs before `x` is 0. */
  function BitLength(x: nat): nat
  {
    if x == 0 then 0 else 1 + BitLength(x / 2)
  }

  /** 2^BitLength(x) is above `x`, and 2^(BitLength(x) - 1) is not. */
  lemma {:induction false} BitLengthBounds(x: nat)
    ensures x < Pow2(BitLength(x))
    ensures 0 < x ==> Pow2(BitLength(x) - 1) <= x
  {
    if x > 0 {
      BitLengthBounds(x / 2);
    }
  }

  /** BitLength(x) is the least N with 2^N > x. */
  lemma BitLengthIsLeast(x: nat, n: nat)
    ensures x < Pow2(n) <==> BitLength(x) <= n
  {
    BitLengthBounds(x);
    if BitLength(x) <= n {
      if BitLength(x) < n {
        Pow2StrictlyIncreasing(BitLength(x), n);
      }
    } else {
      if n < BitLength(x) - 1 {
        Pow2StrictlyIncreasing(n, BitLength(x) - 1);
      }
    }
  }
}
