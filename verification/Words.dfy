/**
 Machine-word arithmetic of the shared-memory contract: the bit tricks that both
 sides use in place of division (`& (cap - 1)`, `(n + 63) & !63`, leading zeros),
 written out on naturals bit by bit and tied to ordinary arithmetic.
 */
module Words {

  newtype Byte = x: int | 0 <= x < 256

  const U32: nat := 0x1_0000_0000
  const U64: nat := 0x1_0000_0000_0000_0000

  function Min(a: nat, b: nat): nat {
    if a < b then a else b
  }

  function Max(a: nat, b: nat): nat {
    if a < b then b else a
  }

  /** `u64::wrapping_add`. */
  function WrappingAdd(a: nat, b: nat): nat {
    (a + b) % U64
  }

  /** `u64::wrapping_sub`. */
  function WrappingSub(a: nat, b: nat): nat {
    (a - b) % U64
  }

  /** The wrapping operations undo each other, over the wrap too. */
  lemma WrappingInverse(a: nat, b: nat)
    requires a < U64 && b < U64
    ensures WrappingSub(a, b) < U64 && WrappingAdd(WrappingSub(a, b), b) == a
    ensures WrappingAdd(a, b) < U64 && WrappingSub(WrappingAdd(a, b), b) == a
  {
  }

  /** `saturating_sub`. */
  function SaturatingSub(a: nat, b: nat): nat {
    if a < b then 0 else a - b
  }

  function Pow2(k: nat): (p: nat)
    ensures p > 0
  {
    if k == 0 then 1 else 2 * Pow2(k - 1)
  }

  /** `is_power_of_two`: one bit set. */
  predicate IsPowerOfTwo(n: nat) {
    n == 1 || (n > 1 && n % 2 == 0 && IsPowerOfTwo(n / 2))
  }

  /** The position of the one bit of a power of two. */
  function Log2(n: nat): (k: nat)
    requires IsPowerOfTwo(n)
    ensures Pow2(k) == n
  {
    if n == 1 then 0 else 1 + Log2(n / 2)
  }

  /** Bitwise `&`, bit by bit from the least significant. */
  function And(a: nat, b: nat): nat
    decreases a
  {
    if a == 0 then 0
    else 2 * And(a / 2, b / 2) + if a % 2 == 1 && b % 2 == 1 then 1 else 0
  }

  /** Bitwise `!` on a 64-bit word. */
  function Not(a: nat): nat
    requires a < U64
  {
    U64 - 1 - a
  }

  function BitLength(n: nat): nat {
    if n == 0 then 0 else 1 + BitLength(n / 2)
  }

  /** `leading_zeros` of a 64-bit word. */
  function LeadingZeros(n: nat): int {
    64 - BitLength(n)
  }

  // ---- division facts ----

  /** Division with remainder is unique. */
  lemma DivModUnique(a: int, d: int, q: int, r: int)
    requires a == q * d + r && 0 <= r < d
    ensures a / d == q && a % d == r
  {
    var e := a / d - q;
    assert a == a / d * d + a % d;
    assert e * d == r - a % d by {
      assert e * d == a / d * d - q * d;
    }
    if e >= 1 {
      assert false;
    } else if e <= -1 {
      assert false;
    }
  }

  lemma MulGap(a: nat, b: nat, d: nat)
    requires a < b
    ensures a * d + d <= b * d
  {
    var k := b - a - 1;
    assert b * d == a * d + d + k * d;
  }

  /** Removing the lowest bit commutes with `%`. */
  lemma HalveMod(a: nat, d: nat)
    requires d > 0
    ensures 2 * (a / 2 % d) + a % 2 == a % (2 * d)
  {
    var q, r := a / 2 / d, a / 2 % d;
    assert a / 2 == q * d + r;
    assert a == q * (2 * d) + (2 * r + a % 2);
    DivModUnique(a, 2 * d, q, 2 * r + a % 2);
  }

  lemma {:induction false} PowerOfTwoHasLog(k: nat)
    ensures IsPowerOfTwo(Pow2(k)) && Log2(Pow2(k)) == k
  {
    if k > 0 {
      PowerOfTwoHasLog(k - 1);
      assert Pow2(k) / 2 == Pow2(k - 1);
    }
  }

  lemma {:induction false} Pow2Monotone(i: nat, j: nat)
    requires i <= j
    ensures Pow2(i) <= Pow2(j)
    decreases j - i
  {
    if i < j {
      Pow2Monotone(i + 1, j);
    }
  }

  lemma {:induction false} Pow2Adds(i: nat, j: nat)
    ensures Pow2(i + j) == Pow2(i) * Pow2(j)
  {
    if i > 0 {
      Pow2Adds(i - 1, j);
      assert Pow2(i) * Pow2(j) == 2 * (Pow2(i - 1) * Pow2(j));
    }
  }

  lemma Pow2Doubles(k: nat)
    ensures Pow2(k + 1) == 2 * Pow2(k)
  {
  }

  lemma Pow2Square(k: nat, p: nat)
    requires Pow2(k) == p
    ensures Pow2(k + k) == p * p
  {
    Pow2Adds(k, k);
  }

  lemma WordWidth()
    ensures Pow2(64) == U64
  {
    Pow2Square(4, 16);
    Pow2Square(8, 0x100);
    Pow2Square(16, 0x1_0000);
    Pow2Square(32, 0x1_0000_0000);
  }

  // ---- the bit tricks ----

  /** One bit of `AndLowBits`. */
  lemma AndLowBit(a: nat, p: nat)
    requires a > 0 && p > 0
    requires And(a / 2, p - 1) == a / 2 % p
    ensures And(a, 2 * p - 1) == a % (2 * p)
  {
    var m := 2 * p - 1;
    assert m / 2 == p - 1 && m % 2 == 1;
    assert And(a, m) == 2 * (a / 2 % p) + a % 2;
    HalveMod(a, p);
  }

  /** Masking with `2^k - 1` keeps the remainder modulo `2^k`. */
  lemma {:induction false} AndLowBits(a: nat, k: nat)
    ensures And(a, Pow2(k) - 1) == a % Pow2(k)
    decreases k
  {
    if k == 0 {
      AndZero(a);
    } else if a == 0 {
      DivModUnique(0, Pow2(k), 0, 0);
    } else {
      AndLowBits(a / 2, k - 1);
      AndLowBit(a, Pow2(k - 1));
    }
  }

  lemma {:induction false} AndZero(a: nat)
    ensures And(a, 0) == 0
  {
    if a > 0 {
      AndZero(a / 2);
    }
  }

  /** One bit of `AndHighBits`. */
  lemma AndHighBit(a: nat, h: nat, p: nat)
    requires p > 0
    requires And(a / 2, h) == a / 2 - a / 2 % p
    ensures And(a, 2 * h) == a - a % (2 * p)
  {
    HalveMod(a, p);
    if a > 0 {
      assert And(a, 2 * h) == 2 * And(a / 2, 2 * h / 2);
    }
  }

  lemma AndAllBits(a: nat, w: nat)
    requires a < Pow2(w)
    ensures And(a, Pow2(w) - 1) == a
  {
    AndLowBits(a, w);
    DivModUnique(a, Pow2(w), 0, a);
  }

  /** Masking a `w`-bit word with all bits but the `k` lowest rounds down to a multiple of `2^k`. */
  lemma {:induction false} AndHighBits(a: nat, k: nat, w: nat, p: nat, all: nat)
    requires k <= w && p == Pow2(k) && all == Pow2(w) && a < all
    ensures p <= all && And(a, all - p) == a - a % p
    decreases k
  {
    Pow2Monotone(k, w);
    if k == 0 {
      AndAllBits(a, w);
    } else {
      var p', all' := Pow2(k - 1), Pow2(w - 1);
      Pow2Monotone(k - 1, w - 1);
      AndHighBits(a / 2, k - 1, w - 1, p', all');
      AndHighBit(a, all' - p', p');
    }
  }

  /** `mask(pos)`: the ring index of a monotone byte position. */
  function Mask(cap: nat, pos: nat): nat
    requires cap > 0
  {
    And(pos, cap - 1)
  }

  /** `mask` is the remainder modulo a power-of-two capacity. */
  lemma MaskIsMod(cap: nat, pos: nat)
    requires IsPowerOfTwo(cap)
    ensures Mask(cap, pos) == pos % cap < cap
  {
    AndLowBits(pos, Log2(cap));
  }

  /** Every power of two up to `2^64` divides `2^64`. */
  lemma PowerOfTwoDividesWord(cap: nat) returns (d: nat)
    requires IsPowerOfTwo(cap) && cap <= U64
    ensures d * cap == U64
  {
    var k := Log2(cap);
    WordWidth();
    if k > 64 {
      Pow2Doubles(64);
      Pow2Monotone(65, k);
      assert false;
    }
    Pow2Adds(64 - k, k);
    d := Pow2(64 - k);
  }

  /** Reducing modulo a multiple first does not change the remainder. */
  lemma ModOfMod(a: nat, d: nat, m: nat)
    requires m > 0 && d > 0
    ensures d * m > 0 && a % (d * m) % m == a % m
  {
    var w := d * m;
    assert w > 0;
    var q, r := a / w, a % w;
    var q', r' := r / m, r % m;
    assert a == q * w + r && r == q' * m + r';
    assert q * w == q * d * m;
    assert a == (q * d + q') * m + r';
    DivModUnique(a, m, q * d + q', r');
  }

  /** The ring stays contiguous when the 64-bit position counter wraps, because `cap` divides `2^64`. */
  lemma MaskAcrossWrap(cap: nat, tail: nat, n: nat)
    requires IsPowerOfTwo(cap) && cap <= U64
    ensures Mask(cap, WrappingAdd(tail, n)) == (tail + n) % cap
  {
    MaskIsMod(cap, WrappingAdd(tail, n));
    var d := PowerOfTwoDividesWord(cap);
    ModOfMod(tail + n, d, cap);
  }

  /** `align_up_64`. */
  function AlignUp64(n: nat): nat
    requires n + 63 < U64
  {
    And(n + 63, Not(63))
  }

  lemma AlignByMask(a: nat, k: nat, w: nat)
    requires k == 6 && w == 64 && a < U64
    ensures And(a, U64 - 64) == a - a % 64
  {
    WordWidth();
    assert Pow2(k) == 64;
    AndHighBits(a, k, w, 64, U64);
  }

  lemma AlignUp64IsRoundDown(n: nat)
    requires n + 63 < U64
    ensures AlignUp64(n) == n + 63 - (n + 63) % 64
  {
    AlignByMask(n + 63, 6, 64);
  }

  /** Rounding down to a multiple of 64. */
  lemma RoundDown64(a: nat, r: int)
    requires r == a - a % 64
    ensures r % 64 == 0 && 0 <= r <= a < r + 64
  {
  }

  /** `align_up_64(n)` is the least multiple of 64 that is at least `n`. */
  lemma AlignUp64Rounds(n: nat)
    requires n + 63 < U64
    ensures AlignUp64(n) % 64 == 0 && n <= AlignUp64(n) < n + 64
  {
    AlignUp64IsRoundDown(n);
    RoundDown64(n + 63, AlignUp64(n));
  }

  /** `prev_power_of_two`: `1 << (BITS - 1 - leading_zeros)`, and 0 for 0. */
  function PrevPowerOfTwo(n: nat): nat
    requires n < U64
  {
    if n == 0 then 0
    else
      BitLengthBounds(n);
      Pow2(63 - LeadingZeros(n))
  }

  lemma {:induction false} BitLengthBounds(n: nat)
    requires n > 0
    ensures BitLength(n) > 0 && Pow2(BitLength(n) - 1) <= n < Pow2(BitLength(n))
  {
    if n > 1 {
      BitLengthBounds(n / 2);
    }
  }

  /** `prev_power_of_two(n)` is the largest power of two that is at most `n`, and a valid word. */
  lemma PrevPowerOfTwoIsLargest(n: nat)
    requires 0 < n < U64
    ensures IsPowerOfTwo(PrevPowerOfTwo(n))
    ensures PrevPowerOfTwo(n) <= n < 2 * PrevPowerOfTwo(n)
    ensures forall m: nat :: IsPowerOfTwo(m) && m <= n ==> m <= PrevPowerOfTwo(n)
  {
    BitLengthBounds(n);
    var k := BitLength(n) - 1;
    PowerOfTwoHasLog(k);
    forall m: nat | IsPowerOfTwo(m) && m <= n
      ensures m <= PrevPowerOfTwo(n)
    {
      if Log2(m) > k {
        Pow2Monotone(k + 1, Log2(m));
      } else {
        Pow2Monotone(Log2(m), k);
      }
    }
  }
}
