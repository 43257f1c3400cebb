/** JavaScript's bitwise operators `>>`, `<<`, `&` and `|` on numbers that are
    nonnegative 32-bit integers, modelled on natural numbers.

    JavaScript first converts each operand to a signed 32-bit integer; for an
    operand in [0, 2^31) that conversion is the identity, so `x >> k` is then
    floor division by 2^k and `&`, `|` act bit by bit on the binary digits.
    Operands outside that range (negative numbers, fractions, 2^31 and above)
    are excluded by the preconditions of the shifts. */
module Bits {

  /** Exclusive upper bound of the nonnegative signed 32-bit integers. */
  const Int32Bound: nat := 0x8000_0000

  function Pow2(k: nat): (r: nat)
    ensures r >= 1
  {
    if k == 0 then 1 else 2 * Pow2(k - 1)
  }

  /** The powers of two that the shifts and masks of the pairing code use. */
  lemma Pow2Values()
    ensures Pow2(2) == 4 && Pow2(3) == 8 && Pow2(8) == 256 && Pow2(14) == 0x4000
    ensures Pow2(31) == Int32Bound
  {
    assert Pow2(14) == 0x4000;
    assert Pow2(24) == 0x100_0000;
  }

  /** `x >> k` (sign-propagating right shift) for 0 <= x < 2^31. */
  function ShiftRight(x: nat, k: nat): (r: nat)
    requires x < Int32Bound && k < 32
  {
    Quotient(x, Pow2(k))
  }

  /** Euclidean division of a natural number by a positive one: naming it
      keeps the verifier from expanding `Pow2(k)` inside the division. */
  function Quotient(x: nat, m: nat): (q: nat)
    requires m >= 1
  {
    x / m
  }

  /** `x << k` when the shifted value stays below 2^31, so that no bit is lost
      and the sign bit is not reached. */
  function ShiftLeft(x: nat, k: nat): (r: nat)
    requires x * Pow2(k) < Int32Bound && k < 32
    ensures r < Int32Bound
  {
    x * Pow2(k)
  }

  /** `x & y`: bit i of the result is set iff bit i is set in both operands. */
  function And(x: nat, y: nat): (r: nat)
    ensures r <= x && r <= y
    decreases x
  {
    if x == 0 || y == 0 then 0
    else 2 * And(x / 2, y / 2) + (if x % 2 == 1 && y % 2 == 1 then 1 else 0)
  }

  /** `x | y`: bit i of the result is set iff bit i is set in either operand. */
  function Or(x: nat, y: nat): (r: nat)
    ensures x <= r && y <= r && r <= x + y
    decreases x + y
  {
    if x == 0 then y
    else if y == 0 then x
    else 2 * Or(x / 2, y / 2) + (if x % 2 == 1 || y % 2 == 1 then 1 else 0)
  }

  /** Bit `k` of `x`. */
  function Bit(x: nat, k: nat): (b: nat)
    ensures b < 2
  {
    (x / Pow2(k)) % 2
  }

  // ---------------------------------------------------------------------------
  // Arithmetic helpers

  lemma {:induction false} MulAtLeast(a: int, m: int)
    requires a >= 1 && m > 0
    ensures a * m >= m
    decreases a
  {
    if a > 1 {
      MulAtLeast(a - 1, m);
      assert a * m == (a - 1) * m + m;
    }
  }

  /** Euclidean division is determined by its two defining facts. */
  lemma DivModUnique(x: int, m: int, q: int, r: int)
    requires m > 0 && 0 <= r < m && x == q * m + r
    ensures x / m == q && x % m == r
  {
    var q0, r0 := x / m, x % m;
    assert x == q0 * m + r0;
    assert (q - q0) * m == r0 - r;
    if q - q0 >= 1 {
      MulAtLeast(q - q0, m);
    } else if q0 - q >= 1 {
      MulAtLeast(q0 - q, m);
    }
  }

  lemma {:induction false} ModOfDouble(x: nat, m: nat)
    requires m > 0
    ensures x % (2 * m) == 2 * ((x / 2) % m) + x % 2
    ensures x / (2 * m) == (x / 2) / m
  {
    var q, r := (x / 2) / m, (x / 2) % m;
    assert x / 2 == q * m + r;
    assert x == q * (2 * m) + (2 * r + x % 2);
    DivModUnique(x, 2 * m, q, 2 * r + x % 2);
  }

  // ---------------------------------------------------------------------------
  // Properties of the operators

  /** The result of `|` is below 2^n when both operands are: `|` never leaves
      the bits of its operands, so it cannot reach the sign bit of an int32. */
  lemma {:induction false} OrBelowPow2(x: nat, y: nat, n: nat)
    requires x < Pow2(n) && y < Pow2(n)
    ensures Or(x, y) < Pow2(n)
    decreases n
  {
    if x != 0 && y != 0 {
      assert n > 0;
      OrBelowPow2(x / 2, y / 2, n - 1);
    }
  }

  /** Masking with 2^k - 1 keeps the low k bits: `x & (2^k - 1) == x mod 2^k`. */
  lemma {:induction false} AndLowMask(x: nat, k: nat)
    ensures And(x, Pow2(k) - 1) == x % Pow2(k)
    decreases k
  {
    if x == 0 {
      DivModUnique(0, Pow2(k), 0, 0);
    } else if k > 0 {
      AndLowMask(x / 2, k - 1);
      AndLowMaskStep(x, Pow2(k - 1), Pow2(k));
    }
  }

  /** The inductive step of `AndLowMask`, with 2^(k-1) written `m` and 2^k
      written `p`. */
  lemma AndLowMaskStep(x: nat, m: nat, p: nat)
    requires m >= 1 && p == 2 * m && x != 0 && And(x / 2, m - 1) == (x / 2) % m
    ensures And(x, p - 1) == x % p
  {
    DivModUnique(p - 1, 2, m - 1, 1);
    ModOfDouble(x, m);
  }

  /** Or-ing a value below 2^k into a value shifted left by k adds them: the
      two operands have no set bit in common. */
  lemma {:induction false} OrDisjoint(a: nat, b: nat, k: nat)
    requires b < Pow2(k)
    ensures Or(a * Pow2(k), b) == a * Pow2(k) + b
    decreases k
  {
    if k > 0 && a != 0 && b != 0 {
      var m := Pow2(k - 1);
      assert a * Pow2(k) == 2 * (a * m);
      assert (a * Pow2(k)) / 2 == a * m && (a * Pow2(k)) % 2 == 0;
      OrDisjoint(a, b / 2, k - 1);
    }
  }

  /** `AndLowMask` with 2^k written `m`, for callers that know its value. */
  lemma LowBits(x: nat, k: nat, m: nat)
    requires m == Pow2(k)
    ensures And(x, m - 1) == x % m
  {
    AndLowMask(x, k);
  }

  /** Packing a high field `a` above a k-bit field `b` with `(a << k) | b`
      and unpacking it with `>> k` and `& (2^k - 1)` gives both fields back;
      `m` is 2^k. */
  lemma PackUnpack(a: nat, b: nat, k: nat, m: nat)
    requires m == Pow2(k) && b < m && k < 32 && (a + 1) * m <= Int32Bound
    ensures Or(ShiftLeft(a, k), b) == a * m + b < Int32Bound
    ensures ShiftRight(Or(ShiftLeft(a, k), b), k) == a
    ensures And(Or(ShiftLeft(a, k), b), m - 1) == b
  {
    assert (a + 1) * m == a * m + m;
    OrDisjoint(a, b, k);
    DivModUnique(a * m + b, m, a, b);
    AndLowMask(a * m + b, k);
  }
}
