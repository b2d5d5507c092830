/** The C# `int` bit operations the SSN packing uses, on 32-bit two's-complement
    patterns: `<<`, the unsigned shift `>>>`, `|` and `&`. A pattern is the
    number `Unsigned(x)` in `[0, 2^32)`; bitwise operators work bit by bit on it. */
module Int32Bits {
  import opened Wrappers

  const Modulus: nat := 0x1_0000_0000

  function Pow2(n: nat): (p: nat)
    ensures p >= 1
  {
    if n == 0 then 1 else 2 * Pow2(n - 1)
  }

  /** The 32-bit pattern of an `int`, read as an unsigned number. */
  function Unsigned(x: Int32): (u: nat)
    ensures u < Modulus
    ensures x >= 0 ==> u == x
  {
    if x < 0 then x + Modulus else x
  }

  /** The `int` whose 32-bit pattern is `u`. */
  function Signed(u: nat): (x: Int32)
    requires u < Modulus
    ensures Unsigned(x) == u
  {
    if u < 0x8000_0000 then u else u - Modulus
  }

  /** Bitwise or of two non-negative numbers, lowest bit first. */
  function Or(x: nat, y: nat): nat
    decreases x + y
  {
    if x == 0 then y
    else if y == 0 then x
    else (if x % 2 == 1 || y % 2 == 1 then 1 else 0) + 2 * Or(x / 2, y / 2)
  }

  /** Bitwise and of two non-negative numbers, lowest bit first. */
  function And(x: nat, y: nat): nat
    decreases x + y
  {
    if x == 0 || y == 0 then 0
    else (if x % 2 == 1 && y % 2 == 1 then 1 else 0) + 2 * And(x / 2, y / 2)
  }

  /** `x << k`: the pattern moves up `k` bits and the bits above 32 are lost. */
  function ShiftLeft(x: Int32, k: nat): Int32
    requires k < 32
  {
    Signed(Unsigned(x) * Pow2(k) % Modulus)
  }

  /** `x >>> k`: the pattern moves down `k` bits with zeros shifted in. */
  function ShiftRightUnsigned(x: Int32, k: nat): (r: Int32)
    requires 1 <= k < 32
    ensures r >= 0
  {
    assert Pow2(k) >= 2 by { assert Pow2(k) == 2 * Pow2(k - 1); }
    DivBelow(Unsigned(x), Pow2(k), 0x8000_0000);
    Unsigned(x) / Pow2(k)
  }

  /** `x | y` on `int`. */
  function BitOr(x: Int32, y: Int32): Int32 {
    Pow2Values();
    OrBound(Unsigned(x), Unsigned(y), 32);
    Signed(Or(Unsigned(x), Unsigned(y)))
  }

  /** `x & y` on `int`; a non-negative mask keeps a part of itself. */
  function BitAnd(x: Int32, y: Int32): (r: Int32)
    ensures y >= 0 ==> 0 <= r <= y
  {
    Pow2Values();
    AndBound(Unsigned(x), Unsigned(y), 32);
    Signed(And(Unsigned(x), Unsigned(y)))
  }

  lemma Pow2Values()
    ensures Pow2(7) == 128 && Pow2(14) == 0x4000 && Pow2(21) == 0x20_0000 && Pow2(32) == Modulus
  {
  }

  /** Or of two `n`-bit numbers has `n` bits. */
  lemma {:induction false} OrBound(x: nat, y: nat, n: nat)
    requires x < Pow2(n) && y < Pow2(n)
    ensures Or(x, y) < Pow2(n)
    decreases n
  {
    if x != 0 && y != 0 {
      OrBound(x / 2, y / 2, n - 1);
    }
  }

  /** And with an `n`-bit number has `n` bits. */
  lemma {:induction false} AndBound(x: nat, y: nat, n: nat)
    requires y < Pow2(n)
    ensures And(x, y) <= y && And(x, y) < Pow2(n)
    decreases y
  {
    if x != 0 && y != 0 {
      AndBound(x / 2, y / 2, n - 1);
    }
  }

  /** And with the mask `2^n - 1` keeps the lowest `n` bits. */
  lemma {:induction false} AndLowMask(x: nat, n: nat)
    ensures And(x, Pow2(n) - 1) == x % Pow2(n)
    decreases n
  {
    if n == 0 {
      assert Pow2(n) - 1 == 0;
    } else if x != 0 {
      var m, p := Pow2(n) - 1, Pow2(n - 1);
      MaskHalf(n);
      AndOddStep(x, m);
      AndLowMask(x / 2, n - 1);
      assert And(x, m) == x % 2 + 2 * ((x / 2) % p);
      DivModPow2(x, n);
    }
  }

  /** The mask `2^n - 1` is odd, and halving it gives the mask `2^(n-1) - 1`. */
  lemma MaskHalf(n: nat)
    requires n > 0
    ensures (Pow2(n) - 1) % 2 == 1 && (Pow2(n) - 1) / 2 == Pow2(n - 1) - 1
  {
    var p := Pow2(n - 1);
    assert Pow2(n) - 1 == (p - 1) * 2 + 1;
  }

  /** And with an odd number keeps the lowest bit. */
  lemma AndOddStep(x: nat, y: nat)
    requires x != 0 && y % 2 == 1
    ensures And(x, y) == x % 2 + 2 * And(x / 2, y / 2)
  {
  }

  /** Splitting off the lowest bit: `x mod 2^n` is that bit plus twice the rest mod `2^(n-1)`. */
  lemma DivModPow2(x: nat, n: nat)
    requires n > 0
    ensures x % Pow2(n) == x % 2 + 2 * ((x / 2) % Pow2(n - 1))
  {
    var p := Pow2(n - 1);
    assert Pow2(n) == 2 * p;
    var q := (x / 2) / p;
    var r := (x / 2) % p;
    assert x / 2 == q * p + r;
    assert x == q * (2 * p) + (2 * r + x % 2);
    assert 0 <= 2 * r + x % 2 < 2 * p;
    DivModUnique(x, 2 * p, q, 2 * r + x % 2);
  }

  /** Quotient and remainder are unique. */
  lemma DivModUnique(x: nat, d: nat, q: nat, r: nat)
    requires d > 0 && x == q * d + r && r < d
    ensures x % d == r && x / d == q
  {
    var m: int := q - x / d;
    assert m * d == x % d - r;
    MulSign(m, d);
    MulSign(-m, d);
  }

  /** A positive multiple of a positive `d` is at least `d`. */
  lemma MulSign(m: int, d: int)
    ensures m >= 1 && d > 0 ==> m * d >= d
    ensures (-m) * d == -(m * d)
  {
  }

  /** Or of a number shifted up `k` bits with a number below `2^k` is their sum:
      the bits do not overlap. */
  lemma {:induction false} OrDisjoint(x: nat, y: nat, k: nat)
    requires y < Pow2(k)
    ensures Or(x * Pow2(k), y) == x * Pow2(k) + y
    decreases k
  {
    if k > 0 && x != 0 && y != 0 {
      var h := x * Pow2(k - 1);
      assert x * Pow2(k) == 2 * h;
      OrDisjoint(x, y / 2, k - 1);
      assert Or(2 * h, y) == y % 2 + 2 * Or(h, y / 2);
    }
  }

  /** Or commutes with shifting both operands up by `k` bits. */
  lemma {:induction false} OrShifted(x: nat, y: nat, k: nat)
    ensures Or(x * Pow2(k), y * Pow2(k)) == Or(x, y) * Pow2(k)
    decreases k
  {
    if k > 0 && x != 0 && y != 0 {
      var p := Pow2(k - 1);
      OrShifted(x, y, k - 1);
      Double(x, p);
      Double(y, p);
      Double(Or(x, y), p);
      OrDouble(x * p, y * p);
    }
  }

  /** Shifting up one more bit doubles, and keeps a non-zero number non-zero. */
  lemma Double(x: nat, p: nat)
    requires p >= 1
    ensures x * (2 * p) == 2 * (x * p)
    ensures x >= 1 ==> x * p >= 1
  {
  }

  /** Or of two even numbers is twice the Or of their halves. */
  lemma OrDouble(a: nat, b: nat)
    ensures Or(2 * a, 2 * b) == 2 * Or(a, b)
  {
  }

  /** A number below `c * p` divided by `p` is below `c`. */
  lemma DivBelow(u: nat, p: nat, c: nat)
    requires p >= 1 && u < c * p
    ensures u / p < c
  {
    MulMonotone(u / p, c, p);
  }

  lemma MulMonotone(a: int, b: int, p: nat)
    ensures a >= b ==> a * p >= b * p
  {
  }
}
