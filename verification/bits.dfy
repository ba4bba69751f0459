/** Exact powers of two and the "smallest exponent that is large enough" search
    used by both subnet dividers (the `while (Math.pow(2, bits) < n) bits++` loops). */
module Bits {

  /** 2^n as an exact natural number (the source uses floating-point `Math.pow`). */
  function Pow2(n: nat): (r: nat)
    ensures r >= 1
  {
    if n == 0 then 1 else 2 * Pow2(n - 1)
  }

  lemma {:induction false} Pow2Add(a: nat, b: nat)
    ensures Pow2(a + b) == Pow2(a) * Pow2(b)
  {
    if a > 0 {
      Pow2Add(a - 1, b);
      assert Pow2(a + b) == 2 * Pow2(a - 1 + b);
    }
  }

  /** 2^c split at any a + b == c. */
  lemma Pow2Split(a: nat, b: nat, c: nat)
    requires a + b == c
    ensures Pow2(a) * Pow2(b) == Pow2(c)
  {
    Pow2Add(a, b);
  }

  lemma {:induction false} Pow2Monotone(a: nat, b: nat)
    requires a <= b
    ensures Pow2(a) <= Pow2(b)
  {
    if a < b {
      Pow2Monotone(a, b - 1);
    }
  }

  lemma Pow2StrictMonotone(a: nat, b: nat)
    requires a < b
    ensures Pow2(a) < Pow2(b)
  {
    Pow2Monotone(a, b - 1);
  }

  /** The literal powers the address arithmetic needs. */
  lemma Pow2Table()
    ensures Pow2(0) == 1 && Pow2(1) == 2 && Pow2(2) == 4 && Pow2(3) == 8
    ensures Pow2(4) == 16 && Pow2(5) == 32 && Pow2(6) == 64 && Pow2(7) == 128
    ensures Pow2(8) == 0x100 && Pow2(16) == 0x1_0000 && Pow2(24) == 0x100_0000
    ensures Pow2(31) == 0x8000_0000 && Pow2(32) == 0x1_0000_0000
  {
  }

  /** The search loop `bits = b; while (2^bits < need) bits++`, started at `b`. */
  function BitsFrom(need: int, b: nat): (r: nat)
    requires b == 0 || Pow2(b - 1) < need
    ensures b <= r
    ensures need <= Pow2(r)
    ensures r == 0 || Pow2(r - 1) < need
    decreases need - Pow2(b)
  {
    if Pow2(b) < need then BitsFrom(need, b + 1) else b
  }

  /** The number of bits the loop started at 0 settles on. */
  function BitsFor(need: int): (r: nat)
    ensures need <= Pow2(r)
    ensures r == 0 || Pow2(r - 1) < need
  {
    BitsFrom(need, 0)
  }

  /** BitsFor is the least exponent whose power reaches `need`: any exponent `c`
      reaches `need` exactly when it is at least BitsFor(need). */
  lemma BitsForLeast(need: int, c: nat)
    ensures need <= Pow2(c) <==> BitsFor(need) <= c
  {
    var b := BitsFor(need);
    if b <= c {
      Pow2Monotone(b, c);
    } else {
      Pow2Monotone(c, b - 1);
    }
  }
}
