/** Powers of natural numbers, and the facts about products that reasoning with them needs. */
module Powers {

  function Pow(b: nat, n: nat): (r: nat)
    ensures b > 0 ==> r > 0
  {
    if n == 0 then 1 else b * Pow(b, n - 1)
  }

  lemma {:induction false} PowAdd(b: nat, m: nat, n: nat)
    ensures Pow(b, m + n) == Pow(b, m) * Pow(b, n)
  {
    if m == 0 {
      assert Pow(b, 0) == 1;
    } else {
      PowAdd(b, m - 1, n);
      FactorOut(b, Pow(b, m - 1), Pow(b, n));
    }
  }

  lemma FactorOut(b: int, x: int, y: int)
    ensures b * (x * y) == (b * x) * y
  {
  }

  /** The powers of two that fill a byte, a 16-bit word and a 32-bit word. */
  lemma PowersOfTwo()
    ensures Pow(2, 8) == 0x100 && Pow(2, 16) == 0x1_0000 && Pow(2, 32) == 0x1_0000_0000
  {
    assert Pow(2, 4) == 16;
    PowAdd(2, 4, 4);
    PowAdd(2, 8, 8);
    PowAdd(2, 16, 16);
  }

  // ----- Powers of two

  lemma PowStep(e: nat)
    ensures Pow(2, e + 1) == 2 * Pow(2, e)
    ensures Pow(2, 0) == 1
  {
  }

  lemma {:induction false} PowDoubles(a: nat, b: nat)
    requires a < b
    ensures 2 * Pow(2, a) <= Pow(2, b)
    decreases b
  {
    if a == b - 1 {
      assert Pow(2, b) == 2 * Pow(2, a);
    } else {
      PowDoubles(a, b - 1);
    }
  }

  // ----- Products

  lemma ZeroProduct(x: int, y: int)
    requires y > 0
    ensures x * y == 0 <==> x == 0
  {
  }

  lemma MulMonotone(x: int, y: int, m: nat)
    requires x <= y
    ensures x * m <= y * m
  {
  }
}
