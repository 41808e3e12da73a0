/** The few facts about products, quotients and powers that the solver is better told than left to find. */
module Arithmetic {

  lemma MulLe(a: int, b: int, p: int)
    requires a <= b && p >= 0
    ensures a * p <= b * p
  {
  }

  lemma MulSum(a: int, b: int, p: int)
    ensures (a + b) * p == a * p + b * p
    ensures (a - b) * p == a * p - b * p
  {
  }

  lemma MulAssoc(a: int, b: int, c: int)
    ensures a * (b * c) == (a * b) * c
  {
  }

  lemma MulCommutes(a: int, b: int)
    ensures a * b == b * a
  {
  }

  lemma MulNotNegative(a: int, b: int)
    requires a >= 0 && b >= 0
    ensures a * b >= 0
  {
  }

  lemma DivMod(m: int, p: int)
    requires p > 0
    ensures m == (m / p) * p + m % p
    ensures 0 <= m % p < p
  {
  }

  lemma DivUnique(m: int, p: int, q: int, r: int)
    requires p > 0 && m == q * p + r && 0 <= r < p
    ensures m / p == q && m % p == r
  {
    DivMod(m, p);
    var d := q - m / p;
    MulSum(q, m / p, p);
    if d >= 1 {
      MulLe(1, d, p);
    } else if d <= -1 {
      MulLe(d, -1, p);
    }
  }

  function Pow(b: nat, e: nat): nat {
    if e == 0 then 1 else b * Pow(b, e - 1)
  }

  /** The powers of two, by doubling. */
  function Pow2(h: nat): (p: nat)
    ensures p >= 1
  {
    if h == 0 then 1 else 2 * Pow2(h - 1)
  }

  lemma {:induction false} PowPositive(b: nat, e: nat)
    requires b >= 1
    ensures Pow(b, e) >= 1
  {
    if e > 0 {
      PowPositive(b, e - 1);
      MulLe(1, b, Pow(b, e - 1));
    }
  }

  lemma {:induction false} PowSum(b: nat, d: nat, e: nat)
    ensures Pow(b, d + e) == Pow(b, d) * Pow(b, e)
  {
    if d > 0 {
      PowSum(b, d - 1, e);
      MulAssoc(b, Pow(b, d - 1), Pow(b, e));
    }
  }

  /** A 32-bit hash scaled onto [0, n) by multiplication instead of a remainder. */
  function FastMod(h: nat, n: nat): (r: nat)
    requires h < 0x1_0000_0000 && n > 0
    ensures r < n
  {
    ScaledBelow(h, n);
    h * n / 0x1_0000_0000
  }

  lemma ScaledBelow(h: nat, n: nat)
    requires h < 0x1_0000_0000 && n > 0
    ensures 0 <= h * n / 0x1_0000_0000 < n
  {
    assert h * n <= (0x1_0000_0000 - 1) * n;
  }

  lemma {:induction false} PowOfPow(b: nat, d: nat, e: nat)
    ensures Pow(Pow(b, d), e) == Pow(b, d * e)
  {
    if e > 0 {
      PowOfPow(b, d, e - 1);
      PowSum(b, d, d * (e - 1));
      assert d * e == d + d * (e - 1);
    }
  }

  lemma {:induction false} PowGrows(b: nat, d: nat, e: nat)
    requires b >= 1 && d <= e
    ensures Pow(b, d) <= Pow(b, e)
  {
    if d < e {
      PowGrows(b, d, e - 1);
      PowPositive(b, e - 1);
      MulLe(1, b, Pow(b, e - 1));
    }
  }
}
