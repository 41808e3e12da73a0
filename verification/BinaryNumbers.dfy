/** Numbers as strings of bits: bitwise operations and lengths. */
module BinaryNumbers {
  import opened Arithmetic

  /** Bitwise "and" of two numbers. */
  function And(a: nat, b: nat): nat {
    if a == 0 || b == 0 then 0
    else 2 * And(a / 2, b / 2) + if a % 2 == 1 && b % 2 == 1 then 1 else 0
  }

  /** Bitwise "or" of two numbers. */
  function Or(a: nat, b: nat): nat {
    if a == 0 then b
    else if b == 0 then a
    else 2 * Or(a / 2, b / 2) + if a % 2 == 1 || b % 2 == 1 then 1 else 0
  }

  /** Numbers whose one bits lie below and above a position: "or" is "plus". */
  lemma {:induction false} OrDisjoint(low: nat, high: nat, n: nat)
    requires low < Pow(2, n)
    requires exists q: nat :: high == q * Pow(2, n)
    ensures Or(low, high) == low + high
    ensures Or(high, low) == low + high
  {
    if n > 0 && low != 0 && high != 0 {
      var q: nat :| high == q * Pow(2, n);
      MulAssoc(q, 2, Pow(2, n - 1));
      MulAssoc(2, q, Pow(2, n - 1));
      assert high / 2 == q * Pow(2, n - 1);
      OrDisjoint(low / 2, high / 2, n - 1);
    }
  }

  lemma {:induction false} OrBelow(a: nat, b: nat, n: nat)
    requires a < Pow(2, n) && b < Pow(2, n)
    ensures Or(a, b) < Pow(2, n)
  {
    if n > 0 && a != 0 && b != 0 {
      OrBelow(a / 2, b / 2, n - 1);
    }
  }

  /** The number of binary digits. */
  function BitLen(v: nat): nat {
    if v == 0 then 0 else 1 + BitLen(v / 2)
  }

  /** The bit length is the position of the highest one bit plus one. */
  lemma {:induction false} BitLenBounds(v: nat)
    ensures v < Pow(2, BitLen(v))
    ensures v > 0 ==> BitLen(v) > 0 && Pow(2, BitLen(v) - 1) <= v
  {
    if v > 1 {
      BitLenBounds(v / 2);
    } else if v == 1 {
      assert BitLen(1) == 1 + BitLen(0);
    }
  }

  lemma {:induction false} BitLenUnique(v: nat, n: nat)
    requires v < Pow(2, n) && (n > 0 ==> Pow(2, n - 1) <= v)
    ensures BitLen(v) == n
  {
    if n > 1 {
      BitLenUnique(v / 2, n - 1);
    }
  }

  /** Setting a bit that is not set adds its weight. */
  lemma {:induction false} OrBit(v: nat, n: nat)
    requires Pow(2, n) >= 1 && v / Pow(2, n) % 2 == 0
    ensures Or(v, Pow(2, n)) == v + Pow(2, n)
  {
    if n > 0 && v > 0 {
      PowPositive(2, n - 1);
      var p := Pow(2, n - 1);
      DivMod(v, 2 * p);
      MulAssoc(v / (2 * p), 2, p);
      MulAssoc(2, v / (2 * p), p);
      DivUnique(v / 2, p, v / (2 * p), v % (2 * p) / 2);
      OrBit(v / 2, n - 1);
    }
  }
}
