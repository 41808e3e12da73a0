/**
 256-bit numbers held in eight 32-bit limbs: every limb operation computes the
 arithmetic one, modulo 2^256.
 */
module Arith256 {
  import opened Arithmetic
  import opened BinaryNumbers

  const BASE: nat := 0x1_0000_0000
  const WIDTH: nat := 8

  type Limb = x: nat | x < 0x1_0000_0000

  // ----- the number that limbs stand for

  /** The number in the lowest `n` limbs. */
  ghost function Val(s: seq<Limb>, n: nat): (r: nat)
    requires n <= |s|
    ensures r < Pow(BASE, n)
  {
    if n == 0 then 0
    else
      MulLe(s[n - 1], BASE - 1, Pow(BASE, n - 1));
      Val(s, n - 1) + s[n - 1] * Pow(BASE, n - 1)
  }

  /** 2^256 */
  ghost function Modulus(): (r: nat)
    ensures r >= 1
  {
    PowPositive(BASE, WIDTH);
    Pow(BASE, WIDTH)
  }

  /** Writing one limb changes the number by the difference, at the weight of that limb. */
  lemma {:induction false} ValUpdate(s: seq<Limb>, p: nat, x: Limb, n: nat)
    requires p < |s| && n <= |s|
    ensures p < n ==> Val(s[p := x], n) == Val(s, n) + (x - s[p]) * Pow(BASE, p)
    ensures p >= n ==> Val(s[p := x], n) == Val(s, n)
  {
    if n > 0 {
      ValUpdate(s, p, x, n - 1);
      if p == n - 1 {
        MulSum(x, s[p], Pow(BASE, p));
      }
    }
  }

  lemma {:induction false} ValZero(s: seq<Limb>, n: nat)
    requires n <= |s| && forall k :: 0 <= k < n ==> s[k] == 0
    ensures Val(s, n) == 0
  {
    if n > 0 {
      ValZero(s, n - 1);
    }
  }

  lemma {:induction false} ValZeroAbove(s: seq<Limb>, m: nat, n: nat)
    requires m <= n <= |s| && forall k :: m <= k < n ==> s[k] == 0
    ensures Val(s, n) == Val(s, m)
  {
    if m < n {
      ValZeroAbove(s, m, n - 1);
    }
  }

  /** The number determines the limbs. */
  lemma {:induction false} ValUnique(s: seq<Limb>, t: seq<Limb>, n: nat)
    requires n <= |s| && n <= |t| && Val(s, n) == Val(t, n)
    ensures s[..n] == t[..n]
  {
    if n > 0 {
      DivUnique(Val(s, n), Pow(BASE, n - 1), s[n - 1], Val(s, n - 1));
      DivUnique(Val(t, n), Pow(BASE, n - 1), t[n - 1], Val(t, n - 1));
      ValUnique(s, t, n - 1);
      assert s[..n] == s[..n - 1] + [s[n - 1]] && t[..n] == t[..n - 1] + [t[n - 1]];
    }
  }

  /** The limbs from `m` on weigh a multiple of BASE^m. */
  lemma {:induction false} ValSplit(s: seq<Limb>, m: nat, n: nat) returns (high: nat)
    requires m <= n <= |s|
    ensures Val(s, n) == Val(s, m) + high * Pow(BASE, m)
  {
    if m == n {
      high := 0;
    } else {
      var h := ValSplit(s, m, n - 1);
      PowSum(BASE, n - 1 - m, m);
      MulAssoc(s[n - 1], Pow(BASE, n - 1 - m), Pow(BASE, m));
      high := h + s[n - 1] * Pow(BASE, n - 1 - m);
      MulSum(h, s[n - 1] * Pow(BASE, n - 1 - m), Pow(BASE, m));
    }
  }

  lemma ValFirst(s: seq<Limb>)
    ensures Val(s, 0) == 0 && Pow(BASE, 0) == 1
  {
  }

  lemma ValNext(s: seq<Limb>, i: nat)
    requires i < |s|
    ensures Val(s, i + 1) == Val(s, i) + s[i] * Pow(BASE, i)
  {
  }

  /** The limbs of a 64-bit number. */
  ghost function SmallLimbs(b: nat): (r: seq<Limb>)
    requires b < 0x1_0000_0000_0000_0000
    ensures |r| == 8 && Val(r, 8) == b
    ensures r[0] == b % BASE && r[1] == b / BASE && forall j :: 2 <= j < 8 ==> r[j] == 0
  {
    var r: seq<Limb> := [b % BASE, b / BASE, 0, 0, 0, 0, 0, 0];
    ValZeroAbove(r, 2, 8);
    assert Val(r, 0) == 0 && Val(r, 1) == r[0] && Pow(BASE, 1) == BASE && Val(r, 2) == b;
    r
  }

  lemma PowNext(i: nat)
    ensures Pow(BASE, i + 1) == BASE * Pow(BASE, i)
  {
  }

  /** Numbers that agree above a limb differ only by what is below it. */
  lemma {:induction false} ValSameAbove(s: seq<Limb>, t: seq<Limb>, m: nat, n: nat)
    requires m <= n <= |s| && n <= |t| && forall k :: m <= k < n ==> s[k] == t[k]
    ensures Val(s, n) - Val(s, m) == Val(t, n) - Val(t, m)
  {
    if m < n {
      ValSameAbove(s, t, m, n - 1);
    }
  }

  // ----- remainders and products

  lemma ModOfSum(a: int, b: int, m: int)
    requires m > 0
    ensures (a + b % m) % m == (a + b) % m
  {
    DivMod(b, m);
    DivMod(a + b % m, m);
    MulSum(b / m, (a + b % m) / m, m);
    DivUnique(a + b, m, b / m + (a + b % m) / m, (a + b % m) % m);
  }

  lemma ModAdds(a: int, m: int, q: int)
    requires m > 0
    ensures (a + q * m) % m == a % m
  {
    DivMod(a, m);
    MulSum(a / m, q, m);
    DivUnique(a + q * m, m, a / m + q, a % m);
  }

  /** The product of two limbs, with room for two more limbs, is a 64-bit number. */
  lemma LimbProduct(x: Limb, y: Limb)
    ensures 0 <= x as nat * y as nat <= (BASE - 1) * (BASE - 1)
    ensures x as nat * y as nat + (BASE - 1) + (BASE - 1) < BASE * BASE
  {
    MulLe(x, BASE - 1, y);
    MulLe(y, BASE - 1, BASE - 1);
    MulNotNegative(x, y);
  }

  lemma Reorder(a: int, b: int, c: int)
    ensures (a * b) * c == (b * c) * a
  {
    MulAssoc(a, b, c);
    MulCommutes(a, b * c);
  }

  ghost function TimesMod(a: int, b: int): int {
    a * b % Modulus()
  }

  /** `v` is `total` up to a multiple of 2^256 that was cut off. */
  ghost predicate CutOff(v: int, total: int) {
    exists q: nat :: v + q * Modulus() == total
  }

  lemma CutOffIsMod(v: int, total: int)
    requires 0 <= v < Modulus() && CutOff(v, total)
    ensures v == total % Modulus()
  {
    var q: nat :| v + q * Modulus() == total;
    DivUnique(total, Modulus(), q, v);
  }

  // ----- one step of a carry loop

  /** A carry loop writes limb `i` and holds the rest in the carry. */
  lemma CarryStep(s: seq<Limb>, s': seq<Limb>, i: nat, carry: nat, n: nat, total: nat)
    requires i < |s| && Val(s, i) + carry * Pow(BASE, i) == total
    requires carry <= n && s' == s[i := n % BASE]
    ensures Val(s', i + 1) + n / BASE * Pow(BASE, i + 1) == total + (n - carry) * Pow(BASE, i)
  {
    ValUpdate(s, i, n % BASE, i);
    DivMod(n, BASE);
    var p := Pow(BASE, i);
    MulAssoc(n / BASE, BASE, p);
    MulSum(n / BASE * BASE, n % BASE, p);
    MulSum(n, carry, p);
  }

  /** One more limb of the second factor. */
  lemma ProductStep(a0: seq<Limb>, y: seq<Limb>, i: nat, j: nat, f: Limb)
    requires i + j < |a0| && i < |y|
    ensures Val(a0, i + j + 1) + f as nat * Pow(BASE, j) * Val(y, i + 1)
         == Val(a0, i + j) + f as nat * Pow(BASE, j) * Val(y, i) + (a0[i + j] + f as nat * y[i] as nat) * Pow(BASE, i + j)
  {
    hide Val, Pow;
    ValNext(a0, i + j);
    ValNext(y, i);
    PowSum(BASE, j, i);
    var p, w, v: int := Pow(BASE, j), Pow(BASE, i), y[i];
    MulSum(Val(y, i), v * w, f * p);
    MulCommutes(f * p, Val(y, i));
    MulCommutes(f * p, Val(y, i + 1));
    MulSum(a0[i + j], f * v, p * w);
    assert (v * w) * (f * p) == (f * v) * (p * w) by {
      FourFactors(v, w, f, p);
    }
  }

  lemma FourFactors(a: int, b: int, c: int, d: int)
    ensures (a * b) * (c * d) == (c * a) * (d * b)
  {
    MulAssoc(a * b, c, d);
    MulAssoc(c * a, d, b);
    MulCommutes(a * b, c);
    MulAssoc(c, a, b);
    MulAssoc(c * a, b, d);
    MulCommutes(b, d);
  }

  /** `a` is the product of the lowest `j` limbs of `x` with `y`, cut off. */
  ghost predicate Product(a: seq<Limb>, x: seq<Limb>, y: seq<Limb>, j: nat)
    requires |a| == |x| == |y| == 8 && j <= 8
  {
    CutOff(Val(a, 8), Val(x, j) * Val(y, 8))
  }

  lemma NoProduct(a: seq<Limb>, x: seq<Limb>, y: seq<Limb>)
    requires |a| == |x| == |y| == 8 && forall k :: 0 <= k < 8 ==> a[k] == 0
    ensures Product(a, x, y, 0)
  {
    ValZero(a, 8);
    assert 0 + 0 * Modulus() == 0 * Val(y, 8);
  }

  lemma ProductDone(a: seq<Limb>, x: seq<Limb>, y: seq<Limb>)
    requires |a| == |x| == |y| == 8 && Product(a, x, y, 8)
    ensures Val(a, 8) == TimesMod(Val(x, 8), Val(y, 8))
  {
    CutOffIsMod(Val(a, 8), Val(x, 8) * Val(y, 8));
  }

  /** `a` is `a0` plus `f` times `y`, shifted by `j` limbs, with `cut` limbs at the top cut off. */
  ghost predicate RowAdded(a0: seq<Limb>, a: seq<Limb>, f: Limb, y: seq<Limb>, j: nat, cut: nat)
    requires |a0| == |a| == |y| == 8 && j < 8
  {
    Val(a, 8) + cut * Pow(BASE, 8) == Val(a0, 8) + f as nat * Pow(BASE, j) * Val(y, 8 - j)
  }

  /** A row of the product is complete: what was cut off is a multiple of 2^256. */
  lemma ProductRow(x: seq<Limb>, y: seq<Limb>, a0: seq<Limb>, a: seq<Limb>, j: nat, carry: nat)
    requires |x| == |y| == |a0| == |a| == 8 && j < 8
    requires Product(a0, x, y, j) && RowAdded(a0, a, x[j], y, j, carry)
    ensures Product(a, x, y, j + 1)
  {
    hide Val, Pow;
    var high := ValSplit(y, 8 - j, 8);
    var f: int := x[j] as nat * Pow(BASE, j);
    PowSum(BASE, j, 8 - j);
    MulNotNegative(x[j], high);
    var q: nat :| Val(a0, 8) + q * Modulus() == Val(x, j) * Val(y, 8);
    var q': nat := q + carry + x[j] as nat * high;
    var m := Modulus();
    calc {
      Val(x, j + 1) * Val(y, 8);
      { ValNext(x, j); MulSum(Val(x, j), f, Val(y, 8)); }
      Val(x, j) * Val(y, 8) + f * Val(y, 8);
      { MulCommutes(f, Val(y, 8)); MulSum(Val(y, 8 - j), high * Pow(BASE, 8 - j), f); MulCommutes(f, Val(y, 8 - j)); }
      Val(x, j) * Val(y, 8) + f * Val(y, 8 - j) + (high * Pow(BASE, 8 - j)) * f;
      { FourFactors(high, Pow(BASE, 8 - j), x[j], Pow(BASE, j)); }
      Val(x, j) * Val(y, 8) + f * Val(y, 8 - j) + (x[j] as nat * high) * m;
      Val(a0, 8) + q * m + f * Val(y, 8 - j) + (x[j] as nat * high) * m;
      Val(a, 8) + carry * m + q * m + (x[j] as nat * high) * m;
      { MulSum(q, carry, m); MulSum(q + carry, x[j] as nat * high, m); }
      Val(a, 8) + q' * m;
    }
  }

  // ----- shifts

  lemma BaseIsPow()
    ensures Pow(2, 32) == BASE
  {
    PowSum(2, 16, 16);
    PowSum(2, 8, 8);
    PowSum(2, 4, 4);
    assert Pow(2, 4) == 16;
  }

  /** A shift by whole limbs and a part of one. */
  lemma ShiftWeight(bits: nat)
    ensures Pow(2, bits) == Pow(2, bits % 32) * Pow(BASE, bits / 32)
    ensures Pow(2, bits % 32) * Pow(2, 32 - bits % 32) == BASE
    ensures 1 <= Pow(2, bits % 32) && 1 <= Pow(2, 32 - bits % 32)
  {
    BaseIsPow();
    PowOfPow(2, 32, bits / 32);
    PowSum(2, bits % 32, 32 * (bits / 32));
    PowSum(2, bits % 32, 32 - bits % 32);
    PowPositive(2, bits % 32);
    PowPositive(2, 32 - bits % 32);
  }

  /** What a limb, moved up within two limbs, leaves in the upper and in the lower one. */
  lemma SplitLimb(x: Limb, p: nat, r: nat) returns (up: Limb, stay: Limb)
    requires p >= 1 && r >= 1 && p * r == BASE
    ensures up == x / r && up < p && stay == x as nat * p % BASE
    ensures x as nat * p == up as nat * BASE + stay
    ensures stay as nat == x as nat % r * p
  {
    DivMod(x, r);
    var q, rest: nat := x / r, x % r;
    MulSum(q * r, rest, p);
    MulCommutes(p, r);
    MulAssoc(q, r, p);
    MulLe(rest, r - 1, p);
    MulSum(r, 1, p);
    MulNotNegative(rest, p);
    DivUnique(x as nat * p, BASE, q, rest * p);
    if q >= p {
      MulLe(p, q, r);
    }
    up, stay := q, rest * p;
  }

  /** The lowest `i` limbs of `x` have been shifted into `s`; the next limb has room below. */
  ghost predicate ShiftedLeft(x: seq<Limb>, s: seq<Limb>, bits: nat, i: nat)
    requires |x| == |s| == 8 && i <= 8
  {
    && CutOff(Val(s, 8), Val(x, i) * Pow(2, bits))
    && (forall j :: i + bits / 32 < j < 8 ==> s[j] == 0)
    && (i + bits / 32 < 8 ==> s[i + bits / 32] < Pow(2, bits % 32))
  }

  lemma ShiftLeftStarts(x: seq<Limb>, s: seq<Limb>, bits: nat)
    requires |x| == |s| == 8 && forall j :: 0 <= j < 8 ==> s[j] == 0
    ensures ShiftedLeft(x, s, bits, 0)
  {
    ValZero(s, 8);
    assert 0 + 0 * Modulus() == 0 * Pow(2, bits);
    PowPositive(2, bits % 32);
  }

  lemma ShiftLeftDone(x: seq<Limb>, s: seq<Limb>, bits: nat)
    requires |x| == |s| == 8 && ShiftedLeft(x, s, bits, 8)
    ensures Val(s, 8) == TimesMod(Val(x, 8), Pow(2, bits))
  {
    CutOffIsMod(Val(s, 8), Val(x, 8) * Pow(2, bits));
  }

  /** A limb shifted down, and shifted up within 32 bits. */
  function HighPart(limb: Limb, n: nat): Limb {
    PowPositive(2, n);
    ShiftedDown(limb, Pow(2, n));
    limb / Pow(2, n)
  }

  lemma ShiftedDown(limb: Limb, p: nat)
    requires p >= 1
    ensures 0 <= limb / p < BASE
  {
    DivMod(limb, p);
    if limb / p >= BASE {
      MulLe(1, p, limb / p);
      MulCommutes(p, limb / p);
    }
    if limb / p < 0 {
      MulLe(limb / p, -1, p);
    }
  }

  function LowPart(limb: Limb, n: nat): Limb {
    limb as nat * Pow(2, n) % BASE
  }

  ghost predicate SplitsUp(limb: Limb, shift: nat, up: Limb, stay: Limb) {
    limb as nat * Pow(2, shift) == up as nat * BASE + stay && up < Pow(2, shift)
  }

  ghost predicate SplitsDown(limb: Limb, shift: nat, stay: Limb, down: Limb)
    requires shift <= 32
  {
    && Pow(2, shift) >= 1 && stay == limb / Pow(2, shift) && stay < Pow(2, 32 - shift)
    && limb as nat * Pow(2, 32 - shift) == stay as nat * BASE + down
  }

  /** The two parts of limb `i`, and what "or"-ing them in means. */
  lemma ShiftLeftParts(x: seq<Limb>, s: seq<Limb>, bits: nat, i: nat) returns (up: Limb, stay: Limb)
    requires |x| == |s| == 8 && i < 8 && ShiftedLeft(x, s, bits, i)
    ensures var k := bits / 32;
            && up == HighPart(x[i], 32 - bits % 32) && stay == LowPart(x[i], bits % 32)
            && SplitsUp(x[i], bits % 32, up, stay)
            && (bits % 32 == 0 ==> up == 0)
            && (i + k + 1 < 8 ==> s[i + k + 1] == 0 && Or(s[i + k + 1], up) == up)
            && (i + k < 8 ==> Or(s[i + k], stay) == s[i + k] as nat + stay < BASE)
  {
    var k, p, r := bits / 32, Pow(2, bits % 32), Pow(2, 32 - bits % 32);
    ShiftWeight(bits);
    up, stay := SplitLimb(x[i], p, r);
    if i + k < 8 {
      OrDisjoint(s[i + k], stay, bits % 32);
      MulLe(x[i] % r, r - 1, p);
      MulSum(r, 1, p);
      MulCommutes(r, p);
    }
  }

  lemma ShiftLeftStep(x: seq<Limb>, s: seq<Limb>, s': seq<Limb>, bits: nat, i: nat, up: Limb, stay: Limb)
    requires |x| == |s| == |s'| == 8 && i < 8 && ShiftedLeft(x, s, bits, i)
    requires SplitsUp(x[i], bits % 32, up, stay)
    requires forall j :: 0 <= j < 8 ==>
                         s'[j] as nat == s[j] as nat + (if j == i + bits / 32 + 1 then up as nat else if j == i + bits / 32 then stay else 0)
    ensures ShiftedLeft(x, s', bits, i + 1)
  {
    hide Val, Pow;
    var k, p := bits / 32, Pow(2, bits % 32);
    var q: nat :| Val(s, 8) + q * Modulus() == Val(x, i) * Pow(2, bits);
    var w := i + k;
    ValNext(x, i);
    ShiftWeight(bits);
    PowSum(BASE, i, k);
    PowNext(w);
    var low := AddedAt(s, s', w, stay, up);
    calc {
      Val(x, i + 1) * Pow(2, bits);
      { MulSum(Val(x, i), x[i] * Pow(BASE, i), Pow(2, bits)); }
      Val(x, i) * Pow(2, bits) + (x[i] * Pow(BASE, i)) * Pow(2, bits);
      { FourFactors(x[i], Pow(BASE, i), p, Pow(BASE, k)); MulCommutes(p, x[i]); MulCommutes(Pow(BASE, k), Pow(BASE, i)); }
      Val(x, i) * Pow(2, bits) + (up as nat * BASE + stay) * Pow(BASE, w);
      { MulSum(up as nat * BASE, stay, Pow(BASE, w)); MulAssoc(up, BASE, Pow(BASE, w)); }
      Val(x, i) * Pow(2, bits) + up as nat * Pow(BASE, w + 1) + stay * Pow(BASE, w);
      Val(s, 8) + q * Modulus() + up as nat * Pow(BASE, w + 1) + stay * Pow(BASE, w);
      Val(s', 8) + q * Modulus() + low * Modulus();
      { MulSum(q, low, Modulus()); }
      Val(s', 8) + (q + low) * Modulus();
    }
  }

  /** Adding to two neighbouring limbs adds their weights; what falls off the top is a multiple of 2^256. */
  lemma AddedAt(s: seq<Limb>, s': seq<Limb>, w: nat, low: nat, high: nat) returns (cut: nat)
    requires |s| == |s'| == 8
    requires forall j :: 0 <= j < 8 ==> s'[j] as nat == s[j] as nat + (if j == w + 1 then high else if j == w then low else 0)
    ensures Val(s, 8) + high * Pow(BASE, w + 1) + low * Pow(BASE, w) == Val(s', 8) + cut * Modulus()
    ensures w < 7 ==> cut == 0
  {
    hide Val, Pow;
    var t := s;
    cut := 0;
    if w < 8 {
      ValUpdate(s, w, s'[w], 8);
      t := s[w := s'[w]];
    } else {
      PowSum(BASE, w - 8, 8);
      MulAssoc(low, Pow(BASE, w - 8), Modulus());
      cut := low * Pow(BASE, w - 8);
    }
    if w + 1 < 8 {
      ValUpdate(t, w + 1, s'[w + 1], 8);
      t := t[w + 1 := s'[w + 1]];
    } else {
      PowSum(BASE, w - 7, 8);
      MulAssoc(high, Pow(BASE, w - 7), Modulus());
      MulSum(cut, high * Pow(BASE, w - 7), Modulus());
      cut := cut + high * Pow(BASE, w - 7);
    }
    assert t == s';
  }

  ghost function DivPow(a: int, bits: nat): int {
    PowPositive(2, bits);
    a / Pow(2, bits)
  }

  /** The lowest `i` limbs of `x` have been shifted down into `s`; the next limb has room above. */
  ghost predicate ShiftedRight(x: seq<Limb>, s: seq<Limb>, bits: nat, i: nat)
    requires |x| == |s| == 8 && i <= 8
  {
    && 0 <= Val(x, i) - Val(s, 8) * Pow(2, bits) < Pow(2, bits)
    && (forall j :: 0 <= j < 8 && i - bits / 32 <= j ==> s[j] == 0)
    && (i - bits / 32 >= 1 ==> s[i - bits / 32 - 1] < Pow(2, 32 - bits % 32))
  }

  lemma ShiftRightStarts(x: seq<Limb>, s: seq<Limb>, bits: nat)
    requires |x| == |s| == 8 && forall j :: 0 <= j < 8 ==> s[j] == 0
    ensures ShiftedRight(x, s, bits, 0)
  {
    ValZero(s, 8);
    PowPositive(2, bits);
  }

  lemma ShiftRightDone(x: seq<Limb>, s: seq<Limb>, bits: nat)
    requires |x| == |s| == 8 && ShiftedRight(x, s, bits, 8)
    ensures Val(s, 8) == DivPow(Val(x, 8), bits)
  {
    PowPositive(2, bits);
    DivUnique(Val(x, 8), Pow(2, bits), Val(s, 8), Val(x, 8) - Val(s, 8) * Pow(2, bits));
  }

  lemma ShiftRightParts(x: seq<Limb>, s: seq<Limb>, bits: nat, i: nat) returns (stay: Limb, down: Limb)
    requires |x| == |s| == 8 && i < 8 && ShiftedRight(x, s, bits, i)
    ensures var k := bits / 32;
            && stay == HighPart(x[i], bits % 32) && down == LowPart(x[i], 32 - bits % 32)
            && SplitsDown(x[i], bits % 32, stay, down)
            && (bits % 32 == 0 ==> down == 0)
            && (i - k >= 0 ==> s[i - k] == 0 && Or(s[i - k], stay) == stay)
            && (i - k - 1 >= 0 ==> Or(s[i - k - 1], down) == s[i - k - 1] as nat + down < BASE)
  {
    var k, p, r := bits / 32, Pow(2, bits % 32), Pow(2, 32 - bits % 32);
    ShiftWeight(bits);
    MulCommutes(p, r);
    stay, down := SplitLimb(x[i], r, p);
    if i - k - 1 >= 0 {
      OrDisjoint(s[i - k - 1], down, 32 - bits % 32);
      MulLe(x[i] % p, p - 1, r);
      MulSum(p, 1, r);
    }
  }

  /** Limbs below the cut only add to the remainder, the limb at the cut is divided, those above are moved as they are. */
  lemma ShiftRightStep(x: seq<Limb>, s: seq<Limb>, s': seq<Limb>, bits: nat, i: nat, stay: Limb, down: Limb)
    requires |x| == |s| == |s'| == 8 && i < 8 && ShiftedRight(x, s, bits, i)
    requires SplitsDown(x[i], bits % 32, stay, down)
    requires forall j :: 0 <= j < 8 ==>
                         s'[j] as nat == s[j] as nat + (if j == i - bits / 32 then stay as nat else if j == i - bits / 32 - 1 then down else 0)
    ensures ShiftedRight(x, s', bits, i + 1)
  {
    hide Val, Pow;
    var k, p := bits / 32, Pow(2, bits % 32);
    ValNext(x, i);
    ShiftWeight(bits);
    if i < k {
      assert s' == s;
      ValZero(s, 8);
      PowGrows(BASE, i + 1, k);
      MulLe(1, p, Pow(BASE, k));
    } else if i == k {
      ShiftRightAtCut(x, s, s', bits, stay);
    } else {
      ShiftRightAbove(x, s, s', bits, i, stay, down);
    }
  }

  lemma ShiftRightAtCut(x: seq<Limb>, s: seq<Limb>, s': seq<Limb>, bits: nat, stay: Limb)
    requires |x| == |s| == |s'| == 8 && bits / 32 < 8
    requires forall j :: 0 <= j < 8 ==> s[j] == 0
    requires Pow(2, bits % 32) >= 1 && stay == x[bits / 32] / Pow(2, bits % 32)
    requires s' == s[0 := stay]
    ensures 0 <= Val(x, bits / 32 + 1) - Val(s', 8) * Pow(2, bits) < Pow(2, bits)
  {
    hide Val, Pow;
    var k, p := bits / 32, Pow(2, bits % 32);
    var w := Pow(BASE, k);
    ValNext(x, k);
    ShiftWeight(bits);
    ValZero(s, 8);
    ValUpdate(s, 0, stay, 8);
    ValFirst(s);
    DivMod(x[k], p);
    var rest: nat := x[k] % p;
    calc {
      x[k] as nat * w;
      { MulSum(stay as nat * p, rest, w); MulAssoc(stay, p, w); }
      stay * Pow(2, bits) + rest * w;
    }
    MulLe(rest, p - 1, w);
    MulSum(p, 1, w);
    MulNotNegative(rest, w);
  }

  lemma ShiftRightAbove(x: seq<Limb>, s: seq<Limb>, s': seq<Limb>, bits: nat, i: nat, stay: Limb, down: Limb)
    requires |x| == |s| == |s'| == 8 && bits / 32 < i < 8
    requires x[i] as nat * Pow(2, 32 - bits % 32) == stay as nat * BASE + down
    requires forall j :: 0 <= j < 8 ==>
                         s'[j] as nat == s[j] as nat + (if j == i - bits / 32 then stay as nat else if j == i - bits / 32 - 1 then down else 0)
    ensures Val(x, i + 1) - Val(s', 8) * Pow(2, bits) == Val(x, i) - Val(s, 8) * Pow(2, bits)
  {
    hide Val, Pow;
    var k, p, r := bits / 32, Pow(2, bits % 32), Pow(2, 32 - bits % 32);
    var w := i - k - 1;
    ValNext(x, i);
    ShiftWeight(bits);
    var cut := AddedAt(s, s', w, down, stay);
    PowNext(w);
    PowNext(i - 1);
    PowSum(BASE, w, k);
    calc {
      (Val(s', 8) - Val(s, 8)) * Pow(2, bits);
      { MulSum(stay as nat * BASE, down, Pow(BASE, w)); MulAssoc(stay, BASE, Pow(BASE, w)); }
      ((x[i] as nat * r) * Pow(BASE, w)) * (p * Pow(BASE, k));
      { FourFactors(x[i] as nat * r, Pow(BASE, w), p, Pow(BASE, k)); MulCommutes(Pow(BASE, k), Pow(BASE, w)); }
      (p * (x[i] as nat * r)) * Pow(BASE, i - 1);
      { Reorder(p, x[i] as nat, r); MulAssoc(p, x[i] as nat, r); MulAssoc(x[i] as nat, r, p); MulCommutes(p, r); }
      (x[i] as nat * BASE) * Pow(BASE, i - 1);
      { MulAssoc(x[i], BASE, Pow(BASE, i - 1)); }
      x[i] as nat * Pow(BASE, i);
    }
    MulSum(Val(s', 8), Val(s, 8), Pow(2, bits));
  }

  lemma LowTwo(x: seq<Limb>)
    requires |x| == 8
    ensures Val(x, 8) % (BASE * BASE) == x[0] as nat + x[1] as nat * BASE
  {
    var high := ValSplit(x, 2, 8);
    assert Pow(BASE, 1) == BASE && Pow(BASE, 2) == BASE * BASE;
    assert Val(x, 0) == 0 && Val(x, 1) == x[0] && Val(x, 2) == x[0] as nat + x[1] as nat * BASE;
    DivUnique(Val(x, 8), BASE * BASE, high, Val(x, 2));
  }

  // ----- comparison

  /** The highest limb in which two numbers differ decides. */
  lemma HigherLimbDecides(x: seq<Limb>, y: seq<Limb>, i: nat)
    requires |x| == |y| == 8 && i < 8 && x[i + 1..] == y[i + 1..] && x[i] < y[i]
    ensures Val(x, 8) < Val(y, 8)
  {
    hide Val, Pow;
    forall k | i + 1 <= k < 8
      ensures x[k] == y[k]
    {
      assert x[k] == x[i + 1..][k - i - 1];
    }
    ValSameAbove(x, y, i + 1, 8);
    ValNext(x, i);
    ValNext(y, i);
    MulLe(x[i] as nat + 1, y[i], Pow(BASE, i));
    MulSum(x[i], 1, Pow(BASE, i));
  }

  // ----- bits and division

  /** Limb `pos` is the highest that is not zero, and `nbits` its highest one bit. */
  lemma TopBit(x: seq<Limb>, pos: nat, nbits: nat)
    requires |x| == 8 && pos < 8 && Val(x, 8) == Val(x, pos + 1)
    requires nbits < 32 && Pow(2, nbits) >= 1 && x[pos] / Pow(2, nbits) != 0 && x[pos] < Pow(2, nbits + 1)
    ensures BitLen(Val(x, 8)) == 32 * pos + nbits + 1
  {
    hide Val, Pow, BitLen;
    var w, v: nat := Pow(BASE, pos), x[pos];
    ValNext(x, pos);
    BaseIsPow();
    PowOfPow(2, 32, pos);
    PowSum(2, nbits, 32 * pos);
    PowSum(2, nbits + 1, 32 * pos);
    DivMod(v, Pow(2, nbits));
    MulLe(1, v / Pow(2, nbits), Pow(2, nbits));
    MulLe(Pow(2, nbits), v, w);
    MulLe(v, Pow(2, nbits + 1) - 1, w);
    MulSum(Pow(2, nbits + 1), 1, w);
    BitLenUnique(Val(x, 8), 32 * pos + nbits + 1);
  }

  lemma NotTopBit(v: nat, nbits: nat)
    requires v < Pow(2, nbits + 1) && Pow(2, nbits) >= 1 && v / Pow(2, nbits) % 2 == 0
    ensures v < Pow(2, nbits)
  {
    DivMod(v, Pow(2, nbits));
    if v / Pow(2, nbits) >= 2 {
      MulLe(2, v / Pow(2, nbits), Pow(2, nbits));
    }
  }

  lemma OneHasOneBit(v: nat)
    requires v != 0
    ensures Pow(2, 0) == 1 && v / Pow(2, 0) != 0
  {
  }

  lemma BitLenZero(v: nat)
    ensures BitLen(v) == 0 <==> v == 0
  {
  }

  /** The lowest `n` bits are zero. */
  ghost predicate LowZero(s: seq<Limb>, n: nat)
    requires |s| == 8
  {
    && (forall j :: 0 <= j < 8 && j < n / 32 ==> s[j] == 0)
    && (n / 32 < 8 ==> exists q: nat :: s[n / 32] == q * Pow(2, n % 32))
  }

  lemma LowZeroAtFirst(s: seq<Limb>, n: nat)
    requires |s| == 8 && forall j :: 0 <= j < 8 ==> s[j] == 0
    ensures LowZero(s, n)
  {
    assert 0 == 0 * Pow(2, n % 32);
  }

  lemma LowZeroLess(s: seq<Limb>, n: nat)
    requires |s| == 8 && LowZero(s, n + 1)
    ensures LowZero(s, n)
  {
    if n / 32 < 8 {
      if (n + 1) % 32 != 0 {
        var q: nat :| s[n / 32] == q * Pow(2, (n + 1) % 32);
        MulAssoc(q, 2, Pow(2, n % 32));
        assert s[n / 32] == (q * 2) * Pow(2, n % 32);
      } else {
        assert s[n / 32] == 0 * Pow(2, n % 32);
      }
    }
  }

  lemma NewBit(s: seq<Limb>, n: nat)
    requires |s| == 8 && n < 256 && LowZero(s, n + 1)
    ensures Or(s[n / 32], Pow(2, n % 32)) < BASE
    ensures var t := s[n / 32 := Or(s[n / 32], Pow(2, n % 32))];
            Val(t, 8) == Val(s, 8) + Pow(2, n) && LowZero(t, n)
  {
    hide Val, Pow, Or;
    var limb, bit := s[n / 32], Pow(2, n % 32);
    LowZeroLess(s, n);
    BaseIsPow();
    PowBelow(n % 32, 32);
    OrBelow(limb, bit, 32);
    OrIsPlus(s, n);
    ValUpdate(s, n / 32, Or(limb, bit), 8);
    PowOfPow(2, 32, n / 32);
    PowSum(2, n % 32, 32 * (n / 32));
    var q: nat :| limb == q * bit;
    MulSum(q, 1, bit);
    assert Or(limb, bit) == (q + 1) * bit;
  }

  lemma PowBelow(d: nat, e: nat)
    requires d < e
    ensures Pow(2, d) < Pow(2, e)
  {
    PowGrows(2, d + 1, e);
    PowPositive(2, d);
  }

  lemma OrIsPlus(s: seq<Limb>, n: nat)
    requires |s| == 8 && n < 256 && LowZero(s, n + 1)
    ensures Or(s[n / 32], Pow(2, n % 32)) == s[n / 32] as nat + Pow(2, n % 32)
  {
    PowPositive(2, n % 32);
    if (n + 1) % 32 != 0 {
      OrDisjoint(Pow(2, n % 32), s[n / 32], n % 32 + 1);
    }
  }

  /** The state of the division: the quotient so far and the rest, which is less than twice what is tried next. */
  ghost predicate Dividing(n: int, d: int, num: int, quotient: int, shift: int)
    requires shift >= -1
  {
    n == num + quotient * d && 0 <= num < d * Pow(2, shift + 1)
  }

  lemma SmallerBits(n: nat, d: nat)
    requires BitLen(d) > BitLen(n)
    ensures d != 0 && n / d == 0
  {
    BitLenBounds(n);
    BitLenBounds(d);
    PowGrows(2, BitLen(n), BitLen(d) - 1);
    DivUnique(n, d, 0, n);
  }

  lemma DivideStarts(n: nat, d: nat, shift: nat)
    requires n < Modulus() && d != 0 && BitLen(n) == BitLen(d) + shift
    ensures TimesMod(d, Pow(2, shift)) == d * Pow(2, shift)
    ensures Dividing(n, d, n, 0, shift)
  {
    hide Pow, BitLen;
    BitLenBounds(n);
    BitLenBounds(d);
    BitLenZero(d);
    PowPositive(2, shift);
    PowPositive(2, shift + 1);
    PowSum(2, BitLen(d), shift);
    PowSum(2, BitLen(d) - 1, shift + 1);
    MulLe(Pow(2, BitLen(d) - 1), d, Pow(2, shift + 1));
    MulLe(d, Pow(2, BitLen(d)) - 1, Pow(2, shift));
    MulSum(Pow(2, BitLen(d)), 1, Pow(2, shift));
    MulNotNegative(d, Pow(2, shift));
    BitLenZero(n);
    ModulusIsPow();
    if BitLen(n) > 256 {
      PowGrows(2, 256, BitLen(n) - 1);
    }
    PowGrows(2, BitLen(n), 256);
    DivUnique(d * Pow(2, shift), Modulus(), 0, d * Pow(2, shift));
  }

  lemma ModulusIsPow()
    ensures Modulus() == Pow(2, 256)
  {
    BaseIsPow();
    PowOfPow(2, 32, 8);
  }

  lemma DivideTakes(n: int, d: int, num: int, quotient: int, shift: nat)
    requires Dividing(n, d, num, quotient, shift) && num < Modulus() && d * Pow(2, shift) <= num
    ensures d >= 0 ==> (num - d * Pow(2, shift)) % Modulus() == num - d * Pow(2, shift)
    ensures Dividing(n, d, num - d * Pow(2, shift), quotient + Pow(2, shift), shift - 1)
  {
    MulSum(quotient, Pow(2, shift), d);
    MulCommutes(d, Pow(2, shift));
    MulAssoc(d, 2, Pow(2, shift));
    MulAssoc(2, d, Pow(2, shift));
    MulCommutes(d, 2);
    if d >= 0 {
      MulNotNegative(d, Pow(2, shift));
      DivUnique(num - d * Pow(2, shift), Modulus(), 0, num - d * Pow(2, shift));
    }
  }

  lemma DivideSkips(n: int, d: int, num: int, quotient: int, shift: nat)
    requires Dividing(n, d, num, quotient, shift) && num < d * Pow(2, shift)
    ensures Dividing(n, d, num, quotient, shift - 1)
  {
  }

  lemma DivideHalves(d: int, shift: nat)
    ensures shift > 0 ==> DivPow(d * Pow(2, shift), 1) == d * Pow(2, shift - 1)
  {
    if shift > 0 {
      MulAssoc(d, 2, Pow(2, shift - 1));
      MulAssoc(2, d, Pow(2, shift - 1));
      MulCommutes(d, 2);
      assert Pow(2, 1) == 2;
      DivUnique(d * Pow(2, shift), 2, d * Pow(2, shift - 1), 0);
    }
  }

  lemma DivideEnds(n: int, d: int, num: int, quotient: int)
    requires d > 0 && Dividing(n, d, num, quotient, -1)
    ensures n / d == quotient
  {
    assert Pow(2, 0) == 1;
    DivUnique(n, d, quotient, num);
  }

  class ArithUint256 {
    const pn: array<Limb>

    ghost predicate Valid() {
      pn.Length == WIDTH
    }

    ghost function Value(): (r: int)
      requires Valid()
      reads pn
      ensures 0 <= r < Modulus()
    {
      Val(pn[..], WIDTH)
    }

    constructor (b: nat)
      requires b < 0x1_0000_0000_0000_0000
      ensures Valid() && fresh(pn) && Value() == b
    {
      pn := new Limb[8](_ => 0);
      new;
      pn[0] := b % BASE;
      pn[1] := b / BASE;
      assert pn[..] == SmallLimbs(b);
    }

    /** operator= for a 64-bit number */
    method SetSmall(b: nat)
      requires Valid() && b < 0x1_0000_0000_0000_0000
      modifies pn
      ensures Value() == b
    {
      pn[0] := b % BASE;
      pn[1] := b / BASE;
      for i := 2 to 8
        invariant pn[0] == b % BASE && pn[1] == b / BASE && forall j :: 2 <= j < i ==> pn[j] == 0
      {
        pn[i] := 0;
      }
      assert pn[..] == SmallLimbs(b);
    }

    constructor Copy(b: ArithUint256)
      requires b.Valid()
      ensures Valid() && fresh(pn) && pn[..] == b.pn[..] && Value() == b.Value()
    {
      pn := new Limb[8](i requires 0 <= i < 8 && b.pn.Length == 8 reads b.pn => b.pn[i]);
      new;
      assert pn[..] == b.pn[..];
    }

    /** operator+= (also with `b` the number itself) */
    method Add(b: ArithUint256)
      requires Valid() && b.Valid()
      modifies pn
      ensures Value() == (old(Value()) + old(b.Value())) % Modulus()
    {
      hide Val, Pow;
      ghost var x, y := pn[..], b.pn[..];
      ValFirst(x);
      ValFirst(y);
      var carry: nat := 0;
      for i := 0 to 8
        invariant carry <= 1
        invariant pn[i..] == x[i..] && b.pn[i..] == y[i..]
        invariant Val(pn[..], i) + carry * Pow(BASE, i) == Val(x, i) + Val(y, i)
      {
        assert pn[i] == x[i] && b.pn[i] == y[i];
        var n: nat := carry + pn[i] + b.pn[i];
        ghost var s: seq<Limb> := pn[..];
        pn[i] := n % BASE;
        CarryStep(s, pn[..], i, carry, n, Val(x, i) + Val(y, i));
        ValNext(x, i);
        ValNext(y, i);
        MulSum(x[i], y[i], Pow(BASE, i));
        carry := n / BASE;
      }
      DivUnique(Val(x, 8) + Val(y, 8), Modulus(), carry, Value());
    }

    /** The prefix operator++ */
    method Increment()
      requires Valid()
      modifies pn
      ensures Value() == (old(Value()) + 1) % Modulus()
    {
      hide Val, Pow;
      ghost var x := pn[..];
      ValFirst(x);
      var i := 0;
      while i < 8
        invariant 0 <= i <= 8 && pn[i..] == x[i..]
        invariant Val(pn[..], i) + Pow(BASE, i) == Val(x, i) + 1
      {
        ghost var s: seq<Limb> := pn[..];
        assert pn[i] == x[i];
        var n: nat := pn[i] as nat + 1;
        pn[i] := n % BASE;
        CarryStep(s, pn[..], i, 1, n, Val(x, i) + 1);
        ValNext(x, i);
        if pn[i] != 0 {
          assert pn[i + 1..] == x[i + 1..];
          ValSameAbove(pn[..], x, i + 1, 8);
          DivUnique(Val(x, 8) + 1, Modulus(), 0, Value());
          return;
        }
        i := i + 1;
      }
      DivUnique(Val(x, 8) + 1, Modulus(), 1, Value());
    }

    /** operator~ */
    method Complement() returns (r: ArithUint256)
      requires Valid()
      ensures r.Valid() && fresh(r) && fresh(r.pn) && r.Value() == Modulus() - 1 - Value()
    {
      hide Val, Pow;
      r := new ArithUint256(0);
      ghost var x := pn[..];
      ValFirst(x);
      ValFirst(r.pn[..]);
      for i := 0 to 8
        invariant pn[..] == x
        invariant Val(r.pn[..], i) + Val(x, i) == Pow(BASE, i) - 1
      {
        ghost var s: seq<Limb> := r.pn[..];
        var n: nat := 0xffff_ffff - pn[i];
        r.pn[i] := n;
        ghost var t: seq<Limb> := r.pn[..];
        assert t == s[i := n];
        ValUpdate(s, i, n, i);
        ValNext(t, i);
        ValNext(x, i);
        MulSum(n, x[i], Pow(BASE, i));
        PowNext(i);
      }
    }

    /** Unary minus */
    method Negate() returns (r: ArithUint256)
      requires Valid()
      ensures r.Valid() && fresh(r) && fresh(r.pn) && r.Value() == -Value() % Modulus()
    {
      r := Complement();
      r.Increment();
      ModAdds(-Value(), Modulus(), 1);
    }

    /** operator-= */
    method Subtract(b: ArithUint256)
      requires Valid() && b.Valid()
      modifies pn
      ensures Value() == (old(Value()) - old(b.Value())) % Modulus()
    {
      hide Val, Pow, Modulus, Value;
      var c := b.Negate();
      ModOfSum(Value(), -b.Value(), Modulus());
      Add(c);
    }

    /** operator*= for a 32-bit factor */
    method MultiplySmall(b32: Limb)
      requires Valid()
      modifies pn
      ensures Value() == old(Value()) * b32 % Modulus()
    {
      hide Val, Pow;
      ghost var x := pn[..];
      ValFirst(x);
      var carry: nat := 0;
      for i := 0 to 8
        invariant carry < BASE
        invariant pn[i..] == x[i..]
        invariant Val(pn[..], i) + carry * Pow(BASE, i) == Val(x, i) * b32
      {
        assert pn[i] == x[i];
        LimbProduct(b32, pn[i]);
        var n: nat := carry + b32 as nat * pn[i] as nat;
        ghost var s: seq<Limb> := pn[..];
        pn[i] := n % BASE;
        CarryStep(s, pn[..], i, carry, n, Val(x, i) * b32);
        ValNext(x, i);
        MulSum(Val(x, i), x[i] * Pow(BASE, i), b32);
        Reorder(b32, x[i], Pow(BASE, i));
        carry := n / BASE;
      }
      DivUnique(Val(x, 8) * b32, Modulus(), carry, Value());
    }

    /** operator= */
    method Assign(a: array<Limb>)
      requires Valid() && a.Length == 8 && a != pn
      modifies pn
      ensures pn[..] == a[..]
    {
      for i := 0 to 8
        invariant pn[..i] == a[..i]
      {
        pn[i] := a[i];
      }
    }

    /** operator*= */
    method Multiply(b: ArithUint256)
      requires Valid() && b.Valid()
      modifies pn
      ensures Value() == TimesMod(old(Value()), old(b.Value()))
    {
      hide Val, Pow, Product, RowAdded, TimesMod;
      var a := new Limb[8](_ => 0);
      ghost var x, y := pn[..], b.pn[..];
      NoProduct(a[..], x, y);
      for j := 0 to 8
        invariant pn[..] == x && b.pn[..] == y
        invariant Product(a[..], x, y, j)
      {
        ghost var a0: seq<Limb> := a[..];
        ghost var carry := AddRow(a, b, j);
        ProductRow(x, y, a0, a[..], j, carry);
      }
      ProductDone(a[..], x, y);
      Assign(a);
    }

    /** The inner loop: add limb `j` times `b`, shifted by `j` limbs and cut off at 256 bits. */
    method AddRow(a: array<Limb>, b: ArithUint256, j: nat) returns (ghost cut: nat)
      requires Valid() && b.Valid() && a.Length == 8 && a != pn && a != b.pn && j < 8
      modifies a
      ensures RowAdded(old(a[..]), a[..], pn[j], b.pn[..], j, cut)
    {
      hide Val, Pow;
      ghost var a0: seq<Limb>, y: seq<Limb>, f := a[..], b.pn[..], pn[j];
      var carry: nat := 0;
      ValFirst(y);
      for i := 0 to 8 - j
        invariant carry < BASE && a[i + j..] == a0[i + j..]
        invariant Val(a[..], i + j) + carry * Pow(BASE, i + j) == Val(a0, i + j) + f as nat * Pow(BASE, j) * Val(y, i)
      {
        assert a[i + j] == a0[i + j];
        LimbProduct(pn[j], b.pn[i]);
        var n: nat := carry + a[i + j] + pn[j] as nat * b.pn[i] as nat;
        ghost var s: seq<Limb> := a[..];
        a[i + j] := n % BASE;
        CarryStep(s, a[..], i + j, carry, n, Val(a0, i + j) + f as nat * Pow(BASE, j) * Val(y, i));
        ProductStep(a0, y, i, j, f);
        carry := n / BASE;
      }
      cut := carry;
    }

    method SetZero()
      requires Valid()
      modifies pn
      ensures forall j :: 0 <= j < 8 ==> pn[j] == 0
    {
      for i := 0 to 8
        invariant forall j :: 0 <= j < i ==> pn[j] == 0
      {
        pn[i] := 0;
      }
    }

    /** operator<<= */
    method ShiftLeft(bits: nat)
      requires Valid()
      modifies pn
      ensures Value() == TimesMod(old(Value()), Pow(2, bits))
    {
      hide Val, Pow, ShiftedLeft, TimesMod;
      var a := new ArithUint256.Copy(this);
      ghost var x: seq<Limb> := pn[..];
      SetZero();
      ShiftLeftStarts(x, pn[..], bits);
      for i := 0 to 8
        invariant a.pn[..] == x && ShiftedLeft(x, pn[..], bits, i)
      {
        ShiftLeftLimb(a.pn[i], i, bits / 32, bits % 32, x, bits);
      }
      ShiftLeftDone(x, pn[..], bits);
    }

    /** Limb `i` of the original goes up into two limbs. */
    method ShiftLeftLimb(limb: Limb, i: nat, k: nat, shift: nat, ghost x: seq<Limb>, ghost bits: nat)
      requires Valid() && i < 8 && k == bits / 32 && shift == bits % 32 && |x| == 8 && limb == x[i]
      requires ShiftedLeft(x, pn[..], bits, i)
      modifies pn
      ensures ShiftedLeft(x, pn[..], bits, i + 1)
    {
      hide ShiftedLeft, Or, HighPart, LowPart, SplitsUp;
      ghost var s: seq<Limb> := pn[..];
      ghost var up, stay := ShiftLeftParts(x, s, bits, i);
      if i + k + 1 < 8 && shift != 0 {
        pn[i + k + 1] := Or(pn[i + k + 1], HighPart(limb, 32 - shift));
      }
      if i + k < 8 {
        pn[i + k] := Or(pn[i + k], LowPart(limb, shift));
      }
      ShiftLeftStep(x, s, pn[..], bits, i, up, stay);
    }

    /** operator>>= */
    method ShiftRight(bits: nat)
      requires Valid()
      modifies pn
      ensures Value() == DivPow(old(Value()), bits)
    {
      hide Val, Pow, ShiftedRight, DivPow;
      var a := new ArithUint256.Copy(this);
      ghost var x: seq<Limb> := pn[..];
      SetZero();
      ShiftRightStarts(x, pn[..], bits);
      for i := 0 to 8
        invariant a.pn[..] == x && ShiftedRight(x, pn[..], bits, i)
      {
        ShiftRightLimb(a.pn[i], i, bits / 32, bits % 32, x, bits);
      }
      ShiftRightDone(x, pn[..], bits);
    }

    /** Limb `i` of the original goes down into two limbs. */
    method ShiftRightLimb(limb: Limb, i: nat, k: nat, shift: nat, ghost x: seq<Limb>, ghost bits: nat)
      requires Valid() && i < 8 && k == bits / 32 && shift == bits % 32 && |x| == 8 && limb == x[i]
      requires ShiftedRight(x, pn[..], bits, i)
      modifies pn
      ensures ShiftedRight(x, pn[..], bits, i + 1)
    {
      hide ShiftedRight, Or, HighPart, LowPart, SplitsDown;
      ghost var s: seq<Limb> := pn[..];
      ghost var stay, down := ShiftRightParts(x, s, bits, i);
      if i - k - 1 >= 0 && shift != 0 {
        pn[i - k - 1] := Or(pn[i - k - 1], LowPart(limb, 32 - shift));
      }
      if i - k >= 0 {
        pn[i - k] := Or(pn[i - k], HighPart(limb, shift));
      }
      ShiftRightStep(x, s, pn[..], bits, i, stay, down);
    }

    method CompareTo(b: ArithUint256) returns (r: int)
      requires Valid() && b.Valid()
      ensures r == if Value() < b.Value() then -1 else if Value() > b.Value() then 1 else 0
    {
      hide Val, Pow;
      ghost var x: seq<Limb>, y: seq<Limb> := pn[..], b.pn[..];
      for i := 8 downto 0
        invariant x[i..] == y[i..]
      {
        assert x[i] == pn[i] && y[i] == b.pn[i];
        if pn[i] < b.pn[i] {
          HigherLimbDecides(x, y, i);
          return -1;
        }
        if pn[i] > b.pn[i] {
          HigherLimbDecides(y, x, i);
          return 1;
        }
      }
      assert x == y;
      return 0;
    }

    /** operator== for a 64-bit number */
    method EqualTo(b: nat) returns (r: bool)
      requires Valid() && b < 0x1_0000_0000_0000_0000
      ensures r <==> Value() == b
    {
      ghost var x: seq<Limb> := pn[..];
      ghost var y: seq<Limb> := SmallLimbs(b);
      hide Val, SmallLimbs;
      if Value() == b {
        ValUnique(x, y, 8);
        assert x[..8] == x && y[..8] == y;
      }
      for i := 8 downto 2
        invariant forall j :: i <= j < 8 ==> x[j] == 0
      {
        if pn[i] != 0 {
          return false;
        }
      }
      if pn[1] != b / BASE || pn[0] != b % BASE {
        return false;
      }
      assert x == y;
      return true;
    }

    lemma ZeroValue()
      requires Valid() && forall j :: 0 <= j < 8 ==> pn[j] == 0
      ensures Value() == 0
    {
      ValZero(pn[..], 8);
    }

    /** bits(): the position of the highest one bit plus one, or zero. */
    method Bits() returns (r: nat)
      requires Valid()
      ensures r == BitLen(Value()) && r <= 256
    {
      hide Val, Pow, BitLen;
      ghost var x: seq<Limb> := pn[..];
      for pos := 8 downto 0
        invariant forall j :: pos <= j < 8 ==> x[j] == 0
      {
        if pn[pos] != 0 {
          ValZeroAbove(x, pos + 1, 8);
          BaseIsPow();
          var nbits := 31;
          while nbits > 0
            invariant 0 <= nbits <= 31 && x[pos] < Pow(2, nbits + 1)
          {
            PowPositive(2, nbits);
            if pn[pos] / Pow(2, nbits) % 2 != 0 {
              TopBit(x, pos, nbits);
              return 32 * pos + nbits + 1;
            }
            NotTopBit(x[pos], nbits);
            nbits := nbits - 1;
          }
          OneHasOneBit(x[pos]);
          TopBit(x, pos, 0);
          return 32 * pos + 1;
        }
      }
      ValZero(x, 8);
      BitLenZero(0);
      return 0;
    }

    /** Set bit `shift`, above which everything else is. */
    method SetBit(shift: nat)
      requires Valid() && shift < 256 && LowZero(pn[..], shift + 1)
      modifies pn
      ensures Value() == old(Value()) + Pow(2, shift)
      ensures LowZero(pn[..], shift)
    {
      hide Val, Pow, LowZero, Or;
      ghost var s: seq<Limb> := pn[..];
      var bit := Pow(2, shift % 32);
      NewBit(s, shift);
      pn[shift / 32] := Or(pn[shift / 32], bit);
      assert pn[..] == s[shift / 32 := Or(s[shift / 32], bit)];
    }

    /** operator/= ; `ok` is false where the source throws, having set the number to zero. */
    method Divide(b: ArithUint256) returns (ok: bool)
      requires Valid() && b.Valid()
      modifies pn
      ensures ok <==> old(b.Value()) != 0
      ensures ok ==> Value() == old(Value()) / old(b.Value())
      ensures !ok ==> Value() == 0
    {
      hide Val, Pow, BitLen, TimesMod, DivPow, LowZero, Dividing, Modulus, Value;
      var div := new ArithUint256.Copy(b);
      var num := new ArithUint256.Copy(this);
      ghost var n, d: nat := Value(), b.Value();
      SetZero();
      ZeroValue();
      var numBits := num.Bits();
      var divBits := div.Bits();
      BitLenZero(d);
      if divBits == 0 {
        return false;
      }
      if divBits > numBits {
        SmallerBits(n, d);
        return true;
      }
      var shift := numBits - divBits;
      DivideStarts(n, d, shift);
      div.ShiftLeft(shift);
      LowZeroAtFirst(pn[..], shift + 1);
      while shift >= 0
        invariant -1 <= shift < 256 && LowZero(pn[..], shift + 1)
        invariant Dividing(n, d, num.Value(), Value(), shift)
        invariant shift >= 0 ==> div.Value() == d * Pow(2, shift)
      {
        var order := num.CompareTo(div);
        if order >= 0 {
          DivideTakes(n, d, num.Value(), Value(), shift);
          num.Subtract(div);
          SetBit(shift);
        } else {
          DivideSkips(n, d, num.Value(), Value(), shift);
          LowZeroLess(pn[..], shift);
        }
        DivideHalves(d, shift);
        div.ShiftRight(1);
        shift := shift - 1;
      }
      DivideEnds(n, d, num.Value(), Value());
      return true;
    }

    method GetLow64() returns (r: nat)
      requires Valid()
      ensures r == Value() % (BASE * BASE)
    {
      ghost var x: seq<Limb> := pn[..];
      BaseIsPow();
      OrDisjoint(pn[0], pn[1] as nat * BASE, 32);
      r := Or(pn[0], pn[1] as nat * BASE);
      LowTwo(x);
    }
  }
}
