/**
 The compact form of difficulty targets, and the work a target stands for.
 */
module Compact {
  import opened Arithmetic
  import opened BinaryNumbers
  import opened Arith256

  // ----- what a compact number means

  const SIGN: nat := 0x80_0000
  const EXPONENT: nat := 0x100_0000

  /** The number a compact form stands for, without bound: mantissa times a power of 256. */
  ghost function Target(nCompact: nat): nat {
    var size, word := nCompact / EXPONENT, nCompact % SIGN;
    if size <= 3 then
      PowPositive(256, 3 - size);
      word / Pow(256, 3 - size)
    else
      MulNotNegative(word, Pow(256, size - 3));
      word * Pow(256, size - 3)
  }

  ghost predicate SignBit(nCompact: nat) {
    nCompact / SIGN % 2 == 1
  }

  lemma BytePow(n: nat)
    ensures Pow(2, 8 * n) == Pow(256, n)
  {
    PowOfPow(2, 8, n);
    PowSum(2, 4, 4);
    assert Pow(2, 4) == 16;
  }

  lemma ModulusIsBytes()
    ensures Modulus() == Pow(256, 32)
  {
    ModulusIsPow();
    BytePow(32);
  }

  /** The three cases the overflow test distinguishes are all there are. */
  lemma OverflowIsExact(word: nat, size: nat)
    requires word < SIGN && size > 3
    ensures word * Pow(256, size - 3) >= Modulus()
       <==> word != 0 && (size > 34 || (word > 0xff && size > 33) || (word > 0xffff && size > 32))
  {
    hide Pow, Modulus;
    ModulusIsBytes();
    if size > 34 {
      if word != 0 {
        PowGrows(256, 32, size - 3);
        PowPositive(256, size - 3);
        MulLe(1, word, Pow(256, size - 3));
      }
      PowPositive(256, 32);
    } else if size == 34 {
      PowSum(256, 1, 31);
      PowOne();
      Compares(word, 0x100, Pow(256, 31));
    } else if size == 33 {
      PowSum(256, 2, 30);
      PowOne();
      Compares(word, 0x1_0000, Pow(256, 30));
    } else {
      PowSum(256, 3, 29);
      PowOne();
      PowPositive(256, 29);
      PowGrows(256, size - 3, 29);
      MulLe(word, SIGN, Pow(256, size - 3));
      MulLe(Pow(256, size - 3), Pow(256, 29), SIGN);
      MulLe(SIGN, EXPONENT - 1, Pow(256, 29));
      MulSum(EXPONENT, 1, Pow(256, 29));
    }
  }

  lemma PowOne()
    ensures Pow(256, 0) == 1 && Pow(256, 1) == 256 && Pow(256, 2) == 0x1_0000 && Pow(256, 3) == EXPONENT
  {
  }

  lemma Compares(a: nat, b: nat, p: nat)
    requires p >= 1
    ensures a * p >= b * p <==> a >= b
  {
    if a >= b {
      MulLe(b, a, p);
    } else {
      MulLe(a + 1, b, p);
      MulSum(a, 1, p);
    }
  }

  lemma PowAtLeastOne(n: nat)
    ensures Pow(256, n) >= 1
  {
    PowPositive(256, n);
  }

  /** The value is the target modulo 2^256; the flags say when the target is negative and when it does not fit. */
  method SetCompact(x: ArithUint256, nCompact: nat) returns (negative: bool, overflow: bool)
    requires x.Valid() && nCompact < 0x1_0000_0000
    modifies x.pn
    ensures x.Value() == Target(nCompact) % Modulus()
    ensures negative <==> Target(nCompact) != 0 && SignBit(nCompact)
    ensures overflow <==> Target(nCompact) >= Modulus()
  {
    hide Pow, Modulus, TimesMod;
    var nSize, nWord := nCompact / EXPONENT, nCompact % SIGN;
    if nSize <= 3 {
      BytePow(3 - nSize);
      PowAtLeastOne(3 - nSize);
      nWord := nWord / Pow(2, 8 * (3 - nSize));
      SmallWord(nCompact % SIGN, Pow(256, 3 - nSize));
      x.SetSmall(nWord);
    } else {
      x.SetSmall(nWord);
      BytePow(nSize - 3);
      x.ShiftLeft(8 * (nSize - 3));
      BigWord(nWord, nSize - 3);
      OverflowIsExact(nWord, nSize);
    }
    negative := nWord != 0 && nCompact / SIGN % 2 == 1;
    overflow := nWord != 0 && (nSize > 34 || (nWord > 0xff && nSize > 33) || (nWord > 0xffff && nSize > 32));
  }

  lemma SmallWord(word: nat, p: nat)
    requires word < SIGN && p >= 1
    ensures 0 <= word / p < SIGN < Modulus() && word / p % Modulus() == word / p
  {
    hide Pow, Modulus;
    DivMod(word, p);
    if word / p > word {
      MulLe(word + 1, word / p, p);
      MulLe(1, p, word + 1);
    } else if word / p < 0 {
      MulLe(word / p, -1, p);
    }
    ModulusIsBytes();
    PowGrows(256, 3, 32);
    PowOne();
    DivUnique(word / p, Modulus(), 0, word / p);
  }

  lemma BigWord(word: nat, n: nat)
    ensures TimesMod(word, Pow(256, n)) == word * Pow(256, n) % Modulus()
    ensures word * Pow(256, n) != 0 <==> word != 0
  {
    PowPositive(256, n);
    Compares(word, 1, Pow(256, n));
  }

  // ----- back to compact form

  /** The number of bytes of the compact form: one more than the full bytes, so that the top bit stays free. */
  ghost function ByteLen(v: nat): nat {
    if v == 0 then 0 else BitLen(v) / 8 + 1
  }

  /** How many low bytes the compact form drops. */
  ghost function Dropped(v: nat): nat {
    if ByteLen(v) <= 3 then 0 else ByteLen(v) - 3
  }

  /** All but the leading bytes that fit the mantissa, set to zero. */
  ghost function Truncated(v: nat): int {
    PowPositive(256, Dropped(v));
    v / Pow(256, Dropped(v)) * Pow(256, Dropped(v))
  }

  lemma TruncatedBelow(v: nat)
    ensures 0 <= Truncated(v) <= v < Truncated(v) + Pow(256, Dropped(v))
  {
    PowPositive(256, Dropped(v));
    DivMod(v, Pow(256, Dropped(v)));
    if v / Pow(256, Dropped(v)) < 0 {
      MulLe(v / Pow(256, Dropped(v)), -1, Pow(256, Dropped(v)));
    }
  }

  lemma QuotientAtLeast(v: int, p: int, w: int)
    requires p >= 1
    ensures v / p >= w <==> v >= w * p
  {
    DivMod(v, p);
    if v / p >= w {
      MulLe(w, v / p, p);
    } else {
      MulLe(v / p + 1, w, p);
      MulSum(v / p, 1, p);
    }
  }

  /** Cutting off is monotone, also where the longer number loses more bytes. */
  lemma TruncatedMonotone(v: nat, w: nat)
    requires v <= w
    ensures Truncated(v) <= Truncated(w)
  {
    hide Pow, BitLen;
    BitLenMonotone(v, w);
    BitLenZero(v);
    BitLenZero(w);
    var p := Pow(256, Dropped(w));
    PowPositive(256, Dropped(w));
    if Dropped(v) == Dropped(w) {
      DivMod(v, p);
      QuotientAtLeast(w, p, v / p);
      MulLe(v / p, w / p, p);
    } else {
      TruncatedBelow(v);
      BitLenBounds(v);
      BitLenBounds(w);
      var e := BitLen(w) - 1 - 8 * Dropped(w);
      BytePow(Dropped(w));
      PowSum(2, e, 8 * Dropped(w));
      QuotientAtLeast(w, p, Pow(2, e));
      MulLe(Pow(2, e), w / p, p);
      PowGrows(2, BitLen(v), BitLen(w) - 1);
    }
  }

  lemma {:induction false} BitLenMonotone(v: nat, w: nat)
    requires v <= w
    ensures BitLen(v) <= BitLen(w)
  {
    if v > 0 {
      BitLenMonotone(v / 2, w / 2);
    }
  }

  lemma {:induction false} BitLenBelow(v: nat, n: nat)
    requires v < Pow(2, n)
    ensures BitLen(v) <= n
  {
    if v > 0 {
      BitLenBelow(v / 2, n - 1);
    }
  }

  /** Nothing is lost of a number that came from a compact form. */
  lemma TargetsAreExact(nCompact: nat)
    ensures Truncated(Target(nCompact)) == Target(nCompact)
  {
    hide Pow, BitLen;
    var size, word, t := nCompact / EXPONENT, nCompact % SIGN, Target(nCompact);
    var k := if size <= 3 then 0 else size - 3;
    var m := if size <= 3 then t else word;
    PowOne();
    if size <= 3 {
      PowPositive(256, 3 - size);
      SmallWord(word, Pow(256, 3 - size));
    }
    assert t == m * Pow(256, k) && m < SIGN;
    BytePow(k);
    PowSum(2, 23, 8 * k);
    assert Pow(2, 23) == SIGN by {
      SignIsPow();
    }
    PowPositive(256, k);
    MulLe(m, SIGN - 1, Pow(256, k));
    MulSum(SIGN, 1, Pow(256, k));
    BitLenBelow(t, 23 + 8 * k);
    var e := Dropped(t);
    PowSum(256, k - e, e);
    MulAssoc(m, Pow(256, k - e), Pow(256, e));
    PowPositive(256, e);
    DivUnique(t, Pow(256, e), m * Pow(256, k - e), 0);
  }

  lemma SignIsPow()
    ensures Pow(2, 23) == SIGN && Pow(2, 24) == EXPONENT
  {
    PowSum(2, 16, 8);
    PowSum(2, 8, 8);
    PowSum(2, 4, 4);
    assert Pow(2, 4) == 16;
  }

  // ----- GetCompact

  /** The leading three bytes of a number of `n` bytes. */
  ghost function Lead(v: nat, n: nat): int {
    if n <= 3 then v * Pow(256, 3 - n)
    else
      PowPositive(256, n - 3);
      v / Pow(256, n - 3)
  }

  /** The leading bytes reach 2^(24 - d) exactly if the number reaches the same bit of its `n` bytes. */
  lemma LeadAtLeast(v: nat, n: nat, d: nat)
    requires d <= 24 && d <= 8 * n
    ensures Lead(v, n) >= Pow(2, 24 - d) <==> v >= Pow(2, 8 * n - d)
  {
    hide Pow;
    if n <= 3 {
      BytePow(3 - n);
      PowPositive(256, 3 - n);
      PowSum(2, 8 * n - d, 8 * (3 - n));
      Compares(v, Pow(2, 8 * n - d), Pow(256, 3 - n));
    } else {
      BytePow(n - 3);
      PowPositive(256, n - 3);
      PowSum(2, 24 - d, 8 * (n - 3));
      QuotientAtLeast(v, Pow(256, n - 3), Pow(2, 24 - d));
    }
  }

  /** One byte less of the lead is the lead with one byte more of room. */
  lemma LeadShifts(v: nat, n: nat)
    ensures Lead(v, n) / 256 == Lead(v, n + 1)
  {
    if n <= 2 {
      MulAssoc(v, 256, Pow(256, 2 - n));
      MulAssoc(256, v, Pow(256, 2 - n));
      MulCommutes(v, 256);
      DivUnique(v * Pow(256, 3 - n), 256, v * Pow(256, 2 - n), 0);
    } else if n == 3 {
      PowOne();
      assert v * Pow(256, 0) == v;
    } else {
      var p := Pow(256, n - 3);
      PowPositive(256, n - 3);
      assert Pow(256, n - 2) == 256 * p;
      DivMod(v, p);
      DivMod(v / p, 256);
      MulAssoc(v / p / 256, 256, p);
      MulSum(v / p / 256 * 256, v / p % 256, p);
      MulLe(v / p % 256, 255, p);
      MulNotNegative(v / p % 256, p);
      DivUnique(v, 256 * p, v / p / 256, v / p % 256 * p + v % p);
    }
  }

  /** Three bytes are taken, or two where the third has its top bit set; what is left is the target cut off. */
  lemma LeadIsMantissa(v: nat)
    ensures var n := (BitLen(v) + 7) / 8;
            && 0 <= Lead(v, n) < EXPONENT
            && (Lead(v, n) >= SIGN ==> ByteLen(v) == n + 1)
            && (Lead(v, n) < SIGN ==> ByteLen(v) == n)
  {
    hide Pow, Lead, BitLen;
    var n := (BitLen(v) + 7) / 8;
    SignIsPow();
    BitLenBounds(v);
    BitLenZero(v);
    LeadAtLeast(v, n, 0);
    PowGrows(2, BitLen(v), 8 * n);
    LeadNotNegative(v, n);
    if v > 0 {
      LeadAtLeast(v, n, 1);
      if BitLen(v) < 8 * n {
        PowGrows(2, BitLen(v), 8 * n - 1);
      }
    } else {
      LeadOfZero();
    }
  }

  lemma LeadOfZero()
    ensures Lead(0, 0) == 0
  {
  }

  lemma LeadNotNegative(v: nat, n: nat)
    ensures Lead(v, n) >= 0
  {
    if n <= 3 {
      MulNotNegative(v, Pow(256, 3 - n));
    } else {
      PowPositive(256, n - 3);
      QuotientAtLeast(v, Pow(256, n - 3), 0);
    }
  }

  lemma MantissaMeans(v: nat, c: nat)
    requires c / EXPONENT == ByteLen(v) && c % SIGN == Lead(v, ByteLen(v))
    ensures Target(c) == Truncated(v)
  {
    hide Pow;
    var n := ByteLen(v);
    if n <= 3 {
      PowPositive(256, 3 - n);
      DivUnique(v * Pow(256, 3 - n), Pow(256, 3 - n), v, 0);
      PowOne();
    }
  }

  /** GetCompact: the result decodes to the number with its low bytes cut off. */
  method GetCompact(x: ArithUint256, fNegative: bool) returns (nCompact: nat)
    requires x.Valid()
    ensures nCompact < 0x1_0000_0000
    ensures Target(nCompact) == Truncated(x.Value())
    ensures nCompact / EXPONENT == ByteLen(x.Value())
    ensures SignBit(nCompact) <==> fNegative && nCompact % SIGN != 0
  {
    hide Pow, Modulus, Truncated, Target, BitLen, Lead, ByteLen, Val, SignBit;
    var nSize;
    nSize, nCompact := LeadingBytes(x);
    LeadIsMantissa(x.Value());
    LeadShifts(x.Value(), nSize);
    if nCompact / SIGN % 2 == 1 {
      nCompact := nCompact / 256;
      nSize := nSize + 1;
    }
    assert nCompact < SIGN;
    assert nSize < 256;
    nCompact := Assemble(nCompact, nSize, fNegative);
    MantissaMeans(x.Value(), nCompact);
  }

  method Assemble(word: nat, size: nat, fNegative: bool) returns (nCompact: nat)
    requires word < SIGN && size < 256
    ensures nCompact < 0x1_0000_0000 && nCompact / EXPONENT == size && nCompact % SIGN == word
    ensures SignBit(nCompact) <==> fNegative && word != 0
  {
    hide Or, SignBit;
    Assembled(word, size);
    nCompact := Or(word, size * EXPONENT);
    if fNegative && nCompact % SIGN != 0 {
      nCompact := Or(nCompact, SIGN);
    }
  }

  method LeadingBytes(x: ArithUint256) returns (nSize: nat, nCompact: nat)
    requires x.Valid()
    ensures nSize == (BitLen(x.Value()) + 7) / 8 <= 32
    ensures nCompact == Lead(x.Value(), nSize)
  {
    hide Pow, Modulus, DivPow, BitLen, Lead, Val;
    ghost var v: nat := x.Value();
    var bits := x.Bits();
    nSize := (bits + 7) / 8;
    if nSize <= 3 {
      var low := x.GetLow64();
      LeadOfShort(v);
      nCompact := low * Pow(2, 8 * (3 - nSize)) % 0x1_0000_0000;
    } else {
      var bn := new ArithUint256.Copy(x);
      bn.ShiftRight(8 * (nSize - 3));
      LeadOfLong(v);
      var low := bn.GetLow64();
      nCompact := low % 0x1_0000_0000;
    }
  }

  lemma LeadOfShort(v: nat)
    requires BitLen(v) <= 24
    ensures var n := (BitLen(v) + 7) / 8;
            && Pow(2, 8 * (3 - n)) == Pow(256, 3 - n)
            && v % (BASE * BASE) == v
            && v * Pow(2, 8 * (3 - n)) % 0x1_0000_0000 == Lead(v, n)
  {
    hide Pow, BitLen;
    var n := (BitLen(v) + 7) / 8;
    BytePow(3 - n);
    BitLenBounds(v);
    SignIsPow();
    PowGrows(2, BitLen(v), 24);
    LeadIsMantissa(v);
  }

  lemma LeadOfLong(v: nat)
    requires BitLen(v) > 24
    ensures var n := (BitLen(v) + 7) / 8;
            var d := DivPow(v, 8 * (n - 3));
            d == Lead(v, n) && d % (BASE * BASE) == d && d % 0x1_0000_0000 == d
  {
    hide Pow, BitLen, ByteLen;
    BytePow((BitLen(v) + 7) / 8 - 3);
    LeadIsMantissa(v);
  }

  /** Putting mantissa, length and sign bit into one word. */
  lemma Assembled(word: nat, size: nat)
    requires word < SIGN && size < 256
    ensures var c := Or(word, size * EXPONENT);
            && c == word + size * EXPONENT < 0x1_0000_0000
            && c / EXPONENT == size && c % SIGN == word && !SignBit(c)
            && Or(c, SIGN) == c + SIGN < 0x1_0000_0000
            && (c + SIGN) / EXPONENT == size && (c + SIGN) % SIGN == word && SignBit(c + SIGN)
  {
    hide Pow, Or;
    SignIsPow();
    OrDisjoint(word, size * EXPONENT, 24);
    OrBit(word + size * EXPONENT, 23);
  }

  /** Through the compact form and back: the number with its low bytes cut off, with neither flag set. */
  method ThroughCompact(x: ArithUint256) returns (y: ArithUint256, negative: bool, overflow: bool)
    requires x.Valid()
    ensures y.Valid() && y.Value() == Truncated(x.Value()) && !negative && !overflow
  {
    hide Target, Truncated, SignBit, Modulus, Dropped, Pow;
    var c := GetCompact(x, false);
    y := new ArithUint256(0);
    negative, overflow := SetCompact(y, c);
    TruncatedBelow(x.Value());
    DivUnique(Target(c), Modulus(), 0, Target(c));
  }

  // ----- work

  /** The expected number of hashes for a target: 2^256 over the target plus one, or none for a target that is none. */
  ghost function Work(nBits: nat): int {
    if Target(nBits) == 0 || SignBit(nBits) || Target(nBits) >= Modulus() then 0
    else Modulus() / (Target(nBits) + 1)
  }

  /** No target has all 256 bits set, so the target plus one does not wrap to zero. */
  lemma TargetIsNotMax(nBits: nat)
    ensures Target(nBits) != Modulus() - 1
  {
    hide Pow, Modulus;
    var size, word := nBits / EXPONENT, nBits % SIGN;
    ModulusIsBytes();
    PowOne();
    PowSum(256, 1, 31);
    if size <= 3 {
      PowPositive(256, 3 - size);
      SmallWord(word, Pow(256, 3 - size));
      PowGrows(256, 3, 32);
    } else {
      PowSum(256, 1, size - 4);
      Rearranged(word, Pow(256, size - 4));
      NotOneLess(word * Pow(256, size - 4), Pow(256, 31));
    }
  }

  lemma Rearranged(a: int, b: int)
    ensures a * (256 * b) == 256 * (a * b)
  {
    MulAssoc(a, 256, b);
    MulAssoc(256, a, b);
  }

  lemma NotOneLess(a: int, b: int)
    ensures 256 * a != 256 * b - 1
  {
  }

  /** Dividing the complement instead of 2^256, which does not fit. */
  lemma WorkByComplement(t: nat)
    requires 0 < t && t + 1 < Modulus()
    ensures Modulus() / (t + 1) == (Modulus() - 1 - t) / (t + 1) + 1
    ensures 0 <= (Modulus() - 1 - t) / (t + 1) && (Modulus() - 1 - t) / (t + 1) + 1 < Modulus()
  {
    hide Modulus;
    var m, d := Modulus(), t + 1;
    DivMod(m - d, d);
    MulSum((m - d) / d, 1, d);
    DivUnique(m, d, (m - d) / d + 1, (m - d) % d);
    QuotientAtLeast(m - d, d, 0);
    QuotientAtLeast(m - d, d, m - 1);
    MulLe(2, d, m - 1);
  }

  method GetBlockProof(nBits: nat) returns (r: ArithUint256)
    requires nBits < 0x1_0000_0000
    ensures r.Valid() && r.Value() == Work(nBits)
  {
    hide Target, SignBit, Modulus, Val, Pow;
    var bnTarget := new ArithUint256(0);
    var negative, overflow := SetCompact(bnTarget, nBits);
    r := new ArithUint256(0);
    var zero := bnTarget.EqualTo(0);
    if !overflow {
      DivUnique(Target(nBits), Modulus(), 0, Target(nBits));
    }
    if negative || overflow || zero {
      return;
    }
    ghost var t: nat := Target(nBits);
    TargetIsNotMax(nBits);
    WorkByComplement(t);
    var one := new ArithUint256(1);
    var divisor := new ArithUint256.Copy(bnTarget);
    divisor.Add(one);
    DivUnique(t + 1, Modulus(), 0, t + 1);
    r := bnTarget.Complement();
    var ok := r.Divide(divisor);
    assert ok;
    ghost var q := r.Value();
    r.Add(one);
    DivUnique(q + 1, Modulus(), 0, q + 1);
  }
}
