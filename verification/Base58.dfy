/**
 Base58: conversion between bytes and base 58 digits in fixed-size buffers. The
 buffers suffice, and encoding and decoding are inverse to each other.
 */
module Base58 {
  import opened Arithmetic
  import opened Wrappers

  type Byte = x: nat | x < 256

  // ----- numbers in a base, highest digit first

  ghost function Num(s: seq<nat>, base: nat): nat {
    if s == [] then 0 else Num(s[..|s| - 1], base) * base + s[|s| - 1]
  }

  ghost predicate Digits(s: seq<nat>, base: nat) {
    forall i :: 0 <= i < |s| ==> s[i] < base
  }

  lemma {:induction false} NumCat(s: seq<nat>, t: seq<nat>, base: nat)
    ensures Num(s + t, base) == Num(s, base) * Pow(base, |t|) + Num(t, base)
  {
    if t == [] {
      assert s + t == s;
    } else {
      var u, x := t[..|t| - 1], t[|t| - 1];
      assert (s + t)[..|s + t| - 1] == s + u;
      NumCat(s, u, base);
      MulSum(Num(s, base) * Pow(base, |u|), Num(u, base), base);
      MulAssoc(Num(s, base), Pow(base, |u|), base);
      MulCommutes(Pow(base, |u|), base);
    }
  }

  lemma {:induction false} NumBound(s: seq<nat>, base: nat)
    requires Digits(s, base)
    ensures Num(s, base) < Pow(base, |s|)
  {
    if s != [] {
      NumBound(s[..|s| - 1], base);
      MulLe(Num(s[..|s| - 1], base), Pow(base, |s| - 1) - 1, base);
      MulSum(Pow(base, |s| - 1), 1, base);
      MulCommutes(Pow(base, |s| - 1), base);
    }
  }

  lemma {:induction false} NumZero(s: seq<nat>, base: nat)
    requires forall i :: 0 <= i < |s| ==> s[i] == 0
    ensures Num(s, base) == 0
  {
    if s != [] {
      NumZero(s[..|s| - 1], base);
    }
  }

  lemma NumOne(x: nat, base: nat)
    ensures Num([x], base) == x
  {
    assert [x][..0] == [];
  }

  /** The digits of a number, without leading zeros. */
  ghost function ToBase(n: nat, base: nat): seq<nat>
    requires base >= 2
  {
    if n == 0 then [] else ToBase(n / base, base) + [n % base]
  }

  /** Digits without a leading zero are the digits of the number they stand for. */
  lemma {:induction false} ToBaseOfNum(s: seq<nat>, base: nat)
    requires base >= 2 && Digits(s, base) && (s != [] ==> s[0] != 0)
    ensures ToBase(Num(s, base), base) == s
    ensures s != [] ==> Num(s, base) > 0
  {
    if s != [] {
      var t, x := s[..|s| - 1], s[|s| - 1];
      ToBaseOfNum(t, base);
      DivUnique(Num(s, base), base, Num(t, base), x);
      if t != [] {
        MulLe(1, Num(t, base), base);
      } else {
        assert s == [s[0]];
      }
    }
  }

  lemma {:induction false} NumOfToBase(n: nat, base: nat)
    requires base >= 2
    ensures var s := ToBase(n, base);
            Num(s, base) == n && Digits(s, base) && (s != [] ==> s[0] != 0)
  {
    if n > 0 {
      DivMod(n, base);
      QuotientSmaller(n, base);
      NumOfToBase(n / base, base);
      var t := ToBase(n / base, base);
      assert (t + [n % base])[..|t|] == t;
    }
  }

  lemma QuotientSmaller(n: nat, base: nat)
    requires base >= 2 && n > 0
    ensures 0 <= n / base < n
    ensures n / base == 0 ==> n % base == n
  {
    DivMod(n, base);
    if n / base >= n {
      MulLe(n, n / base, base);
      MulLe(2, base, n);
    } else if n / base < 0 {
      MulLe(n / base, -1, base);
    }
  }

  // ----- the buffers suffice

  lemma {:induction false} PowRoot(x: nat, y: nat, k: nat)
    requires x > y && k >= 1
    ensures Pow(x, k) > Pow(y, k)
  {
    if k > 1 {
      PowRoot(x, y, k - 1);
      MulLe(Pow(y, k - 1), Pow(x, k - 1), x);
      MulCommutes(x, Pow(x, k - 1));
      MulCommutes(x, Pow(y, k - 1));
      if Pow(y, k - 1) == 0 {
        MulLe(1, Pow(x, k - 1), x);
      } else {
        MulLe(y + 1, x, Pow(y, k - 1));
        MulSum(y, 1, Pow(y, k - 1));
      }
    }
  }

  lemma {:induction false} PowBaseGrows(x: nat, y: nat, k: nat)
    requires x <= y
    ensures Pow(x, k) <= Pow(y, k)
  {
    if k > 0 {
      PowBaseGrows(x, y, k - 1);
      MulLe(x, y, Pow(x, k - 1));
      MulLe(Pow(x, k - 1), Pow(y, k - 1), y);
      MulCommutes(y, Pow(x, k - 1));
      MulCommutes(y, Pow(y, k - 1));
    }
  }

  lemma SmallPowers()
    ensures Pow(2, 1) == 2 && Pow(2, 4) == 16 && Pow(58, 1) == 58 && Pow(58, 2) == 3364
  {
  }

  lemma PowersOfTwo()
    ensures Pow(2, 8) == 256 && Pow(2, 41) == 2199023255552 && Pow(2, 129) == 680564733841876926926749214863536422912
  {
    hide Pow;
    SmallPowers();
    PowSum(2, 4, 4);
    PowSum(2, 8, 1);
    PowSum(2, 8, 8);
    PowSum(2, 16, 16);
    PowSum(2, 32, 9);
    PowSum(2, 32, 32);
    PowSum(2, 64, 64);
    PowSum(2, 128, 1);
  }

  lemma PowersOf58()
    ensures Pow(58, 7) == 2207984167552 && Pow(58, 22) == 624332378391008467754527498760580235264
  {
    hide Pow;
    SmallPowers();
    PowSum(58, 2, 2);
    PowSum(58, 4, 2);
    PowSum(58, 6, 1);
    PowSum(58, 7, 4);
    PowSum(58, 11, 11);
  }

  lemma Constants()
    ensures Pow(2, 8) == 256
    ensures Pow(2, 41) <= Pow(58, 7)
    ensures Pow(58, 22) <= Pow(2, 129)
  {
    hide Pow;
    PowersOfTwo();
    PowersOf58();
  }

  /** n bytes fit in n * 138 / 100 + 1 digits of base 58: compare seventh powers. */
  lemma BytesFit(n: nat)
    ensures Pow(256, n) <= Pow(58, n * 138 / 100 + 1)
  {
    hide Pow;
    var s := n * 138 / 100 + 1;
    Constants();
    PowOfPow(2, 8, n);
    PowOfPow(2, 8 * n, 7);
    PowOfPow(2, 41, s);
    PowOfPow(58, 7, s);
    PowOfPow(58, s, 7);
    PowBaseGrows(Pow(2, 41), Pow(58, 7), s);
    PowGrows(2, 8 * n * 7, 41 * s);
    if Pow(256, n) > Pow(58, s) {
      PowRoot(Pow(256, n), Pow(58, s), 7);
    }
  }

  /** n digits of base 58 fit in m * 733 / 1000 + 1 bytes, for n up to m: compare powers of 22. */
  lemma DigitsFit(n: nat, m: nat)
    requires n <= m
    ensures Pow(58, n) <= Pow(256, m * 733 / 1000 + 1)
  {
    hide Pow;
    var s := m * 733 / 1000 + 1;
    Constants();
    PowOfPow(2, 8, s);
    PowOfPow(2, 8 * s, 22);
    PowOfPow(2, 129, n);
    PowOfPow(58, 22, n);
    PowOfPow(58, n, 22);
    PowBaseGrows(Pow(58, 22), Pow(2, 129), n);
    PowGrows(2, 129 * n, 8 * s * 22);
    if Pow(58, n) > Pow(256, s) {
      PowRoot(Pow(58, n), Pow(256, s), 22);
    }
  }

  // ----- the conversion loop

  function Affine(n: nat, mul: nat, add: nat): nat {
    MulNotNegative(n, mul);
    n * mul + add
  }

  function Low(x: nat, base: nat): (r: nat)
    requires base >= 2
    ensures r < base
  {
    x % base
  }

  function High(x: nat, base: nat): nat
    requires base >= 2
  {
    x / base
  }

  /** The digits `low` and the carry above them are what the loop makes of as many digits of `b0`. */
  ghost predicate Carried(b0: seq<nat>, low: seq<nat>, carry: nat, mul: nat, add: nat, base: nat) {
    && |low| <= |b0|
    && carry * Pow(base, |low|) + Num(low, base) == Affine(Num(b0[|b0| - |low|..], base), mul, add)
  }

  ghost predicate HighZero(s: seq<nat>, length: nat)
  {
    forall j :: 0 <= j < |s| - length ==> s[j] == 0
  }

  /**
     Multiply the number in the buffer and add to it, digit by digit from the
     last, as far as there is a carry or a digit in use. The assertion of the
     source holds if the result fits the buffer.
     */
  method MultiplyAdd(buf: array<nat>, length: nat, mul: nat, add: nat, base: nat) returns (used: nat)
    requires base >= 2 && Digits(buf[..], base) && length <= buf.Length && HighZero(buf[..], length)
    requires Affine(Num(buf[..], base), mul, add) < Pow(base, buf.Length)
    modifies buf
    ensures Digits(buf[..], base) && used <= buf.Length && HighZero(buf[..], used)
    ensures Num(buf[..], base) == Affine(old(Num(buf[..], base)), mul, add)
  {
    hide Num, Pow, Affine, Carried, Low, High;
    ghost var b0 := buf[..];
    var n := buf.Length;
    var carry: nat, i: nat := add, 0;
    Starts(b0, mul, add, base);
    while (carry != 0 || i < length) && i < n
      invariant i <= n && Digits(buf[..], base)
      invariant buf[..n - i] == b0[..n - i]
      invariant Carried(b0, buf[n - i..], carry, mul, add, base)
      decreases n - i
    {
      assert buf[n - 1 - i] == b0[n - 1 - i];
      var x := Affine(buf[n - 1 - i], mul, carry);
      ghost var low := buf[n - i..];
      CarryStep(b0, low, i, carry, mul, add, base);
      buf[n - 1 - i] := Low(x, base);
      assert buf[n - 1 - i..] == [Low(x, base)] + low;
      carry := High(x, base);
      i := i + 1;
    }
    Ends(b0, buf[..], i, length, carry, mul, add, base);
    assert carry == 0;
    used := i;
  }

  lemma Starts(b0: seq<nat>, mul: nat, add: nat, base: nat)
    ensures Carried(b0, b0[|b0|..], add, mul, add, base)
  {
  }

  lemma CarryStep(b0: seq<nat>, low: seq<nat>, i: nat, carry: nat, mul: nat, add: nat, base: nat)
    requires i < |b0| && |low| == i && base >= 2 && Carried(b0, low, carry, mul, add, base)
    ensures var x := Affine(b0[|b0| - 1 - i], mul, carry);
            Carried(b0, [Low(x, base)] + low, High(x, base), mul, add, base)
  {
    var d, t := b0[|b0| - 1 - i], b0[|b0| - i..];
    var x, p := carry + d * mul, Pow(base, i);
    assert b0[|b0| - 1 - i..] == [d] + t;
    NumCat([d], t, base);
    NumOne(d, base);
    NumCat([x % base], low, base);
    NumOne(x % base, base);
    DivMod(x, base);
    MulAssoc(x / base, base, p);
    MulSum(x / base * base, x % base, p);
    MulSum(carry, d * mul, p);
    MulCommutes(d, mul);
    MulSum(d * p, Num(t, base), mul);
    MulAssoc(mul, d, p);
    MulCommutes(mul, d * p);
  }

  lemma Ends(b0: seq<nat>, b: seq<nat>, i: nat, length: nat, carry: nat, mul: nat, add: nat, base: nat)
    requires |b| == |b0| && i <= |b| && base >= 2 && Digits(b, base) && length <= |b| && HighZero(b0, length)
    requires b[..|b| - i] == b0[..|b| - i]
    requires Carried(b0, b[|b| - i..], carry, mul, add, base)
    requires (carry == 0 && i >= length) || i == |b|
    requires Affine(Num(b0, base), mul, add) < Pow(base, |b|)
    ensures carry == 0 && HighZero(b, i)
    ensures Num(b, base) == Affine(Num(b0, base), mul, add)
  {
    hide Num, Pow, Affine, HighZero;
    var n := |b|;
    assert |b[n - i..]| == i;
    if i == n {
      assert b[n - i..] == b && b0[n - i..] == b0;
      NoCarry(carry, Pow(base, n), Num(b, base));
      NothingAbove(b);
    } else {
      HighZeroMore(b0, b, length, i);
      OnlyLow(b0, i, base);
      OnlyLow(b, i, base);
      assert 0 * Pow(base, i) == 0;
    }
  }

  lemma NoCarry(carry: nat, p: nat, n: nat)
    requires carry * p + n < p
    ensures carry == 0 && carry * p == 0
  {
    if carry >= 1 {
      MulLe(1, carry, p);
    }
  }

  lemma NothingAbove(s: seq<nat>)
    ensures HighZero(s, |s|)
  {
  }

  lemma HighZeroMore(b0: seq<nat>, b: seq<nat>, length: nat, i: nat)
    requires |b| == |b0| && length <= i <= |b| && HighZero(b0, length) && b[..|b| - i] == b0[..|b| - i]
    ensures HighZero(b0, i) && HighZero(b, i)
  {
    forall j | 0 <= j < |b| - i
      ensures b[j] == 0
    {
      assert b[j] == b[..|b| - i][j];
    }
  }

  lemma OnlyLow(s: seq<nat>, i: nat, base: nat)
    requires i <= |s| && HighZero(s, i)
    ensures Num(s, base) == Num(s[|s| - i..], base)
  {
    hide Num, Pow;
    var h := |s| - i;
    assert s == s[..h] + s[h..];
    NumCat(s[..h], s[h..], base);
    NumZero(s[..h], base);
    assert 0 * Pow(base, |s[h..]|) == 0;
  }

  /** Skip the leading zeros of the part in use: what is left are the digits of the number. */
  method Significant(buf: array<nat>, length: nat, base: nat) returns (digits: seq<nat>)
    requires base >= 2 && Digits(buf[..], base) && length <= buf.Length && HighZero(buf[..], length)
    ensures digits == ToBase(Num(buf[..], base), base)
  {
    var it := buf.Length - length;
    while it < buf.Length && buf[it] == 0
      invariant 0 <= it <= buf.Length && HighZero(buf[..], buf.Length - it)
    {
      it := it + 1;
    }
    digits := buf[it..];
    OnlyLow(buf[..], buf.Length - it, base);
    assert buf[..][it..] == digits;
    ToBaseOfNum(digits, base);
  }

  // ----- characters

  /** The alphabet: digits and letters without 0, I, O and l. */
  function CharOf(d: nat): char
    requires d < 58
  {
    if d < 9 then ('1' as int + d) as char
    else if d < 17 then ('A' as int + d - 9) as char
    else if d < 22 then ('J' as int + d - 17) as char
    else if d < 33 then ('P' as int + d - 22) as char
    else if d < 44 then ('a' as int + d - 33) as char
    else ('m' as int + d - 44) as char
  }

  /** The digit of a character, -1 for none. */
  function DigitOf(c: char): (r: int)
    ensures r == -1 || 0 <= r < 58
  {
    var n := c as int;
    if '1' <= c <= '9' then n - '1' as int
    else if 'A' <= c <= 'H' then n - 'A' as int + 9
    else if 'J' <= c <= 'N' then n - 'J' as int + 17
    else if 'P' <= c <= 'Z' then n - 'P' as int + 22
    else if 'a' <= c <= 'k' then n - 'a' as int + 33
    else if 'm' <= c <= 'z' then n - 'm' as int + 44
    else -1
  }

  predicate IsSpace(c: char) {
    c == ' ' || 9 <= c as int <= 13
  }

  lemma CharReads(d: nat)
    requires d < 58
    ensures DigitOf(CharOf(d)) == d && !IsSpace(CharOf(d))
  {
  }

  lemma DigitWrites(c: char)
    ensures DigitOf(c) != -1 ==> CharOf(DigitOf(c)) == c && !IsSpace(c)
  {
  }

  ghost function Chars(s: seq<nat>): (r: string)
    requires Digits(s, 58)
    ensures |r| == |s|
  {
    seq(|s|, i requires 0 <= i < |s| => CharOf(s[i]))
  }

  ghost predicate AllDigits(s: string) {
    forall i :: 0 <= i < |s| ==> DigitOf(s[i]) != -1
  }

  ghost function DigitsOf(s: string): (r: seq<nat>)
    requires AllDigits(s)
    ensures |r| == |s| && Digits(r, 58)
  {
    seq(|s|, i requires 0 <= i < |s| => DigitOf(s[i]) as nat)
  }

  // ----- encoding

  ghost function Repeat<T>(x: T, n: nat): (r: seq<T>)
    ensures |r| == n
  {
    seq(n, _ => x)
  }

  /** How many `x` a sequence starts with. */
  ghost function Leading<T>(x: T, s: seq<T>): (r: nat)
    ensures r <= |s| && (forall i :: 0 <= i < r ==> s[i] == x) && (r < |s| ==> s[r] != x)
  {
    if s == [] || s[0] != x then 0 else 1 + Leading(x, s[1..])
  }

  lemma LeadingIs<T>(x: T, s: seq<T>, n: nat)
    requires n <= |s| && (forall i :: 0 <= i < n ==> s[i] == x) && (n < |s| ==> s[n] != x)
    ensures Leading(x, s) == n
  {
  }

  ghost function Encoded(v: seq<Byte>): string {
    var z := Leading(0, v);
    var digits := ToBase(Num(v[z..], 256), 58);
    NumOfToBase(Num(v[z..], 256), 58);
    Repeat('1', z) + Chars(digits)
  }

  method EncodeBase58(v: seq<Byte>) returns (str: string)
    ensures str == Encoded(v)
  {
    hide Num, ToBase, CharOf, Leading;
    var zeroes := 0;
    while zeroes < |v| && v[zeroes] == 0
      invariant 0 <= zeroes <= |v| && forall i :: 0 <= i < zeroes ==> v[i] == 0
    {
      zeroes := zeroes + 1;
    }
    LeadingIs(0, v, zeroes);
    var digits := BytesToDigits(v[zeroes..]);
    NumOfToBase(Num(v[zeroes..], 256), 58);
    str := seq(zeroes, _ => '1');
    for i := 0 to |digits|
      invariant str == Repeat('1', zeroes) + Chars(digits)[..i]
    {
      str := str + [CharOf(digits[i])];
    }
  }

  /** The middle of EncodeBase58: bytes without leading zero to base 58 digits. */
  method BytesToDigits(w: seq<Byte>) returns (digits: seq<nat>)
    ensures digits == ToBase(Num(w, 256), 58)
  {
    hide Num, Pow, ToBase, Affine;
    var n := |w|;
    var b58 := new nat[n * 138 / 100 + 1](_ => 0);
    var length: nat := 0;
    BytesFit(n);
    NumZero(b58[..], 58);
    assert w[..0] == [];
    NumEmpty(256);
    for k := 0 to n
      invariant Digits(b58[..], 58) && length <= b58.Length && HighZero(b58[..], length)
      invariant Num(b58[..], 58) == Num(w[..k], 256)
    {
      PrefixFits(w, k, 256, 58, b58.Length);
      length := MultiplyAdd(b58, length, 256, w[k], 58);
    }
    assert w[..n] == w;
    digits := Significant(b58, length, 58);
  }

  lemma NumEmpty(base: nat)
    ensures Num([], base) == 0
  {
  }

  /** One more digit of the input: the number stays below the buffer's capacity. */
  lemma PrefixFits(w: seq<nat>, k: nat, from: nat, base: nat, size: nat)
    requires from >= 1 && k < |w| && Digits(w, from) && Pow(from, |w|) <= Pow(base, size)
    ensures Num(w[..k + 1], from) == Affine(Num(w[..k], from), from, w[k])
    ensures Affine(Num(w[..k], from), from, w[k]) < Pow(base, size)
  {
    assert w[..k + 1][..k] == w[..k];
    NumBound(w[..k + 1], from);
    PowGrows(from, k + 1, |w|);
  }

  // ----- decoding

  /** The index of the first character from `i` on that is, or is not, a space; the end of the string if there is none. */
  ghost function Next(s: string, i: nat, space: bool): (r: nat)
    requires i <= |s|
    ensures i <= r <= |s| && (forall j :: i <= j < r ==> IsSpace(s[j]) != space) && (r < |s| ==> IsSpace(s[r]) == space)
    decreases |s| - i
  {
    if i == |s| || IsSpace(s[i]) == space then i else Next(s, i + 1, space)
  }

  lemma NextIs(s: string, i: nat, space: bool, r: nat)
    requires i <= r <= |s| && (forall j :: i <= j < r ==> IsSpace(s[j]) != space) && (r < |s| ==> IsSpace(s[r]) == space)
    ensures Next(s, i, space) == r
  {
  }

  /** The string without the spaces around its first word. */
  ghost function Core(s: string): string {
    s[Next(s, 0, false)..Next(s, Next(s, 0, false), true)]
  }

  /** There is nothing after the first word but spaces. */
  ghost predicate OneWord(s: string) {
    Next(s, Next(s, Next(s, 0, false), true), false) == |s|
  }

  ghost function Decoded(s: string): Option<seq<nat>> {
    var core := Core(s);
    var z := Leading('1', core);
    if AllDigits(core) && OneWord(s) then Some(Repeat(0, z) + ToBase(Num(DigitsOf(core[z..]), 58), 256)) else None
  }

  /** `s` is a C string: the characters before the terminating zero. */
  method DecodeBase58(s: string) returns (ok: bool, vch: seq<nat>)
    ensures ok <==> Decoded(s).Some?
    ensures ok ==> Decoded(s) == Some(vch)
  {
    hide Num, ToBase, DigitOf, Next, Leading;
    vch := [];
    var psz := SkipSpaces(s, 0);
    ghost var start, core := psz, Core(s);
    ghost var end := Next(s, start, true);
    var zeroes: nat := 0;
    DigitOfOne();
    while psz < |s| && s[psz] == '1'
      invariant start <= psz <= end && zeroes == psz - start && forall j :: start <= j < psz ==> s[j] == '1'
    {
      zeroes := zeroes + 1;
      psz := psz + 1;
    }
    assert forall j :: 0 <= j < |core| ==> core[j] == s[start + j];
    LeadingIs('1', core, zeroes);
    NextIs(s, psz, true, end);
    assert core[zeroes..] == s[psz..end];
    OnesAreDigits(core, zeroes);
    var digits, after;
    ok, digits, after := WordToBytes(s, psz);
    if !ok {
      return;
    }
    after := SkipSpaces(s, after);
    if after < |s| {
      return false, [];
    }
    vch := seq(zeroes, _ => 0) + digits;
    assert vch == Repeat(0, zeroes) + digits;
  }

  method SkipSpaces(s: string, from: nat) returns (i: nat)
    requires from <= |s|
    ensures i == Next(s, from, false) && i <= |s|
  {
    i := from;
    while i < |s| && IsSpace(s[i])
      invariant from <= i <= |s| && forall j :: from <= j < i ==> IsSpace(s[j])
    {
      i := i + 1;
    }
    NextIs(s, from, false, i);
  }

  /** The middle of DecodeBase58: characters up to a space or the end to bytes. */
  method WordToBytes(s: string, first: nat) returns (ok: bool, digits: seq<nat>, after: nat)
    requires first <= |s|
    ensures var w := s[first..Next(s, first, true)];
            && (ok <==> AllDigits(w))
            && (ok ==> digits == ToBase(Num(DigitsOf(w), 58), 256) && after == Next(s, first, true))
  {
    hide Num, Pow, ToBase, Affine, DigitOf, Next;
    ghost var end := Next(s, first, true);
    ghost var w: seq<nat> := [];
    after, digits := first, [];
    var b256 := new nat[(|s| - first) * 733 / 1000 + 1](_ => 0);
    var length: nat := 0;
    NumZero(b256[..], 256);
    NumEmpty(58);
    while after < |s| && !IsSpace(s[after])
      invariant first <= after <= end && Digits(b256[..], 256) && length <= b256.Length && HighZero(b256[..], length)
      invariant |w| == after - first && Digits(w, 58) && Num(b256[..], 256) == Num(w, 58)
      invariant forall j :: first <= j < after ==> DigitOf(s[j]) == w[j - first]
    {
      var carry := DigitOf(s[after]);
      if carry == -1 {
        assert s[first..end][after - first] == s[after];
        return false, digits, after;
      }
      WordFits(w, carry, |s| - first);
      w := w + [carry];
      length := MultiplyAdd(b256, length, 58, carry, 256);
      after := after + 1;
    }
    assert after == end;
    assert w == DigitsOf(s[first..end]);
    digits := Significant(b256, length, 256);
    ok := true;
  }

  lemma OnesAreDigits(s: string, z: nat)
    requires z <= |s| && forall i :: 0 <= i < z ==> s[i] == '1'
    ensures AllDigits(s) <==> AllDigits(s[z..])
  {
    hide DigitOf;
    DigitOfOne();
    if AllDigits(s[z..]) {
      forall i | 0 <= i < |s|
        ensures DigitOf(s[i]) != -1
      {
        if i >= z {
          assert s[i] == s[z..][i - z];
        }
      }
    }
  }

  lemma DigitOfOne()
    ensures DigitOf('1') == 0 && !IsSpace('1')
  {
  }

  lemma WordFits(w: seq<nat>, d: nat, m: nat)
    requires Digits(w, 58) && d < 58 && |w| < m
    ensures Num(w + [d], 58) == Affine(Num(w, 58), 58, d)
    ensures Affine(Num(w, 58), 58, d) < Pow(256, m * 733 / 1000 + 1)
  {
    assert (w + [d])[..|w|] == w;
    NumBound(w + [d], 58);
    DigitsFit(|w| + 1, m);
  }

  // ----- round trips

  lemma CharsRead(d: seq<nat>)
    requires Digits(d, 58)
    ensures AllDigits(Chars(d)) && DigitsOf(Chars(d)) == d
    ensures forall i :: 0 <= i < |d| ==> !IsSpace(Chars(d)[i])
  {
    forall i | 0 <= i < |d|
      ensures DigitOf(Chars(d)[i]) == d[i] && !IsSpace(Chars(d)[i])
    {
      CharReads(d[i]);
    }
  }

  /** A string without spaces is one word. */
  lemma WordIsCore(s: string)
    requires forall i :: 0 <= i < |s| ==> !IsSpace(s[i])
    ensures Core(s) == s && OneWord(s)
  {
    hide Next, IsSpace;
    NextIs(s, 0, false, 0);
    NextIs(s, 0, true, |s|);
    NextIs(s, |s|, false, |s|);
  }

  /** How an encoded string is read: one word, as many leading ones as there were zeros, then the digits. */
  lemma EncodedParts(z: nat, d: seq<nat>)
    requires Digits(d, 58) && (d != [] ==> d[0] != 0)
    ensures var s := Repeat('1', z) + Chars(d);
            && Core(s) == s && OneWord(s) && AllDigits(s) && Leading('1', s) == z
            && s[z..] == Chars(d) && AllDigits(s[z..]) && DigitsOf(s[z..]) == d
  {
    hide DigitOf, CharOf, Leading, Core, OneWord, IsSpace;
    var s := Repeat('1', z) + Chars(d);
    CharsRead(d);
    DigitOfOne();
    assert s[z..] == Chars(d);
    forall i | 0 <= i < |s|
      ensures !IsSpace(s[i])
    {
      if i >= z {
        assert s[i] == Chars(d)[i - z];
      }
    }
    WordIsCore(s);
    if d != [] {
      CharReads(d[0]);
      assert s[z] == Chars(d)[0];
    }
    LeadingIs('1', s, z);
    OnesAreDigits(s, z);
  }

  /** Every byte string is read back from its encoding. */
  lemma DecodeEncode(v: seq<Byte>)
    ensures Decoded(Encoded(v)) == Some(v)
  {
    hide Num, ToBase, AllDigits, Core, OneWord, Leading, DigitsOf, Chars;
    var s, z: nat, w: seq<nat> := Encoded(v), Leading(0, v), v[Leading(0, v)..];
    NumOfToBase(Num(w, 256), 58);
    EncodedParts(z, ToBase(Num(w, 256), 58));
    ToBaseOfNum(w, 256);
    assert v == Repeat(0, z) + w;
  }

  lemma ZeroIsOne()
    ensures CharOf(0) == '1'
  {
  }

  /** A string that decodes is, up to the spaces around it, the encoding of what it decodes to. */
  lemma EncodeDecode(s: string, v: seq<Byte>)
    requires Decoded(s) == Some(v)
    ensures Encoded(v) == Core(s)
  {
    hide Num, ToBase, DigitOf, CharOf, Next, Leading;
    var core := Core(s);
    var z := Leading('1', core);
    OnesAreDigits(core, z);
    var d := DigitsOf(core[z..]);
    var n := Num(d, 58);
    NumOfToBase(n, 256);
    LeadingIs(0, v, z);
    assert v[z..] == ToBase(n, 256);
    assert d != [] ==> d[0] != 0 by {
      if d != [] {
        assert core[z..][0] == core[z];
        DigitWrites(core[z]);
        ZeroIsOne();
      }
    }
    ToBaseOfNum(d, 58);
    assert Chars(d) == core[z..] by {
      forall i | 0 <= i < |d|
        ensures CharOf(d[i]) == core[z..][i]
      {
        DigitWrites(core[z..][i]);
      }
    }
    assert core == Repeat('1', z) + core[z..];
  }
}
