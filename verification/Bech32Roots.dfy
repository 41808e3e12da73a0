/**
 The Bech32 generator as that of a BCH code: a round of the checksum multiplies
 the value of the state at three roots in a row, so that up to three wrong
 symbols within a window of 1023 never cancel out.
 */
module Bech32Roots {
  import opened Bech32
  import opened Field1024

  // ----- values of a state at the roots

  function Bit(s: bv32, m: bv32, c: Element): Element {
    if s & m != 0 then c else 0
  }

  /** The lowest five bits as an element of the field of 32 elements within that of 1024. */
  function Embed(s: bv32): Element {
    Add(Add(Add(Add(Bit(s, 1, 0x001), Bit(s, 2, 0x00e)), Bit(s, 4, 0x054)), Bit(s, 8, 0x358)), Bit(s, 16, 0x0bf))
  }

  lemma BitsOfSum(s: bv32, t: bv32)
    ensures (Xor(s, t) & 1 != 0) == ((s & 1 != 0) != (t & 1 != 0))
    ensures (Xor(s, t) & 2 != 0) == ((s & 2 != 0) != (t & 2 != 0))
    ensures (Xor(s, t) & 4 != 0) == ((s & 4 != 0) != (t & 4 != 0))
    ensures (Xor(s, t) & 8 != 0) == ((s & 8 != 0) != (t & 8 != 0))
    ensures (Xor(s, t) & 16 != 0) == ((s & 16 != 0) != (t & 16 != 0))
  {
  }

  lemma BitAdds(s: bv32, t: bv32, m: bv32, c: Element)
    requires (Xor(s, t) & m != 0) == ((s & m != 0) != (t & m != 0))
    ensures Bit(Xor(s, t), m, c) == Add(Bit(s, m, c), Bit(t, m, c))
  {
    hide Xor, Add;
    AddUnit(c);
    AddUnit(0);
    SameIfZero(c, c);
  }

  lemma AddUnit(v: Element)
    ensures Add(v, 0) == v == Add(0, v)
  {
  }

  lemma AddSwap(a: Element, b: Element, c: Element, d: Element)
    ensures Add(Add(a, b), Add(c, d)) == Add(Add(a, c), Add(b, d))
  {
    hide Add;
    AddPairs(Add(a, b), c, d);
    AddPairs(a, c, b);
    AddPairs(Add(a, c), b, d);
  }

  lemma EmbedAdds(s: bv32, t: bv32)
    ensures Embed(Xor(s, t)) == Add(Embed(s), Embed(t))
  {
    BitsOfSum(s, t);
    hide Add, Bit, Xor;
    BitAdds(s, t, 1, 0x001); BitAdds(s, t, 2, 0x00e); BitAdds(s, t, 4, 0x054); BitAdds(s, t, 8, 0x358); BitAdds(s, t, 16, 0x0bf);
    var s1, t1 := Bit(s, 1, 0x001), Bit(t, 1, 0x001);
    var s2, t2 := Bit(s, 2, 0x00e), Bit(t, 2, 0x00e);
    AddSwap(s1, t1, s2, t2);
    var s3, t3 := Bit(s, 4, 0x054), Bit(t, 4, 0x054);
    AddSwap(Add(s1, s2), Add(t1, t2), s3, t3);
    var s4, t4 := Bit(s, 8, 0x358), Bit(t, 8, 0x358);
    AddSwap(Add(Add(s1, s2), s3), Add(Add(t1, t2), t3), s4, t4);
    AddSwap(Add(Add(Add(s1, s2), s3), s4), Add(Add(Add(t1, t2), t3), t4), Bit(s, 16, 0x0bf), Bit(t, 16, 0x0bf));
  }

  lemma EmbedLosesNothing(s: bv32)
    requires s < 32 && Embed(s) == 0
    ensures s == 0
  {
  }

  /** The roots of the generator polynomial: the powers 24, 25 and 26 of x. */
  function ByRoot(j: nat, v: Element): Element
    requires j < 3
  {
    if j == 0 then By24(v) else if j == 1 then ByX(By24(v)) else ByX(ByX(By24(v)))
  }

  lemma ByRootIs(j: nat, v: Element)
    requires j < 3
    ensures ByRoot(j, v) == Raised(24 + j, v)
  {
    hide By24, ByX;
    Is24(v);
  }

  lemma ByRootAdds(j: nat, v: Element, w: Element)
    requires j < 3
    ensures ByRoot(j, Add(v, w)) == Add(ByRoot(j, v), ByRoot(j, w))
    ensures ByRoot(j, 0) == 0
  {
    hide ByRoot, Raised, Add;
    ByRootIs(j, v);
    ByRootIs(j, w);
    ByRootIs(j, Add(v, w));
    ByRootIs(j, 0);
    RaisedAdds(24 + j, v, w);
  }

  /** The coefficient of x^i of a state. */
  function Coeff(c: bv32, i: nat): bv32 {
    if i == 5 then Fifth(c) else if i == 4 then Fourth(c) else if i == 3 then Third(c)
    else if i == 2 then Second(c) else if i == 1 then First(c) else Lowest(c)
  }

  function Fifth(c: bv32): bv32 {
    (c >> 25) & 31
  }

  function Fourth(c: bv32): bv32 {
    (c >> 20) & 31
  }

  function Third(c: bv32): bv32 {
    (c >> 15) & 31
  }

  function Second(c: bv32): bv32 {
    (c >> 10) & 31
  }

  function First(c: bv32): bv32 {
    (c >> 5) & 31
  }

  function Lowest(c: bv32): bv32 {
    c & 31
  }

  lemma FifthAdds(c: bv32, d: bv32)
    ensures Fifth(Xor(c, d)) == Xor(Fifth(c), Fifth(d))
  {
  }

  lemma FourthAdds(c: bv32, d: bv32)
    ensures Fourth(Xor(c, d)) == Xor(Fourth(c), Fourth(d))
  {
  }

  lemma ThirdAdds(c: bv32, d: bv32)
    ensures Third(Xor(c, d)) == Xor(Third(c), Third(d))
  {
  }

  lemma SecondAdds(c: bv32, d: bv32)
    ensures Second(Xor(c, d)) == Xor(Second(c), Second(d))
  {
  }

  lemma FirstAdds(c: bv32, d: bv32)
    ensures First(Xor(c, d)) == Xor(First(c), First(d))
  {
  }

  lemma LowestAdds(c: bv32, d: bv32)
    ensures Lowest(Xor(c, d)) == Xor(Lowest(c), Lowest(d))
  {
  }

  lemma CoeffAdds(c: bv32, d: bv32, i: nat)
    ensures Coeff(Xor(c, d), i) == Xor(Coeff(c, i), Coeff(d, i))
  {
    hide Fifth, Fourth, Third, Second, First, Lowest, Xor;
    FifthAdds(c, d); FourthAdds(c, d); ThirdAdds(c, d); SecondAdds(c, d); FirstAdds(c, d); LowestAdds(c, d);
  }

  lemma CoeffOfShifted(c: bv32, i: nat)
    requires i < 6
    ensures Coeff(Shifted(c, 0), i) == if i == 0 then 0 else Coeff(c, i - 1)
  {
  }

  lemma CoeffOfSymbol(s: bv32, i: nat)
    requires s < 32 && i < 6
    ensures Coeff(s, i) == if i == 0 then s else 0
  {
  }

  function Then(j: nat, v: Element, s: bv32): Element
    requires j < 3
  {
    Add(ByRoot(j, v), Embed(s))
  }

  /** The value of a polynomial at a root: the coefficient of x^5 is embedded in `v`, the others are those of `c`. */
  function Tail(j: nat, v: Element, c: bv32): Element
    requires j < 3
  {
    Then(j, Then(j, Then(j, Then(j, Then(j, v, Coeff(c, 4)), Coeff(c, 3)), Coeff(c, 2)), Coeff(c, 1)), Coeff(c, 0))
  }

  /** The value of a state at a root. */
  function Value(j: nat, c: bv32): Element
    requires j < 3
  {
    Tail(j, Embed(Coeff(c, 5)), c)
  }

  lemma ThenAdds(j: nat, v: Element, w: Element, s: bv32, t: bv32)
    requires j < 3
    ensures Then(j, Add(v, w), Xor(s, t)) == Add(Then(j, v, s), Then(j, w, t))
  {
    hide ByRoot, Add, Embed, Xor;
    ByRootAdds(j, v, w);
    EmbedAdds(s, t);
    AddSwap(ByRoot(j, v), ByRoot(j, w), Embed(s), Embed(t));
  }

  lemma TailAdds(j: nat, v: Element, w: Element, c: bv32, d: bv32)
    requires j < 3
    ensures Tail(j, Add(v, w), Xor(c, d)) == Add(Tail(j, v, c), Tail(j, w, d))
  {
    hide Then, Add, Xor, Coeff;
    CoeffAdds(c, d, 4); CoeffAdds(c, d, 3); CoeffAdds(c, d, 2); CoeffAdds(c, d, 1); CoeffAdds(c, d, 0);
    ThenAdds(j, v, w, Coeff(c, 4), Coeff(d, 4));
    var v4, w4 := Then(j, v, Coeff(c, 4)), Then(j, w, Coeff(d, 4));
    ThenAdds(j, v4, w4, Coeff(c, 3), Coeff(d, 3));
    var v3, w3 := Then(j, v4, Coeff(c, 3)), Then(j, w4, Coeff(d, 3));
    ThenAdds(j, v3, w3, Coeff(c, 2), Coeff(d, 2));
    var v2, w2 := Then(j, v3, Coeff(c, 2)), Then(j, w3, Coeff(d, 2));
    ThenAdds(j, v2, w2, Coeff(c, 1), Coeff(d, 1));
    ThenAdds(j, Then(j, v2, Coeff(c, 1)), Then(j, w2, Coeff(d, 1)), Coeff(c, 0), Coeff(d, 0));
  }

  lemma ValueAdds(j: nat, c: bv32, d: bv32)
    requires j < 3
    ensures Value(j, Xor(c, d)) == Add(Value(j, c), Value(j, d))
  {
    hide Tail, Embed, Add, Xor, Coeff;
    CoeffAdds(c, d, 5);
    EmbedAdds(Coeff(c, 5), Coeff(d, 5));
    TailAdds(j, Embed(Coeff(c, 5)), Embed(Coeff(d, 5)), c, d);
  }

  lemma ThenUnit(j: nat, v: Element, s: bv32)
    requires j < 3
    ensures Then(j, v, 0) == ByRoot(j, v)
    ensures Then(j, 0, s) == Embed(s)
  {
    assert Embed(0) == 0;
    hide ByRoot, Add, Embed;
    AddUnit(ByRoot(j, v));
    AddUnit(Embed(s));
    ByRootAdds(j, 0, 0);
  }

  lemma ValueOfSymbol(j: nat, s: bv32)
    requires j < 3 && s < 32
    ensures Value(j, s) == Embed(s)
  {
    assert Embed(0) == 0;
    hide Then, Embed, Coeff;
    CoeffOfSymbol(s, 5); CoeffOfSymbol(s, 4); CoeffOfSymbol(s, 3);
    CoeffOfSymbol(s, 2); CoeffOfSymbol(s, 1); CoeffOfSymbol(s, 0);
    ByRootAdds(j, 0, 0);
    ThenUnit(j, 0, s);
  }

  /** Moving the symbols up by one place is multiplying by the root, the highest symbol left aside. */
  lemma ValueOfShifted(j: nat, c: bv32)
    requires j < 3
    ensures Value(j, Shifted(c, 0)) == ByRoot(j, Tail(j, 0, c))
  {
    hide Shifted, Embed, ByRoot, Then, Coeff;
    CoeffOfShifted(c, 5); CoeffOfShifted(c, 4); CoeffOfShifted(c, 3);
    CoeffOfShifted(c, 2); CoeffOfShifted(c, 1); CoeffOfShifted(c, 0);
    ThenUnit(j, 0, Coeff(c, 4));
    ThenUnit(j, Tail(j, 0, c), 0);
  }

  function SixTimes(j: nat, v: Element): Element
    requires j < 3
  {
    ByRoot(j, ByRoot(j, ByRoot(j, ByRoot(j, ByRoot(j, ByRoot(j, v))))))
  }

  lemma TailSplits(j: nat, v: Element, c: bv32)
    requires j < 3
    ensures ByRoot(j, Tail(j, v, c)) == Add(SixTimes(j, v), ByRoot(j, Tail(j, 0, c)))
  {
    assert Xor(0, c) == c;
    hide ByRoot, Add, Then, Xor, Coeff;
    CoeffOfSymbol(0, 4); CoeffOfSymbol(0, 3); CoeffOfSymbol(0, 2); CoeffOfSymbol(0, 1); CoeffOfSymbol(0, 0);
    AddUnit(v);
    TailAdds(j, v, 0, 0, c);
    var v1 := ByRoot(j, v);
    ThenUnit(j, v, 0);
    var v2 := ByRoot(j, v1);
    ThenUnit(j, v1, 0);
    var v3 := ByRoot(j, v2);
    ThenUnit(j, v2, 0);
    var v4 := ByRoot(j, v3);
    ThenUnit(j, v3, 0);
    ThenUnit(j, v4, 0);
    ByRootAdds(j, Tail(j, v, 0), Tail(j, 0, c));
  }

  lemma Evaluates(j: nat, c: bv32, v4: Element, v3: Element, v2: Element, v1: Element, v0: Element)
    requires j < 3
    requires Then(j, Embed(Coeff(c, 5)), Coeff(c, 4)) == v4 && Then(j, v4, Coeff(c, 3)) == v3
    requires Then(j, v3, Coeff(c, 2)) == v2 && Then(j, v2, Coeff(c, 1)) == v1 && Then(j, v1, Coeff(c, 0)) == v0
    ensures Value(j, c) == v0
  {
    hide Then, Coeff, Embed;
  }

  lemma Multiplies(j: nat, v: Element, v1: Element, v2: Element, v3: Element, v4: Element, v5: Element, v6: Element)
    requires j < 3
    requires ByRoot(j, v) == v1 && ByRoot(j, v1) == v2 && ByRoot(j, v2) == v3
    requires ByRoot(j, v3) == v4 && ByRoot(j, v4) == v5 && ByRoot(j, v5) == v6
    ensures SixTimes(j, v) == v6
  {
    hide ByRoot;
  }

  /** The generator has the root: the constants of a round have the values that x^6 times their scalars must have. */
  lemma ConstantsAtFirst()
    ensures Value(0, 0x3b6a57b2) == 0x2ba == SixTimes(0, 0x001)
    ensures Value(0, 0x26508e6d) == 0x1a5 == SixTimes(0, 0x00e)
    ensures Value(0, 0x1ea119fa) == 0x2b0 == SixTimes(0, 0x054)
    ensures Value(0, 0x3d4233dd) == 0x1c9 == SixTimes(0, 0x358)
    ensures Value(0, 0x2a1462b3) == 0x0b8 == SixTimes(0, 0x0bf)
  {
    Evaluates(0, 0x3b6a57b2, 0x07d, 0x07d, 0x07c, 0x0d4, 0x2ba);
    Multiplies(0, 0x001, 0x3f0, 0x24d, 0x2b9, 0x0b9, 0x009, 0x2ba);
    Evaluates(0, 0x26508e6d, 0x2e6, 0x2e6, 0x2e8, 0x17b, 0x1a5);
    Multiplies(0, 0x00e, 0x32c, 0x10c, 0x1b7, 0x37d, 0x07e, 0x1a5);
    Evaluates(0, 0x1ea119fa, 0x28d, 0x28d, 0x2d9, 0x3a7, 0x2b0);
    Multiplies(0, 0x054, 0x227, 0x12d, 0x24c, 0x149, 0x2f4, 0x2b0);
    Evaluates(0, 0x3d4233dd, 0x0af, 0x0af, 0x3f7, 0x066, 0x1c9);
    Multiplies(0, 0x358, 0x320, 0x0e3, 0x102, 0x29b, 0x271, 0x1c9);
    Evaluates(0, 0x2a1462b3, 0x3b9, 0x3b9, 0x306, 0x264, 0x0b8);
    Multiplies(0, 0x0bf, 0x26f, 0x071, 0x179, 0x06b, 0x064, 0x0b8);
  }

  lemma ConstantsAtSecond()
    ensures Value(1, 0x3b6a57b2) == 0x0a6 == SixTimes(1, 0x001)
    ensures Value(1, 0x26508e6d) == 0x3c7 == SixTimes(1, 0x00e)
    ensures Value(1, 0x1ea119fa) == 0x226 == SixTimes(1, 0x054)
    ensures Value(1, 0x3d4233dd) == 0x32e == SixTimes(1, 0x358)
    ensures Value(1, 0x2a1462b3) == 0x23b == SixTimes(1, 0x0bf)
  {
    Evaluates(1, 0x3b6a57b2, 0x1d5, 0x3ad, 0x069, 0x3df, 0x0a6);
    Multiplies(1, 0x001, 0x2c3, 0x372, 0x144, 0x1d6, 0x120, 0x0a6);
    Evaluates(1, 0x26508e6d, 0x010, 0x00a, 0x23e, 0x2b6, 0x3c7);
    Multiplies(1, 0x00e, 0x37b, 0x113, 0x2dd, 0x002, 0x0a5, 0x3c7);
    Evaluates(1, 0x1ea119fa, 0x0e0, 0x06c, 0x3be, 0x1ed, 0x226);
    Multiplies(1, 0x054, 0x16d, 0x197, 0x3cf, 0x01c, 0x3d5, 0x226);
    Evaluates(1, 0x3d4233dd, 0x063, 0x208, 0x0f8, 0x140, 0x32e);
    Multiplies(1, 0x358, 0x363, 0x38c, 0x256, 0x0a8, 0x2da, 0x32e);
    Evaluates(1, 0x2a1462b3, 0x252, 0x2ba, 0x0f3, 0x2e5, 0x23b);
    Multiplies(1, 0x0bf, 0x1fd, 0x1c4, 0x18e, 0x393, 0x3e5, 0x23b);
  }

  lemma ConstantsAtThird()
    ensures Value(2, 0x3b6a57b2) == 0x098 == SixTimes(2, 0x001)
    ensures Value(2, 0x26508e6d) == 0x2b3 == SixTimes(2, 0x00e)
    ensures Value(2, 0x1ea119fa) == 0x1db == SixTimes(2, 0x054)
    ensures Value(2, 0x3d4233dd) == 0x044 == SixTimes(2, 0x358)
    ensures Value(2, 0x2a1462b3) == 0x3b8 == SixTimes(2, 0x0bf)
  {
    Evaluates(2, 0x3b6a57b2, 0x285, 0x0aa, 0x137, 0x193, 0x098);
    Multiplies(2, 0x001, 0x0a5, 0x2ad, 0x066, 0x3aa, 0x27d, 0x098);
    Evaluates(2, 0x26508e6d, 0x0df, 0x38f, 0x06f, 0x3b4, 0x2b3);
    Multiplies(2, 0x00e, 0x3d5, 0x16f, 0x264, 0x020, 0x02c, 0x2b3);
    Evaluates(2, 0x1ea119fa, 0x119, 0x1d6, 0x21a, 0x094, 0x1db);
    Multiplies(2, 0x054, 0x2da, 0x37f, 0x0b2, 0x1c0, 0x188, 0x1db);
    Evaluates(2, 0x3d4233dd, 0x1fb, 0x002, 0x246, 0x2fb, 0x044);
    Multiplies(2, 0x358, 0x3e5, 0x155, 0x31f, 0x0c6, 0x336, 0x044);
    Evaluates(2, 0x2a1462b3, 0x184, 0x01c, 0x16e, 0x22b, 0x3b8);
    Multiplies(2, 0x0bf, 0x3fa, 0x233, 0x315, 0x187, 0x2ab, 0x3b8);
  }

  function If(b: bool, v: Element): Element {
    if b then v else 0
  }

  lemma SixTimesAdds(j: nat, v: Element, w: Element)
    requires j < 3
    ensures SixTimes(j, Add(v, w)) == Add(SixTimes(j, v), SixTimes(j, w))
    ensures SixTimes(j, 0) == 0
  {
    hide ByRoot, Add;
    var v1, w1 := ByRoot(j, v), ByRoot(j, w);
    ByRootAdds(j, v, w);
    var v2, w2 := ByRoot(j, v1), ByRoot(j, w1);
    ByRootAdds(j, v1, w1);
    var v3, w3 := ByRoot(j, v2), ByRoot(j, w2);
    ByRootAdds(j, v2, w2);
    var v4, w4 := ByRoot(j, v3), ByRoot(j, w3);
    ByRootAdds(j, v3, w3);
    ByRootAdds(j, v4, w4);
    ByRootAdds(j, ByRoot(j, v4), ByRoot(j, w4));
  }

  lemma SixTimesIf(j: nat, v: Element, b: bool, w: Element)
    requires j < 3
    ensures SixTimes(j, Add(v, If(b, w))) == Add(SixTimes(j, v), If(b, SixTimes(j, w)))
    ensures SixTimes(j, If(b, w)) == If(b, SixTimes(j, w))
  {
    hide SixTimes, Add;
    SixTimesAdds(j, v, If(b, w));
  }

  lemma TopBits(c: bv32)
    ensures (Coeff(c, 5) & 1 != 0) == HasTop(c, 1) && (Coeff(c, 5) & 2 != 0) == HasTop(c, 2)
    ensures (Coeff(c, 5) & 4 != 0) == HasTop(c, 4) && (Coeff(c, 5) & 8 != 0) == HasTop(c, 8)
    ensures (Coeff(c, 5) & 16 != 0) == HasTop(c, 16)
  {
  }

  lemma SixTimesTop(j: nat, c: bv32)
    requires j < 3
    ensures SixTimes(j, Embed(Coeff(c, 5))) ==
            Add(Add(Add(Add(If(HasTop(c, 1), SixTimes(j, 0x001)), If(HasTop(c, 2), SixTimes(j, 0x00e))),
              If(HasTop(c, 4), SixTimes(j, 0x054))), If(HasTop(c, 8), SixTimes(j, 0x358))), If(HasTop(c, 16), SixTimes(j, 0x0bf)))
  {
    TopBits(c);
    hide SixTimes, Add, HasTop, Coeff;
    var s1 := If(HasTop(c, 1), 0x001);
    SixTimesIf(j, 0, HasTop(c, 1), 0x001);
    SixTimesIf(j, s1, HasTop(c, 2), 0x00e);
    var s2 := Add(s1, If(HasTop(c, 2), 0x00e));
    SixTimesIf(j, s2, HasTop(c, 4), 0x054);
    var s3 := Add(s2, If(HasTop(c, 4), 0x054));
    SixTimesIf(j, s3, HasTop(c, 8), 0x358);
    SixTimesIf(j, Add(s3, If(HasTop(c, 8), 0x358)), HasTop(c, 16), 0x0bf);
  }

  lemma ValueOfReduced(j: nat, d: bv32, c: bv32, bit: bv32, k: bv32)
    requires j < 3
    ensures Value(j, Reduced(d, c, bit, k)) == Add(Value(j, d), If(HasTop(c, bit), Value(j, k)))
  {
    hide Value, Add, HasTop, Xor;
    ValueAdds(j, d, k);
    AddUnit(Value(j, d));
  }

  lemma Gather(s: Element, p1: Element, p2: Element, p3: Element, p4: Element, p5: Element)
    ensures Add(Add(Add(Add(Add(s, p1), p2), p3), p4), p5) == Add(Add(Add(Add(Add(p1, p2), p3), p4), p5), s)
  {
    hide Add;
    AddPairs(0, s, p1);
    AddUnit(s);
    AddUnit(p1);
    AddPairs(p1, p2, s);
    AddPairs(Add(p1, p2), p3, s);
    AddPairs(Add(Add(p1, p2), p3), p4, s);
    AddPairs(Add(Add(Add(p1, p2), p3), p4), p5, s);
  }

  lemma Constants(j: nat)
    requires j < 3
    ensures Value(j, 0x3b6a57b2) == SixTimes(j, 0x001) && Value(j, 0x26508e6d) == SixTimes(j, 0x00e)
    ensures Value(j, 0x1ea119fa) == SixTimes(j, 0x054) && Value(j, 0x3d4233dd) == SixTimes(j, 0x358)
    ensures Value(j, 0x2a1462b3) == SixTimes(j, 0x0bf)
  {
    hide Value, SixTimes;
    ConstantsAtFirst();
    ConstantsAtSecond();
    ConstantsAtThird();
  }

  /** A round with the symbol 0 multiplies the value at every root by the root. */
  lemma ValueOfStep(j: nat, c: bv32)
    requires j < 3
    ensures Value(j, Step(c, 0)) == ByRoot(j, Value(j, c))
  {
    TailSplits(j, Embed(Coeff(c, 5)), c);
    ValueOfShifted(j, c);
    assert ByRoot(j, Value(j, c)) == Add(SixTimes(j, Embed(Coeff(c, 5))), Value(j, Shifted(c, 0)));
    hide Value, Add, HasTop, Shifted, Reduced, SixTimes, ByRoot, If;
    SixTimesTop(j, c);
    Constants(j);
    var d := Shifted(c, 0);
    ValueOfReduced(j, d, c, 1, 0x3b6a57b2);
    var d1 := Reduced(d, c, 1, 0x3b6a57b2);
    ValueOfReduced(j, d1, c, 2, 0x26508e6d);
    var d2 := Reduced(d1, c, 2, 0x26508e6d);
    ValueOfReduced(j, d2, c, 4, 0x1ea119fa);
    var d3 := Reduced(d2, c, 4, 0x1ea119fa);
    ValueOfReduced(j, d3, c, 8, 0x3d4233dd);
    ValueOfReduced(j, Reduced(d3, c, 8, 0x3d4233dd), c, 16, 0x2a1462b3);
    Gather(Value(j, d), If(HasTop(c, 1), SixTimes(j, 0x001)), If(HasTop(c, 2), SixTimes(j, 0x00e)),
           If(HasTop(c, 4), SixTimes(j, 0x054)), If(HasTop(c, 8), SixTimes(j, 0x358)), If(HasTop(c, 16), SixTimes(j, 0x0bf)));
  }

  // ----- words with wrong symbols

  function ZeroRun(n: nat): (r: seq<bv8>)
    ensures |r| == n
  {
    seq(n, _ => 0)
  }

  /** What `v` at a root becomes in `n` rounds. */
  function Later(j: nat, n: nat, v: Element): Element {
    Raised(j * n, Raised(24 * n, v))
  }

  lemma LaterAdds(j: nat, n: nat, v: Element, w: Element)
    ensures Later(j, n, Add(v, w)) == Add(Later(j, n, v), Later(j, n, w))
    ensures Later(j, n, 0) == 0
  {
    hide Raised, Add;
    RaisedAdds(24 * n, v, w);
    RaisedAdds(j * n, Raised(24 * n, v), Raised(24 * n, w));
  }

  lemma LaterIs(j: nat, n: nat, v: Element)
    ensures Later(j, n, v) == Raised((24 + j) * n, v)
  {
    hide Raised;
    RaisedTwice(j * n, 24 * n, v);
    assert j * n + 24 * n == (24 + j) * n;
  }

  lemma LaterTwice(j: nat, m: nat, n: nat, v: Element)
    ensures Later(j, m, Later(j, n, v)) == Later(j, n + m, v)
  {
    hide Raised, Later;
    LaterIs(j, n, v);
    LaterIs(j, m, Raised((24 + j) * n, v));
    LaterIs(j, n + m, v);
    RaisedTwice((24 + j) * m, (24 + j) * n, v);
    assert (24 + j) * m + (24 + j) * n == (24 + j) * (n + m);
  }

  lemma {:induction false} ValueOfZeros(j: nat, c: bv32, n: nat)
    requires j < 3
    ensures Value(j, Feed(c, ZeroRun(n))) == Later(j, n, Value(j, c))
  {
    hide Value, Step, ByRoot;
    if n > 0 {
      assert ZeroRun(n)[..n - 1] == ZeroRun(n - 1);
      ValueOfZeros(j, c, n - 1);
      var v := Later(j, n - 1, Value(j, c));
      ValueOfStep(j, Feed(c, ZeroRun(n - 1)));
      ByRootIs(j, v);
      LaterIs(j, 1, v);
      LaterTwice(j, 1, n - 1, Value(j, c));
    }
  }

  /** The value after `n` rounds and then a symbol. */
  lemma ValueOfTwo(j: nat, c: bv32, n: nat, e: bv32)
    requires j < 3 && e < 32
    ensures Value(j, Xor(Feed(c, ZeroRun(n)), e)) == Add(Later(j, n, Value(j, c)), Embed(e))
  {
    hide Value, Xor, Feed, Later, Embed, Add;
    ValueOfZeros(j, c, n);
    ValueAdds(j, Feed(c, ZeroRun(n)), e);
    ValueOfSymbol(j, e);
  }

  /** One wrong symbol, and perhaps another one less than 1023 places later, do not cancel out. */
  lemma TwoSymbols(e: bv32, e': bv32, n: nat)
    requires 0 < e < 32 && e' < 32 && 0 < n < 1023
    ensures Xor(Feed(e, ZeroRun(n)), e') != 0
  {
    hide Value, Xor, Feed, Raised, Embed, Add;
    if Xor(Feed(e, ZeroRun(n)), e') == 0 {
      var v, c := Raised(24 * n, Embed(e)), Embed(e');
      NoValue(0);
      ValueOfTwo(0, e, n, e');
      ValueOfSymbol(0, e);
      NoValue(1);
      ValueOfTwo(1, e, n, e');
      ValueOfSymbol(1, e);
      NotRaised(v);
      SameIfZero(v, c);
      SameIfZero(Raised(n, v), c);
      OnlyZeroStays(n, v);
      RaisedAdds(24 * n, 0, 0);
      RaisedLosesNothing(24 * n, Embed(e), 0);
      EmbedLosesNothing(e);
    }
  }

  lemma NoValue(j: nat)
    requires j < 3
    ensures Value(j, 0) == 0
  {
    assert Embed(0) == 0;
    hide Value;
    ValueOfSymbol(j, 0);
  }

  /** The value of the difference that three symbols make, the second `n` rounds after the first and the third `m` after that. */
  lemma ValueOfThree(j: nat, e: bv32, n: nat, e': bv32, m: nat, e'': bv32)
    requires j < 3 && e < 32 && e' < 32 && e'' < 32
    ensures Value(j, Xor(Feed(Xor(Feed(e, ZeroRun(n)), e'), ZeroRun(m)), e'')) ==
            Add(Add(Later(j, n + m, Embed(e)), Later(j, m, Embed(e'))), Embed(e''))
  {
    hide Value, Xor, Feed, Later, Embed, Add;
    ValueOfTwo(j, e, n, e');
    ValueOfSymbol(j, e);
    ValueOfTwo(j, Xor(Feed(e, ZeroRun(n)), e'), m, e'');
    LaterAdds(j, m, Later(j, n, Embed(e)), Embed(e'));
    LaterTwice(j, m, n, Embed(e));
  }

  /** One wrong symbol, and perhaps two more less than 1023 places later, do not cancel out. */
  lemma ThreeSymbols(e: bv32, n: nat, e': bv32, m: nat, e'': bv32)
    requires 0 < e < 32 && e' < 32 && e'' < 32 && 0 < n && 0 < m && n + m < 1023
    ensures Xor(Feed(Xor(Feed(e, ZeroRun(n)), e'), ZeroRun(m)), e'') != 0
  {
    hide Value, Xor, Feed, Raised, Embed, Add;
    if Xor(Feed(Xor(Feed(e, ZeroRun(n)), e'), ZeroRun(m)), e'') == 0 {
      var v, w := Raised(24 * (n + m), Embed(e)), Raised(24 * m, Embed(e'));
      NoValue(0);
      NoValue(1);
      NoValue(2);
      ValueOfThree(0, e, n, e', m, e'');
      ValueOfThree(1, e, n, e', m, e'');
      ValueOfThree(2, e, n, e', m, e'');
      NotRaised(v);
      NotRaised(w);
      Vandermonde(v, w, Embed(e''), m, n + m);
      RaisedAdds(24 * (n + m), 0, 0);
      RaisedLosesNothing(24 * (n + m), Embed(e), 0);
      EmbedLosesNothing(e);
    }
  }

  lemma NotRaised(v: Element)
    ensures Raised(0, v) == v
  {
  }

  /** The middle terms of a sum of four change places. */
  lemma XorSwap(a: bv32, b: bv32, c: bv32, d: bv32)
    ensures Xor(Xor(a, b), Xor(c, d)) == Xor(Xor(a, c), Xor(b, d))
  {
    hide Xor;
    XorAssociates(Xor(a, b), c, d);
    XorAssociates(a, b, c);
    XorCommutes(b, c);
    XorAssociates(a, c, b);
    XorAssociates(Xor(a, c), b, d);
  }

  lemma {:induction false} FeedDifference(a: bv32, b: bv32, s: seq<bv8>)
    ensures Xor(Feed(a, s), Feed(b, s)) == Feed(Xor(a, b), ZeroRun(|s|))
  {
    hide Xor, Step;
    FeedIsLinear(a, b, s, s);
    forall i | 0 <= i < |s|
      ensures XorAll(s, s)[i] == 0
    {
      SymbolXor(s[i], 0);
    }
    assert XorAll(s, s) == ZeroRun(|s|);
  }

  /** A symbol is added to what the symbol 0 would give. */
  lemma StepAdds(c: bv32, v: bv8)
    ensures Step(c, v) == Xor(Step(c, 0), v as bv32)
  {
    hide Xor, Step;
    StepIsLinear(c, 0, 0, v);
    XorUnit(c, 0);
    SymbolXor(v, 0);
    StepOfSmall(0, v);
    ZeroShift(v);
  }

  function Difference(x: bv8, y: bv8): bv32 {
    Xor(x as bv32, y as bv32)
  }

  lemma SymbolDifference(x: bv8, y: bv8)
    requires x < 32 && y < 32
    ensures Difference(x, y) < 32
    ensures x != y ==> Difference(x, y) > 0
  {
  }

  lemma XorOfSums(a: bv32, b: bv32, x: bv32, y: bv32)
    ensures Xor(Xor(a, x), Xor(b, y)) == Xor(Xor(a, b), Xor(x, y))
  {
    XorSwap(a, x, b, y);
  }

  lemma StepsDiffer(a: bv32, b: bv32, x: bv8, y: bv8)
    ensures Xor(Step(a, x), Step(b, y)) == Xor(Step(Xor(a, b), 0), Xor(x as bv32, y as bv32))
  {
    hide Xor, Step;
    StepAdds(a, x);
    StepAdds(b, y);
    XorOfSums(Step(a, 0), Step(b, 0), x as bv32, y as bv32);
    StepIsLinear(a, b, 0, 0);
    SymbolXor(0, 0);
  }

  lemma FeedOneMore(e: bv32, n: nat)
    ensures Step(Feed(e, ZeroRun(n)), 0) == Feed(e, ZeroRun(n + 1))
  {
    hide Step;
    assert ZeroRun(n + 1)[..n] == ZeroRun(n);
  }

  lemma StepOfZero(e: bv32)
    ensures Xor(Step(0, 0), e) == e
  {
    XorUnit(e, e);
  }

  /** What two states differ by after the same symbols `mid` and then two that may differ. */
  lemma NextDifference(a: bv32, b: bv32, mid: seq<bv8>, y: bv8, y': bv8)
    ensures Xor(Step(Feed(a, mid), y), Step(Feed(b, mid), y')) ==
            Xor(Feed(Xor(a, b), ZeroRun(|mid| + 1)), Difference(y, y'))
  {
    hide Xor, Step, Feed;
    FeedDifference(a, b, mid);
    StepsDiffer(Feed(a, mid), Feed(b, mid), y, y');
    FeedOneMore(Xor(a, b), |mid|);
  }

  lemma FirstDifference(u: bv32, x: bv8, x': bv8)
    ensures Xor(Step(u, x), Step(u, x')) == Difference(x, x')
  {
    hide Xor, Step;
    StepsDiffer(u, u, x, x');
    XorUnit(u, u);
    StepOfZero(Xor(x as bv32, x' as bv32));
  }

  /** What two words that differ at two places make of a state. */
  lemma TwoDifferences(c: bv32, w: seq<bv8>, w': seq<bv8>, i: nat, j: nat)
    requires i < j < |w| == |w'| && w'[..i] == w[..i] && w'[i + 1..j] == w[i + 1..j]
    ensures Xor(Feed(c, w[..j + 1]), Feed(c, w'[..j + 1])) ==
            Xor(Feed(Difference(w[i], w'[i]), ZeroRun(j - i)), Difference(w[j], w'[j]))
  {
    hide Xor, Step, Feed, Difference;
    FeedTo(c, w, i, j);
    FeedTo(c, w', i, j);
    FirstDifference(Feed(c, w[..i]), w[i], w'[i]);
    NextDifference(Feed(c, w[..i + 1]), Feed(c, w'[..i + 1]), w[i + 1..j], w[j], w'[j]);
  }

  /** One wrong symbol, and perhaps a second one less than 1023 places later, change the state for good. */
  lemma TwoWrong(c: bv32, w: seq<bv8>, w': seq<bv8>, i: nat, j: nat)
    requires i < j < |w| == |w'| && j - i < 1023
    requires w[i] < 32 && w'[i] < 32 && w[j] < 32 && w'[j] < 32 && w[i] != w'[i]
    requires forall k :: 0 <= k < |w| && k != i && k != j ==> w[k] == w'[k]
    ensures Feed(c, w) != Feed(c, w')
  {
    hide Xor, Step, Feed, Difference;
    TwoDifferences(c, w, w', i, j);
    SymbolDifference(w[i], w'[i]);
    SymbolDifference(w[j], w'[j]);
    TwoSymbols(Difference(w[i], w'[i]), Difference(w[j], w'[j]), j - i);
    XorZero(Feed(c, w[..j + 1]), Feed(c, w'[..j + 1]));
    StaysApart(c, w, w', j + 1);
  }

  /** The state after symbol `j`, from that before symbol `i`. */
  lemma FeedTo(c: bv32, w: seq<bv8>, i: nat, j: nat)
    requires i < j < |w|
    ensures Feed(c, w[..i + 1]) == Step(Feed(c, w[..i]), w[i])
    ensures Feed(c, w[..j + 1]) == Step(Feed(Feed(c, w[..i + 1]), w[i + 1..j]), w[j])
  {
    hide Step;
    FeedNext(c, w, i);
    FeedNext(c, w, j);
    assert w[..j] == w[..i + 1] + w[i + 1..j];
    FeedMore(c, w[..i + 1], w[i + 1..j]);
  }

  /** States that differ go on differing while the same symbols follow. */
  lemma StaysApart(c: bv32, w: seq<bv8>, w': seq<bv8>, n: nat)
    requires 0 < n <= |w| == |w'| && w[n..] == w'[n..] && Feed(c, w[..n]) != Feed(c, w'[..n])
    ensures Feed(c, w) != Feed(c, w')
  {
    hide Step;
    FeedNext(c, w, n - 1);
    FeedNext(c, w', n - 1);
    StepInRange(Feed(c, w[..n - 1]), w[n - 1]);
    StepInRange(Feed(c, w'[..n - 1]), w'[n - 1]);
    assert w == w[..n] + w[n..] && w' == w'[..n] + w'[n..];
    FeedMore(c, w[..n], w[n..]);
    FeedMore(c, w'[..n], w'[n..]);
    FeedKeepsApart(Feed(c, w[..n]), Feed(c, w'[..n]), w[n..]);
  }

  /** What two words that differ at three places make of a state. */
  lemma ThreeDifferences(c: bv32, w: seq<bv8>, w': seq<bv8>, i: nat, j: nat, k: nat)
    requires i < j < k < |w| == |w'|
    requires w'[..i] == w[..i] && w'[i + 1..j] == w[i + 1..j] && w'[j + 1..k] == w[j + 1..k]
    ensures Xor(Feed(c, w[..k + 1]), Feed(c, w'[..k + 1])) ==
            Xor(Feed(Xor(Feed(Difference(w[i], w'[i]), ZeroRun(j - i)), Difference(w[j], w'[j])), ZeroRun(k - j)), Difference(w[k], w'[k]))
  {
    hide Xor, Step, Feed, Difference;
    TwoDifferences(c, w, w', i, j);
    FeedTo(c, w, j, k);
    FeedTo(c, w', j, k);
    NextDifference(Feed(c, w[..j + 1]), Feed(c, w'[..j + 1]), w[j + 1..k], w[k], w'[k]);
  }

  /** One wrong symbol, and perhaps two more less than 1023 places later, change the state for good. */
  lemma ThreeWrong(c: bv32, w: seq<bv8>, w': seq<bv8>, i: nat, j: nat, k: nat)
    requires i < j < k < |w| == |w'| && k - i < 1023 && Symbols(w) && Symbols(w') && w[i] != w'[i]
    requires forall n :: 0 <= n < |w| && n != i && n != j && n != k ==> w[n] == w'[n]
    ensures Feed(c, w) != Feed(c, w')
  {
    hide Xor, Step, Feed, Difference;
    ThreeDifferences(c, w, w', i, j, k);
    SymbolDifference(w[i], w'[i]);
    SymbolDifference(w[j], w'[j]);
    SymbolDifference(w[k], w'[k]);
    ThreeSymbols(Difference(w[i], w'[i]), j - i, Difference(w[j], w'[j]), k - j, Difference(w[k], w'[k]));
    XorZero(Feed(c, w[..k + 1]), Feed(c, w'[..k + 1]));
    StaysApart(c, w, w', k + 1);
  }

  ghost function WrongPlaces(w: seq<bv8>, w': seq<bv8>): set<nat>
    requires |w| == |w'|
  {
    set n: nat | n < |w| && w[n] != w'[n]
  }

  lemma FirstWrong(w: seq<bv8>, w': seq<bv8>) returns (i: nat)
    requires |w| == |w'| && WrongPlaces(w, w') != {}
    ensures i in WrongPlaces(w, w') && w[..i] == w'[..i]
  {
    var last :| last in WrongPlaces(w, w');
    i := 0;
    while w[i] == w'[i]
      invariant i <= last && forall n :: 0 <= n < i ==> w[n] == w'[n]
      decreases last - i
    {
      i := i + 1;
    }
  }

  /** Up to three wrong symbols within a window of 1023 are noticed, whatever surrounds them. */
  lemma FewWrong(c: bv32, w: seq<bv8>, w': seq<bv8>, start: nat)
    requires |w| == |w'| && Symbols(w) && Symbols(w') && WrongPlaces(w, w') != {} && |WrongPlaces(w, w')| <= 3
    requires forall n :: n in WrongPlaces(w, w') ==> start <= n < start + 1023
    ensures Feed(c, w) != Feed(c, w')
  {
    hide Feed;
    var wrong := WrongPlaces(w, w');
    var i := FirstWrong(w, w');
    assert forall n: nat :: n < i ==> w[n] == w[..i][n] == w'[..i][n] == w'[n];
    if wrong - {i} == {} {
      assert wrong <= {i};
      Elsewhere(w, w', {i});
      OneWrong(c, w, w', i);
    } else {
      var j :| j in wrong - {i};
      if wrong - {i} - {j} == {} {
        assert wrong <= {i, j};
        Elsewhere(w, w', {i, j});
        TwoWrong(c, w, w', i, j);
      } else {
        var k :| k in wrong - {i} - {j};
        assert |wrong - {i} - {j} - {k}| == 0;
        assert wrong <= {i, j, k};
        AmongThree(c, w, w', i, if j < k then j else k, if j < k then k else j);
      }
    }
  }

  lemma AmongThree(c: bv32, w: seq<bv8>, w': seq<bv8>, i: nat, j: nat, k: nat)
    requires i < j < k < |w| == |w'| && k - i < 1023 && Symbols(w) && Symbols(w') && w[i] != w'[i]
    requires WrongPlaces(w, w') <= {i, j, k}
    ensures Feed(c, w) != Feed(c, w')
  {
    hide Feed;
    Elsewhere(w, w', {i, j, k});
    ThreeWrong(c, w, w', i, j, k);
  }

  lemma Elsewhere(w: seq<bv8>, w': seq<bv8>, places: set<nat>)
    requires |w| == |w'| && WrongPlaces(w, w') <= places
    ensures forall n :: 0 <= n < |w| && n !in places ==> w[n] == w'[n]
  {
    forall n: nat | n < |w| && n !in places
      ensures w[n] == w'[n]
    {
      assert n !in WrongPlaces(w, w');
    }
  }
}
