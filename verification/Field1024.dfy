/**
 The field of 1024 elements, by one of its generators: every product needed is one
 with a power of the generator.
 */
module Field1024 {
  // Polynomials of degree below 10 over the bits, modulo x^10 + x^8 + x^5 + x + 1.
  type Element = bv10

  /** The product with x. */
  function ByX(v: Element): Element {
    if v & 0x200 != 0 then Add(v << 1, 0x123) else v << 1
  }

  /** The product with the `n`-th power of x. */
  function Raised(n: nat, v: Element): Element {
    if n == 0 then v else ByX(Raised(n - 1, v))
  }

  function Add(v: Element, w: Element): Element {
    v ^ w
  }

  lemma ByXAdds(v: Element, w: Element)
    ensures ByX(Add(v, w)) == Add(ByX(v), ByX(w))
    ensures ByX(0) == 0
  {
    ShiftAdds(v, w);
    TopAdds(v, w);
    hide Add;
    AddPairs(v << 1, w << 1, 0x123);
  }

  lemma ShiftAdds(v: Element, w: Element)
    ensures Add(v, w) << 1 == Add(v << 1, w << 1)
  {
  }

  lemma TopAdds(v: Element, w: Element)
    ensures (Add(v, w) & 0x200 != 0) == ((v & 0x200 != 0) != (w & 0x200 != 0))
  {
  }

  lemma AddPairs(v: Element, w: Element, c: Element)
    ensures Add(Add(v, c), w) == Add(Add(v, w), c) == Add(v, Add(w, c))
    ensures Add(Add(v, c), Add(w, c)) == Add(v, w)
  {
  }

  lemma ByXLosesNothing(v: Element, w: Element)
    requires ByX(v) == ByX(w)
    ensures v == w
  {
  }

  lemma {:induction false} RaisedAdds(n: nat, v: Element, w: Element)
    ensures Raised(n, Add(v, w)) == Add(Raised(n, v), Raised(n, w))
    ensures Raised(n, 0) == 0
  {
    hide ByX, Add;
    ByXAdds(v, w);
    if n > 0 {
      RaisedAdds(n - 1, v, w);
      ByXAdds(Raised(n - 1, v), Raised(n - 1, w));
    }
  }

  lemma {:induction false} RaisedLosesNothing(n: nat, v: Element, w: Element)
    requires Raised(n, v) == Raised(n, w)
    ensures v == w
  {
    hide ByX;
    if n > 0 {
      ByXLosesNothing(Raised(n - 1, v), Raised(n - 1, w));
      RaisedLosesNothing(n - 1, v, w);
    }
  }

  lemma {:induction false} RaisedTwice(m: nat, n: nat, v: Element)
    ensures Raised(m, Raised(n, v)) == Raised(m + n, v)
  {
    hide ByX;
    if m > 0 {
      RaisedTwice(m - 1, n, v);
    }
  }

  // ----- powers as tables

  /** `f` adds up what it has for the bits of its argument. */
  ghost predicate Additive(f: Element -> Element) {
    f(0) == 0 && forall v :: AdditiveAt(f, v)
  }

  ghost predicate AdditiveAt(f: Element -> Element, v: Element) {
    && f(v & 0x003) == Add(f(v & 0x001), f(v & 0x002))
    && f(v & 0x007) == Add(f(v & 0x003), f(v & 0x004))
    && f(v & 0x00f) == Add(f(v & 0x007), f(v & 0x008))
    && f(v & 0x01f) == Add(f(v & 0x00f), f(v & 0x010))
    && f(v & 0x03f) == Add(f(v & 0x01f), f(v & 0x020))
    && f(v & 0x07f) == Add(f(v & 0x03f), f(v & 0x040))
    && f(v & 0x0ff) == Add(f(v & 0x07f), f(v & 0x080))
    && f(v & 0x1ff) == Add(f(v & 0x0ff), f(v & 0x100))
    && f(v & 0x3ff) == Add(f(v & 0x1ff), f(v & 0x200))
  }

  ghost predicate Starts(n: nat, f: Element -> Element) {
    && Raised(n, 1) == f(1) && Raised(n + 1, 1) == f(2) && Raised(n + 2, 1) == f(4) && Raised(n + 3, 1) == f(8)
    && Raised(n + 4, 1) == f(16) && Raised(n + 5, 1) == f(32) && Raised(n + 6, 1) == f(64) && Raised(n + 7, 1) == f(128)
    && Raised(n + 8, 1) == f(256) && Raised(n + 9, 1) == f(512)
  }

  /** Ten powers of x in a row are all there is to know about the product with the first of them. */
  lemma Table(n: nat, f: Element -> Element, v: Element)
    requires Additive(f) && Starts(n, f)
    ensures Raised(n, v) == f(v)
  {
    assert AdditiveAt(f, v);
    RaisedAdds(n, 0, 0);
    BasePowers(n);
    hide Raised, Add;
    AllBits(v);
    OneBit(v, 1);
    OneBit(v, 0x002); Split(n, v, 0x001, 0x002, 0x003);
    OneBit(v, 0x004); Split(n, v, 0x003, 0x004, 0x007);
    OneBit(v, 0x008); Split(n, v, 0x007, 0x008, 0x00f);
    OneBit(v, 0x010); Split(n, v, 0x00f, 0x010, 0x01f);
    OneBit(v, 0x020); Split(n, v, 0x01f, 0x020, 0x03f);
    OneBit(v, 0x040); Split(n, v, 0x03f, 0x040, 0x07f);
    OneBit(v, 0x080); Split(n, v, 0x07f, 0x080, 0x0ff);
    OneBit(v, 0x100); Split(n, v, 0x0ff, 0x100, 0x1ff);
    OneBit(v, 0x200); Split(n, v, 0x1ff, 0x200, 0x3ff);
  }

  lemma AllBits(v: Element)
    ensures v & 0x3ff == v
  {
  }

  lemma OneBit(v: Element, m: Element)
    requires m != 0 && m & (m - 1) == 0
    ensures v & m == 0 || v & m == m
  {
  }

  lemma Split(n: nat, v: Element, low: Element, m: Element, all: Element)
    requires low & m == 0 && low | m == all
    ensures Raised(n, v & all) == Add(Raised(n, v & low), Raised(n, v & m))
  {
    hide Raised;
    assert v & all == Add(v & low, v & m);
    RaisedAdds(n, v & low, v & m);
  }

  /** The powers of x from the `n`-th on, as products of the bits. */
  lemma BasePowers(n: nat)
    ensures Raised(n, 2) == Raised(n + 1, 1)
    ensures Raised(n, 4) == Raised(n + 2, 1)
    ensures Raised(n, 8) == Raised(n + 3, 1)
    ensures Raised(n, 16) == Raised(n + 4, 1)
    ensures Raised(n, 32) == Raised(n + 5, 1)
    ensures Raised(n, 64) == Raised(n + 6, 1)
    ensures Raised(n, 128) == Raised(n + 7, 1)
    ensures Raised(n, 256) == Raised(n + 8, 1)
    ensures Raised(n, 512) == Raised(n + 9, 1)
  {
    FirstPowers();
    hide Raised;
    RaisedTwice(n, 1, 1); RaisedTwice(n, 2, 1); RaisedTwice(n, 3, 1); RaisedTwice(n, 4, 1); RaisedTwice(n, 5, 1);
    RaisedTwice(n, 6, 1); RaisedTwice(n, 7, 1); RaisedTwice(n, 8, 1); RaisedTwice(n, 9, 1);
  }

  lemma NextPower(n: nat, p: Element, q: Element)
    requires Raised(n, 1) == p && ByX(p) == q
    ensures Raised(n + 1, 1) == q
  {
    hide ByX;
  }

  lemma FirstPowers()
    ensures Raised(0, 1) == 1 && Raised(1, 1) == 2 && Raised(2, 1) == 4 && Raised(3, 1) == 8 && Raised(4, 1) == 16
    ensures Raised(5, 1) == 32 && Raised(6, 1) == 64 && Raised(7, 1) == 128 && Raised(8, 1) == 256 && Raised(9, 1) == 512
  {
    assert Raised(0, 1) == 1;
    hide Raised;
    NextPower(0, 1, 2); NextPower(1, 2, 4); NextPower(2, 4, 8); NextPower(3, 8, 16); NextPower(4, 16, 32);
    NextPower(5, 32, 64); NextPower(6, 64, 128); NextPower(7, 128, 256); NextPower(8, 256, 512);
  }

  lemma PowersTo24()
    ensures Raised(24, 1) == 0x3f0
  {
    FirstPowers();
    hide Raised;
    NextPower(9, 0x200, 0x123); NextPower(10, 0x123, 0x246); NextPower(11, 0x246, 0x1af); NextPower(12, 0x1af, 0x35e);
    NextPower(13, 0x35e, 0x39f); NextPower(14, 0x39f, 0x21d); NextPower(15, 0x21d, 0x119); NextPower(16, 0x119, 0x232);
    NextPower(17, 0x232, 0x147); NextPower(18, 0x147, 0x28e); NextPower(19, 0x28e, 0x03f); NextPower(20, 0x03f, 0x07e);
    NextPower(21, 0x07e, 0x0fc); NextPower(22, 0x0fc, 0x1f8); NextPower(23, 0x1f8, 0x3f0);
  }

  lemma PowersTo42()
    ensures Raised(24, 1) == 0x3f0 && Raised(25, 1) == 0x2c3 && Raised(26, 1) == 0x0a5 && Raised(27, 1) == 0x14a && Raised(28, 1) == 0x294
    ensures Raised(29, 1) == 0x00b && Raised(30, 1) == 0x016 && Raised(31, 1) == 0x02c && Raised(32, 1) == 0x058 && Raised(33, 1) == 0x0b0
    ensures Raised(34, 1) == 0x160 && Raised(35, 1) == 0x2c0 && Raised(36, 1) == 0x0a3 && Raised(37, 1) == 0x146 && Raised(38, 1) == 0x28c
    ensures Raised(39, 1) == 0x03b && Raised(40, 1) == 0x076 && Raised(41, 1) == 0x0ec && Raised(42, 1) == 0x1d8
  {
    PowersTo24();
    hide Raised;
    NextPower(24, 0x3f0, 0x2c3); NextPower(25, 0x2c3, 0x0a5); NextPower(26, 0x0a5, 0x14a); NextPower(27, 0x14a, 0x294);
    NextPower(28, 0x294, 0x00b); NextPower(29, 0x00b, 0x016); NextPower(30, 0x016, 0x02c); NextPower(31, 0x02c, 0x058);
    NextPower(32, 0x058, 0x0b0); NextPower(33, 0x0b0, 0x160); NextPower(34, 0x160, 0x2c0); NextPower(35, 0x2c0, 0x0a3);
    NextPower(36, 0x0a3, 0x146); NextPower(37, 0x146, 0x28c); NextPower(38, 0x28c, 0x03b); NextPower(39, 0x03b, 0x076);
    NextPower(40, 0x076, 0x0ec); NextPower(41, 0x0ec, 0x1d8);
  }

  // ----- the order of x

  // Products with some powers of x, written out with a column for every bit.

  function By24(v: Element): Element {
    ((0 - (v & 1)) & 0x3f0) ^ ((0 - ((v >> 1) & 1)) & 0x2c3) ^ ((0 - ((v >> 2) & 1)) & 0x0a5) ^ ((0 - ((v >> 3) & 1)) & 0x14a) ^
    ((0 - ((v >> 4) & 1)) & 0x294) ^ ((0 - ((v >> 5) & 1)) & 0x00b) ^ ((0 - ((v >> 6) & 1)) & 0x016) ^
    ((0 - ((v >> 7) & 1)) & 0x02c) ^ ((0 - ((v >> 8) & 1)) & 0x058) ^ ((0 - ((v >> 9) & 1)) & 0x0b0)
  }

  function By33(v: Element): Element {
    ((0 - (v & 1)) & 0x0b0) ^ ((0 - ((v >> 1) & 1)) & 0x160) ^ ((0 - ((v >> 2) & 1)) & 0x2c0) ^ ((0 - ((v >> 3) & 1)) & 0x0a3) ^
    ((0 - ((v >> 4) & 1)) & 0x146) ^ ((0 - ((v >> 5) & 1)) & 0x28c) ^ ((0 - ((v >> 6) & 1)) & 0x03b) ^
    ((0 - ((v >> 7) & 1)) & 0x076) ^ ((0 - ((v >> 8) & 1)) & 0x0ec) ^ ((0 - ((v >> 9) & 1)) & 0x1d8)
  }

  function By93(v: Element): Element {
    ((0 - (v & 1)) & 0x36a) ^ ((0 - ((v >> 1) & 1)) & 0x3f7) ^ ((0 - ((v >> 2) & 1)) & 0x2cd) ^ ((0 - ((v >> 3) & 1)) & 0x0b9) ^
    ((0 - ((v >> 4) & 1)) & 0x172) ^ ((0 - ((v >> 5) & 1)) & 0x2e4) ^ ((0 - ((v >> 6) & 1)) & 0x0eb) ^
    ((0 - ((v >> 7) & 1)) & 0x1d6) ^ ((0 - ((v >> 8) & 1)) & 0x3ac) ^ ((0 - ((v >> 9) & 1)) & 0x27b)
  }

  function By341(v: Element): Element {
    ((0 - (v & 1)) & 0x036) ^ ((0 - ((v >> 1) & 1)) & 0x06c) ^ ((0 - ((v >> 2) & 1)) & 0x0d8) ^ ((0 - ((v >> 3) & 1)) & 0x1b0) ^
    ((0 - ((v >> 4) & 1)) & 0x360) ^ ((0 - ((v >> 5) & 1)) & 0x3e3) ^ ((0 - ((v >> 6) & 1)) & 0x2e5) ^
    ((0 - ((v >> 7) & 1)) & 0x0e9) ^ ((0 - ((v >> 8) & 1)) & 0x1d2) ^ ((0 - ((v >> 9) & 1)) & 0x3a4)
  }

  lemma Is24(v: Element)
    ensures Raised(24, v) == By24(v)
  {
    hide Raised, Add;
    PowersTo42();
    Adds24();
    Table(24, By24, v);
  }

  lemma Adds24()
    ensures Additive(By24)
  {
    forall v: Element
      ensures AdditiveAt(By24, v)
    {
      LowBits24(v);
      HighBits24(v);
      hide By24, Add;
    }
    assert By24(0) == 0;
  }

  lemma LowBits24(v: Element)
    ensures By24(v & 0x003) == Add(By24(v & 0x001), By24(v & 0x002))
    ensures By24(v & 0x007) == Add(By24(v & 0x003), By24(v & 0x004))
    ensures By24(v & 0x00f) == Add(By24(v & 0x007), By24(v & 0x008))
    ensures By24(v & 0x01f) == Add(By24(v & 0x00f), By24(v & 0x010))
    ensures By24(v & 0x03f) == Add(By24(v & 0x01f), By24(v & 0x020))
    ensures By24(v & 0x07f) == Add(By24(v & 0x03f), By24(v & 0x040))
    ensures By24(v & 0x0ff) == Add(By24(v & 0x07f), By24(v & 0x080))
  {
  }

  lemma HighBits24(v: Element)
    ensures By24(v & 0x1ff) == Add(By24(v & 0x0ff), By24(v & 0x100))
    ensures By24(v & 0x3ff) == Add(By24(v & 0x1ff), By24(v & 0x200))
  {
  }

  lemma Is33(v: Element)
    ensures Raised(33, v) == By33(v)
  {
    hide Raised, Add;
    PowersTo42();
    Adds33();
    Table(33, By33, v);
  }

  lemma Adds33()
    ensures Additive(By33)
  {
    forall v: Element
      ensures AdditiveAt(By33, v)
    {
      LowBits33(v);
      HighBits33(v);
      hide By33, Add;
    }
    assert By33(0) == 0;
  }

  lemma LowBits33(v: Element)
    ensures By33(v & 0x003) == Add(By33(v & 0x001), By33(v & 0x002))
    ensures By33(v & 0x007) == Add(By33(v & 0x003), By33(v & 0x004))
    ensures By33(v & 0x00f) == Add(By33(v & 0x007), By33(v & 0x008))
    ensures By33(v & 0x01f) == Add(By33(v & 0x00f), By33(v & 0x010))
    ensures By33(v & 0x03f) == Add(By33(v & 0x01f), By33(v & 0x020))
    ensures By33(v & 0x07f) == Add(By33(v & 0x03f), By33(v & 0x040))
    ensures By33(v & 0x0ff) == Add(By33(v & 0x07f), By33(v & 0x080))
  {
  }

  lemma HighBits33(v: Element)
    ensures By33(v & 0x1ff) == Add(By33(v & 0x0ff), By33(v & 0x100))
    ensures By33(v & 0x3ff) == Add(By33(v & 0x1ff), By33(v & 0x200))
  {
  }

  lemma Further66(n: nat, p: Element, q: Element, r: Element)
    requires Raised(n, 1) == p && By33(p) == q && By33(q) == r
    ensures Raised(n + 66, 1) == r
  {
    hide By33, Raised;
    RaisedTwice(33, n, 1);
    RaisedTwice(33, n + 33, 1);
    Is33(p);
    Is33(q);
  }

  lemma Powers93To102()
    ensures Raised(93, 1) == 0x36a && Raised(94, 1) == 0x3f7 && Raised(95, 1) == 0x2cd && Raised(96, 1) == 0x0b9 && Raised(97, 1) == 0x172
    ensures Raised(98, 1) == 0x2e4 && Raised(99, 1) == 0x0eb && Raised(100, 1) == 0x1d6 && Raised(101, 1) == 0x3ac && Raised(102, 1) == 0x27b
  {
    hide Raised;
    PowersTo42();
    Further66(27, 0x14a, 0x114, 0x36a);
    Further66(28, 0x294, 0x228, 0x3f7);
    Further66(29, 0x00b, 0x173, 0x2cd);
    Further66(30, 0x016, 0x2e6, 0x0b9);
    Further66(31, 0x02c, 0x0ef, 0x172);
    Further66(32, 0x058, 0x1de, 0x2e4);
    Further66(33, 0x0b0, 0x3bc, 0x0eb);
    Further66(34, 0x160, 0x25b, 0x1d6);
    Further66(35, 0x2c0, 0x195, 0x3ac);
    Further66(36, 0x0a3, 0x32a, 0x27b);
  }

  lemma Is93(v: Element)
    ensures Raised(93, v) == By93(v)
  {
    hide Raised, Add;
    Powers93To102();
    Adds93();
    Table(93, By93, v);
  }

  lemma Adds93()
    ensures Additive(By93)
  {
    forall v: Element
      ensures AdditiveAt(By93, v)
    {
      LowBits93(v);
      HighBits93(v);
      hide By93, Add;
    }
    assert By93(0) == 0;
  }

  lemma LowBits93(v: Element)
    ensures By93(v & 0x003) == Add(By93(v & 0x001), By93(v & 0x002))
    ensures By93(v & 0x007) == Add(By93(v & 0x003), By93(v & 0x004))
    ensures By93(v & 0x00f) == Add(By93(v & 0x007), By93(v & 0x008))
    ensures By93(v & 0x01f) == Add(By93(v & 0x00f), By93(v & 0x010))
    ensures By93(v & 0x03f) == Add(By93(v & 0x01f), By93(v & 0x020))
    ensures By93(v & 0x07f) == Add(By93(v & 0x03f), By93(v & 0x040))
    ensures By93(v & 0x0ff) == Add(By93(v & 0x07f), By93(v & 0x080))
  {
  }

  lemma HighBits93(v: Element)
    ensures By93(v & 0x1ff) == Add(By93(v & 0x0ff), By93(v & 0x100))
    ensures By93(v & 0x3ff) == Add(By93(v & 0x1ff), By93(v & 0x200))
  {
  }

  lemma Further312(n: nat, p: Element, q: Element, r: Element, s: Element, t: Element)
    requires Raised(n, 1) == p && By33(p) == q && By93(q) == r && By93(r) == s && By93(s) == t
    ensures Raised(n + 312, 1) == t
  {
    hide By33, By93, Raised;
    RaisedTwice(33, n, 1);
    RaisedTwice(93, n + 33, 1);
    RaisedTwice(93, n + 126, 1);
    RaisedTwice(93, n + 219, 1);
    Is33(p);
    Is93(q);
    Is93(r);
    Is93(s);
  }

  lemma Powers341To350()
    ensures Raised(341, 1) == 0x036 && Raised(342, 1) == 0x06c && Raised(343, 1) == 0x0d8 && Raised(344, 1) == 0x1b0 && Raised(345, 1) == 0x360
    ensures Raised(346, 1) == 0x3e3 && Raised(347, 1) == 0x2e5 && Raised(348, 1) == 0x0e9 && Raised(349, 1) == 0x1d2 && Raised(350, 1) == 0x3a4
  {
    hide Raised;
    PowersTo42();
    Further312(29, 0x00b, 0x173, 0x04c, 0x29f, 0x036);
    Further312(30, 0x016, 0x2e6, 0x098, 0x01d, 0x06c);
    Further312(31, 0x02c, 0x0ef, 0x130, 0x03a, 0x0d8);
    Further312(32, 0x058, 0x1de, 0x260, 0x074, 0x1b0);
    Further312(33, 0x0b0, 0x3bc, 0x1e3, 0x0e8, 0x360);
    Further312(34, 0x160, 0x25b, 0x3c6, 0x1d0, 0x3e3);
    Further312(35, 0x2c0, 0x195, 0x2af, 0x3a0, 0x2e5);
    Further312(36, 0x0a3, 0x32a, 0x07d, 0x263, 0x0e9);
    Further312(37, 0x146, 0x377, 0x0fa, 0x1e5, 0x1d2);
    Further312(38, 0x28c, 0x3cd, 0x1f4, 0x3ca, 0x3a4);
  }

  lemma Is341(v: Element)
    ensures Raised(341, v) == By341(v)
  {
    hide Raised, Add;
    Powers341To350();
    Adds341();
    Table(341, By341, v);
  }

  lemma Adds341()
    ensures Additive(By341)
  {
    forall v: Element
      ensures AdditiveAt(By341, v)
    {
      LowBits341(v);
      HighBits341(v);
      hide By341, Add;
    }
    assert By341(0) == 0;
  }

  lemma LowBits341(v: Element)
    ensures By341(v & 0x003) == Add(By341(v & 0x001), By341(v & 0x002))
    ensures By341(v & 0x007) == Add(By341(v & 0x003), By341(v & 0x004))
    ensures By341(v & 0x00f) == Add(By341(v & 0x007), By341(v & 0x008))
    ensures By341(v & 0x01f) == Add(By341(v & 0x00f), By341(v & 0x010))
    ensures By341(v & 0x03f) == Add(By341(v & 0x01f), By341(v & 0x020))
    ensures By341(v & 0x07f) == Add(By341(v & 0x03f), By341(v & 0x040))
    ensures By341(v & 0x0ff) == Add(By341(v & 0x07f), By341(v & 0x080))
  {
  }

  lemma HighBits341(v: Element)
    ensures By341(v & 0x1ff) == Add(By341(v & 0x0ff), By341(v & 0x100))
    ensures By341(v & 0x3ff) == Add(By341(v & 0x1ff), By341(v & 0x200))
  {
  }

  lemma OnlyZeroStays33(v: Element)
    requires By33(v) == v
    ensures v == 0
  {
  }

  lemma OnlyZeroStays93(v: Element)
    requires By93(v) == v
    ensures v == 0
  {
  }

  lemma OnlyZeroStays341(v: Element)
    requires By341(v) == v
    ensures v == 0
  {
  }

  /** The 341st power is a third root of 1. */
  lemma ThreeTimes341(v: Element)
    ensures By341(By341(By341(v))) == v
  {
  }

  /** The 1023rd power is 1. */
  lemma AfterAll(v: Element)
    ensures Raised(1023, v) == v
  {
    hide Raised, By341;
    Is341(v);
    Is341(By341(v));
    Is341(By341(By341(v)));
    RaisedTwice(341, 341, v);
    RaisedTwice(341, 682, v);
    ThreeTimes341(v);
  }

  function Gcd(a: nat, b: nat): nat
    decreases b
  {
    if b == 0 then a else Gcd(b, a % b)
  }

  lemma {:induction false} StaysManyTimes(n: nat, k: nat, v: Element)
    requires Raised(n, v) == v
    ensures Raised(n * k, v) == v
  {
    hide ByX;
    if k > 0 {
      assert n * k == n + n * (k - 1);
      StaysManyTimes(n, k - 1, v);
      RaisedTwice(n, n * (k - 1), v);
    }
  }

  lemma StaysForRest(a: nat, b: nat, v: Element)
    requires b > 0 && Raised(a, v) == v && Raised(b, v) == v
    ensures Raised(a % b, v) == v
  {
    hide Raised;
    StaysManyTimes(b, a / b, v);
    assert a == a % b + b * (a / b);
    RaisedTwice(a % b, b * (a / b), v);
  }

  /** Two powers that leave `v` as it is have a common divisor that does. */
  lemma {:induction false} StaysForGcd(a: nat, b: nat, v: Element)
    requires Raised(a, v) == v && Raised(b, v) == v
    ensures Raised(Gcd(a, b), v) == v
    decreases b
  {
    hide Raised;
    if b > 0 {
      StaysForRest(a, b, v);
      StaysForGcd(b, a % b, v);
    }
  }

  lemma StaysForFactor(d: nat, p: nat, m: nat, v: Element)
    requires p > 0 && p * m == 1023 && Raised(d, v) == v && Gcd(1023, m * (d % p)) == m
    ensures Raised(m, v) == v
  {
    hide Raised, Gcd;
    var q, r := d / p, d % p;
    StaysManyTimes(d, m, v);
    AfterAll(v);
    StaysManyTimes(1023, q, v);
    ByFactor(d, p, m);
    RaisedTwice(m * r, 1023 * q, v);
    StaysForGcd(1023, m * r, v);
  }

  lemma ByFactor(d: nat, p: nat, m: nat)
    requires p > 0 && p * m == 1023
    ensures d * m == m * (d % p) + 1023 * (d / p)
  {
    var q, r := d / p, d % p;
    assert d == p * q + r;
    assert d * m == (p * q) * m + r * m;
    assert (p * q) * m == (p * m) * q;
  }

  lemma Factor3(r: nat)
    requires 0 < r < 3
    ensures Gcd(1023, 341 * r) == 341
  {
    assert Gcd(1023, 341) == 341 && Gcd(1023, 682) == 341;
  }

  lemma Factor11(r: nat)
    requires 0 < r < 11
    ensures Gcd(1023, 93 * r) == 93
  {
    assert Gcd(1023, 93) == 93 && Gcd(1023, 186) == 93 && Gcd(1023, 279) == 93 && Gcd(1023, 372) == 93 && Gcd(1023, 465) == 93 && Gcd(1023, 558) == 93;
    assert Gcd(1023, 651) == 93 && Gcd(1023, 744) == 93 && Gcd(1023, 837) == 93 && Gcd(1023, 930) == 93;
  }

  lemma Factor31(r: nat)
    requires 0 < r < 31
    ensures Gcd(1023, 33 * r) == 33
  {
    hide Gcd;
    Multiples33();
  }

  lemma Multiples33()
    ensures Gcd(1023, 33) == 33 && Gcd(1023, 66) == 33 && Gcd(1023, 99) == 33 && Gcd(1023, 132) == 33 && Gcd(1023, 165) == 33
    ensures Gcd(1023, 198) == 33 && Gcd(1023, 231) == 33 && Gcd(1023, 264) == 33 && Gcd(1023, 297) == 33 && Gcd(1023, 330) == 33
    ensures Gcd(1023, 363) == 33 && Gcd(1023, 396) == 33 && Gcd(1023, 429) == 33 && Gcd(1023, 462) == 33 && Gcd(1023, 495) == 33
    ensures Gcd(1023, 528) == 33 && Gcd(1023, 561) == 33 && Gcd(1023, 594) == 33 && Gcd(1023, 627) == 33 && Gcd(1023, 660) == 33
    ensures Gcd(1023, 693) == 33 && Gcd(1023, 726) == 33 && Gcd(1023, 759) == 33 && Gcd(1023, 792) == 33 && Gcd(1023, 825) == 33
    ensures Gcd(1023, 858) == 33 && Gcd(1023, 891) == 33 && Gcd(1023, 924) == 33 && Gcd(1023, 957) == 33 && Gcd(1023, 990) == 33
  {
  }

  /** The powers below the 1023rd leave only 0 as it is. */
  lemma OnlyZeroStays(d: nat, v: Element)
    requires 0 < d < 1023 && Raised(d, v) == v
    ensures v == 0
  {
    hide Raised, By33, By93, By341, Gcd;
    if d % 31 != 0 {
      Factor31(d % 31);
      StaysForFactor(d, 31, 33, v);
      Is33(v);
      OnlyZeroStays33(v);
    } else if d % 11 != 0 {
      Factor11(d % 11);
      StaysForFactor(d, 11, 93, v);
      Is93(v);
      OnlyZeroStays93(v);
    } else if d % 3 != 0 {
      Factor3(d % 3);
      StaysForFactor(d, 3, 341, v);
      Is341(v);
      OnlyZeroStays341(v);
    }
  }

  lemma Cancel(v: Element, w: Element, v': Element, w': Element, c: Element)
    requires Add(Add(v, w), c) == 0 && Add(Add(v', w'), c) == 0
    ensures Add(v', v) == Add(w', w)
  {
  }

  lemma SameIfZero(v: Element, w: Element)
    ensures Add(v, w) == 0 <==> v == w
  {
  }

  /** The equations of a code with three roots in a row: three terms that cancel out at each of them are not there. */
  lemma Vandermonde(v: Element, w: Element, c: Element, m: nat, n: nat)
    requires 0 < m < n < 1023
    requires Add(Add(v, w), c) == 0
    requires Add(Add(Raised(n, v), Raised(m, w)), c) == 0
    requires Add(Add(Raised(2 * n, v), Raised(2 * m, w)), c) == 0
    ensures v == 0
  {
    hide Raised;
    Cancel(v, w, Raised(n, v), Raised(m, w), c);
    Cancel(Raised(n, v), Raised(m, w), Raised(2 * n, v), Raised(2 * m, w), c);
    SameIfZero(Raised(n, v), v);
    hide Add;
    var y := Add(Raised(n, v), v);
    RaisedAdds(n, Raised(n, v), v);
    RaisedAdds(m, Raised(m, w), w);
    RaisedTwice(n, n, v);
    RaisedTwice(m, m, w);
    RaisedTwice(m, n - m, y);
    RaisedLosesNothing(m, Raised(n - m, y), y);
    OnlyZeroStays(n - m, y);
    OnlyZeroStays(n, v);
  }
}
