/**
 Bech32: the checksum as a linear map over the 30-bit state, encoding and
 decoding of strings, and detection of a wrong symbol; `Bech32Errors` has more on errors.
 */
module Bech32 {

  // ----- the checksum polynomial

  function Xor(a: bv32, b: bv32): bv32 {
    a ^ b
  }

  function Shifted(c: bv32, v: bv8): bv32 {
    ((c & 0x1ffffff) << 5) ^ (v as bv32)
  }

  predicate HasTop(c: bv32, bit: bv32) {
    (c >> 25) & bit != 0
  }

  function Reduced(d: bv32, c: bv32, bit: bv32, k: bv32): bv32 {
    if HasTop(c, bit) then Xor(d, k) else d
  }

  /** One round of PolyMod: multiply by x, add the symbol, reduce by the generator. */
  function Step(c: bv32, v: bv8): bv32 {
    var d := Shifted(c, v);
    var d := Reduced(d, c, 1, 0x3b6a57b2);
    var d := Reduced(d, c, 2, 0x26508e6d);
    var d := Reduced(d, c, 4, 0x1ea119fa);
    var d := Reduced(d, c, 8, 0x3d4233dd);
    Reduced(d, c, 16, 0x2a1462b3)
  }

  lemma XorLaws(a: bv32, b: bv32, k: bv32)
    ensures Xor(Xor(a, k), Xor(b, k)) == Xor(a, b)
    ensures Xor(Xor(a, k), b) == Xor(Xor(a, b), k)
    ensures Xor(a, Xor(b, k)) == Xor(Xor(a, b), k)
  {
    hide Xor;
    XorAssociates(a, b, k);
    XorAssociates(a, k, b);
    XorCommutes(b, k);
    XorAssociates(Xor(a, k), b, k);
    XorAssociates(Xor(a, b), k, k);
    XorSelf(k);
    XorSelf(Xor(a, b));
  }

  lemma XorAssociates(a: bv32, b: bv32, c: bv32)
    ensures Xor(a, Xor(b, c)) == Xor(Xor(a, b), c)
  {
    assert a ^ (b ^ c) == (a ^ b) ^ c;
  }

  lemma XorCommutes(a: bv32, b: bv32)
    ensures Xor(a, b) == Xor(b, a)
  {
  }

  lemma XorSelf(a: bv32)
    ensures Xor(a, a) == 0 && Xor(a, 0) == a && Xor(0, a) == a
  {
  }

  lemma ShiftedIsLinear(c: bv32, d: bv32, v: bv8, w: bv8)
    ensures Shifted(Xor(c, d), v ^ w) == Xor(Shifted(c, v), Shifted(d, w))
  {
  }

  lemma TopBits(c: bv32, d: bv32, bit: bv32)
    requires bit == 1 || bit == 2 || bit == 4 || bit == 8 || bit == 16
    ensures HasTop(Xor(c, d), bit) <==> HasTop(c, bit) != HasTop(d, bit)
  {
  }

  lemma ReducedIsLinear(c: bv32, c': bv32, d: bv32, d': bv32, bit: bv32, k: bv32)
    requires bit == 1 || bit == 2 || bit == 4 || bit == 8 || bit == 16
    ensures Reduced(Xor(d, d'), Xor(c, c'), bit, k) == Xor(Reduced(d, c, bit, k), Reduced(d', c', bit, k))
  {
    hide Xor, HasTop;
    TopBits(c, c', bit);
    XorLaws(d, d', k);
  }

  /** A round is linear in state and symbol together. */
  lemma StepIsLinear(c: bv32, d: bv32, v: bv8, w: bv8)
    ensures Step(Xor(c, d), v ^ w) == Xor(Step(c, v), Step(d, w))
  {
    hide Shifted, Xor, Reduced;
    ShiftedIsLinear(c, d, v, w);
    var a, b := Shifted(c, v), Shifted(d, w);
    ReducedIsLinear(c, d, a, b, 1, 0x3b6a57b2);
    var a1, b1 := Reduced(a, c, 1, 0x3b6a57b2), Reduced(b, d, 1, 0x3b6a57b2);
    ReducedIsLinear(c, d, a1, b1, 2, 0x26508e6d);
    var a2, b2 := Reduced(a1, c, 2, 0x26508e6d), Reduced(b1, d, 2, 0x26508e6d);
    ReducedIsLinear(c, d, a2, b2, 4, 0x1ea119fa);
    var a3, b3 := Reduced(a2, c, 4, 0x1ea119fa), Reduced(b2, d, 4, 0x1ea119fa);
    ReducedIsLinear(c, d, a3, b3, 8, 0x3d4233dd);
    var a4, b4 := Reduced(a3, c, 8, 0x3d4233dd), Reduced(b3, d, 8, 0x3d4233dd);
    ReducedIsLinear(c, d, a4, b4, 16, 0x2a1462b3);
  }

  lemma StepInRange(c: bv32, v: bv8)
    ensures Step(c, v) < 0x4000_0000
  {
  }

  /** A round loses nothing: only the zero state leads to zero. */
  lemma StepKeepsNonzero(c: bv32)
    requires c < 0x4000_0000 && c != 0
    ensures Step(c, 0) != 0
  {
  }

  lemma StepOfSmall(c: bv32, v: bv8)
    requires c < 0x200_0000
    ensures Step(c, v) == (c << 5) ^ (v as bv32)
  {
  }

  lemma XorUnit(c: bv32, d: bv32)
    ensures Xor(c, 0) == c && Xor(0, c) == c && Xor(c, c) == 0
    ensures Xor(Xor(c, d), d) == c && Xor(c, d) == Xor(d, c)
  {
    hide Xor;
    XorSelf(c);
    XorSelf(d);
    XorAssociates(c, d, d);
    XorCommutes(c, d);
  }

  lemma XorZero(c: bv32, d: bv32)
    ensures Xor(c, d) == 0 <==> c == d
  {
    hide Xor;
    XorUnit(c, d);
    XorUnit(d, c);
  }

  /** The state after feeding symbols to it. */
  function Feed(c: bv32, s: seq<bv8>): bv32 {
    if s == [] then c else Step(Feed(c, s[..|s| - 1]), s[|s| - 1])
  }

  method PolyMod(v: seq<bv8>) returns (c: bv32)
    ensures c == Feed(1, v)
  {
    c := 1;
    for i := 0 to |v|
      invariant c == Feed(1, v[..i])
    {
      assert v[..i + 1][..i] == v[..i];
      c := Step(c, v[i]);
    }
    assert v[..|v|] == v;
  }

  lemma {:induction false} FeedMore(c: bv32, s: seq<bv8>, t: seq<bv8>)
    ensures Feed(c, s + t) == Feed(Feed(c, s), t)
  {
    hide Step;
    if t == [] {
      assert s + t == s;
    } else {
      var u := t[..|t| - 1];
      assert (s + t)[..|s + t| - 1] == s + u;
      FeedMore(c, s, u);
    }
  }

  lemma {:induction false} FeedInRange(c: bv32, s: seq<bv8>)
    requires c < 0x4000_0000
    ensures Feed(c, s) < 0x4000_0000
  {
    hide Step;
    if s != [] {
      StepInRange(Feed(c, s[..|s| - 1]), s[|s| - 1]);
    }
  }

  function XorSymbols(x: bv8, y: bv8): bv8 {
    x ^ y
  }

  function XorAll(s: seq<bv8>, t: seq<bv8>): (r: seq<bv8>)
    requires |s| == |t|
    ensures |r| == |s|
  {
    seq(|s|, i requires 0 <= i < |s| => XorSymbols(s[i], t[i]))
  }

  lemma {:induction false} FeedIsLinear(c: bv32, d: bv32, s: seq<bv8>, t: seq<bv8>)
    requires |s| == |t|
    ensures Feed(Xor(c, d), XorAll(s, t)) == Xor(Feed(c, s), Feed(d, t))
  {
    hide Step, Xor;
    var n := |s|;
    if n > 0 {
      var s', t' := s[..n - 1], t[..n - 1];
      assert XorAll(s, t)[..n - 1] == XorAll(s', t');
      FeedIsLinear(c, d, s', t');
      StepIsLinear(Feed(c, s'), Feed(d, t'), s[n - 1], t[n - 1]);
    }
  }

  /** Different states stay different, whatever is fed to both. */
  lemma {:induction false} FeedKeepsApart(c: bv32, d: bv32, s: seq<bv8>)
    requires c < 0x4000_0000 && d < 0x4000_0000 && c != d
    ensures Feed(c, s) != Feed(d, s)
  {
    hide Step, Xor;
    if s != [] {
      var u, x := s[..|s| - 1], s[|s| - 1];
      FeedKeepsApart(c, d, u);
      FeedInRange(c, u);
      FeedInRange(d, u);
      var a, b := Feed(c, u), Feed(d, u);
      StepIsLinear(a, b, x, x);
      SymbolXor(x, 0);
      XorZero(a, b);
      XorInRange(a, b);
      StepKeepsNonzero(Xor(a, b));
      XorZero(Step(a, x), Step(b, x));
    }
  }

  lemma SymbolXor(x: bv8, y: bv8)
    ensures x ^ x == 0 && x ^ 0 == x && 0 ^ x == x
    ensures x != y ==> (x as bv32) != (y as bv32)
  {
  }

  lemma XorInRange(a: bv32, b: bv32)
    requires a < 0x4000_0000 && b < 0x4000_0000
    ensures Xor(a, b) < 0x4000_0000
  {
  }

  // ----- checksums

  function CharCode(c: char): (r: nat)
    ensures r < 256
  {
    c as int % 256
  }

  function ByteOf(c: char): bv8 {
    CharCode(c) as bv8
  }

  function HighBits(c: char): bv8 {
    ByteOf(c) >> 5
  }

  function LowBits(c: char): bv8 {
    ByteOf(c) & 31
  }

  function ExpandedHrp(hrp: string): seq<bv8> {
    seq(|hrp|, i requires 0 <= i < |hrp| => HighBits(hrp[i])) + [0]
    + seq(|hrp|, i requires 0 <= i < |hrp| => LowBits(hrp[i]))
  }

  /** ExpandHRP */
  method ExpandHrp(hrp: string) returns (ret: seq<bv8>)
    ensures ret == ExpandedHrp(hrp)
  {
    ret := seq(2 * |hrp| + 1, _ => 0);
    for i := 0 to |hrp|
      invariant |ret| == 2 * |hrp| + 1
      invariant forall j :: 0 <= j < i ==> ret[j] == HighBits(hrp[j])
      invariant forall k :: |hrp| + 1 <= k < |hrp| + 1 + i ==> ret[k] == LowBits(hrp[k - |hrp| - 1])
    {
      ret := ret[i := HighBits(hrp[i])];
      ret := ret[i + |hrp| + 1 := LowBits(hrp[i])];
    }
    ret := ret[|hrp| := 0];
  }

  predicate Verifies(hrp: string, values: seq<bv8>) {
    Feed(1, ExpandedHrp(hrp) + values) == 1
  }

  /** The six 5-bit groups of a 30-bit number, highest first. */
  function Unpacked(m: bv32): (r: seq<bv8>)
    ensures |r| == 6
  {
    [((m >> 25) & 31) as bv8, ((m >> 20) & 31) as bv8, ((m >> 15) & 31) as bv8,
     ((m >> 10) & 31) as bv8, ((m >> 5) & 31) as bv8, (m & 31) as bv8]
  }

  function Packed(s: seq<bv8>): bv32
    requires |s| == 6
  {
    ((((((((((s[0] as bv32) << 5) ^ (s[1] as bv32)) << 5) ^ (s[2] as bv32)) << 5) ^ (s[3] as bv32)) << 5) ^ (s[4] as bv32)) << 5)
    ^ (s[5] as bv32)
  }

  ghost predicate Symbols(s: seq<bv8>) {
    forall i :: 0 <= i < |s| ==> s[i] < 32
  }

  function Zeros(): seq<bv8> {
    [0, 0, 0, 0, 0, 0]
  }

  function Checksum(hrp: string, values: seq<bv8>): (r: seq<bv8>)
    ensures |r| == 6
  {
    Unpacked(Xor(Feed(1, ExpandedHrp(hrp) + values + Zeros()), 1))
  }

  method CreateChecksum(hrp: string, values: seq<bv8>) returns (ret: seq<bv8>)
    ensures ret == Checksum(hrp, values)
  {
    var enc := ExpandHrp(hrp);
    enc := enc + values + Zeros();
    var mod := PolyMod(enc);
    ret := Unpacked(Xor(mod, 1));
  }

  lemma PackUnpack(m: bv32)
    requires m < 0x4000_0000
    ensures Packed(Unpacked(m)) == m
  {
  }

  lemma UnpackPack(s: seq<bv8>)
    requires |s| == 6 && Symbols(s)
    ensures Unpacked(Packed(s)) == s
  {
  }

  lemma UnpackedAreSymbols(m: bv32)
    ensures Symbols(Unpacked(m))
  {
  }

  /** Six symbols fed to the zero state are the state: nothing is reduced. */
  lemma FeedSix(s: seq<bv8>)
    requires |s| == 6 && Symbols(s)
    ensures Feed(0, s) == Packed(s)
  {
    hide Step;
    FeedNext(0, s, 0);
    StepSmall(0, s[0]);
    FeedNext(0, s, 1);
    StepSmall(Feed(0, s[..1]), s[1]);
    FeedNext(0, s, 2);
    StepSmall(Feed(0, s[..2]), s[2]);
    FeedNext(0, s, 3);
    StepSmall(Feed(0, s[..3]), s[3]);
    FeedNext(0, s, 4);
    StepSmall(Feed(0, s[..4]), s[4]);
    FeedNext(0, s, 5);
    StepOfSmall(Feed(0, s[..5]), s[5]);
    ZeroShift(s[0]);
    assert s[..6] == s;
  }

  lemma FeedNext(c: bv32, s: seq<bv8>, i: nat)
    requires i < |s|
    ensures Feed(c, s[..i + 1]) == Step(Feed(c, s[..i]), s[i])
    ensures i == 0 ==> Feed(c, s[..i]) == c
  {
    assert s[..i + 1][..i] == s[..i];
  }

  lemma ZeroShift(x: bv8)
    ensures (0 as bv32 << 5) ^ (x as bv32) == x as bv32
  {
  }

  lemma StepSmall(c: bv32, v: bv8)
    requires c < 0x10_0000 && v < 32
    ensures Step(c, v) == (c << 5) ^ (v as bv32)
    ensures c == 0 ==> Step(c, v) < 0x20
    ensures c < 0x20 ==> Step(c, v) < 0x400
    ensures c < 0x400 ==> Step(c, v) < 0x8000
    ensures c < 0x8000 ==> Step(c, v) < 0x10_0000
    ensures Step(c, v) < 0x200_0000
  {
    StepOfSmall(c, v);
  }

  /** Six symbols at the end are added to what six zeros would give. */
  lemma LastSix(c: bv32, s: seq<bv8>)
    requires |s| == 6 && Symbols(s)
    ensures Feed(c, s) == Xor(Feed(c, Zeros()), Packed(s))
  {
    hide Xor, Step, Packed;
    FeedIsLinear(c, 0, Zeros(), s);
    forall i | 0 <= i < 6
      ensures XorAll(Zeros(), s)[i] == s[i]
    {
      SymbolXor(s[i], 0);
    }
    assert XorAll(Zeros(), s) == s;
    XorUnit(c, 0);
    FeedSix(s);
  }

  /** Created checksums verify. */
  lemma ChecksumVerifies(hrp: string, values: seq<bv8>)
    ensures Verifies(hrp, values + Checksum(hrp, values))
  {
    hide Xor, Step, Packed, Unpacked, ExpandedHrp;
    var p, sum := ExpandedHrp(hrp) + values, Checksum(hrp, values);
    assert ExpandedHrp(hrp) + (values + sum) == p + sum;
    FeedMore(1, p, sum);
    FeedMore(1, p, Zeros());
    var z := Feed(1, p + Zeros());
    FeedInRange(1, p + Zeros());
    XorInRange(z, 1);
    PackUnpack(Xor(z, 1));
    UnpackedAreSymbols(Xor(z, 1));
    LastSix(Feed(1, p), sum);
    XorUnit(1, z);
    XorUnit(z, Xor(z, 1));
  }

  /** No other six symbols do. */
  lemma ChecksumIsUnique(hrp: string, values: seq<bv8>, sum: seq<bv8>)
    requires |sum| == 6 && Symbols(sum) && Verifies(hrp, values + sum)
    ensures sum == Checksum(hrp, values)
  {
    hide Xor, Step, Packed, Unpacked, ExpandedHrp;
    var p := ExpandedHrp(hrp) + values;
    assert ExpandedHrp(hrp) + (values + sum) == p + sum;
    FeedMore(1, p, sum);
    FeedMore(1, p, Zeros());
    LastSix(Feed(1, p), sum);
    var z := Feed(1, p + Zeros());
    XorUnit(Packed(sum), z);
    XorUnit(1, z);
    UnpackPack(sum);
  }

  /** One wrong symbol changes the state for good. */
  lemma OneWrong(c: bv32, w: seq<bv8>, w': seq<bv8>, j: nat)
    requires j < |w| == |w'| && w[j] != w'[j]
    requires forall i :: 0 <= i < |w| && i != j ==> w[i] == w'[i]
    ensures Feed(c, w) != Feed(c, w')
  {
    hide Step, Feed;
    var p, t := w[..j], w[j + 1..];
    assert w == w[..j + 1] + t && w' == w'[..j + 1] + t && w'[..j] == p;
    FeedMore(c, w[..j + 1], t);
    FeedMore(c, w'[..j + 1], t);
    FeedNext(c, w, j);
    FeedNext(c, w', j);
    StepsApart(Feed(c, p), w[j], w'[j]);
    StepInRange(Feed(c, p), w[j]);
    StepInRange(Feed(c, p), w'[j]);
    FeedKeepsApart(Feed(c, w[..j + 1]), Feed(c, w'[..j + 1]), t);
  }

  /** Changing exactly one symbol breaks the checksum. */
  lemma OneWrongSymbol(hrp: string, values: seq<bv8>, i: nat, x: bv8)
    requires i < |values| && x != values[i] && Verifies(hrp, values)
    ensures !Verifies(hrp, values[i := x])
  {
    hide Feed, ExpandedHrp;
    OneWrong(1, ExpandedHrp(hrp) + values, ExpandedHrp(hrp) + values[i := x], |ExpandedHrp(hrp)| + i);
  }

  lemma StepsApart(c: bv32, x: bv8, y: bv8)
    requires x != y
    ensures Step(c, x) != Step(c, y)
  {
    hide Xor, Step;
    StepIsLinear(c, 0, y, x ^ y);
    XorUnit(c, 0);
    SymbolBack(x, y);
    StepOfSmall(0, x ^ y);
    SymbolNotZero(x, y);
    XorMoves(Step(c, y), Step(0, x ^ y));
  }

  lemma SymbolBack(x: bv8, y: bv8)
    ensures y ^ (x ^ y) == x
  {
  }

  lemma SymbolNotZero(x: bv8, y: bv8)
    requires x != y
    ensures ((0 as bv32) << 5) ^ ((x ^ y) as bv32) != 0
  {
    SymbolBack(x, y);
    if x ^ y == 0 {
      assert y ^ 0 == y;
    }
  }

  lemma XorMoves(c: bv32, d: bv32)
    requires d != 0
    ensures Xor(c, d) != c
  {
    hide Xor;
    XorUnit(c, d);
    XorUnit(d, c);
    XorUnit(c, c);
  }

  // ----- strings

  /** The character set for encoding. */
  function Letter(v: nat): char {
    match v
    case 0 => 'q' case 1 => 'p' case 2 => 'z' case 3 => 'r' case 4 => 'y' case 5 => '9' case 6 => 'x' case 7 => '8'
    case 8 => 'g' case 9 => 'f' case 10 => '2' case 11 => 't' case 12 => 'v' case 13 => 'd' case 14 => 'w' case 15 => '0'
    case 16 => 's' case 17 => '3' case 18 => 'j' case 19 => 'n' case 20 => '5' case 21 => '4' case 22 => 'k' case 23 => 'h'
    case 24 => 'c' case 25 => 'e' case 26 => '6' case 27 => 'm' case 28 => 'u' case 29 => 'a' case 30 => '7' case 31 => 'l'
    case _ => '1'
  }

  predicate IsUpper(c: char) {
    'A' <= c <= 'Z'
  }

  predicate IsLower(c: char) {
    'a' <= c <= 'z'
  }

  predicate Printable(c: char) {
    33 <= c as int <= 126
  }

  function LowerCase(c: char): char {
    if IsUpper(c) then (c as int - 'A' as int + 'a' as int) as char else c
  }

  /** The character set for decoding, in which case does not matter; -1 for other characters. */
  function Rev(c: char): int {
    match LowerCase(c)
    case '0' => 15 case '2' => 10 case '3' => 17 case '4' => 21 case '5' => 20 case '6' => 26 case '7' => 30 case '8' => 7
    case '9' => 5 case 'a' => 29 case 'c' => 24 case 'd' => 13 case 'e' => 25 case 'f' => 9 case 'g' => 8 case 'h' => 23
    case 'j' => 18 case 'k' => 22 case 'l' => 31 case 'm' => 27 case 'n' => 19 case 'p' => 1 case 'q' => 0 case 'r' => 3
    case 's' => 16 case 't' => 11 case 'u' => 28 case 'v' => 12 case 'w' => 14 case 'x' => 6 case 'y' => 4 case 'z' => 2
    case _ => -1
  }

  lemma LetterReads(v: nat)
    requires v < 32
    ensures var c := Letter(v);
            Rev(c) == v && c != '1' && Printable(c) && !IsUpper(c)
  {
  }

  lemma RevWrites(c: char)
    ensures Rev(c) != -1 ==> 0 <= Rev(c) < 32 && Letter(Rev(c)) == LowerCase(c) && c != '1'
  {
  }

  function ToLetter(v: bv8): char {
    Letter(v as int)
  }

  function ToSymbol(c: char): bv8 {
    RevWrites(c);
    if Rev(c) == -1 then 0 else Rev(c) as bv8
  }

  function Letters(s: seq<bv8>): (r: string)
    ensures |r| == |s|
  {
    seq(|s|, i requires 0 <= i < |s| => ToLetter(s[i]))
  }

  function ToSymbols(s: string): (r: seq<bv8>)
    ensures |r| == |s|
  {
    seq(|s|, i requires 0 <= i < |s| => ToSymbol(s[i]))
  }

  function Lowered(s: string): (r: string)
    ensures |r| == |s|
  {
    seq(|s|, i requires 0 <= i < |s| => LowerCase(s[i]))
  }

  function Encoded(hrp: string, values: seq<bv8>): string {
    hrp + "1" + Letters(values + Checksum(hrp, values))
  }

  method Encode(hrp: string, values: seq<bv8>) returns (ret: string)
    requires Symbols(values)
    ensures ret == Encoded(hrp, values)
  {
    hide Letter, Unpacked;
    var checksum := CreateChecksum(hrp, values);
    var combined := values + checksum;
    ret := hrp + "1";
    for i := 0 to |combined|
      invariant ret == hrp + "1" + Letters(combined)[..i]
    {
      ret := ret + [ToLetter(combined[i])];
    }
  }

  // ----- decoding

  ghost predicate CaseOk(s: string) {
    && (forall i :: 0 <= i < |s| ==> Printable(s[i]))
    && ((forall i :: 0 <= i < |s| ==> !IsUpper(s[i])) || (forall i :: 0 <= i < |s| ==> !IsLower(s[i])))
  }

  /** The last '1', or -1. */
  function LastOne(s: string): (r: int)
    ensures -1 <= r < |s|
    ensures r >= 0 ==> s[r] == '1'
    ensures forall i :: r < i < |s| ==> s[i] != '1'
  {
    if s == "" then -1 else if s[|s| - 1] == '1' then |s| - 1 else LastOne(s[..|s| - 1])
  }

  /** The parts of a string that decodes. */
  ghost predicate Decodes(s: string, pos: int) {
    && CaseOk(s) && pos == LastOne(s) && |s| <= 90 && 1 <= pos && pos + 7 <= |s|
    && (forall i :: pos < i < |s| ==> Rev(s[i]) != -1)
    && Verifies(Lowered(s[..pos]), ToSymbols(s[pos + 1..]))
  }

  /** Decode: the human-readable part and the values without the checksum, or two empty lists. */
  ghost function Decoded(s: string): (string, seq<bv8>) {
    var pos := LastOne(s);
    if Decodes(s, pos) then (Lowered(s[..pos]), ToSymbols(s[pos + 1..|s| - 6])) else ("", [])
  }

  method Decode(s: string) returns (hrp: string, values: seq<bv8>)
    ensures (hrp, values) == Decoded(s)
  {
    hide Rev, Verifies, LastOne, CaseOk, ToSymbol, LowerCase;
    var caseOk := CheckCase(s);
    if !caseOk {
      return "", [];
    }
    var pos := LastOne(s);
    if |s| > 90 || pos == -1 || pos == 0 || pos + 7 > |s| {
      return "", [];
    }
    var read;
    read, values := ReadValues(s, pos);
    if !read {
      return "", [];
    }
    hrp := "";
    for i := 0 to pos
      invariant hrp == Lowered(s[..pos])[..i]
    {
      hrp := hrp + [LowerCase(s[i])];
    }
    assert hrp == Lowered(s[..pos]);
    var verified := VerifyChecksum(hrp, values);
    if !verified {
      return "", [];
    }
    values := values[..|values| - 6];
    assert values == ToSymbols(s[pos + 1..|s| - 6]);
  }

  method CheckCase(s: string) returns (r: bool)
    ensures r <==> CaseOk(s)
  {
    var lower, upper := false, false;
    for i := 0 to |s|
      invariant forall j :: 0 <= j < i ==> Printable(s[j])
      invariant lower <==> exists j :: 0 <= j < i && IsLower(s[j])
      invariant upper <==> exists j :: 0 <= j < i && IsUpper(s[j])
    {
      if IsLower(s[i]) {
        lower := true;
      } else if IsUpper(s[i]) {
        upper := true;
      } else if s[i] as int < 33 || s[i] as int > 126 {
        return false;
      }
    }
    return !(lower && upper);
  }

  method ReadValues(s: string, pos: nat) returns (ok: bool, values: seq<bv8>)
    requires pos < |s|
    ensures ok <==> forall i :: pos < i < |s| ==> Rev(s[i]) != -1
    ensures ok ==> values == ToSymbols(s[pos + 1..])
  {
    hide Rev;
    values := [];
    for i := 0 to |s| - 1 - pos
      invariant values == ToSymbols(s[pos + 1..])[..i]
      invariant forall j :: pos < j < pos + 1 + i ==> Rev(s[j]) != -1
    {
      if Rev(s[i + pos + 1]) == -1 {
        return false, [];
      }
      values := values + [ToSymbol(s[i + pos + 1])];
    }
    return true, values;
  }

  method VerifyChecksum(hrp: string, values: seq<bv8>) returns (r: bool)
    ensures r <==> Verifies(hrp, values)
  {
    var enc := ExpandHrp(hrp);
    var c := PolyMod(enc + values);
    r := c == 1;
  }

  // ----- round trips

  /** A human-readable part that survives: not empty, printable, nothing in upper case. */
  ghost predicate GoodHrp(hrp: string) {
    hrp != "" && forall i :: 0 <= i < |hrp| ==> Printable(hrp[i]) && !IsUpper(hrp[i])
  }

  lemma LettersRead(s: seq<bv8>)
    requires Symbols(s)
    ensures ToSymbols(Letters(s)) == s
    ensures forall i :: 0 <= i < |s| ==> Letters(s)[i] != '1' && Printable(Letters(s)[i]) && !IsUpper(Letters(s)[i])
    ensures forall i :: 0 <= i < |s| ==> Rev(Letters(s)[i]) != -1
  {
    hide Letter, Rev;
    forall i | 0 <= i < |s|
      ensures ToSymbol(Letters(s)[i]) == s[i]
      ensures Letters(s)[i] != '1' && Printable(Letters(s)[i]) && !IsUpper(Letters(s)[i]) && Rev(Letters(s)[i]) != -1
    {
      LetterReads(s[i] as int);
    }
  }

  lemma SymbolsWrite(s: string)
    requires forall i :: 0 <= i < |s| ==> Rev(s[i]) != -1
    ensures Letters(ToSymbols(s)) == Lowered(s) && Symbols(ToSymbols(s))
  {
    hide Letter, Rev;
    forall i | 0 <= i < |s|
      ensures Letters(ToSymbols(s))[i] == LowerCase(s[i]) && ToSymbols(s)[i] < 32
    {
      RevWrites(s[i]);
    }
  }

  lemma LastOneIs(s: string, pos: nat)
    requires pos < |s| && s[pos] == '1' && forall i :: pos < i < |s| ==> s[i] != '1'
    ensures LastOne(s) == pos
  {
    hide LastOne;
  }

  /** The parts of an encoded string. */
  lemma EncodedParts(hrp: string, values: seq<bv8>)
    requires Symbols(values)
    ensures var s, data := Encoded(hrp, values), values + Checksum(hrp, values);
            && LastOne(s) == |hrp| && s[..|hrp|] == hrp && s[|hrp| + 1..] == Letters(data)
            && ToSymbols(s[|hrp| + 1..]) == data && ToSymbols(s[|hrp| + 1..|s| - 6]) == values
  {
    hide Letter, Rev, LastOne, Checksum, ToSymbol, ToLetter;
    var data, s := values + Checksum(hrp, values), Encoded(hrp, values);
    ChecksumIsSymbols(hrp, values);
    LettersRead(data);
    assert s[|hrp| + 1..] == Letters(data);
    assert forall i :: |hrp| < i < |s| ==> s[i] == s[|hrp| + 1..][i - |hrp| - 1];
    LastOneIs(s, |hrp|);
    assert s[|hrp| + 1..|s| - 6] == Letters(data)[..|values|];
    assert ToSymbols(Letters(data)[..|values|]) == ToSymbols(Letters(data))[..|values|];
  }

  lemma GoodDecodes(hrp: string, values: seq<bv8>)
    requires Symbols(values) && GoodHrp(hrp) && |hrp| + |values| + 7 <= 90
    ensures Decoded(Encoded(hrp, values)) == (hrp, values)
  {
    hide Letter, Rev, Verifies, LastOne, Checksum, ToSymbol, ToLetter;
    var data, s := values + Checksum(hrp, values), Encoded(hrp, values);
    ChecksumIsSymbols(hrp, values);
    LettersRead(data);
    EncodedParts(hrp, values);
    ChecksumVerifies(hrp, values);
    assert Lowered(hrp) == hrp;
    forall i | 0 <= i < |s|
      ensures Printable(s[i]) && !IsUpper(s[i]) && (i > |hrp| ==> Rev(s[i]) != -1)
    {
      if i < |hrp| {
        assert s[i] == hrp[i];
      } else if i > |hrp| {
        assert s[i] == Letters(data)[i - |hrp| - 1];
      }
    }
  }

  /** An encoded string decodes to what was encoded, exactly for good human-readable parts and strings of at most 90. */
  lemma RoundTrip(hrp: string, values: seq<bv8>)
    requires Symbols(values) && hrp != ""
    ensures Decoded(Encoded(hrp, values)) == (hrp, values) <==> GoodHrp(hrp) && |hrp| + |values| + 7 <= 90
  {
    hide Letter, Rev, Verifies, LastOne, Checksum, ToSymbol, ToLetter, LowerCase;
    var s := Encoded(hrp, values);
    if GoodHrp(hrp) && |hrp| + |values| + 7 <= 90 {
      GoodDecodes(hrp, values);
    } else if Decoded(s) == (hrp, values) {
      EncodedParts(hrp, values);
      LoweredIsLower(s[..|hrp|]);
      assert forall i :: 0 <= i < |hrp| ==> s[i] == hrp[i];
    }
  }

  lemma ChecksumIsSymbols(hrp: string, values: seq<bv8>)
    ensures Symbols(Checksum(hrp, values))
  {
    hide Unpacked;
    UnpackedAreSymbols(Xor(Feed(1, ExpandedHrp(hrp) + values + Zeros()), 1));
  }

  lemma LoweredIsLower(s: string)
    ensures forall i :: 0 <= i < |s| ==> !IsUpper(Lowered(s)[i])
  {
  }

  /** A string that decodes is, up to case, the encoding of what it decodes to. */
  lemma DecodedEncodesBack(s: string)
    requires Decoded(s).0 != ""
    ensures Encoded(Decoded(s).0, Decoded(s).1) == Lowered(s)
    ensures Symbols(Decoded(s).1)
  {
    hide Letter, Rev, Verifies, LastOne, Checksum, CaseOk;
    var pos := LastOne(s);
    var hrp, data := Lowered(s[..pos]), ToSymbols(s[pos + 1..]);
    var values, sum := ToSymbols(s[pos + 1..|s| - 6]), ToSymbols(s[|s| - 6..]);
    SymbolsWrite(s[pos + 1..]);
    assert s[pos + 1..] == s[pos + 1..|s| - 6] + s[|s| - 6..];
    assert data == values + sum;
    assert forall i :: 0 <= i < 6 ==> sum[i] == data[|values| + i];
    assert forall i :: 0 <= i < |values| ==> values[i] == data[i];
    ChecksumIsUnique(hrp, values, sum);
    assert Lowered(s) == hrp + "1" + Lowered(s[pos + 1..]);
  }

  lemma SymbolsDiffer(c: char, d: char)
    requires Rev(c) != -1 && Rev(d) != -1 && LowerCase(c) != LowerCase(d)
    ensures ToSymbol(c) != ToSymbol(d)
  {
    hide Letter, Rev, LowerCase;
    RevWrites(c);
    RevWrites(d);
    assert ToSymbol(c) as int == Rev(c) && ToSymbol(d) as int == Rev(d);
  }
}
