/**
 What the Bech32 checksum notices: up to three wrong symbols, a wrong character
 of the human-readable part counting for two, and exactly when a wrong character
 goes unnoticed because it moves the separator.
 */
module Bech32Errors {
  import opened Bech32
  import opened Bech32Roots

  // ----- wrong characters

  /** The strings differ at `k`, not only in case, and nowhere else. */
  ghost predicate DifferAt(s: string, s': string, k: nat) {
    && |s| == |s'| && k < |s| && LowerCase(s[k]) != LowerCase(s'[k])
    && forall i :: 0 <= i < |s| && i != k ==> s[i] == s'[i]
  }

  /** The checksum state before character `n`, with the separator at `p`. */
  function StateBefore(s: string, p: nat, n: nat): bv32
    requires p < n <= |s|
  {
    Feed(1, ExpandedHrp(Lowered(s[..p])) + ToSymbols(s[p + 1..n]))
  }

  lemma StateInRange(s: string, p: nat, n: nat)
    requires p < n <= |s|
    ensures StateBefore(s, p, n) < 0x4000_0000
  {
    hide Feed, ToSymbols, ExpandedHrp;
    FeedInRange(1, ExpandedHrp(Lowered(s[..p])) + ToSymbols(s[p + 1..n]));
  }

  lemma VerifiesFrom(s: string, p: nat, n: nat)
    requires p < n <= |s|
    ensures Verifies(Lowered(s[..p]), ToSymbols(s[p + 1..])) <==> Feed(StateBefore(s, p, n), ToSymbols(s[n..])) == 1
  {
    hide Feed, ToSymbol, ExpandedHrp, Lowered;
    var h, a, b := ExpandedHrp(Lowered(s[..p])), ToSymbols(s[p + 1..n]), ToSymbols(s[n..]);
    assert ToSymbols(s[p + 1..]) == a + b;
    assert h + (a + b) == (h + a) + b;
    FeedMore(1, h + a, b);
  }

  /** The change moves the separator to a place that `s'` allows, where the checksum state is the same. */
  ghost predicate MovesSeparator(s: string, s': string) {
    var p, q := LastOne(s), LastOne(s');
    && |s| == |s'| && 0 <= p != q && 1 <= q && q + 7 <= |s'| && CaseOk(s')
    && (forall i :: q < i <= p ==> Rev(s'[i]) != -1)
    && var n := (if p < q then q else p) + 1;
       StateBefore(s, p, n) == StateBefore(s', q, n)
  }

  lemma DecodesIff(s: string)
    ensures Decoded(s).0 != "" <==> Decodes(s, LastOne(s))
  {
    hide LastOne, Verifies, CaseOk, Rev;
  }

  lemma ToSymbolIsSymbol(c: char)
    ensures ToSymbol(c) < 32
  {
    hide Rev, Letter;
    RevWrites(c);
  }

  lemma ByteIsInt(c: char)
    requires Printable(c)
    ensures ByteOf(c) as int == c as int
  {
  }

  lemma BitsOfChar(c: char, d: char)
    requires Printable(c) && Printable(d)
    ensures HighBits(c) < 32 && LowBits(c) < 32
    ensures c != d ==> HighBits(c) != HighBits(d) || LowBits(c) != LowBits(d)
  {
    hide ByteOf;
    ByteIsInt(c);
    ByteIsInt(d);
    BitsOfByte(ByteOf(c), ByteOf(d));
  }

  lemma BitsOfByte(x: bv8, y: bv8)
    ensures x >> 5 < 32 && x & 31 < 32
    ensures x != y ==> x >> 5 != y >> 5 || x & 31 != y & 31
  {
  }

  lemma LowerCasePrintable(c: char)
    requires Printable(c)
    ensures Printable(LowerCase(c))
  {
  }

  lemma AllPrintable(s: string, k: nat)
    requires CaseOk(s) && k < |s|
    ensures Printable(s[k])
  {
  }

  /** The symbols whose checksum state a string with the separator at `p` has. */
  function Word(s: string, p: nat): (w: seq<bv8>)
    requires p < |s|
    ensures |w| == |s| + p
  {
    ExpandedHrp(Lowered(s[..p])) + ToSymbols(s[p + 1..])
  }

  /** Character `k` gives one symbol after the separator, and two before it. */
  lemma WordAt(s: string, p: nat, k: nat)
    requires p < |s| && k < |s| && k != p
    ensures k > p ==> Word(s, p)[k + p] == ToSymbol(s[k])
    ensures k < p ==> Word(s, p)[k] == HighBits(LowerCase(s[k])) && Word(s, p)[p + 1 + k] == LowBits(LowerCase(s[k]))
  {
    hide HighBits, LowBits, LowerCase, ToSymbol;
  }

  lemma WordAtSeparator(s: string, p: nat)
    requires p < |s|
    ensures Word(s, p)[p] == 0
  {
    hide HighBits, LowBits, LowerCase, ToSymbol;
  }

  lemma WordIsSymbols(s: string, p: nat)
    requires p < |s| && CaseOk(s)
    ensures Symbols(Word(s, p))
  {
    hide HighBits, LowBits, ToSymbol, CaseOk, LowerCase, Word;
    forall n | 0 <= n < |Word(s, p)|
      ensures Word(s, p)[n] < 32
    {
      if n > 2 * p {
        WordAt(s, p, n - p);
        ToSymbolIsSymbol(s[n - p]);
      } else if n == p {
        WordAtSeparator(s, p);
      } else {
        var k := if n < p then n else n - p - 1;
        WordAt(s, p, k);
        AllPrintable(s, k);
        LowerCasePrintable(s[k]);
        BitsOfChar(LowerCase(s[k]), LowerCase(s[k]));
      }
    }
  }

  /** The places from `from` on and below `to` where the strings differ, not only in case. */
  ghost function WrongChars(s: string, s': string, from: nat, to: nat): set<nat>
    requires to <= |s| == |s'|
  {
    set k: nat | from <= k < to && LowerCase(s[k]) != LowerCase(s'[k])
  }

  ghost function Moved(places: set<nat>, shift: nat): set<nat> {
    set k | k in places :: k + shift
  }

  lemma {:induction false} MovedIsNoMore(places: set<nat>, shift: nat)
    ensures |Moved(places, shift)| <= |places|
    decreases |places|
  {
    if places == {} {
      assert Moved(places, shift) == {};
    } else {
      var k :| k in places;
      var rest := places - {k};
      MovedIsNoMore(rest, shift);
      forall x | x in Moved(places, shift)
        ensures x in Moved(rest, shift) + {k + shift}
      {
        var n :| n in places && x == n + shift;
        assert n != k ==> n in rest;
      }
      NoMore(Moved(places, shift), Moved(rest, shift) + {k + shift});
    }
  }

  /** Every wrong symbol comes from a wrong character. */
  lemma WrongSymbol(s: string, s': string, p: nat, n: nat)
    requires p < |s| == |s'| && n in WrongPlaces(Word(s, p), Word(s', p))
    ensures var before, after := WrongChars(s, s', 0, p), WrongChars(s, s', p + 1, |s|);
            n in before + Moved(before, p + 1) + Moved(after, p)
  {
    hide HighBits, LowBits, LowerCase, ToSymbol, Word;
    if n > 2 * p {
      var k := n - p;
      WordAt(s, p, k);
      WordAt(s', p, k);
      SameReading(s[k], s'[k]);
      assert k in WrongChars(s, s', p + 1, |s|);
      assert k + p in Moved(WrongChars(s, s', p + 1, |s|), p);
    } else if n == p {
      WordAtSeparator(s, p);
      WordAtSeparator(s', p);
    } else {
      var k := if n < p then n else n - p - 1;
      WordAt(s, p, k);
      WordAt(s', p, k);
      assert k in WrongChars(s, s', 0, p);
      assert k + (p + 1) in Moved(WrongChars(s, s', 0, p), p + 1);
    }
  }

  lemma SameReading(c: char, d: char)
    ensures LowerCase(c) == LowerCase(d) ==> ToSymbol(c) == ToSymbol(d)
  {
  }

  /** Every wrong character makes a wrong symbol. */
  lemma WrongCharacter(s: string, s': string, p: nat, k: nat)
    requires p < |s| == |s'| && k < |s| && k != p && LowerCase(s[k]) != LowerCase(s'[k])
    requires CaseOk(s) && CaseOk(s') && (k > p ==> Rev(s[k]) != -1 && Rev(s'[k]) != -1)
    ensures WrongPlaces(Word(s, p), Word(s', p)) != {}
  {
    hide HighBits, LowBits, LowerCase, ToSymbol, Word, CaseOk, Rev;
    WordAt(s, p, k);
    WordAt(s', p, k);
    if k > p {
      SymbolsDiffer(s[k], s'[k]);
      assert k + p in WrongPlaces(Word(s, p), Word(s', p));
    } else {
      AllPrintable(s, k);
      AllPrintable(s', k);
      LowerCasePrintable(s[k]);
      LowerCasePrintable(s'[k]);
      BitsOfChar(LowerCase(s[k]), LowerCase(s'[k]));
      assert k in WrongPlaces(Word(s, p), Word(s', p)) || p + 1 + k in WrongPlaces(Word(s, p), Word(s', p));
    }
  }

  lemma FewWrongSymbols(s: string, s': string, p: nat)
    requires p < |s| == |s'| && 2 * |WrongChars(s, s', 0, p)| + |WrongChars(s, s', p + 1, |s|)| <= 3
    ensures |WrongPlaces(Word(s, p), Word(s', p))| <= 3
  {
    hide Word, LowerCase, WrongPlaces, Moved, WrongChars;
    var before, after := WrongChars(s, s', 0, p), WrongChars(s, s', p + 1, |s|);
    forall n | n in WrongPlaces(Word(s, p), Word(s', p))
      ensures n in before + Moved(before, p + 1) + Moved(after, p)
    {
      WrongSymbol(s, s', p, n);
    }
    MovedIsNoMore(before, p + 1);
    MovedIsNoMore(after, p);
    NoMore(WrongPlaces(Word(s, p), Word(s', p)), before + Moved(before, p + 1) + Moved(after, p));
  }

  lemma {:induction false} NoMore(a: set<nat>, b: set<nat>)
    requires a <= b
    ensures |a| <= |b|
    decreases |a|
  {
    if a != {} {
      var x :| x in a;
      NoMore(a - {x}, b - {x});
    }
  }

  /**
   Wrong characters with the separator in place, up to three if those before it count twice,
   make a valid string invalid.
   */
  lemma FewWrongCharacters(s: string, s': string, k: nat)
    requires |s| == |s'| && LastOne(s) == LastOne(s') && Decoded(s).0 != ""
    requires k < |s| && LowerCase(s[k]) != LowerCase(s'[k])
    requires var p := LastOne(s); p >= 0 ==> 2 * |WrongChars(s, s', 0, p)| + |WrongChars(s, s', p + 1, |s|)| <= 3
    ensures Decoded(s').0 == ""
  {
    hide Decoded, Decodes, LastOne, CaseOk, Rev, LowerCase, Feed, Word, WrongChars, WrongPlaces;
    DecodesIff(s);
    DecodesIff(s');
    var p := LastOne(s);
    if Decodes(s', p) {
      DecodedParts(s, p, k);
      DecodedParts(s', p, k);
      WrongCharacter(s, s', p, k);
      StatesDiffer(s, s', p);
    }
  }

  lemma DecodedParts(s: string, p: int, k: nat)
    requires Decodes(s, p) && k < |s|
    ensures 0 < p < |s| <= 90 && CaseOk(s) && s[p] == '1' && Feed(1, Word(s, p)) == 1
    ensures k > p ==> Rev(s[k]) != -1
  {
    hide CaseOk, Rev, LastOne, Feed;
  }

  lemma StatesDiffer(s: string, s': string, p: nat)
    requires p < |s| == |s'| <= 90 && CaseOk(s) && CaseOk(s') && WrongPlaces(Word(s, p), Word(s', p)) != {}
    requires 2 * |WrongChars(s, s', 0, p)| + |WrongChars(s, s', p + 1, |s|)| <= 3
    ensures Feed(1, Word(s, p)) != Feed(1, Word(s', p))
  {
    hide CaseOk, Feed, Word, WrongChars, WrongPlaces;
    FewWrongSymbols(s, s', p);
    WordIsSymbols(s, p);
    WordIsSymbols(s', p);
    WithinWord(Word(s, p), Word(s', p));
    FewWrong(1, Word(s, p), Word(s', p), 0);
  }

  lemma WithinWord(w: seq<bv8>, w': seq<bv8>)
    requires |w| == |w'| <= 1023
    ensures forall n :: n in WrongPlaces(w, w') ==> 0 <= n < 1023
  {
  }

  /** With the separator where it was, the change is noticed. */
  lemma SameSeparator(s: string, s': string, k: nat)
    requires DifferAt(s, s', k) && LastOne(s) == LastOne(s') && Decodes(s, LastOne(s))
    ensures !Decodes(s', LastOne(s'))
  {
    hide Decoded, LastOne, Decodes, LowerCase;
    DecodesIff(s);
    DecodesIff(s');
    var p := LastOne(s);
    if p >= 0 {
      NoMore(WrongChars(s, s', 0, p), if k < p then {k} else {});
      NoMore(WrongChars(s, s', p + 1, |s|), if k < p then {} else {k});
    }
    FewWrongCharacters(s, s', k);
  }

  lemma SeparatorPlaces(s: string, s': string, k: nat)
    requires DifferAt(s, s', k) && LastOne(s) >= 0
    ensures LastOne(s) != LastOne(s') <==> k == LastOne(s) || (k > LastOne(s) && s'[k] == '1')
    ensures LastOne(s') > LastOne(s) ==> LastOne(s') == k
    ensures LastOne(s') < LastOne(s) ==> LastOne(s) == k
  {
    hide LastOne, LowerCase;
    var p, q := LastOne(s), LastOne(s');
    assert s[p] == '1';
    if q >= 0 {
      assert s'[q] == '1';
    }
  }

  /** Two readings of strings that agree from `n` on: they verify together exactly if their states agree there. */
  lemma OtherReading(s: string, p: nat, s': string, q: nat, n: nat)
    requires p < n <= |s| == |s'| && q < n && s[n..] == s'[n..]
    requires Verifies(Lowered(s[..p]), ToSymbols(s[p + 1..]))
    ensures Verifies(Lowered(s'[..q]), ToSymbols(s'[q + 1..])) <==> StateBefore(s, p, n) == StateBefore(s', q, n)
  {
    hide Verifies, StateBefore, Lowered, ToSymbols, Feed;
    VerifiesFrom(s, p, n);
    VerifiesFrom(s', q, n);
    StateInRange(s, p, n);
    StateInRange(s', q, n);
    if StateBefore(s, p, n) != StateBefore(s', q, n) {
      FeedKeepsApart(StateBefore(s, p, n), StateBefore(s', q, n), ToSymbols(s[n..]));
    }
  }

  /** With the separator elsewhere, the change is noticed unless the checksum state comes out the same. */
  lemma OtherSeparator(s: string, s': string, k: nat)
    requires DifferAt(s, s', k) && LastOne(s) != LastOne(s') && Decodes(s, LastOne(s))
    ensures Decodes(s', LastOne(s')) <==> MovesSeparator(s, s')
  {
    hide Rev, Verifies, LastOne, CaseOk, LowerCase, StateBefore, Lowered, ToSymbols;
    var p, q := LastOne(s), LastOne(s');
    SeparatorPlaces(s, s', k);
    if q >= 1 {
      var n := (if p < q then q else p) + 1;
      assert s[n..] == s'[n..];
      OtherReading(s, p, s', q, n);
    }
  }

  /**
   A string with one wrong character is rejected, unless that character is the separator or
   becomes one, and the other reading gives the same checksum state where the two readings meet.
   */
  lemma OneWrongCharacter(s: string, s': string, k: nat)
    requires DifferAt(s, s', k) && Decoded(s).0 != ""
    ensures Decoded(s').0 != "" <==> MovesSeparator(s, s')
    ensures MovesSeparator(s, s') ==> k == LastOne(s) || (k > LastOne(s) && s'[k] == '1')
  {
    hide Letter, Rev, Verifies, LastOne, CaseOk, ToSymbol, LowerCase, StateBefore, Decoded;
    DecodesIff(s);
    DecodesIff(s');
    SeparatorPlaces(s, s', k);
    if LastOne(s) == LastOne(s') {
      SameSeparator(s, s', k);
    } else {
      OtherSeparator(s, s', k);
    }
  }

  // ----- a character that goes unnoticed

  const SENT := "a1sslx8kh9q8e6"
  const READ := "a1sslx81h9q8e6"

  lemma Advance(start: bv32, w: seq<bv8>, i: nat, was: bv32, c: bv32)
    requires i < |w| && (if i == 0 then was == start else Feed(start, w[..i]) == was) && Step(was, w[i]) == c
    ensures Feed(start, w[..i + 1]) == c
  {
    hide Step;
    FeedNext(start, w, i);
  }

  lemma SentStart()
    ensures Feed(1, [3, 0, 1, 16, 16]) == 0x0230_0610
  {
    hide Feed;
    var w: seq<bv8> := [3, 0, 1, 16, 16];
    Advance(1, w, 0, 1, 0x23);
    Advance(1, w, 1, 0x23, 0x460);
    Advance(1, w, 2, 0x460, 0x8c01);
    Advance(1, w, 3, 0x8c01, 0x0011_8030);
    Advance(1, w, 4, 0x0011_8030, 0x0230_0610);
    assert w[..5] == w;
  }

  lemma SentMiddle()
    ensures Feed(0x0230_0610, [31, 6, 7, 22]) == 0x34c3_6668
  {
    hide Feed;
    var w: seq<bv8> := [31, 6, 7, 22];
    Advance(0x0230_0610, w, 0, 0x0230_0610, 0x3d6a_95ad);
    Advance(0x0230_0610, w, 1, 0x3d6a_95ad, 0x02f5_735f);
    Advance(0x0230_0610, w, 2, 0x02f5_735f, 0x25c4_3c55);
    Advance(0x0230_0610, w, 3, 0x25c4_3c55, 0x34c3_6668);
    assert w[..4] == w;
  }

  lemma ReadStart()
    ensures Feed(1, [3, 1, 3, 3, 3, 3, 1, 0]) == 0x1b97_9b00
  {
    hide Feed;
    var w: seq<bv8> := [3, 1, 3, 3, 3, 3, 1, 0];
    Advance(1, w, 0, 1, 0x23);
    Advance(1, w, 1, 0x23, 0x461);
    Advance(1, w, 2, 0x461, 0x8c23);
    Advance(1, w, 3, 0x8c23, 0x0011_8463);
    Advance(1, w, 4, 0x0011_8463, 0x0230_8c63);
    Advance(1, w, 5, 0x0230_8c63, 0x3d7b_dbd1);
    Advance(1, w, 6, 0x3d7b_dbd1, 0x00dc_bcd8);
    Advance(1, w, 7, 0x00dc_bcd8, 0x1b97_9b00);
    assert w[..8] == w;
  }

  lemma ReadMiddle()
    ensures Feed(0x1b97_9b00, [1, 17, 19, 19, 12, 24, 24]) == 0x34c3_6668
  {
    hide Feed;
    var w: seq<bv8> := [1, 17, 19, 19, 12, 24, 24];
    Advance(0x1b97_9b00, w, 0, 0x1b97_9b00, 0x2a7a_1d94);
    Advance(0x1b97_9b00, w, 1, 0x2a7a_1d94, 0x009c_9e6a);
    Advance(0x1b97_9b00, w, 2, 0x009c_9e6a, 0x1393_cd53);
    Advance(0x1b97_9b00, w, 3, 0x1393_cd53, 0x3451_ce1c);
    Advance(0x1b97_9b00, w, 4, 0x3451_ce1c, 0x3b3f_1c8f);
    Advance(0x1b97_9b00, w, 5, 0x3b3f_1c8f, 0x157e_8ede);
    Advance(0x1b97_9b00, w, 6, 0x157e_8ede, 0x34c3_6668);
    assert w[..7] == w;
  }

  lemma CommonEnd()
    ensures Feed(0x34c3_6668, [23, 5, 0, 7, 25, 26]) == 1
  {
    hide Feed;
    var w: seq<bv8> := [23, 5, 0, 7, 25, 26];
    Advance(0x34c3_6668, w, 0, 0x34c3_6668, 0x296a_1214);
    Advance(0x34c3_6668, w, 1, 0x296a_1214, 0x19f7_39cc);
    Advance(0x34c3_6668, w, 2, 0x19f7_39cc, 0x1d04_13a7);
    Advance(0x34c3_6668, w, 3, 0x1d04_13a7, 0x2531_d0ad);
    Advance(0x34c3_6668, w, 4, 0x2531_d0ad, 0x2a7e_f967);
    Advance(0x34c3_6668, w, 5, 0x2a7e_f967, 1);
    assert w[..6] == w;
  }

  lemma SomeSymbols()
    ensures ToSymbol('s') == 16 && ToSymbol('l') == 31 && ToSymbol('x') == 6 && ToSymbol('8') == 7 && ToSymbol('k') == 22
  {
  }

  lemma MoreSymbols()
    ensures ToSymbol('h') == 23 && ToSymbol('9') == 5 && ToSymbol('q') == 0 && ToSymbol('e') == 25 && ToSymbol('6') == 26
  {
  }

  lemma CodeIs(c: char)
    requires c as int < 256
    ensures CharCode(c) == c as int
  {
  }

  lemma ByteIs(c: char, n: nat, b: bv8)
    requires c as int == n < 256 && n as bv8 == b
    ensures ByteOf(c) == b
  {
    hide CharCode;
    CodeIs(c);
  }

  lemma SomeBytes()
    ensures ByteOf('a') == 0x61 && ByteOf('1') == 0x31 && ByteOf('s') == 0x73
    ensures ByteOf('l') == 0x6c && ByteOf('x') == 0x78 && ByteOf('8') == 0x38
  {
    hide ByteOf;
    ByteIs('a', 97, 0x61); ByteIs('1', 49, 0x31); ByteIs('s', 115, 0x73);
    ByteIs('l', 108, 0x6c); ByteIs('x', 120, 0x78); ByteIs('8', 56, 0x38);
  }

  lemma SomeBits()
    ensures HighBits('a') == 3 && HighBits('1') == 1 && HighBits('s') == 3 && HighBits('l') == 3 && HighBits('x') == 3 && HighBits('8') == 1
    ensures LowBits('a') == 1 && LowBits('1') == 17 && LowBits('s') == 19 && LowBits('l') == 12 && LowBits('x') == 24 && LowBits('8') == 24
  {
    hide ByteOf;
    SomeBytes();
  }

  lemma SentWord()
    ensures ExpandedHrp(Lowered(SENT[..1])) + ToSymbols(SENT[2..8]) == [3, 0, 1, 16, 16] + [31, 6, 7, 22]
    ensures ToSymbols(SENT[8..]) == [23, 5, 0, 7, 25, 26]
  {
    hide ToSymbol, HighBits, LowBits;
    SomeSymbols();
    MoreSymbols();
    SomeBits();
    assert Lowered(SENT[..1]) == "a" && SENT[2..8] == "sslx8k" && SENT[8..] == "h9q8e6";
    assert ExpandedHrp("a") == [3, 0, 1];
    assert ToSymbols("sslx8k") == [16, 16, 31, 6, 7, 22];
  }

  lemma ReadWord()
    ensures ExpandedHrp(Lowered(READ[..7])) + ToSymbols(READ[8..8]) == [3, 1, 3, 3, 3, 3, 1, 0] + [1, 17, 19, 19, 12, 24, 24]
  {
    hide ToSymbol, HighBits, LowBits;
    SomeBits();
    assert Lowered(READ[..7]) == "a1sslx8";
    assert ToSymbols(READ[8..8]) == [];
  }

  lemma StatesMeet()
    ensures StateBefore(SENT, 1, 8) == 0x34c3_6668 == StateBefore(READ, 7, 8)
  {
    hide Step, Feed, ExpandedHrp, ToSymbols;
    SentWord();
    ReadWord();
    FeedMore(1, [3, 0, 1, 16, 16], [31, 6, 7, 22]);
    SentStart();
    SentMiddle();
    FeedMore(1, [3, 1, 3, 3, 3, 3, 1, 0], [1, 17, 19, 19, 12, 24, 24]);
    ReadStart();
    ReadMiddle();
  }

  lemma SentIsLower()
    ensures CaseOk(SENT)
  {
  }

  lemma ReadIsLower()
    ensures CaseOk(READ)
  {
  }

  lemma SentSeparators()
    ensures LastOne(SENT) == 1 && LastOne(READ) == 7
  {
    hide LastOne;
    LastOneIs(SENT, 1);
    LastOneIs(READ, 7);
  }

  lemma SentIsReadable()
    ensures forall i :: 1 < i < |SENT| ==> Rev(SENT[i]) != -1
  {
  }

  /** The k after x8 read as a 1: both strings are valid, with different parts. */
  lemma UnnoticedCharacter()
    ensures DifferAt(SENT, READ, 7)
    ensures Decoded(SENT).0 != "" && Decoded(READ).0 != ""
  {
    hide Feed, Verifies, LastOne, CaseOk, Rev, StateBefore, ToSymbols;
    SentIsLower();
    ReadIsLower();
    SentSeparators();
    SentIsReadable();
    StatesMeet();
    SentWord();
    CommonEnd();
    VerifiesFrom(SENT, 1, 8);
    DecodesIff(SENT);
    OneWrongCharacter(SENT, READ, 7);
  }
}
