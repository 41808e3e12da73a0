/**
 How large a partial Merkle tree is: the exact number of flag bits for the
 hashes stored, and when the documented bounds on bits, hashes and bytes hold.
 */
module PartialMerkleSize {
  import opened Arithmetic
  import opened PartialMerkle

  // ----- flag bits

  /** Some matched leaf lies under the last node at height `g`, and that node has no right child. */
  ghost predicate LoneMatch(matching: seq<bool>, g: nat) {
    && g > 0 && CalcTreeWidth(|matching|, g - 1) % 2 == 1
    && exists p: nat :: p < |matching| && matching[p] && First(g, LastNode(|matching|, g)) <= p
  }

  function LastNode(n: nat, h: nat): nat {
    if CalcTreeWidth(n, h) == 0 then 0 else CalcTreeWidth(n, h) - 1
  }

  ghost function LoneMatches(matching: seq<bool>, h: nat): (r: nat)
    ensures r <= h
  {
    if h == 0 then 0 else LoneMatches(matching, h - 1) + if LoneMatch(matching, h) then 1 else 0
  }

  lemma MatchedRange(matching: seq<bool>, lo: nat, hi: nat)
    ensures Matched(matching, lo, hi) != [] <==> exists p: nat :: p < |matching| && matching[p] && lo <= p < hi
  {
    hide Matched;
    MatchedComplete(matching, lo, hi);
    if Matched(matching, lo, hi) != [] {
      assert matching[Matched(matching, lo, hi)[0]];
    }
  }

  /** Under the last node lie all leaves from its first one on. */
  lemma LastParent(matching: seq<bool>, h: nat)
    requires matching != []
    ensures LastNode(|matching|, h) < CalcTreeWidth(|matching|, h)
    ensures ParentOfMatch(matching, h, LastNode(|matching|, h)) <==>
            exists p: nat :: p < |matching| && matching[p] && First(h, LastNode(|matching|, h)) <= p
  {
    hide CalcTreeWidth, Matched, First;
    var n := |matching|;
    RootExists(n, h);
    var pos := LastNode(n, h);
    NodeHasLeaf(n, h, pos + 1);
    MatchedRange(matching, First(h, pos), First(h, pos + 1));
  }

  /** The last node of a level is the right child of the last node above it, or its only child. */
  lemma LastChild(n: nat, h: nat)
    requires n > 0 && h > 0
    ensures var v, pos := CalcTreeWidth(n, h - 1), LastNode(n, h);
            && v > 0 && pos < CalcTreeWidth(n, h)
            && (v % 2 == 0 ==> v == 2 * pos + 2) && (v % 2 == 1 ==> v == 2 * pos + 1)
  {
    hide CalcTreeWidth;
    RootExists(n, h - 1);
    RootExists(n, h);
    WidthHalves(n, h);
  }

  lemma {:induction false} NoLoneMatches(matching: seq<bool>, h: nat)
    requires matching != [] && !ParentOfMatch(matching, h, LastNode(|matching|, h))
    ensures LoneMatches(matching, h) == 0
  {
    hide CalcTreeWidth, Matched, First, LoneMatch, LastNode;
    if h > 0 {
      var n := |matching|;
      var pos := LastNode(n, h);
      LastChild(n, h);
      FirstOfChildren(h, pos);
      MatchedSplits(matching, First(h, pos), First(h - 1, 2 * pos + 1), First(h, pos + 1));
      assert LastNode(n, h - 1) == CalcTreeWidth(n, h - 1) - 1 by {
        LastIs(n, h - 1);
      }
      NoLoneMatches(matching, h - 1);
      LoneMeansParent(matching, h);
    }
  }

  lemma LastIs(n: nat, h: nat)
    requires CalcTreeWidth(n, h) > 0
    ensures LastNode(n, h) == CalcTreeWidth(n, h) - 1
  {
  }

  lemma LoneMeansParent(matching: seq<bool>, h: nat)
    requires matching != [] && h > 0
    ensures LoneMatch(matching, h) <==> CalcTreeWidth(|matching|, h - 1) % 2 == 1 && ParentOfMatch(matching, h, LastNode(|matching|, h))
  {
    hide CalcTreeWidth, ParentOfMatch, First, LastNode;
    LastParent(matching, h);
  }

  /** A subtree that is not the last of its level has a bit for every node of a full binary tree. */
  lemma {:induction false} FullSubtree(combine: (Hash, Hash) -> Hash, txids: seq<Hash>, matching: seq<bool>, h: nat, pos: nat)
    requires |txids| == |matching| && pos + 1 < CalcTreeWidth(|txids|, h)
    ensures |BitsOf(matching, h, pos)| + 1 == 2 * |HashesOf(combine, txids, matching, h, pos)|
  {
    hide CalcTreeWidth, BitsOf, HashesOf, ParentOfMatch;
    EncodedParts(combine, txids, matching, h, pos);
    if h > 0 && ParentOfMatch(matching, h, pos) {
      WidthHalves(|txids|, h);
      FullSubtree(combine, txids, matching, h - 1, 2 * pos);
      FullSubtree(combine, txids, matching, h - 1, 2 * pos + 1);
    }
  }

  /** The last subtree of a level has one more bit for every only child descended to. */
  lemma {:induction false} LastSubtree(combine: (Hash, Hash) -> Hash, txids: seq<Hash>, matching: seq<bool>, h: nat, pos: nat)
    requires |txids| == |matching| > 0 && pos + 1 == CalcTreeWidth(|txids|, h)
    ensures |BitsOf(matching, h, pos)| + 1 == 2 * |HashesOf(combine, txids, matching, h, pos)| + LoneMatches(matching, h)
  {
    hide CalcTreeWidth, BitsOf, HashesOf, ParentOfMatch, LoneMatch, LastNode;
    EncodedParts(combine, txids, matching, h, pos);
    LastIs(|txids|, h);
    if !ParentOfMatch(matching, h, pos) {
      NoLoneMatches(matching, h);
    } else if h > 0 {
      LastChild(|txids|, h);
      LoneMeansParent(matching, h);
      if CalcTreeWidth(|txids|, h - 1) % 2 == 0 {
        FullSubtree(combine, txids, matching, h - 1, 2 * pos);
        LastSubtree(combine, txids, matching, h - 1, 2 * pos + 1);
      } else {
        LastSubtree(combine, txids, matching, h - 1, 2 * pos);
      }
    }
  }

  /** A whole tree: two bits for each hash but one, and one more for every level with a lone match. */
  lemma BitCount(combine: (Hash, Hash) -> Hash, txids: seq<Hash>, matching: seq<bool>)
    requires |txids| == |matching| > 0
    ensures |AllBits(matching)| + 1 == 2 * |AllHashes(combine, txids, matching)| + LoneMatches(matching, HeightFrom(|txids|, 0))
  {
    hide CalcTreeWidth, BitsOf, HashesOf, LoneMatches;
    var h := HeightFrom(|txids|, 0);
    RootExists(|txids|, h);
    LastSubtree(combine, txids, matching, h, 0);
  }

  lemma {:induction false} NoneIsZero(matching: seq<bool>, h: nat)
    ensures LoneMatches(matching, h) == 0 <==> forall g :: 0 < g <= h ==> !LoneMatch(matching, g)
  {
    hide LoneMatch;
    if h > 0 {
      NoneIsZero(matching, h - 1);
    }
  }

  /** The documented 2N - 1 bits suffice exactly if no matched leaf lies under a node without a right child. */
  lemma BitBound(combine: (Hash, Hash) -> Hash, txids: seq<Hash>, matching: seq<bool>)
    requires |txids| == |matching| > 0
    ensures |AllBits(matching)| <= 2 * |AllHashes(combine, txids, matching)| - 1
            <==> forall g :: 0 < g <= HeightFrom(|txids|, 0) ==> !LoneMatch(matching, g)
  {
    hide AllBits, AllHashes, LoneMatches, LoneMatch, HeightFrom;
    BitCount(combine, txids, matching);
    NoneIsZero(matching, HeightFrom(|txids|, 0));
  }

  lemma ThreeLeaves()
    ensures CalcTreeWidth(3, 0) == 3 && CalcTreeWidth(3, 1) == 2 && CalcTreeWidth(3, 2) == 1 && HeightFrom(3, 0) == 2
    ensures First(2, 0) == 0 && First(2, 1) == 4 && First(1, 0) == 0 && First(1, 1) == 2 && First(1, 2) == 4
  {
    assert Pow2(0) == 1 && Pow2(1) == 2 && Pow2(2) == 4;
    hide Pow2;
    assert HeightFrom(3, 2) == 2;
    assert HeightFrom(3, 1) == 2;
  }

  lemma LastOfThree()
    ensures var m := [false, false, true];
            ParentOfMatch(m, 2, 0) && !ParentOfMatch(m, 1, 0) && ParentOfMatch(m, 1, 1)
  {
    hide Matched, First, CalcTreeWidth, HeightFrom;
    ThreeLeaves();
    var m := [false, false, true];
    assert m[2];
    MatchedRange(m, 0, 4);
    MatchedRange(m, 0, 2);
    MatchedRange(m, 2, 4);
  }

  /** Four bits for two hashes: the last of three leaves is the only child of its parent. */
  lemma BitBoundFails(combine: (Hash, Hash) -> Hash, txids: seq<Hash>)
    requires |txids| == 3
    ensures |AllBits([false, false, true])| == 4 && |AllHashes(combine, txids, [false, false, true])| == 2
  {
    var m := [false, false, true];
    hide CalcTreeWidth, HeightFrom, BitsOf, HashesOf, ParentOfMatch, First;
    ThreeLeaves();
    LastOfThree();
    EncodedParts(combine, txids, m, 2, 0);
    EncodedParts(combine, txids, m, 1, 0);
    EncodedParts(combine, txids, m, 1, 1);
    EncodedParts(combine, txids, m, 0, 2);
  }

  // ----- hashes

  /** At most one hash, and `h` more for every match. */
  lemma {:induction false} HashesByMatches(combine: (Hash, Hash) -> Hash, txids: seq<Hash>, matching: seq<bool>, h: nat, pos: nat)
    requires |txids| == |matching| && pos < CalcTreeWidth(|txids|, h)
    ensures |HashesOf(combine, txids, matching, h, pos)| <= 1 + |Matched(matching, First(h, pos), First(h, pos + 1))| * h
  {
    hide CalcTreeWidth, BitsOf, HashesOf, Matched, First;
    EncodedParts(combine, txids, matching, h, pos);
    var m := |Matched(matching, First(h, pos), First(h, pos + 1))|;
    MulNotNegative(m, h);
    if h > 0 && ParentOfMatch(matching, h, pos) {
      var mid := First(h - 1, 2 * pos + 1);
      ChildInRange(|txids|, h, pos);
      FirstOfChildren(h, pos);
      MatchedSplits(matching, First(h, pos), mid, First(h, pos + 1));
      HashesByMatches(combine, txids, matching, h - 1, 2 * pos);
      var l, r := |Matched(matching, First(h, pos), mid)|, |Matched(matching, mid, First(h, pos + 1))|;
      assert l * (h - 1) + r * (h - 1) + 1 <= m * h by {
        MulSum(l, r, h - 1);
        MulCommutes(m, h);
        MulSum(h, 1, m);
      }
      MulNotNegative(r, h - 1);
      if 2 * pos + 1 < CalcTreeWidth(|txids|, h - 1) {
        HashesByMatches(combine, txids, matching, h - 1, 2 * pos + 1);
      }
    }
  }

  /** The nodes with two children that have a match below them. */
  function Forks(matching: seq<bool>, h: nat, pos: nat): nat {
    if h == 0 || !ParentOfMatch(matching, h, pos) then 0
    else if 2 * pos + 1 < CalcTreeWidth(|matching|, h - 1) then 1 + Forks(matching, h - 1, 2 * pos) + Forks(matching, h - 1, 2 * pos + 1)
    else Forks(matching, h - 1, 2 * pos)
  }

  /** One hash more than forks. */
  lemma {:induction false} HashesAtForks(combine: (Hash, Hash) -> Hash, txids: seq<Hash>, matching: seq<bool>, h: nat, pos: nat)
    requires |txids| == |matching| && pos < CalcTreeWidth(|txids|, h)
    ensures |HashesOf(combine, txids, matching, h, pos)| == 1 + Forks(matching, h, pos)
  {
    hide CalcTreeWidth, BitsOf, HashesOf, ParentOfMatch;
    EncodedParts(combine, txids, matching, h, pos);
    if h > 0 && ParentOfMatch(matching, h, pos) {
      HashesAtForks(combine, txids, matching, h - 1, 2 * pos);
      if 2 * pos + 1 < CalcTreeWidth(|txids|, h - 1) {
        HashesAtForks(combine, txids, matching, h - 1, 2 * pos + 1);
      }
    }
  }

  lemma HashCount(combine: (Hash, Hash) -> Hash, txids: seq<Hash>, matching: seq<bool>)
    requires |txids| == |matching| > 0
    ensures |AllHashes(combine, txids, matching)| == 1 + Forks(matching, HeightFrom(|matching|, 0), 0)
  {
    hide CalcTreeWidth, HashesOf, Forks, HeightFrom;
    var h := HeightFrom(|txids|, 0);
    RootExists(|txids|, h);
    HashesAtForks(combine, txids, matching, h, 0);
  }

  /** A whole tree stores no more hashes than there are transactions, and at most one, and one for each level for every match. */
  lemma HashBound(combine: (Hash, Hash) -> Hash, txids: seq<Hash>, matching: seq<bool>)
    requires |txids| == |matching| > 0
    ensures |AllHashes(combine, txids, matching)| <= |txids|
    ensures |AllHashes(combine, txids, matching)| <= 1 + |Matched(matching, 0, |matching|)| * HeightFrom(|txids|, 0)
  {
    hide CalcTreeWidth, HashesOf, BitsOf, HeightFrom, Matched;
    var n, h := |txids|, HeightFrom(|txids|, 0);
    RootExists(n, h);
    EncodingIsSmall(combine, txids, matching, h, 0);
    HashesByMatches(combine, txids, matching, h, 0);
    assert First(h, 0) == 0;
    NodeHasLeaf(n, h, 1);
    MatchedSplits(matching, 0, n, First(h, 1));
    NothingBeyond(matching, n, First(h, 1));
  }

  // ----- bytes

  /** The length of a count in the serialization. */
  function CompactSizeLength(n: nat): nat {
    if n < 253 then 1 else if n <= 0xffff then 3 else if n <= 0xffff_ffff then 5 else 9
  }

  /** A transaction count of four bytes, hashes of 32 bytes, and bits packed by eight, each list with its length. */
  function SerializedSize(bits: nat, hashes: nat): nat {
    var flagBytes := (bits + 7) / 8;
    4 + CompactSizeLength(hashes) + 32 * hashes + CompactSizeLength(flagBytes) + flagBytes
  }

  /** The documented bound 10 + ceil(32.25 * N). */
  function DocumentedSize(hashes: nat): nat {
    10 + (129 * hashes + 3) / 4
  }

  lemma {:induction false} HeightAtMost(n: nat, h: nat, k: nat)
    requires h <= k && CalcTreeWidth(n, k) <= 1
    ensures HeightFrom(n, h) <= k
    decreases k - h
  {
    hide CalcTreeWidth;
    if h < k {
      HeightAtMost(n, h + 1, k);
    }
  }

  lemma FifteenLevels(n: nat)
    requires n <= MAX_TRANSACTIONS
    ensures HeightFrom(n, 0) <= 15
  {
    assert Pow2(5) == 32;
    assert Pow2(10) == 1024;
    assert Pow2(15) == 32768;
    hide Pow2;
    DivUnique(n + 32767, 32768, if n == 0 then 0 else 1, if n == 0 then 32767 else n - 1);
    HeightAtMost(n, 0, 15);
  }

  /** With at most 15 bits beyond 2N - 1, the bound on bytes holds as long as the flag bytes can be counted in one byte. */
  lemma SizeArithmetic(bits: nat, hashes: nat, extra: nat)
    requires bits + 1 == 2 * hashes + extra && extra <= 15 && hashes <= MAX_TRANSACTIONS
    ensures var flagBytes := (bits + 7) / 8;
            SerializedSize(bits, hashes) <= DocumentedSize(hashes) <==> flagBytes < 253 || flagBytes <= (hashes + 3) / 4
  {
  }

  /** The same, from the number of hashes and of extra bits alone. */
  lemma SizeFromCounts(bits: nat, hashes: nat, extra: nat)
    requires bits + 1 == 2 * hashes + extra && extra <= 15 && 0 < hashes <= MAX_TRANSACTIONS
    ensures SerializedSize(bits, hashes) <= DocumentedSize(hashes)
            <==> (2 * hashes + 6 + extra) / 8 < 253 || (2 * hashes + 6) % 8 + extra < 8
  {
    hide SerializedSize, DocumentedSize;
    SizeArithmetic(bits, hashes, extra);
    assert (hashes + 3) / 4 == (2 * hashes + 6) / 8;
  }

  /**
   The documented size bound holds exactly if the flag bits, of which there are two for each of the
   N = 1 + Forks hashes but one and one for each lone match, take fewer than 253 bytes, or the lone
   matches add none.
   */
  lemma SizeBound(combine: (Hash, Hash) -> Hash, txids: seq<Hash>, matching: seq<bool>)
    requires 0 < |txids| == |matching| <= MAX_TRANSACTIONS
    ensures var h := HeightFrom(|matching|, 0);
            var n, lone := 1 + Forks(matching, h, 0), LoneMatches(matching, h);
            SerializedSize(|AllBits(matching)|, |AllHashes(combine, txids, matching)|) <= DocumentedSize(|AllHashes(combine, txids, matching)|)
            <==> (2 * n + 6 + lone) / 8 < 253 || (2 * n + 6) % 8 + lone < 8
  {
    hide AllBits, AllHashes, HeightFrom, LoneMatches, Forks, SerializedSize, DocumentedSize;
    var h := HeightFrom(|txids|, 0);
    BitCount(combine, txids, matching);
    FifteenLevels(|txids|);
    HashBound(combine, txids, matching);
    HashCount(combine, txids, matching);
    SizeFromCounts(|AllBits(matching)|, |AllHashes(combine, txids, matching)|, LoneMatches(matching, h));
  }

  ghost predicate AllMatched(matching: seq<bool>) {
    forall p :: 0 <= p < |matching| ==> matching[p]
  }

  /** With every leaf matched every leaf is stored. */
  lemma {:induction false} EveryLeafStored(combine: (Hash, Hash) -> Hash, txids: seq<Hash>, matching: seq<bool>, h: nat, pos: nat)
    requires |txids| == |matching| && pos < CalcTreeWidth(|txids|, h) && AllMatched(matching)
    ensures var end := if First(h, pos + 1) < |txids| then First(h, pos + 1) else |txids|;
            First(h, pos) + |HashesOf(combine, txids, matching, h, pos)| == end
  {
    hide CalcTreeWidth, HashesOf, BitsOf, Matched, First;
    EncodedParts(combine, txids, matching, h, pos);
    NodeHasLeaf(|txids|, h, pos);
    FirstGrows(h, pos);
    if h == 0 {
      FirstIsLeaf(pos);
    } else {
      MatchedRange(matching, First(h, pos), First(h, pos + 1));
      assert matching[First(h, pos)];
      FirstOfChildren(h, pos);
      NodeHasLeaf(|txids|, h - 1, 2 * pos + 1);
      EveryLeafStored(combine, txids, matching, h - 1, 2 * pos);
      if 2 * pos + 1 < CalcTreeWidth(|txids|, h - 1) {
        EveryLeafStored(combine, txids, matching, h - 1, 2 * pos + 1);
      }
    }
  }

  lemma FirstIsLeaf(pos: nat)
    ensures First(0, pos) == pos && First(0, pos + 1) == pos + 1
  {
  }

  lemma AllStored(combine: (Hash, Hash) -> Hash, txids: seq<Hash>, matching: seq<bool>)
    requires |txids| == |matching| > 0 && AllMatched(matching)
    ensures |AllHashes(combine, txids, matching)| == |txids|
  {
    hide CalcTreeWidth, HashesOf;
    var n, h := |txids|, HeightFrom(|txids|, 0);
    RootExists(n, h);
    NodeHasLeaf(n, h, 1);
    EveryLeafStored(combine, txids, matching, h, 0);
  }

  lemma LoneWhenOdd(matching: seq<bool>, g: nat)
    requires matching != [] && g > 0 && AllMatched(matching)
    ensures LoneMatch(matching, g) <==> CalcTreeWidth(|matching|, g - 1) % 2 == 1
  {
    hide CalcTreeWidth, First;
    var n := |matching|;
    RootExists(n, g);
    NodeHasLeaf(n, g, LastNode(n, g));
    assert matching[First(g, LastNode(n, g))];
  }

  lemma NextLevel(matching: seq<bool>, g: nat, w: nat, lone: nat)
    requires matching != [] && AllMatched(matching)
    requires CalcTreeWidth(|matching|, g) == w && LoneMatches(matching, g) == lone
    ensures CalcTreeWidth(|matching|, g + 1) == (w + 1) / 2 && LoneMatches(matching, g + 1) == lone + w % 2
  {
    hide CalcTreeWidth, LoneMatch;
    WidthHalves(|matching|, g + 1);
    LoneWhenOdd(matching, g + 1);
  }

  lemma ThousandAndMore(matching: seq<bool>)
    requires |matching| == 1025 && AllMatched(matching)
    ensures HeightFrom(1025, 0) == 11 && LoneMatches(matching, 11) == 10
  {
    WidthAtLeaves(1025);
    assert LoneMatches(matching, 0) == 0;
    hide CalcTreeWidth, LoneMatches, LoneMatch;
    NextLevel(matching, 0, 1025, 0);
    NextLevel(matching, 1, 513, 1);
    NextLevel(matching, 2, 257, 2);
    NextLevel(matching, 3, 129, 3);
    NextLevel(matching, 4, 65, 4);
    NextLevel(matching, 5, 33, 5);
    NextLevel(matching, 6, 17, 6);
    NextLevel(matching, 7, 9, 7);
    NextLevel(matching, 8, 5, 8);
    NextLevel(matching, 9, 3, 9);
    NextLevel(matching, 10, 2, 10);
    HeightIs(1025, 0, 11);
  }

  lemma {:induction false} HeightIs(n: nat, h: nat, k: nat)
    requires h <= k && CalcTreeWidth(n, k) <= 1 && forall g :: h <= g < k ==> CalcTreeWidth(n, g) > 1
    ensures HeightFrom(n, h) == k
    decreases k - h
  {
    hide CalcTreeWidth;
    if h < k {
      HeightIs(n, h + 1, k);
    }
  }

  /** All of 1025 transactions matched: one byte more than documented. */
  lemma SizeBoundFails(combine: (Hash, Hash) -> Hash, txids: seq<Hash>, matching: seq<bool>)
    requires |txids| == |matching| == 1025 && AllMatched(matching)
    ensures var bits, hashes := |AllBits(matching)|, |AllHashes(combine, txids, matching)|;
            SerializedSize(bits, hashes) == DocumentedSize(hashes) + 1
  {
    hide AllBits, AllHashes, HeightFrom, LoneMatches, AllMatched;
    AllStored(combine, txids, matching);
    ThousandAndMore(matching);
    BitCount(combine, txids, matching);
  }
}
