/**
 The block tree with skip pointers: finding an ancestor by skips is walking
 back one parent at a time; the fork, common-ancestor and locator searches on
 top of it.
 */
module Chain {
  import opened Arithmetic
  import opened BinaryNumbers

  // ----- heights

  /** Turn the lowest one bit of a number into a zero. */
  function InvertLowestOne(n: nat): nat {
    if n == 0 then 0 else And(n, n - 1)
  }

  lemma {:induction false} AndSame(n: nat)
    ensures And(n, n) == n
  {
    if n > 0 {
      AndSame(n / 2);
    }
  }

  /** The number is split at its lowest one bit: 2^k is taken off, and what is left is a multiple of 2^(k+1). */
  lemma {:induction false} LowestOne(n: nat) returns (k: nat)
    requires n > 0
    ensures InvertLowestOne(n) == n - Pow(2, k)
    ensures Pow(2, k + 1) > 0
    ensures InvertLowestOne(n) % Pow(2, k + 1) == 0
  {
    if n % 2 == 1 {
      AndSame(n / 2);
      k := 0;
      assert Pow(2, 1) == 2 && Pow(2, 0) == 1;
    } else {
      assert (n - 1) / 2 == n / 2 - 1;
      var j := LowestOne(n / 2);
      k := j + 1;
      var rest := InvertLowestOne(n / 2);
      assert InvertLowestOne(n) == 2 * rest;
      PowPositive(2, j + 1);
      PowPositive(2, j + 2);
      DivMod(rest, Pow(2, j + 1));
      MulAssoc(2, rest / Pow(2, j + 1), Pow(2, j + 1));
      MulAssoc(rest / Pow(2, j + 1), 2, Pow(2, j + 1));
      DivUnique(2 * rest, Pow(2, j + 2), rest / Pow(2, j + 1), 0);
    }
  }

  function GetSkipHeight(height: int): (r: nat)
    ensures height >= 1 ==> r < height
  {
    if height < 2 then 0
    else if height % 2 == 1 then
      InvertsDown(height - 1);
      InvertsDown(InvertLowestOne(height - 1));
      InvertLowestOne(InvertLowestOne(height - 1)) + 1
    else
      InvertsDown(height);
      InvertLowestOne(height)
  }

  lemma InvertsDown(n: nat)
    ensures InvertLowestOne(n) <= n && (n > 0 ==> InvertLowestOne(n) < n)
  {
    if n > 0 {
      var k := LowestOne(n);
      PowPositive(2, k);
    }
  }

  // ----- the tree

  /** The parent is in the tree, one below; a block without parent is at height 0. */
  ghost predicate LinkedAt(tree: set<BlockIndex>, b: BlockIndex)
    requires b in tree
    reads tree
  {
    && b.nHeight >= 0
    && (b.pprev == null <==> b.nHeight == 0)
    && (b.pprev != null ==> b.pprev in tree && b.nHeight == b.pprev.nHeight + 1)
  }

  // Not instantiated at every block of the tree: parents of parents of parents would follow.
  ghost predicate Linked(tree: set<BlockIndex>)
    reads tree
  {
    forall b {:trigger LinkedAt(tree, b)} :: b in tree ==> LinkedAt(tree, b)
  }

  /** What walking back from `b`, parent by parent, finds at height `h`. */
  ghost function Ancestor(tree: set<BlockIndex>, b: BlockIndex, h: nat): (r: BlockIndex)
    requires Linked(tree) && b in tree && h <= b.nHeight
    reads tree
    ensures r in tree && r.nHeight == h
    decreases b.nHeight
  {
    assert LinkedAt(tree, b);
    if h == b.nHeight then b else Ancestor(tree, b.pprev, h)
  }

  /** `a` is `b` or found by walking back from `b`. */
  ghost predicate IsAncestor(tree: set<BlockIndex>, a: BlockIndex, b: BlockIndex)
    requires Linked(tree) && b in tree
    reads tree, a
  {
    0 <= a.nHeight <= b.nHeight && a == Ancestor(tree, b, a.nHeight)
  }

  lemma {:induction false} AncestorOfAncestor(tree: set<BlockIndex>, b: BlockIndex, h: nat, h': nat)
    requires Linked(tree) && b in tree && h' <= h <= b.nHeight
    ensures Ancestor(tree, Ancestor(tree, b, h), h') == Ancestor(tree, b, h')
    decreases b.nHeight
  {
    assert LinkedAt(tree, b);
    if h < b.nHeight {
      AncestorOfAncestor(tree, b.pprev, h, h');
    }
  }

  lemma {:induction false} AncestorInLarger(tree: set<BlockIndex>, more: set<BlockIndex>, b: BlockIndex, h: nat)
    requires Linked(tree) && Linked(more) && tree <= more && b in tree && h <= b.nHeight
    ensures Ancestor(more, b, h) == Ancestor(tree, b, h)
    decreases b.nHeight
  {
    assert LinkedAt(tree, b);
    if h < b.nHeight {
      AncestorInLarger(tree, more, b.pprev, h);
    }
  }

  /** Every skip pointer that is set leads to where its height says. */
  ghost predicate Tree(tree: set<BlockIndex>)
    reads tree
  {
    Linked(tree) && forall b <- tree :: b.pskip != null ==> SkipOk(tree, b)
  }

  ghost predicate SkipOk(tree: set<BlockIndex>, b: BlockIndex)
    requires Linked(tree) && b in tree
    reads tree
  {
    GetSkipHeight(b.nHeight) < b.nHeight && b.pskip == Ancestor(tree, b, GetSkipHeight(b.nHeight))
  }

  lemma LinkedMore(tree: set<BlockIndex>, b: BlockIndex)
    requires Linked(tree) && b !in tree
    requires b.pprev == null ==> b.nHeight == 0
    requires b.pprev != null ==> b.pprev in tree && b.nHeight == b.pprev.nHeight + 1
    ensures Linked(tree + {b})
  {
    forall c | c in tree + {b}
      ensures LinkedAt(tree + {b}, c)
    {
      if c == b {
        assert b.pprev != null ==> LinkedAt(tree, b.pprev);
      } else {
        assert LinkedAt(tree, c);
      }
    }
  }

  class BlockIndex {
    const hash: nat
    const nTime: int
    var pprev: BlockIndex?
    var pskip: BlockIndex?
    var nHeight: int

    constructor (hash: nat, nTime: int)
      ensures this.hash == hash && this.nTime == nTime && pprev == null && pskip == null && nHeight == 0
    {
      this.hash, this.nTime := hash, nTime;
      pprev, pskip, nHeight := null, null, 0;
    }

    /** The skip walk finds what the plain walk finds, and nothing exactly outside the heights of the branch. */
    method GetAncestor(height: int, ghost tree: set<BlockIndex>) returns (r: BlockIndex?)
      requires Tree(tree) && this in tree
      ensures r == null <==> height < 0 || height > nHeight
      ensures r != null ==> r == Ancestor(tree, this, height)
    {
      if height > nHeight || height < 0 {
        return null;
      }
      var pindexWalk, heightWalk := this, nHeight;
      while heightWalk > height
        invariant pindexWalk in tree && height <= heightWalk == pindexWalk.nHeight
        invariant Ancestor(tree, pindexWalk, height) == Ancestor(tree, this, height)
      {
        assert LinkedAt(tree, pindexWalk);
        var heightSkip := GetSkipHeight(heightWalk);
        var heightSkipPrev := GetSkipHeight(heightWalk - 1);
        if pindexWalk.pskip != null
           && (heightSkip == height
               || (heightSkip > height && !(heightSkipPrev < heightSkip - 2 && heightSkipPrev >= height)))
        {
          AncestorOfAncestor(tree, pindexWalk, heightSkip, height);
          pindexWalk := pindexWalk.pskip;
          heightWalk := heightSkip;
        } else {
          pindexWalk := pindexWalk.pprev;
          heightWalk := heightWalk - 1;
        }
      }
      r := pindexWalk;
    }

    /** Set the skip pointer of a block whose parent is in the tree. */
    method BuildSkip(ghost tree: set<BlockIndex>)
      requires Tree(tree) && this !in tree
      requires pprev != null ==> pprev in tree && nHeight == pprev.nHeight + 1
      requires pprev == null ==> nHeight == 0 && pskip == null
      modifies this`pskip
      ensures Tree(tree + {this})
      ensures pprev != null ==> pskip != null
    {
      if pprev != null {
        assert LinkedAt(tree, pprev);
        pskip := pprev.GetAncestor(GetSkipHeight(nHeight), tree);
        LinkedMore(tree, this);
        AncestorInLarger(tree, tree + {this}, pprev, GetSkipHeight(nHeight));
      }
      LinkedMore(tree, this);
      forall b | b in tree && b.pskip != null
        ensures SkipOk(tree + {this}, b)
      {
        AncestorInLarger(tree, tree + {this}, b, GetSkipHeight(b.nHeight));
      }
    }
  }

  /** The links a new block gets when its header is accepted: it extends the tree and changes nothing in it. */
  method NewBlock(hash: nat, nTime: int, pprev: BlockIndex?, ghost tree: set<BlockIndex>) returns (b: BlockIndex)
    requires Tree(tree) && (pprev != null ==> pprev in tree)
    ensures fresh(b) && b.hash == hash && b.nTime == nTime && b.pprev == pprev
    ensures Tree(tree) && Tree(tree + {b})
    ensures forall a <- tree, h: nat :: h <= a.nHeight ==> Ancestor(tree + {b}, a, h) == old(Ancestor(tree, a, h))
  {
    b := new BlockIndex(hash, nTime);
    if pprev != null {
      b.pprev := pprev;
      b.nHeight := pprev.nHeight + 1;
    }
    b.BuildSkip(tree);
    assert Linked(tree + {b});
    forall a, h: nat | a in tree && h <= a.nHeight
      ensures Ancestor(tree + {b}, a, h) == old(Ancestor(tree, a, h))
    {
      AncestorInLarger(tree, tree + {b}, a, h);
    }
  }

  lemma ValuesAfter(m: map<nat, BlockIndex>, k: nat, b: BlockIndex)
    requires k !in m
    ensures m[k := b].Values == m.Values + {b}
  {
    var m' := m[k := b];
    assert m'[k] == b;
    forall x | x in m.Values
      ensures x in m'.Values
    {
      var h :| h in m && m[h] == x;
      assert m'[h] == x;
    }
  }

  /** mapBlockIndex: all known blocks by hash. */
  class BlockMap {
    var index: map<nat, BlockIndex>

    ghost predicate Valid()
      reads this, index.Values
    {
      Tree(index.Values) && forall h :: h in index ==> index[h].hash == h
    }

    /** Accept a header: a known one changes nothing, a new one joins the tree on top of its parent, if that is known. */
    method AddToBlockIndex(hash: nat, hashPrev: nat, nTime: int) returns (b: BlockIndex)
      requires Valid() && hashPrev != hash
      modifies this
      ensures Valid()
      ensures hash in old(index) ==> b == old(index)[hash] && index == old(index)
      ensures hash !in old(index) ==>
                && fresh(b) && index == old(index)[hash := b] && b.nTime == nTime
                && b.pprev == if hashPrev in old(index) then old(index)[hashPrev] else null
      ensures forall a, h: nat :: a in old(index).Values && h <= a.nHeight ==>
                a in index.Values && Ancestor(index.Values, a, h) == old(Ancestor(index.Values, a, h))
    {
      if hash in index {
        return index[hash];
      }
      var pprev := if hashPrev in index then index[hashPrev] else null;
      b := NewBlock(hash, nTime, pprev, index.Values);
      index := index[hash := b];
      ValuesAfter(old(index), hash, b);
    }
  }

  // ----- searches

  /** No block above height `h` is a common ancestor of `a` and `b`. */
  ghost predicate NoCommonAbove(tree: set<BlockIndex>, a: BlockIndex, b: BlockIndex, h: int)
    requires Linked(tree) && a in tree && b in tree
    reads tree
  {
    forall c <- tree :: IsAncestor(tree, c, a) && IsAncestor(tree, c, b) ==> c.nHeight <= h
  }

  function HeightOf(r: BlockIndex?): int
    reads r
  {
    if r == null then -1 else r.nHeight
  }

  /** `r` is the highest block that both `a` and `b` are or descend from, or there is none. */
  ghost predicate HighestCommon(tree: set<BlockIndex>, r: BlockIndex?, a: BlockIndex, b: BlockIndex)
    requires Linked(tree) && a in tree && b in tree
    reads tree, r
  {
    && (r != null ==> r in tree && IsAncestor(tree, r, a) && IsAncestor(tree, r, b))
    && NoCommonAbove(tree, a, b, HeightOf(r))
  }

  /** Where a search that has looked at every height above `pa` and `pb` stands. */
  ghost predicate Searching(tree: set<BlockIndex>, a: BlockIndex, b: BlockIndex, pa: BlockIndex?, pb: BlockIndex?)
    requires Linked(tree) && a in tree && b in tree
    reads tree, pa, pb
  {
    && (pa == null <==> pb == null)
    && (pa != null ==> pa in tree && pb in tree && pa.nHeight == pb.nHeight >= 0)
    && (pa != null ==> IsAncestor(tree, pa, a) && IsAncestor(tree, pb, b))
    && NoCommonAbove(tree, a, b, HeightOf(pa))
  }

  /** The search starts at the lower of the two heights. */
  lemma SearchStarts(tree: set<BlockIndex>, a: BlockIndex, b: BlockIndex, h: nat)
    requires Linked(tree) && a in tree && b in tree && h <= a.nHeight && h <= b.nHeight
    requires h == a.nHeight || h == b.nHeight
    ensures Searching(tree, a, b, Ancestor(tree, a, h), Ancestor(tree, b, h))
  {
  }

  lemma SearchGoesOn(tree: set<BlockIndex>, a: BlockIndex, b: BlockIndex, pa: BlockIndex, pb: BlockIndex)
    requires Linked(tree) && a in tree && b in tree
    requires Searching(tree, a, b, pa, pb) && pa != pb
    ensures Searching(tree, a, b, pa.pprev, pb.pprev)
    ensures pa.pprev != null ==> 0 <= pa.pprev.nHeight < pa.nHeight
  {
    assert LinkedAt(tree, pa) && LinkedAt(tree, pb);
    if pa.pprev != null {
      assert LinkedAt(tree, pa.pprev);
      ParentIsAncestor(tree, pa, a);
      ParentIsAncestor(tree, pb, b);
    }
    forall c | c in tree && IsAncestor(tree, c, a) && IsAncestor(tree, c, b)
      ensures c.nHeight <= pa.nHeight - 1
    {
      assert c.nHeight <= pa.nHeight;
    }
  }

  method LastCommonAncestor(a: BlockIndex, b: BlockIndex, ghost tree: set<BlockIndex>) returns (r: BlockIndex?)
    requires Tree(tree) && a in tree && b in tree
    ensures HighestCommon(tree, r, a, b)
  {
    hide Ancestor, NoCommonAbove;
    assert LinkedAt(tree, a) && LinkedAt(tree, b);
    SearchStarts(tree, a, b, if a.nHeight > b.nHeight then b.nHeight else a.nHeight);
    AncestorOfItself(tree, a);
    AncestorOfItself(tree, b);
    var pa: BlockIndex?, pb: BlockIndex? := a, b;
    if a.nHeight > b.nHeight {
      pa := a.GetAncestor(b.nHeight, tree);
    } else if b.nHeight > a.nHeight {
      pb := b.GetAncestor(a.nHeight, tree);
    }
    while pa != pb && pa != null && pb != null
      invariant Searching(tree, a, b, pa, pb)
      decreases HeightOf(pa)
    {
      SearchGoesOn(tree, a, b, pa, pb);
      pa := pa.pprev;
      pb := pb.pprev;
    }
    // The assertion of the source holds even when the branches do not meet: both walks fall off together.
    assert pa == pb;
    r := pa;
  }

  lemma AncestorOfItself(tree: set<BlockIndex>, b: BlockIndex)
    requires Linked(tree) && b in tree && b.nHeight >= 0
    ensures Ancestor(tree, b, b.nHeight) == b
  {
  }

  lemma ParentIsAncestor(tree: set<BlockIndex>, a: BlockIndex, b: BlockIndex)
    requires Linked(tree) && a in tree && b in tree && IsAncestor(tree, a, b) && a.pprev != null
    ensures IsAncestor(tree, a.pprev, b)
  {
    assert LinkedAt(tree, a) && LinkedAt(tree, a.pprev);
    AncestorOfAncestor(tree, b, a.nHeight, a.pprev.nHeight);
  }

  // ----- locators

  /** The heights a locator lists from `height` on, when `n` blocks are listed before and the next step is `step`. */
  function LocatorHeights(height: nat, n: nat, step: nat): seq<nat>
    requires step >= 1
  {
    if height == 0 then [0]
    else [height] + LocatorHeights(if height > step then height - step else 0, n + 1, if n + 1 > 10 then 2 * step else step)
  }

  /** Listing one more height leaves the heights from the next one on. */
  lemma LocatorGoesOn(all: seq<nat>, listed: seq<nat>, height: nat, n: nat, step: nat)
    requires step >= 1 && all == listed + LocatorHeights(height, n, step)
    ensures height == 0 ==> all == listed + [height]
    ensures height > 0 ==>
              all == listed + [height] + LocatorHeights(if height > step then height - step else 0, n + 1, if n + 1 > 10 then 2 * step else step)
  {
    if height > 0 {
      var rest := LocatorHeights(if height > step then height - step else 0, n + 1, if n + 1 > 10 then 2 * step else step);
      assert listed + ([height] + rest) == listed + [height] + rest;
    }
  }

  lemma {:induction false} LocatorDescends(height: nat, n: nat, step: nat)
    requires step >= 1
    ensures var s := LocatorHeights(height, n, step);
            && s[0] == height && s[|s| - 1] == 0
            && (forall i :: 0 < i < |s| ==> s[i] < s[i - 1])
  {
    if height > 0 {
      LocatorDescends(if height > step then height - step else 0, n + 1, if n + 1 > 10 then 2 * step else step);
    }
  }

  /** The most recent blocks, as long as the step is 1, are listed without gaps. */
  lemma {:induction false} LocatorStartsDense(height: nat, n: nat, i: nat)
    requires n + i <= 11 && i <= height
    ensures i < |LocatorHeights(height, n, 1)| && LocatorHeights(height, n, 1)[i] == height - i
  {
    if i > 0 {
      if n + 1 <= 10 {
        LocatorStartsDense(height - 1, n + 1, i - 1);
      } else {
        LocatorDescends(height - 1, n + 1, 2);
      }
    }
  }

  /** The length of the locator of a block at `height`. */
  function LocatorSize(height: nat): nat {
    if height <= 10 then height + 1 else 11 + BitLen(height - 10)
  }

  /** Locators are short: past the dense part the length grows with the binary logarithm of the height. */
  lemma LocatorIsShort(height: nat)
    ensures |LocatorHeights(height, 0, 1)| == LocatorSize(height)
  {
    DensePart(height, 0);
    if height > 10 {
      DoublingPart(height - 10, 10, 1, height - 10);
    }
  }

  /** As long as the step is 1 there is one height for every block. */
  lemma {:induction false} DensePart(height: nat, n: nat)
    requires n <= 10
    ensures |LocatorHeights(height, n, 1)| ==
            if height <= 10 - n then height + 1 else 10 - n + |LocatorHeights(height - (10 - n), 10, 1)|
    decreases 10 - n
  {
    if n < 10 && height > 0 {
      DensePart(height - 1, n + 1);
    }
  }

  /** With `q` steps to go, of a length that doubles each time, the binary length of `q` says how many heights are left. */
  lemma {:induction false} DoublingPart(height: nat, n: nat, step: nat, q: nat)
    requires step >= 1 && n >= 10 && height <= step * q && (q > 0 ==> step * (q - 1) < height)
    ensures |LocatorHeights(height, n, step)| == 1 + BitLen(q)
    decreases q
  {
    if q > 0 {
      assert step * q == step * (q - 1) + step;
      assert (2 * step) * (q / 2) == step * (2 * (q / 2));
      assert step * (2 * (q / 2)) == if q % 2 == 0 then step * q else step * (q - 1);
      if q / 2 > 0 {
        assert (2 * step) * (q / 2 - 1) == (2 * step) * (q / 2) - 2 * step;
      }
      DoublingPart(if height > step then height - step else 0, n + 1, 2 * step, q / 2);
    }
  }

  /** `hashes` are those of the blocks that walking back from `b` finds at these heights. */
  ghost predicate HashesAt(tree: set<BlockIndex>, b: BlockIndex, heights: seq<nat>, hashes: seq<nat>)
    requires Linked(tree) && b in tree
    reads tree
  {
    && |heights| == |hashes|
    && (forall i :: 0 <= i < |heights| ==> heights[i] <= b.nHeight && hashes[i] == Ancestor(tree, b, heights[i]).hash)
  }

  ghost predicate Locates(tree: set<BlockIndex>, b: BlockIndex, hashes: seq<nat>)
    requires Linked(tree) && b in tree
    reads tree
  {
    assert LinkedAt(tree, b);
    HashesAt(tree, b, LocatorHeights(b.nHeight, 0, 1), hashes)
  }

  ghost predicate LocatesShortly(tree: set<BlockIndex>, b: BlockIndex, hashes: seq<nat>)
    requires Linked(tree) && b in tree
    reads tree
  {
    assert LinkedAt(tree, b);
    Locates(tree, b, hashes) && |hashes| == LocatorSize(b.nHeight)
  }

  class CChain {
    var pBestBlock: BlockIndex?

    constructor (tip: BlockIndex?)
      ensures pBestBlock == tip
    {
      pBestBlock := tip;
    }

    ghost predicate Has(tree: set<BlockIndex>, b: BlockIndex)
      requires Linked(tree) && (pBestBlock != null ==> pBestBlock in tree)
      reads this, tree, b
    {
      pBestBlock != null && IsAncestor(tree, b, pBestBlock)
    }

    function Height(): int
      reads this, pBestBlock
    {
      if pBestBlock == null then -1 else pBestBlock.nHeight
    }

    /** A block is in the chain exactly if the tip is it or descends from it. */
    method Contains(b: BlockIndex?, ghost tree: set<BlockIndex>) returns (r: bool)
      requires Tree(tree) && (pBestBlock != null ==> pBestBlock in tree) && (b != null ==> b in tree)
      ensures r <==> b != null && Has(tree, b)
    {
      if b == null || pBestBlock == null {
        return false;
      }
      var at := pBestBlock.GetAncestor(b.nHeight, tree);
      r := at == b;
    }

    /** The highest block of the chain that `b` is or descends from; none if the chain is empty or does not meet its branch. */
    method FindFork(b: BlockIndex?, ghost tree: set<BlockIndex>) returns (r: BlockIndex?)
      requires Tree(tree) && (pBestBlock != null ==> pBestBlock in tree) && (b != null ==> b in tree)
      ensures r != null ==> b != null && pBestBlock != null
      ensures b != null && pBestBlock != null ==> HighestCommon(tree, r, b, pBestBlock)
    {
      if b == null {
        return null;
      }
      hide Forking, Has, HighestCommon, Linked, LinkedAt, Ancestor, SkipOk, IsAncestor, GetSkipHeight;
      var pindex: BlockIndex? := b;
      if b.nHeight > Height() {
        pindex := b.GetAncestor(Height(), tree);
      }
      ForkStarts(tree, b, pindex);
      while pindex != null
        invariant Forking(tree, b, pindex) && (pindex != null ==> pindex in tree)
        decreases HeightOf(pindex) + 1
      {
        var inChain := Contains(pindex, tree);
        if inChain {
          break;
        }
        ForkGoesOn(tree, b, pindex);
        pindex := pindex.pprev;
      }
      ForkEnds(tree, b, pindex);
      r := pindex;
    }

    /** Where the search for the fork with `b` stands at `p`. */
    ghost predicate Forking(tree: set<BlockIndex>, b: BlockIndex, p: BlockIndex?)
      requires Linked(tree) && (pBestBlock != null ==> pBestBlock in tree) && b in tree
      reads this, tree, p
    {
      && (p != null ==> p in tree)
      && (pBestBlock != null ==> Searching(tree, b, pBestBlock, p, TipAt(tree, HeightOf(p))))
    }

    lemma ForkStarts(tree: set<BlockIndex>, b: BlockIndex, p: BlockIndex?)
      requires Linked(tree) && (pBestBlock != null ==> pBestBlock in tree) && b in tree
      requires b.nHeight <= Height() ==> p == b
      requires b.nHeight > Height() ==> if Height() < 0 then p == null else p == Ancestor(tree, b, Height())
      ensures Forking(tree, b, p) && (p != null ==> p in tree)
    {
      assert LinkedAt(tree, b);
      if pBestBlock != null {
        assert LinkedAt(tree, pBestBlock);
        SearchStarts(tree, b, pBestBlock, if b.nHeight > Height() then Height() else b.nHeight);
      }
    }

    lemma ForkGoesOn(tree: set<BlockIndex>, b: BlockIndex, p: BlockIndex)
      requires Linked(tree) && (pBestBlock != null ==> pBestBlock in tree) && b in tree
      requires Forking(tree, b, p) && !Has(tree, p)
      ensures p.pprev != null ==> p.pprev in tree
      ensures Forking(tree, b, p.pprev) && -1 <= HeightOf(p.pprev) < HeightOf(p)
    {
      assert LinkedAt(tree, p);
      assert p.pprev != null ==> LinkedAt(tree, p.pprev);
      if pBestBlock != null {
        SearchGoesOn(tree, b, pBestBlock, p, TipAt(tree, p.nHeight));
        TipParent(tree, p.nHeight);
      }
    }

    lemma ForkEnds(tree: set<BlockIndex>, b: BlockIndex, p: BlockIndex?)
      requires Linked(tree) && (pBestBlock != null ==> pBestBlock in tree) && b in tree
      requires Forking(tree, b, p) && (p == null || Has(tree, p))
      ensures pBestBlock != null ==> HighestCommon(tree, p, b, pBestBlock)
      ensures p != null ==> pBestBlock != null
    {
    }

    /** The block of the chain at height `h`; none below 0 or above the tip. */
    ghost function TipAt(tree: set<BlockIndex>, h: int): BlockIndex?
      requires Linked(tree) && (pBestBlock != null ==> pBestBlock in tree)
      reads this, tree
    {
      if pBestBlock != null && 0 <= h <= pBestBlock.nHeight then Ancestor(tree, pBestBlock, h) else null
    }

    lemma TipParent(tree: set<BlockIndex>, h: nat)
      requires Linked(tree) && pBestBlock != null && pBestBlock in tree && h <= pBestBlock.nHeight
      ensures TipAt(tree, h) != null && TipAt(tree, h).pprev == TipAt(tree, h - 1)
    {
      var at := Ancestor(tree, pBestBlock, h);
      assert LinkedAt(tree, at);
      if h > 0 {
        AncestorOfAncestor(tree, pBestBlock, h, h - 1);
        assert LinkedAt(tree, at.pprev);
      }
    }

    /** The locator of `b`, or of the tip: the hashes of ancestors at the locator heights. */
    method GetLocator(b: BlockIndex?, ghost tree: set<BlockIndex>) returns (have: seq<nat>)
      requires Tree(tree) && (pBestBlock != null ==> pBestBlock in tree) && (b != null ==> b in tree)
      ensures b == null && pBestBlock == null ==> have == []
      ensures b == null && pBestBlock != null ==> LocatesShortly(tree, pBestBlock, have)
      ensures b != null ==> LocatesShortly(tree, b, have)
    {
      var pindex := if b == null then pBestBlock else b;
      have := [];
      if pindex != null {
        have := ListFrom(pindex, tree);
        assert LinkedAt(tree, pindex);
        LocatorIsShort(pindex.nHeight);
      }
    }

    method ListFrom(start: BlockIndex, ghost tree: set<BlockIndex>) returns (have: seq<nat>)
      requires Tree(tree) && start in tree
      ensures Locates(tree, start, have)
    {
      hide Ancestor, HashesAt, IsAncestor, SkipOk, LocatorHeights;
      var nStep := 1;
      have := [];
      var pindex := start;
      ghost var listed: seq<nat> := [];
      ListStarts(tree, start);
      assert LinkedAt(tree, start);
      while true
        invariant nStep >= 1 && pindex in tree && pindex.nHeight >= 0
        invariant IsAncestor(tree, pindex, start) && HashesAt(tree, start, listed, have)
        invariant LocatorHeights(start.nHeight, 0, 1) == listed + LocatorHeights(pindex.nHeight, |have|, nStep)
        decreases pindex.nHeight
      {
        ListGoesOn(tree, start, listed, have, pindex);
        LocatorGoesOn(LocatorHeights(start.nHeight, 0, 1), listed, pindex.nHeight, |have|, nStep);
        listed := listed + [pindex.nHeight];
        have := have + [pindex.hash];
        if pindex.nHeight == 0 {
          break;
        }
        var nHeight := if pindex.nHeight - nStep > 0 then pindex.nHeight - nStep else 0;
        FurtherBack(tree, start, pindex, nHeight);
        pindex := pindex.GetAncestor(nHeight, tree);
        if |have| > 10 {
          nStep := nStep * 2;
        }
      }
    }
  }

  lemma ListStarts(tree: set<BlockIndex>, b: BlockIndex)
    requires Linked(tree) && b in tree
    ensures IsAncestor(tree, b, b) && HashesAt(tree, b, [], [])
  {
    assert LinkedAt(tree, b);
  }

  lemma ListGoesOn(tree: set<BlockIndex>, b: BlockIndex, heights: seq<nat>, hashes: seq<nat>, a: BlockIndex)
    requires Linked(tree) && b in tree && HashesAt(tree, b, heights, hashes) && IsAncestor(tree, a, b)
    ensures |heights| == |hashes| && a.nHeight >= 0
    ensures HashesAt(tree, b, heights + [a.nHeight], hashes + [a.hash])
  {
  }

  lemma FurtherBack(tree: set<BlockIndex>, b: BlockIndex, a: BlockIndex, h: nat)
    requires Linked(tree) && b in tree && a in tree && IsAncestor(tree, a, b) && h <= a.nHeight
    ensures IsAncestor(tree, Ancestor(tree, a, h), b)
  {
    AncestorOfAncestor(tree, b, a.nHeight, h);
  }
}
