/**
 The search for the earliest block with a given time or a later one. Its loop
 need not end, so it is modelled by the states it goes through; the results say
 exactly when it ends, and when it gives the right answer.
 */
module EarliestBlock {
  import opened Chain

  /** The heights between which the loop still looks. */
  datatype Search = Search(lo: nat, hi: nat) {
    ghost predicate Valid(times: seq<int>) {
      lo <= hi < |times|
    }
  }

  /** One turn of the loop, for the block times of a chain by height. */
  function Turn(times: seq<int>, time: int, s: Search): (r: Search)
    requires s.Valid(times) && s.lo < s.hi
    ensures r.Valid(times)
  {
    var m := (s.lo + s.hi) / 2;
    if times[m] < time then s.(lo := m) else s.(hi := m)
  }

  function After(times: seq<int>, time: int, s: Search, turns: nat): (r: Search)
    requires s.Valid(times)
    ensures r.Valid(times)
    decreases turns
  {
    if turns == 0 || s.lo == s.hi then s else After(times, time, Turn(times, time, s), turns - 1)
  }

  ghost predicate Ends(times: seq<int>, time: int, s: Search)
    requires s.Valid(times)
  {
    exists turns: nat :: EndsIn(times, time, s, turns)
  }

  ghost predicate EndsIn(times: seq<int>, time: int, s: Search, turns: nat)
    requires s.Valid(times)
  {
    After(times, time, s, turns).lo == After(times, time, s, turns).hi
  }

  /** The loop ends exactly if it ends after one more turn. */
  lemma EndsOneLater(times: seq<int>, time: int, s: Search)
    requires s.Valid(times) && s.lo < s.hi
    ensures Ends(times, time, s) <==> Ends(times, time, Turn(times, time, s))
  {
    if Ends(times, time, s) {
      var n: nat :| EndsIn(times, time, s, n);
      assert EndsIn(times, time, Turn(times, time, s), n - 1);
    }
    if Ends(times, time, Turn(times, time, s)) {
      var n: nat :| EndsIn(times, time, Turn(times, time, s), n);
      assert EndsIn(times, time, s, n + 1);
    }
  }

  /** Once the block at the lower height is too early the two heights never meet. */
  lemma {:induction false} NeverMeets(times: seq<int>, time: int, s: Search, turns: nat)
    requires s.Valid(times) && s.lo < s.hi && times[s.lo] < time
    ensures !EndsIn(times, time, s, turns)
    decreases turns
  {
    if turns > 0 {
      NeverMeets(times, time, Turn(times, time, s), turns - 1);
    }
  }

  /** The blocks at half the height, a quarter of it, and so on down to the first are late enough. */
  predicate HalvesLateEnough(times: seq<int>, time: int, h: nat)
    requires h < |times|
  {
    h == 0 || (times[h / 2] >= time && HalvesLateEnough(times, time, h / 2))
  }

  /** Starting at height 0 the loop ends exactly if it never has to raise its lower height. */
  lemma {:induction false} EndsIff(times: seq<int>, time: int, h: nat)
    requires h < |times|
    ensures Ends(times, time, Search(0, h)) <==> HalvesLateEnough(times, time, h)
    decreases h
  {
    var s := Search(0, h);
    if h == 0 {
      assert EndsIn(times, time, s, 0);
    } else {
      EndsOneLater(times, time, s);
      if times[h / 2] >= time {
        EndsIff(times, time, h / 2);
      } else {
        forall n: nat
          ensures !EndsIn(times, time, Search(h / 2, h), n)
        {
          NeverMeets(times, time, Search(h / 2, h), n);
        }
      }
    }
  }

  /** Where it ends the height is 0. */
  lemma {:induction false} EndsAtFirst(times: seq<int>, time: int, h: nat, turns: nat)
    requires h < |times| && HalvesLateEnough(times, time, h)
    ensures After(times, time, Search(0, h), turns).lo == 0
    decreases turns
  {
    if turns > 0 && h > 0 {
      EndsAtFirst(times, time, h / 2, turns - 1);
    }
  }

  datatype Outcome = NoBlock | Block(height: nat) | Forever

  ghost function FindEarliestAtLeast(times: seq<int>, time: int): Outcome {
    if times == [] || times[0] > time then NoBlock
    else if times[|times| - 1] < time then NoBlock
    else
      var s := Search(0, |times| - 1);
      if Ends(times, time, s) then
        var turns: nat :| EndsIn(times, time, s, turns);
        Block(After(times, time, s, turns).hi)
      else Forever
  }

  /** What is asked for: the first block that is late enough, or none if there is no such block. */
  ghost predicate IsEarliest(times: seq<int>, time: int, r: Outcome) {
    match r
    case NoBlock => forall i :: 0 <= i < |times| ==> times[i] < time
    case Block(h) => h < |times| && times[h] >= time && forall i :: 0 <= i < h ==> times[i] < time
    case Forever => false
  }

  /** The only block ever found is the first one of the chain. */
  lemma OnlyTheFirst(times: seq<int>, time: int)
    ensures FindEarliestAtLeast(times, time).Block? ==>
              FindEarliestAtLeast(times, time) == Block(0) && times != [] && times[0] == time
  {
    if FindEarliestAtLeast(times, time).Block? {
      var h := |times| - 1;
      EndsIff(times, time, h);
      FirstIsLate(times, time, h);
      var turns: nat :| EndsIn(times, time, Search(0, h), turns) && FindEarliestAtLeast(times, time) == Block(After(times, time, Search(0, h), turns).hi);
      EndsAtFirst(times, time, h, turns);
    }
  }

  /** Where the loop ends it has found the block of the outcome, however many turns it is given. */
  lemma FoundIsFirst(times: seq<int>, time: int, turns: nat)
    requires times != [] && times[0] <= time <= times[|times| - 1]
    requires EndsIn(times, time, Search(0, |times| - 1), turns)
    ensures FindEarliestAtLeast(times, time) == Block(After(times, time, Search(0, |times| - 1), turns).hi)
  {
    OnlyTheFirst(times, time);
    EndsIff(times, time, |times| - 1);
    EndsAtFirst(times, time, |times| - 1, turns);
  }

  lemma {:induction false} FirstIsLate(times: seq<int>, time: int, h: nat)
    requires h < |times| && HalvesLateEnough(times, time, h)
    ensures h > 0 ==> times[0] >= time
    decreases h
  {
    if h > 1 {
      FirstIsLate(times, time, h / 2);
    }
  }

  // ----- on a chain of blocks

  /** The times of the blocks from the first one of its branch up to `b`. */
  ghost function Times(tree: set<BlockIndex>, b: BlockIndex?): (times: seq<int>)
    requires Linked(tree) && (b != null ==> b in tree)
    reads tree
    ensures |times| == HeightOf(b) + 1
    decreases HeightOf(b) + 1
  {
    if b == null then []
    else
      assert LinkedAt(tree, b) && (b.pprev != null ==> LinkedAt(tree, b.pprev));
      Times(tree, b.pprev) + [b.nTime]
  }

  /** They are those of the blocks found by walking back. */
  lemma {:induction false} TimeAt(tree: set<BlockIndex>, b: BlockIndex, h: nat)
    requires Linked(tree) && b in tree && h <= b.nHeight
    ensures Times(tree, b)[h] == Ancestor(tree, b, h).nTime
    decreases b.nHeight
  {
    assert LinkedAt(tree, b);
    if h < b.nHeight {
      TimeAt(tree, b.pprev, h);
    }
  }

  /** Whether the loop is reached: the chain is not empty, its first block not too late, and its tip late enough. */
  ghost predicate Searched(times: seq<int>, time: int) {
    times != [] && times[0] <= time <= times[|times| - 1]
  }

  /** The search on a chain, given up after `limit` turns of its loop. */
  method Find(chain: CChain, time: int, limit: nat, ghost tree: set<BlockIndex>) returns (finished: bool, block: BlockIndex?)
    requires Tree(tree) && (chain.pBestBlock != null ==> chain.pBestBlock in tree)
    ensures var times := Times(tree, chain.pBestBlock);
            && (finished <==> (Searched(times, time) ==> EndsIn(times, time, Search(0, |times| - 1), limit)))
            && (finished ==> match FindEarliestAtLeast(times, time)
                             case NoBlock => block == null
                             case Block(h) => block != null && block == chain.TipAt(tree, h)
                             case Forever => false)
  {
    if chain.pBestBlock == null {
      return true, null;
    }
    var tip := chain.pBestBlock;
    ghost var times := Times(tree, tip);
    assert LinkedAt(tree, tip);
    TimeAt(tree, tip, 0);
    TimeAt(tree, tip, tip.nHeight);
    var genesis := tip.GetAncestor(0, tree);
    if genesis.nTime > time || tip.nTime < time {
      return true, null;
    }
    var s := Loop(tip, time, limit, tree);
    if s.lo < s.hi {
      return false, null;
    }
    FoundIsFirst(times, time, limit);
    block := tip.GetAncestor(s.hi, tree);
    return true, block;
  }

  method Loop(tip: BlockIndex, time: int, limit: nat, ghost tree: set<BlockIndex>) returns (s: Search)
    requires Tree(tree) && tip in tree && tip.nHeight >= 0
    ensures s == After(Times(tree, tip), time, Search(0, tip.nHeight), limit)
  {
    hide Times, Linked, Ancestor, SkipOk;
    ghost var times := Times(tree, tip);
    s := Search(0, tip.nHeight);
    var turns := 0;
    while s.lo < s.hi && turns < limit
      invariant turns <= limit && s.Valid(times)
      invariant After(times, time, Search(0, tip.nHeight), limit) == After(times, time, s, limit - turns)
    {
      var mHeight := (s.lo + s.hi) / 2;
      TimeAt(tree, tip, mHeight);
      var middle := tip.GetAncestor(mHeight, tree);
      s := if middle.nTime < time then s.(lo := mHeight) else s.(hi := mHeight);
      turns := turns + 1;
    }
  }

  /**
   The answer is right exactly for an empty chain; or when the first block is not too late and
   either the tip and all other blocks are too early, or the tip is late enough and the search
   never meets a block that is not.
   */
  lemma RightIff(times: seq<int>, time: int)
    ensures IsEarliest(times, time, FindEarliestAtLeast(times, time)) <==>
            || times == []
            || (&& times[0] <= time
                && if times[|times| - 1] < time then forall i :: 0 <= i < |times| ==> times[i] < time
                   else HalvesLateEnough(times, time, |times| - 1))
  {
    if times != [] && times[0] <= time <= times[|times| - 1] {
      EndsIff(times, time, |times| - 1);
      OnlyTheFirst(times, time);
    }
  }

  /** Two blocks: a time between theirs is searched for without end, and for one before both no block is found. */
  lemma WrongAnswers()
    ensures FindEarliestAtLeast([100, 200], 150) == Forever
    ensures FindEarliestAtLeast([100, 200], 50) == NoBlock && !IsEarliest([100, 200], 50, NoBlock)
  {
    var times := [100, 200];
    EndsIff(times, 150, 1);
    assert !HalvesLateEnough(times, 150, 1);
    assert times[0] >= 50;
  }
}
