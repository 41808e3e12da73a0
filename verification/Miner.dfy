/**
 Block assembly: packages of a transaction with its unconfirmed ancestors are
 picked from the mempool by recorded scores, some of them stale, and added to
 the block whole.
 */
module Miner {

  const WITNESS_SCALE_FACTOR := 4
  const MAX_BLOCK_WEIGHT := 4000000
  const MAX_BLOCK_SIGOPS_COST := 80000
  const MAX_CONSECUTIVE_FAILURES := 1000

  /** A mempool entry: its own figures, its in-mempool ancestors, and the cached figures of the whole package. */
  datatype Tx = Tx(
    size: nat, weight: nat, sigOps: nat, fee: int, modFee: int, ancestors: set<nat>,
    countWithAncestors: nat, cached: ModEntry)

  /** A score order, as an ordered index demands it: no two entries are better than each other, and ties are transitive. */
  ghost predicate Ranks(better: (ModEntry, ModEntry) -> bool) {
    && (forall a, b :: better(a, b) ==> !better(b, a))
    && (forall a, b, c :: better(a, c) ==> better(a, b) || better(b, c))
  }

  /** What became of one entry. */
  datatype Verdict = Skipped | TooCheap | DoesNotFit | NotIncludable | Included(updated: nat)

  /** Why the selection of packages ended. */
  datatype StopReason = UsedUp | LowFees | NearlyFull

  /**
   Where the selection stands: the place in the order, the modified entries with the origins of
   their figures, the entries that failed, and the block as a set and as a list.
   */
  datatype Desk = Desk(mi: nat, modified: ModMap, failed: set<nat>, block: set<nat>, vtx: seq<nat>, from: Origins)

  /** How many entries did not fit since the last one was included. */
  ghost function Failures(verdicts: seq<Verdict>): nat {
    if verdicts == [] then 0
    else
      var last, before := verdicts[|verdicts| - 1], Failures(verdicts[..|verdicts| - 1]);
      if last.Included? then 0 else if last.DoesNotFit? then before + 1 else before
  }

  ghost function Selected(verdicts: seq<Verdict>): nat {
    if verdicts == [] then 0
    else Selected(verdicts[..|verdicts| - 1]) + if verdicts[|verdicts| - 1].Included? then 1 else 0
  }

  ghost function UpdatedInAll(verdicts: seq<Verdict>): nat {
    if verdicts == [] then 0
    else
      var last := verdicts[|verdicts| - 1];
      UpdatedInAll(verdicts[..|verdicts| - 1]) + if last.Included? then last.updated else 0
  }

  lemma OneMoreVerdict(verdicts: seq<Verdict>, v: Verdict)
    ensures Failures(verdicts + [v]) == if v.Included? then 0 else if v.DoesNotFit? then Failures(verdicts) + 1 else Failures(verdicts)
    ensures Selected(verdicts + [v]) == Selected(verdicts) + if v.Included? then 1 else 0
    ensures UpdatedInAll(verdicts + [v]) == UpdatedInAll(verdicts) + if v.Included? then v.updated else 0
  {
    assert (verdicts + [v])[..|verdicts|] == verdicts;
  }

  // ----- sums over finite sets

  ghost function Sum(s: set<nat>, f: nat -> int): int {
    if s == {} then 0
    else
      var x :| x in s;
      f(x) + Sum(s - {x}, f)
  }

  lemma {:induction false} SumOut(s: set<nat>, x: nat, f: nat -> int)
    requires x in s
    ensures Sum(s, f) == f(x) + Sum(s - {x}, f)
    decreases |s|
  {
    var y :| y in s && Sum(s, f) == f(y) + Sum(s - {y}, f);
    if y != x {
      SumOut(s - {y}, x, f);
      SumOut(s - {x}, y, f);
      assert s - {y} - {x} == s - {x} - {y};
    }
  }

  lemma NoSum(f: nat -> int)
    ensures Sum({}, f) == 0
  {
  }

  lemma AddToSum(s: set<nat>, x: nat, f: nat -> int)
    requires x !in s
    ensures Sum(s + {x}, f) == Sum(s, f) + f(x)
  {
    SumOut(s + {x}, x, f);
    assert s + {x} - {x} == s;
  }

  lemma {:induction false} SumOfDisjoint(s: set<nat>, t: set<nat>, f: nat -> int)
    requires s !! t
    ensures Sum(s + t, f) == Sum(s, f) + Sum(t, f)
    decreases |t|
  {
    if t == {} {
      assert s + t == s;
    } else {
      var x :| x in t;
      SumOut(t, x, f);
      SumOut(s + t, x, f);
      assert s + t - {x} == s + (t - {x});
      SumOfDisjoint(s, t - {x}, f);
    }
  }

  lemma {:induction false} SumNotNegative(s: set<nat>, f: nat -> int)
    requires forall x :: x in s ==> f(x) >= 0
    ensures Sum(s, f) >= 0
    decreases |s|
  {
    if s != {} {
      var x :| x in s;
      SumOut(s, x, f);
      SumNotNegative(s - {x}, f);
    }
  }

  lemma SumOfPart(s: set<nat>, t: set<nat>, f: nat -> int)
    requires s <= t && forall x :: x in t ==> f(x) >= 0
    ensures Sum(s, f) <= Sum(t, f)
  {
    SumOfDisjoint(s, t - s, f);
    assert s + (t - s) == t;
    SumNotNegative(t - s, f);
  }

  lemma SmallerSet(s: set<nat>, t: set<nat>, x: nat)
    requires s <= t && x in t && x !in s
    ensures |s| < |t|
  {
    assert t == s + {x} + (t - s - {x});
  }

  // ----- the mempool

  /** The mempool: for each transaction its own figures and the set of all its in-mempool ancestors. */
  datatype Pool = Pool(txs: map<nat, Tx>) {

    /**
     Ancestry is a strict partial order within the pool, the cached package figures are exact,
     and no weight exceeds four times the virtual size.
     */
    ghost predicate Valid() {
      && (forall t, a :: t in txs && a in txs[t].ancestors ==> a in txs && a != t)
      && (forall t, a, b :: t in txs && a in txs[t].ancestors && b in txs[a].ancestors ==> b in txs[t].ancestors)
      && (forall t :: t in txs ==> txs[t].weight <= WITNESS_SCALE_FACTOR * txs[t].size)
      && (forall t :: t in txs ==> CacheExact(t))
    }

    function Ancestors(t: nat): set<nat> { if t in txs then txs[t].ancestors else {} }
    function Size(t: nat): int { if t in txs then txs[t].size else 0 }
    function Weight(t: nat): int { if t in txs then txs[t].weight else 0 }
    function SigOps(t: nat): int { if t in txs then txs[t].sigOps else 0 }
    function Fee(t: nat): int { if t in txs then txs[t].fee else 0 }
    function ModFee(t: nat): int { if t in txs then txs[t].modFee else 0 }

    ghost predicate CacheExact(t: nat)
      requires t in txs
    {
      && txs[t].countWithAncestors == |WithAncestors(t)|
      && txs[t].cached.size == Sum(WithAncestors(t), Size)
      && txs[t].cached.modFees == Sum(WithAncestors(t), ModFee)
      && txs[t].cached.sigOps == Sum(WithAncestors(t), SigOps)
    }

    function WithAncestors(t: nat): set<nat> { Ancestors(t) + {t} }

    /** The proper descendants of `t`. */
    function Descendants(t: nat): set<nat> { set d | d in txs && t in txs[d].ancestors }

    ghost predicate Closed(s: set<nat>) {
      s <= txs.Keys && forall t :: t in s ==> Ancestors(t) <= s
    }

    /** An ancestor has strictly fewer ancestors. */
    lemma FewerAncestors(a: nat, t: nat)
      requires Valid() && t in txs && a in Ancestors(t)
      ensures |WithAncestors(a)| < |WithAncestors(t)|
    {
      hide CacheExact;
      SmallerSet(WithAncestors(a), WithAncestors(t), t);
    }
  }

  lemma ClosedExtends(pool: Pool, s: set<nat>, t: nat)
    requires pool.Closed(s) && t in pool.txs && pool.Ancestors(t) <= s
    ensures pool.Closed(s + {t})
  {
  }

  /** CTxMemPoolModifiedEntry: the recorded package figures of a transaction some of whose ancestors are in the block. */
  datatype ModEntry = ModEntry(size: int, modFees: int, sigOps: int)

  type ModMap = map<nat, ModEntry>

  /** How a record came about: the ancestor it was made for, and those that joined the block since. */
  datatype Origin = Origin(first: nat, later: set<nat>)

  type Origins = map<nat, Origin>

  /** The figures left by an origin: the first ancestor takes its modified fee off the cached ones, later ones their base fee. */
  ghost function Reduced(pool: Pool, t: nat, o: Origin): ModEntry
    requires t in pool.txs
  {
    var c := pool.txs[t].cached;
    ModEntry(c.size - pool.Size(o.first) - Sum(o.later, pool.Size),
             c.modFees - pool.ModFee(o.first) - Sum(o.later, pool.Fee),
             c.sigOps - pool.SigOps(o.first) - Sum(o.later, pool.SigOps))
  }

  ghost predicate Traced(pool: Pool, t: nat, o: Origin, block: set<nat>) {
    && t in pool.txs && t !in block
    && o.first in pool.Ancestors(t) * block && o.later <= pool.Ancestors(t) * block - {o.first}
  }

  ghost predicate RecordedAs(pool: Pool, t: nat, e: ModEntry, o: Origin, block: set<nat>) {
    Traced(pool, t, o, block) && e == Reduced(pool, t, o)
  }

  /** Every record is what its origin leaves. */
  ghost predicate Recorded(pool: Pool, mod: ModMap, from: Origins, block: set<nat>) {
    forall t :: t in mod ==> t in from && RecordedAs(pool, t, mod[t], from[t], block)
  }

  /** What of a package is not yet in the block. */
  ghost function Left(pool: Pool, t: nat, block: set<nat>): set<nat> {
    pool.WithAncestors(t) - block
  }

  /** The ancestors that were in the block before the record was made, of which it knows nothing. */
  ghost function Missed(pool: Pool, t: nat, o: Origin, block: set<nat>): set<nat> {
    pool.Ancestors(t) * block - {o.first} - o.later
  }

  lemma SumInParts(pool: Pool, t: nat, o: Origin, block: set<nat>, f: nat -> int)
    requires Traced(pool, t, o, block)
    ensures Sum(pool.WithAncestors(t), f)
         == Sum(Left(pool, t, block), f) + Sum(Missed(pool, t, o, block), f) + f(o.first) + Sum(o.later, f)
  {
    var left, missed := Left(pool, t, block), Missed(pool, t, o, block);
    assert pool.WithAncestors(t) - {o.first} == (left + missed) + o.later;
    SumOut(pool.WithAncestors(t), o.first, f);
    SumOfDisjoint(left + missed, o.later, f);
    SumOfDisjoint(left, missed, f);
  }

  /** How far a record is from what is left: by what it missed, and by the priority of what joined the block since it was made. */
  lemma RecordIsOff(pool: Pool, t: nat, o: Origin, block: set<nat>)
    requires pool.Valid() && Traced(pool, t, o, block)
    ensures var e, left, missed := Reduced(pool, t, o), Left(pool, t, block), Missed(pool, t, o, block);
            && e.size == Sum(left, pool.Size) + Sum(missed, pool.Size)
            && e.sigOps == Sum(left, pool.SigOps) + Sum(missed, pool.SigOps)
            && e.modFees == Sum(left, pool.ModFee) + Sum(missed, pool.ModFee) + Sum(o.later, pool.ModFee) - Sum(o.later, pool.Fee)
  {
    hide Sum, Pool.Valid, Left, Missed;
    CacheIsExact(pool, t);
    SumInParts(pool, t, o, block, pool.Size);
    SumInParts(pool, t, o, block, pool.SigOps);
    SumInParts(pool, t, o, block, pool.ModFee);
  }

  /** Recorded fees are those of what is left exactly if the fees missed and the priorities since make up for each other. */
  lemma FeesExactIff(pool: Pool, t: nat, o: Origin, block: set<nat>)
    requires pool.Valid() && Traced(pool, t, o, block)
    ensures Reduced(pool, t, o).modFees == Sum(Left(pool, t, block), pool.ModFee)
            <==> Sum(Missed(pool, t, o, block), pool.ModFee) + Sum(o.later, pool.ModFee) == Sum(o.later, pool.Fee)
  {
    hide Sum, Traced, Pool.Valid, Left, Missed, Reduced;
    RecordIsOff(pool, t, o, block);
  }

  /** The recorded figures cover at least what of the package is not yet in `block`. */
  ghost predicate EntryCovers(pool: Pool, t: nat, e: ModEntry, block: set<nat>) {
    && e.size >= Sum(Left(pool, t, block), pool.Size)
    && e.sigOps >= Sum(Left(pool, t, block), pool.SigOps)
  }

  /** No recorded figure exceeds the cached one. */
  ghost predicate EntryWithin(pool: Pool, t: nat, e: ModEntry)
    requires t in pool.txs
  {
    e.size <= pool.txs[t].cached.size && e.sigOps <= pool.txs[t].cached.sigOps
  }

  lemma RecordCovers(pool: Pool, t: nat, o: Origin, block: set<nat>)
    requires pool.Valid() && Traced(pool, t, o, block)
    ensures EntryCovers(pool, t, Reduced(pool, t, o), block) && EntryWithin(pool, t, Reduced(pool, t, o))
  {
    hide Sum, Traced, Pool.Valid, Left, Missed;
    RecordIsOff(pool, t, o, block);
    SumNotNegative(Missed(pool, t, o, block), pool.Size);
    SumNotNegative(Missed(pool, t, o, block), pool.SigOps);
    SumNotNegative(o.later, pool.Size);
    SumNotNegative(o.later, pool.SigOps);
  }

  /** The origin of the record of `t` after its ancestor `it` joins the block. */
  ghost function Onwards(mod: ModMap, from: Origins, t: nat, it: nat): Origin {
    if t in mod && t in from then from[t].(later := from[t].later + {it}) else Origin(it, {})
  }

  /** Records go on from what they were with the ancestors among `added`; a new one starts with one of them. */
  ghost predicate GoesOn(pool: Pool, mod: ModMap, from: Origins, mod': ModMap, from': Origins, added: set<nat>) {
    forall t :: t in mod' ==>
      && t in from' && (t in mod ==> t in from)
      && var joined := pool.Ancestors(t) * added;
         if t in mod then from'[t] == Origin(from[t].first, from[t].later + joined)
         else from'[t].first in joined && from'[t].later == joined - {from'[t].first}
  }

  lemma ReducedOnwards(pool: Pool, t: nat, o: Origin, it: nat, block: set<nat>)
    requires Traced(pool, t, o, block) && it in pool.Ancestors(t) && it !in block && it != t
    ensures var o', e := Origin(o.first, o.later + {it}), Reduced(pool, t, o);
            && Traced(pool, t, o', block + {it})
            && Reduced(pool, t, o') == ModEntry(e.size - pool.Size(it), e.modFees - pool.Fee(it), e.sigOps - pool.SigOps(it))
  {
    var later := o.later + {it};
    assert later - {it} == o.later;
    SumOut(later, it, pool.Size);
    SumOut(later, it, pool.Fee);
    SumOut(later, it, pool.SigOps);
  }

  lemma FirstRecord(pool: Pool, t: nat, it: nat, block: set<nat>)
    requires t in pool.txs && t !in block && it in pool.Ancestors(t) && it != t
    ensures var o, c := Origin(it, {}), pool.txs[t].cached;
            && Traced(pool, t, o, block + {it})
            && Reduced(pool, t, o) == ModEntry(c.size - pool.Size(it), c.modFees - pool.ModFee(it), c.sigOps - pool.SigOps(it))
  {
  }

  lemma StillTraced(pool: Pool, t: nat, e: ModEntry, o: Origin, block: set<nat>, it: nat)
    requires RecordedAs(pool, t, e, o, block) && t != it
    ensures RecordedAs(pool, t, e, o, block + {it}) && t in pool.txs
  {
  }

  /** The records while the descendants `rest` of `all` have yet to take off `it`. */
  ghost predicate Midway(pool: Pool, mod: ModMap, from: Origins, mod': ModMap, from': Origins, block: set<nat>, it: nat, all: set<nat>, rest: set<nat>) {
    && (forall t :: t in mod' <==> t in mod || (t in all && t !in rest))
    && (forall t :: t in mod && (t !in all || t in rest) ==>
          t in from && t in from' && mod'[t] == mod[t] && from'[t] == from[t] && RecordedAs(pool, t, mod[t], from[t], block))
    && (forall t :: t in all && t !in rest ==>
          && t in from' && (t in mod ==> t in from) && from'[t] == Onwards(mod, from, t, it)
          && RecordedAs(pool, t, mod'[t], from'[t], block + {it}))
  }

  lemma MidwayStarts(pool: Pool, mod: ModMap, from: Origins, block: set<nat>, it: nat, all: set<nat>)
    requires Recorded(pool, mod, from, block)
    ensures Midway(pool, mod, from, mod, from, block, it, all, all)
  {
    hide RecordedAs;
  }

  lemma MidwayAt(pool: Pool, mod: ModMap, from: Origins, mod': ModMap, from': Origins, block: set<nat>, it: nat, all: set<nat>, rest: set<nat>, d: nat)
    requires Midway(pool, mod, from, mod', from', block, it, all, rest) && d in rest
    ensures d in mod' ==> d in from' && RecordedAs(pool, d, mod'[d], from'[d], block)
  {
    hide RecordedAs;
  }

  lemma MidwayGoesOn(pool: Pool, mod: ModMap, from: Origins, mod': ModMap, from': Origins, block: set<nat>, it: nat, all: set<nat>, rest: set<nat>, d: nat, e: ModEntry)
    requires Midway(pool, mod, from, mod', from', block, it, all, rest) && d in rest && rest <= all
    requires RecordedAs(pool, d, e, Onwards(mod', from', d, it), block + {it})
    ensures Midway(pool, mod, from, mod'[d := e], from'[d := Onwards(mod', from', d, it)], block, it, all, rest - {d})
  {
    hide RecordedAs;
  }

  lemma MidwayEnds(pool: Pool, mod: ModMap, from: Origins, mod': ModMap, from': Origins, block: set<nat>, it: nat, added: set<nat>, all: set<nat>)
    requires Midway(pool, mod, from, mod', from', block, it, all, {}) && all == pool.Descendants(it) - added
    requires mod.Keys !! added && it in added
    ensures forall t :: t in mod' <==> t in mod || (t in pool.Descendants(it) && t !in added)
    ensures Recorded(pool, mod', from', block + {it}) && GoesOn(pool, mod, from, mod', from', {it})
  {
    hide RecordedAs;
    forall t | t in mod'
      ensures t in from' && RecordedAs(pool, t, mod'[t], from'[t], block + {it})
      ensures var joined := pool.Ancestors(t) * {it};
              if t in mod then t in from && from'[t] == Origin(from[t].first, from[t].later + joined)
              else from'[t].first in joined && from'[t].later == joined - {from'[t].first}
    {
      var joined := pool.Ancestors(t) * {it};
      if t in all {
        assert joined == {it};
      } else {
        StillTraced(pool, t, mod[t], from[t], block, it);
        assert joined == {} && from[t].later + joined == from[t].later;
      }
    }
  }

  /** The records after `done` of `added` have been taken off. */
  ghost predicate Updated(pool: Pool, mod: ModMap, from: Origins, mod': ModMap, from': Origins, block: set<nat>, added: set<nat>, done: set<nat>) {
    && Recorded(pool, mod', from', block + done) && GoesOn(pool, mod, from, mod', from', done)
    && mod'.Keys !! added && mod.Keys <= mod'.Keys
    && forall it, d :: it in done && d in pool.Descendants(it) && d !in added ==> d in mod'
  }

  lemma UpdatedSoFar(pool: Pool, mod: ModMap, from: Origins, mod': ModMap, from': Origins, block: set<nat>, added: set<nat>, done: set<nat>)
    requires Updated(pool, mod, from, mod', from', block, added, done)
    ensures Recorded(pool, mod', from', block + done) && GoesOn(pool, mod, from, mod', from', done)
    ensures mod'.Keys !! added && mod.Keys <= mod'.Keys
    ensures forall it, d :: it in done && d in pool.Descendants(it) && d !in added ==> d in mod'
  {
    hide Recorded, GoesOn;
  }

  lemma NothingJoined(pool: Pool, mod: ModMap, from: Origins, block: set<nat>, added: set<nat>)
    requires Recorded(pool, mod, from, block) && mod.Keys !! added
    ensures Updated(pool, mod, from, mod, from, block, added, {})
  {
    hide RecordedAs;
    assert block + {} == block;
    forall t | t in mod
      ensures from[t] == Origin(from[t].first, from[t].later + pool.Ancestors(t) * {})
    {
      assert from[t].later + pool.Ancestors(t) * {} == from[t].later;
    }
  }

  lemma OneMoreUpdated(pool: Pool, mod: ModMap, from: Origins, mod1: ModMap, from1: Origins, mod2: ModMap, from2: Origins,
                       block: set<nat>, added: set<nat>, done: set<nat>, it: nat)
    requires Updated(pool, mod, from, mod1, from1, block, added, done) && it in added && it !in done
    requires Recorded(pool, mod2, from2, block + done + {it}) && GoesOn(pool, mod1, from1, mod2, from2, {it})
    requires forall t :: t in mod2 <==> t in mod1 || (t in pool.Descendants(it) && t !in added)
    ensures Updated(pool, mod, from, mod2, from2, block, added, done + {it})
  {
    hide Recorded, GoesOn;
    assert block + done + {it} == block + (done + {it});
    forall t | t in mod2 && t !in mod1
      ensures pool.Ancestors(t) !! done
    {
      forall a | a in pool.Ancestors(t)
        ensures a !in done
      {
        assert t in pool.Descendants(a);
      }
    }
    GoesOnTwice(pool, mod, from, mod1, from1, mod2, from2, done, it);
  }

  lemma GoesOnTwice(pool: Pool, mod: ModMap, from: Origins, mod1: ModMap, from1: Origins, mod2: ModMap, from2: Origins, done: set<nat>, it: nat)
    requires GoesOn(pool, mod, from, mod1, from1, done) && GoesOn(pool, mod1, from1, mod2, from2, {it})
    requires it !in done && mod.Keys <= mod1.Keys && forall t :: t in mod2 && t !in mod1 ==> pool.Ancestors(t) !! done
    ensures GoesOn(pool, mod, from, mod2, from2, done + {it})
  {
    forall t | t in mod2
      ensures t in from2 && (t in mod ==> t in from)
      ensures var joined := pool.Ancestors(t) * (done + {it});
              if t in mod then from2[t] == Origin(from[t].first, from[t].later + joined)
              else from2[t].first in joined && from2[t].later == joined - {from2[t].first}
    {
      var a := pool.Ancestors(t);
      assert a * (done + {it}) == a * done + a * {it};
      assert t in mod ==> from[t].later + a * done + a * {it} == from[t].later + (a * done + a * {it});
      assert t in mod1 && t !in mod ==> from2[t].first in a * done && from2[t].first != it;
    }
  }

  lemma RecordedPart(pool: Pool, mod: ModMap, part: ModMap, from: Origins, block: set<nat>)
    requires Recorded(pool, mod, from, block) && forall t :: t in part ==> t in mod && part[t] == mod[t]
    ensures Recorded(pool, part, from, block)
  {
  }

  lemma GoesOnFromAll(pool: Pool, mod: ModMap, part: ModMap, from: Origins, mod': ModMap, from': Origins, added: set<nat>)
    requires GoesOn(pool, part, from, mod', from', added)
    requires mod'.Keys !! added && forall t :: t in part <==> t in mod && t !in added
    ensures GoesOn(pool, mod, from, mod', from', added)
  {
  }

  lemma CoversNotNegative(pool: Pool, t: nat, e: ModEntry, block: set<nat>)
    requires EntryCovers(pool, t, e, block)
    ensures e.size >= 0
  {
    SumNotNegative(Left(pool, t, block), pool.Size);
  }

  lemma RecordedWithout(pool: Pool, mod: ModMap, from: Origins, block: set<nat>, t: nat)
    requires Recorded(pool, mod, from, block)
    ensures Recorded(pool, mod - {t}, from, block)
    ensures t in mod ==> |mod - {t}| == |mod| - 1
  {
    assert (mod - {t}).Keys == mod.Keys - {t};
  }

  lemma CacheIsExact(pool: Pool, t: nat)
    requires pool.Valid() && t in pool.txs
    ensures pool.CacheExact(t)
  {
    hide Pool.CacheExact;
  }

  lemma CachedCovers(pool: Pool, t: nat, block: set<nat>)
    requires pool.Valid() && t in pool.txs
    ensures EntryCovers(pool, t, pool.txs[t].cached, block)
  {
    hide Sum, Pool.Valid;
    CacheIsExact(pool, t);
    SumOfPart(pool.WithAncestors(t) - block, pool.WithAncestors(t), pool.Size);
    SumOfPart(pool.WithAncestors(t) - block, pool.WithAncestors(t), pool.SigOps);
  }

  /** The weight of a set of transactions is at most four times its recorded size. */
  lemma {:induction false} WeightAtMost(pool: Pool, s: set<nat>)
    requires pool.Valid() && s <= pool.txs.Keys
    ensures Sum(s, pool.Weight) <= WITNESS_SCALE_FACTOR * Sum(s, pool.Size)
    decreases |s|
  {
    if s != {} {
      var x :| x in s;
      SumOut(s, x, pool.Weight);
      SumOut(s, x, pool.Size);
      WeightAtMost(pool, s - {x});
    }
  }

  /** `vtx` lists `block` without repetition, every transaction after all its ancestors. */
  ghost predicate Ordered(pool: Pool, vtx: seq<nat>, block: set<nat>) {
    && (forall i :: 0 <= i < |vtx| ==> vtx[i] in block)
    && (forall t :: t in block ==> t in vtx)
    && (forall i, j :: 0 <= i < j < |vtx| ==> vtx[i] != vtx[j])
    && (forall i :: 0 <= i < |vtx| ==> AncestorsFirst(pool, vtx, i))
  }

  ghost predicate AncestorsFirst(pool: Pool, vtx: seq<nat>, i: int)
    requires 0 <= i < |vtx|
  {
    forall a :: a in pool.Ancestors(vtx[i]) ==> a in vtx[..i]
  }

  lemma OrderedExtends(pool: Pool, vtx: seq<nat>, block: set<nat>, t: nat)
    requires Ordered(pool, vtx, block) && t !in block && pool.Ancestors(t) <= block
    ensures Ordered(pool, vtx + [t], block + {t})
  {
    forall i | 0 <= i < |vtx| + 1
      ensures AncestorsFirst(pool, vtx + [t], i)
    {
      if i < |vtx| {
        assert (vtx + [t])[..i] == vtx[..i];
        assert AncestorsFirst(pool, vtx, i);
      } else {
        assert (vtx + [t])[..i] == vtx;
      }
    }
  }

  class BlockAssembler {
    const pool: Pool
    const blockMaxWeight: nat
    const minFee: nat -> int        // blockMinFeeRate.GetFee
    const includable: nat -> bool   // final, and without witness unless witnesses are allowed

    // The block template, without its coinbase.
    var vtx: seq<nat>
    var txFees: seq<int>
    var txSigOps: seq<int>

    var blockWeight: int
    var blockTx: int
    var blockSigOps: int
    var fees: int
    var inBlock: set<nat>

    /** The block so far: distinct transactions, each after all its ancestors, with exact totals. */
    ghost predicate Valid()
      reads this
    {
      && pool.Valid()
      && pool.Closed(inBlock)
      && Ordered(pool, vtx, inBlock)
      && |txFees| == |txSigOps| == |vtx| == blockTx
      && (forall i :: 0 <= i < |vtx| ==> txFees[i] == pool.Fee(vtx[i]) && txSigOps[i] == pool.SigOps(vtx[i]))
      && blockWeight == 4000 + Sum(inBlock, pool.Weight)
      && blockSigOps == 400 + Sum(inBlock, pool.SigOps)
      && fees == Sum(inBlock, pool.Fee)
    }

    /** Nothing has been put in, or the totals are below the limits. */
    ghost predicate WithinLimits()
      reads this
    {
      vtx == [] || (blockWeight < blockMaxWeight && blockSigOps < MAX_BLOCK_SIGOPS_COST)
    }

    constructor (pool: Pool, blockMaxWeight: nat, minFee: nat -> int, includable: nat -> bool)
      requires pool.Valid()
      ensures Valid() && WithinLimits() && inBlock == {}
      ensures this.pool == pool && this.minFee == minFee && this.includable == includable
      // The weight limit lies between 4K and MAX_BLOCK_WEIGHT - 4K, and is the given one if that does.
      ensures 4000 <= this.blockMaxWeight <= MAX_BLOCK_WEIGHT - 4000
      ensures 4000 <= blockMaxWeight <= MAX_BLOCK_WEIGHT - 4000 ==> this.blockMaxWeight == blockMaxWeight
      ensures this.blockMaxWeight > blockMaxWeight ==> this.blockMaxWeight == 4000
    {
      this.pool := pool;
      var capped := if blockMaxWeight < MAX_BLOCK_WEIGHT - 4000 then blockMaxWeight else MAX_BLOCK_WEIGHT - 4000;
      this.blockMaxWeight := if capped < 4000 then 4000 else capped;
      this.minFee := minFee;
      this.includable := includable;
      vtx, txFees, txSigOps := [], [], [];
      blockWeight, blockTx, blockSigOps, fees, inBlock := 4000, 0, 400, 0, {};
    }

    predicate TestPackage(packageSize: int, packageSigOps: int)
      reads this
    {
      && blockWeight + WITNESS_SCALE_FACTOR * packageSize < blockMaxWeight
      && blockSigOps + packageSigOps < MAX_BLOCK_SIGOPS_COST
    }

    /** A package that passes the test on figures that cover it stays within the limits. */
    lemma TestedPackageFits(t: nat, e: ModEntry)
      requires Valid() && t in pool.txs && EntryCovers(pool, t, e, inBlock)
      requires TestPackage(e.size, e.sigOps)
      ensures blockWeight + Sum(pool.WithAncestors(t) - inBlock, pool.Weight) < blockMaxWeight
      ensures blockSigOps + Sum(pool.WithAncestors(t) - inBlock, pool.SigOps) < MAX_BLOCK_SIGOPS_COST
    {
      WeightAtMost(pool, pool.WithAncestors(t) - inBlock);
    }

    /** Put one transaction, whose ancestors are all in, into the block. */
    method AddToBlock(t: nat)
      requires Valid() && t in pool.txs && t !in inBlock && pool.Ancestors(t) <= inBlock
      modifies this
      ensures Valid() && vtx == old(vtx) + [t] && inBlock == old(inBlock) + {t}
      ensures blockWeight == old(blockWeight) + pool.Weight(t)
      ensures blockSigOps == old(blockSigOps) + pool.SigOps(t)
    {
      hide Ordered, Sum, Pool.Valid, Pool.Closed;
      OrderedExtends(pool, vtx, inBlock, t);
      ClosedExtends(pool, inBlock, t);
      assert inBlock + {t} - {t} == inBlock;
      SumOut(inBlock + {t}, t, pool.Weight);
      SumOut(inBlock + {t}, t, pool.SigOps);
      SumOut(inBlock + {t}, t, pool.Fee);
      vtx := vtx + [t];
      txFees := txFees + [pool.Fee(t)];
      txSigOps := txSigOps + [pool.SigOps(t)];
      blockWeight := blockWeight + pool.Weight(t);
      blockTx := blockTx + 1;
      blockSigOps := blockSigOps + pool.SigOps(t);
      fees := fees + pool.Fee(t);
      inBlock := inBlock + {t};
    }

    // ----- sorting a package

    predicate Before(a: nat, b: nat)
      requires a in pool.txs && b in pool.txs
    {
      || pool.txs[a].countWithAncestors < pool.txs[b].countWithAncestors
      || (pool.txs[a].countWithAncestors == pool.txs[b].countWithAncestors && a < b)
    }

    method First(package: set<nat>) returns (m: nat)
      requires package != {} && package <= pool.txs.Keys
      ensures m in package && forall x :: x in package && x != m ==> Before(m, x)
    {
      m :| m in package;
      var rest := package - {m};
      while rest != {}
        invariant m in package && rest <= package
        invariant forall x :: x in package && x !in rest && x != m ==> Before(m, x)
        decreases |rest|
      {
        var x :| x in rest;
        rest := rest - {x};
        if x != m && Before(x, m) {
          m := x;
        }
      }
    }

    /** `sorted` lists `package` by ancestor count. */
    ghost predicate ByCount(sorted: seq<nat>, package: set<nat>) {
      && (forall i :: 0 <= i < |sorted| ==> sorted[i] in package && sorted[i] in pool.txs)
      && (forall t :: t in package ==> t in sorted)
      && forall i, j :: 0 <= i < j < |sorted| ==> Before(sorted[i], sorted[j])
    }

    /** Sort a package by ancestor count. */
    method SortForBlock(package: set<nat>) returns (sorted: seq<nat>)
      requires package <= pool.txs.Keys
      ensures forall i :: 0 <= i < |sorted| ==> sorted[i] in package
      ensures forall t :: t in package ==> t in sorted
      ensures forall i, j :: 0 <= i < j < |sorted| ==> sorted[i] in pool.txs && sorted[j] in pool.txs && Before(sorted[i], sorted[j])
      ensures ByCount(sorted, package)
    {
      sorted := [];
      var rest := package;
      while rest != {}
        invariant rest <= package
        invariant forall i :: 0 <= i < |sorted| ==> sorted[i] in package && sorted[i] !in rest
        invariant forall t :: t in package && t !in rest ==> t in sorted
        invariant forall i, j :: 0 <= i < j < |sorted| ==> Before(sorted[i], sorted[j])
        invariant forall i, t :: 0 <= i < |sorted| && t in rest ==> Before(sorted[i], t)
        decreases |rest|
      {
        var m := First(rest);
        sorted := sorted + [m];
        rest := rest - {m};
      }
    }

    lemma CountsExact(a: nat, b: nat)
      requires pool.Valid() && a in pool.txs && b in pool.txs
      ensures pool.txs[a].countWithAncestors == |pool.WithAncestors(a)| && pool.txs[b].countWithAncestors == |pool.WithAncestors(b)|
    {
      hide Sum;
      assert pool.CacheExact(a) && pool.CacheExact(b);
    }

    /** In a sorted package every ancestor comes before its descendant. */
    lemma SortedIsTopological(sorted: seq<nat>, i: int, a: nat)
      requires pool.Valid() && 0 <= i < |sorted| && a in sorted
      requires forall j :: 0 <= j < |sorted| ==> sorted[j] in pool.txs
      requires forall j, k :: 0 <= j < k < |sorted| ==> Before(sorted[j], sorted[k])
      requires a in pool.Ancestors(sorted[i])
      ensures a in sorted[..i]
    {
      hide Pool.Valid, Pool.WithAncestors;
      CountsExact(a, sorted[i]);
      pool.FewerAncestors(a, sorted[i]);
      var j :| 0 <= j < |sorted| && sorted[j] == a;
      assert j < i;
    }

    // ----- keeping the modified entries up to date

    /** The record of descendant `d` after `it` is included: from its record, or from the cached figures when there is none. */
    method TakeOff(d: nat, it: nat, mod: ModMap, ghost from: Origins, ghost block: set<nat>) returns (e: ModEntry)
      requires d in pool.txs && d !in block && it in pool.Ancestors(d) && it !in block && it != d
      requires d in mod ==> d in from && RecordedAs(pool, d, mod[d], from[d], block)
      ensures RecordedAs(pool, d, e, Onwards(mod, from, d, it), block + {it})
    {
      hide Traced, Reduced;
      if d !in mod {
        e := pool.txs[d].cached;
        e := ModEntry(e.size - pool.Size(it), e.modFees - pool.ModFee(it), e.sigOps - pool.SigOps(it));
        FirstRecord(pool, d, it, block);
      } else {
        e := mod[d];
        ReducedOnwards(pool, d, from[d], it, block);
        e := ModEntry(e.size - pool.Size(it), e.modFees - pool.Fee(it), e.sigOps - pool.SigOps(it));
      }
    }

    /** For each transaction, how many descendants it has outside `added`. */
    ghost function Outside(added: set<nat>): nat -> int {
      (it: nat) => |pool.Descendants(it) - added|
    }

    /** Take the figures of `it` off every descendant outside `added`. */
    method UpdateDescendants(it: nat, added: set<nat>, mod: ModMap, ghost from: Origins, ghost block: set<nat>)
      returns (mod': ModMap, updated: nat, ghost from': Origins)
      requires it in pool.txs && it in added && it !in block && mod.Keys !! added
      requires Recorded(pool, mod, from, block)
      requires forall d :: d in pool.Descendants(it) ==> d != it && (d in added || d !in block)
      ensures forall t :: t in mod' <==> t in mod || (t in pool.Descendants(it) && t !in added)
      ensures Recorded(pool, mod', from', block + {it}) && GoesOn(pool, mod, from, mod', from', {it})
      ensures updated == Outside(added)(it)
    {
      hide Midway, Recorded, GoesOn;
      mod', updated, from' := mod, 0, from;
      var all := pool.Descendants(it) - added;
      var rest := all;
      MidwayStarts(pool, mod, from, block, it, all);
      hide Pool.Descendants;
      while rest != {}
        invariant rest <= all && Midway(pool, mod, from, mod', from', block, it, all, rest)
        invariant updated + |rest| == |all|
        decreases |rest|
      {
        var d :| d in rest;
        DescendantHas(d, it);
        MidwayAt(pool, mod, from, mod', from', block, it, all, rest, d);
        var e := TakeOff(d, it, mod', from', block);
        MidwayGoesOn(pool, mod, from, mod', from', block, it, all, rest, d, e);
        from' := from'[d := Onwards(mod', from', d, it)];
        mod' := mod'[d := e];
        rest := rest - {d};
        updated := updated + 1;
      }
      MidwayEnds(pool, mod, from, mod', from', block, it, added, all);
    }

    lemma DescendantHas(d: nat, it: nat)
      ensures d in pool.Descendants(it) ==> d in pool.txs && it in pool.Ancestors(d)
    {
    }

    /** After `added` joins the block, the records go on with the ancestors among them. */
    method UpdatePackagesForAdded(added: set<nat>, mod: ModMap, ghost from: Origins, ghost block: set<nat>)
      returns (mod': ModMap, updated: nat, ghost from': Origins)
      requires pool.Valid() && pool.Closed(block) && added <= pool.txs.Keys && added !! block
      requires Recorded(pool, mod, from, block) && mod.Keys !! added
      ensures Recorded(pool, mod', from', block + added) && GoesOn(pool, mod, from, mod', from', added)
      ensures mod.Keys <= mod'.Keys && mod'.Keys !! added
      ensures forall it, d :: it in added && d in pool.Descendants(it) && d !in added ==> d in mod'
      ensures updated == Sum(added, Outside(added))
    {
      hide Updated, Recorded, GoesOn, Pool.Valid, Pool.Closed, Pool.Descendants, Sum, Outside;
      mod', updated, from' := mod, 0, from;
      var rest := added;
      NothingJoined(pool, mod, from, block, added);
      assert added - rest == {};
      assert Sum({}, Outside(added)) == 0 by { NoSum(Outside(added)); }
      while rest != {}
        invariant rest <= added && Updated(pool, mod, from, mod', from', block, added, added - rest)
        invariant updated == Sum(added - rest, Outside(added))
        decreases |rest|
      {
        var it :| it in rest;
        ghost var before, from1, done := mod', from', added - rest;
        DescendantsOutside(it, block);
        UpdatedSoFar(pool, mod, from, mod', from', block, added, done);
        var n;
        mod', n, from' := UpdateDescendants(it, added, mod', from', block + done);
        updated := updated + n;
        OneMoreUpdated(pool, mod, from, before, from1, mod', from', block, added, done, it);
        assert done + {it} == added - (rest - {it});
        AddToSum(done, it, Outside(added));
        rest := rest - {it};
      }
      assert added - rest == added;
      UpdatedSoFar(pool, mod, from, mod', from', block, added, added);
    }

    lemma DescendantsOutside(it: nat, block: set<nat>)
      requires pool.Valid() && pool.Closed(block) && it !in block
      ensures forall d :: d in pool.Descendants(it) ==> d != it && d !in block
    {
      hide Pool.CacheExact;
    }

    // ----- package selection

    /** Put every transaction of a sorted package into the block, and out of the modified entries. */
    method AddSorted(sorted: seq<nat>, mod: ModMap) returns (mod': ModMap)
      requires Valid()
      requires forall i :: 0 <= i < |sorted| ==> sorted[i] in pool.txs && sorted[i] !in inBlock
      requires forall i, j :: 0 <= i < j < |sorted| ==> Before(sorted[i], sorted[j])
      requires forall i, a :: 0 <= i < |sorted| && a in pool.Ancestors(sorted[i]) ==> a in inBlock || a in sorted
      modifies this
      ensures Valid() && vtx == old(vtx) + sorted
      ensures forall t :: t in inBlock <==> t in old(inBlock) || t in sorted
      ensures forall t :: t in mod' <==> t in mod && t !in sorted
      ensures forall t :: t in mod' ==> mod'[t] == mod[t]
      ensures blockWeight >= old(blockWeight) && blockSigOps >= old(blockSigOps)
    {
      hide Ordered, Sum, Pool.Valid, Pool.Closed;
      mod' := mod;
      for i := 0 to |sorted|
        invariant Valid() && vtx == old(vtx) + sorted[..i]
        invariant forall t :: t in inBlock <==> t in old(inBlock) || t in sorted[..i]
        invariant forall t :: t in mod' <==> t in mod && t !in sorted[..i]
        invariant forall t :: t in mod' ==> mod'[t] == mod[t]
        invariant blockWeight >= old(blockWeight) && blockSigOps >= old(blockSigOps)
      {
        forall a | a in pool.Ancestors(sorted[i])
          ensures a in inBlock
        {
          if a !in old(inBlock) {
            SortedIsTopological(sorted, i, a);
          }
        }
        assert sorted[i] !in sorted[..i];
        AddToBlock(sorted[i]);
        mod' := mod' - {sorted[i]};
        assert sorted[..i + 1] == sorted[..i] + [sorted[i]];
      }
      assert sorted[..|sorted|] == sorted;
    }

    /** Put the not yet included part of a tested package into the block. */
    method AddPackage(t: nat, e: ModEntry, mod: ModMap, ghost from: Origins) returns (mod': ModMap, updated: nat, ghost from': Origins)
      requires Valid() && Recorded(pool, mod, from, inBlock) && t in pool.txs && t !in inBlock
      requires EntryCovers(pool, t, e, inBlock) && TestPackage(e.size, e.sigOps)
      modifies this
      ensures Valid() && blockWeight < blockMaxWeight && blockSigOps < MAX_BLOCK_SIGOPS_COST
      ensures inBlock == old(inBlock) + pool.WithAncestors(t)
      ensures Recorded(pool, mod', from', inBlock) && GoesOn(pool, mod, from, mod', from', inBlock - old(inBlock))
      ensures forall x :: x in mod && x !in inBlock ==> x in mod'
      ensures forall a, x :: a in inBlock && a !in old(inBlock) && x in pool.Descendants(a) && x !in inBlock ==> x in mod'
      ensures blockWeight >= old(blockWeight) && blockSigOps >= old(blockSigOps)
      ensures old(vtx) <= vtx && ByCount(vtx[|old(vtx)|..], inBlock - old(inBlock))
      ensures updated == Sum(inBlock - old(inBlock), Outside(inBlock - old(inBlock)))
    {
      hide Recorded, GoesOn, EntryCovers, Ordered, Sum, TestPackage, Pool.CacheExact, ByCount;
      TestedPackageFits(t, e);
      var package := pool.WithAncestors(t) - inBlock;
      var sorted := SortForBlock(package);
      assert t in sorted;
      ghost var before := inBlock;
      var rest := AddSorted(sorted, mod);
      assert vtx[|old(vtx)|..] == sorted;
      assert inBlock == before + package && inBlock - before == package;
      SumOfDisjoint(before, package, pool.Weight);
      SumOfDisjoint(before, package, pool.SigOps);
      RecordedPart(pool, mod, rest, from, before);
      mod', updated, from' := UpdatePackagesForAdded(package, rest, from, before);
      GoesOnFromAll(pool, mod, rest, from, mod', from', package);
    }

    lemma BlockIsPart()
      requires Valid()
      ensures pool.Valid() && inBlock <= pool.txs.Keys && pool.Closed({})
      ensures |inBlock| <= |pool.txs|
    {
      assert pool.txs.Keys == inBlock + (pool.txs.Keys - inBlock);
    }

    lemma LargerBlock(before: set<nat>, t: nat)
      requires Valid() && t !in before && inBlock == before + pool.WithAncestors(t)
      ensures |before| < |inBlock| <= |pool.txs|
    {
      hide Valid, Pool.Valid, Pool.Closed;
      BlockIsPart();
      SmallerSet(before, inBlock, t);
    }

    /** `e` are the figures of `t`: the cached ones while none of its ancestors is in the block, or those its origin leaves. */
    ghost predicate OnRecord(t: nat, e: ModEntry, block: set<nat>) {
      && t in pool.txs && t !in block
      && ((pool.Ancestors(t) !! block && e == pool.txs[t].cached)
          || exists o :: Traced(pool, t, o, block) && e == Reduced(pool, t, o))
    }

    lemma OnRecordCovers(t: nat, e: ModEntry)
      requires Valid() && OnRecord(t, e, inBlock)
      ensures EntryCovers(pool, t, e, inBlock) && EntryWithin(pool, t, e) && e.size >= 0
    {
      hide Sum, EntryCovers, Traced, Reduced, Pool.Valid, Ordered;
      if pool.Ancestors(t) !! inBlock && e == pool.txs[t].cached {
        CachedCovers(pool, t, inBlock);
      } else {
        var o :| Traced(pool, t, o, inBlock) && e == Reduced(pool, t, o);
        RecordCovers(pool, t, o, inBlock);
      }
      CoversNotNegative(pool, t, e, inBlock);
    }

    /** TestPackageTransactions */
    predicate AllIncludable(package: set<nat>) {
      forall x :: x in package ==> includable(x)
    }

    /** The whole package of `t` does not fit any more, or contains something that must not be included. */
    ghost predicate GivenUp(t: nat)
      requires t in pool.txs
      reads this
    {
      || !TestPackage(pool.txs[t].cached.size, pool.txs[t].cached.sigOps)
      || (exists x :: x in pool.WithAncestors(t) && x !in inBlock && !includable(x))
    }

    /** `t` is in the block, waits among the modified entries, or has been given up for good. */
    ghost predicate Dealt(t: nat, modified: ModMap)
      requires t in pool.txs
      reads this
    {
      t in inBlock || t in modified || GivenUp(t)
    }

    /** The first `n` of the order, and everything that failed, are dealt with. */
    ghost predicate AllDealt(order: seq<nat>, n: nat, modified: ModMap, failed: set<nat>)
      reads this
    {
      && n <= |order|
      && (forall i :: 0 <= i < n ==> order[i] in pool.txs && Dealt(order[i], modified))
      && (forall t :: t in failed ==> t in pool.txs && Dealt(t, modified))
    }

    lemma DealtSkip(order: seq<nat>, n: nat, modified: ModMap, failed: set<nat>)
      requires AllDealt(order, n, modified, failed) && n < |order| && order[n] in pool.txs
      requires order[n] in modified || order[n] in inBlock || order[n] in failed
      ensures AllDealt(order, n + 1, modified, failed)
    {
    }

    /** An entry that has been given up needs no record any more. */
    lemma DealtDrop(order: seq<nat>, n: nat, modified: ModMap, failed: set<nat>, t: nat, usingModified: bool)
      requires AllDealt(order, n, modified, failed) && t in pool.txs && GivenUp(t)
      ensures usingModified ==> AllDealt(order, n, modified - {t}, failed + {t})
      ensures !usingModified && n < |order| && order[n] == t ==> AllDealt(order, n + 1, modified, failed)
    {
      hide GivenUp;
    }

    /** What was dealt with stays dealt with when a package joins the block. */
    twostate lemma DealtAfterPackage(new order: seq<nat>, new n: nat, new failed: set<nat>, new t: nat, new mod: ModMap, new mod': ModMap)
      requires old(AllDealt(order, n, mod, failed)) && t in pool.txs && t in inBlock
      requires old(inBlock) <= inBlock && blockWeight >= old(blockWeight) && blockSigOps >= old(blockSigOps)
      requires forall x :: x in inBlock && x !in old(inBlock) ==> includable(x)
      requires forall x :: x in mod && x !in inBlock ==> x in mod'
      ensures AllDealt(order, n, mod', failed)
      ensures n < |order| && order[n] == t ==> AllDealt(order, n + 1, mod', failed)
    {
      forall x | x in pool.txs && old(Dealt(x, mod))
        ensures Dealt(x, mod')
      {
      }
    }

    /** An entry whose recorded figures fail the test, or whose package is not includable, is given up. */
    lemma FailedIsGivenUp(t: nat, e: ModEntry)
      requires t in pool.txs && EntryWithin(pool, t, e)
      requires !TestPackage(e.size, e.sigOps) || !AllIncludable(pool.WithAncestors(t) - inBlock)
      ensures GivenUp(t)
    {
    }

    /** The modified entry with the highest score. */
    method BestModified(modified: ModMap, better: (ModEntry, ModEntry) -> bool) returns (best: nat)
      requires modified != map[] && Ranks(better)
      ensures best in modified && forall x :: x in modified ==> !better(modified[x], modified[best])
    {
      best :| best in modified;
      var rest := modified.Keys - {best};
      while rest != {}
        invariant rest <= modified.Keys && best in modified
        invariant forall x :: x in modified && x !in rest ==> !better(modified[x], modified[best])
        decreases |rest|
      {
        var y :| y in rest;
        rest := rest - {y};
        if better(modified[y], modified[best]) {
          best := y;
        }
      }
    }

    /** The next entry to look at: the one at `mi`, or the best modified one if that is better or nothing else is left. */
    method Choose(order: seq<nat>, mi: nat, modified: ModMap, better: (ModEntry, ModEntry) -> bool) returns (t: nat, e: ModEntry, usingModified: bool)
      requires mi <= |order| && (mi == |order| ==> modified != map[]) && (mi < |order| ==> order[mi] in pool.txs)
      requires Ranks(better)
      ensures if usingModified then t in modified && e == modified[t] else mi < |order| && t == order[mi] && e == pool.txs[t].cached
      ensures forall x :: x in modified ==> !better(modified[x], e)
      ensures usingModified && mi < |order| ==> better(e, pool.txs[order[mi]].cached)
    {
      usingModified := false;
      if mi == |order| {
        t := BestModified(modified, better);
        e := modified[t];
        usingModified := true;
      } else {
        t, e := order[mi], pool.txs[order[mi]].cached;
        if modified != map[] {
          var m := BestModified(modified, better);
          if better(modified[m], e) {
            t, e := m, modified[m];
            usingModified := true;
          }
        }
      }
    }

    /** Everything with an ancestor in the block is in it, has a record, or has failed. */
    ghost predicate Noted(modified: ModMap, failed: set<nat>)
      reads this
    {
      forall d, a :: d in pool.txs && a in pool.Ancestors(d) && a in inBlock ==> d in inBlock || d in modified || d in failed
    }

    /** Where the selection stands: records that are what their origins leave, and everything before `mi` dealt with. */
    ghost predicate Books(order: seq<nat>, mi: nat, modified: ModMap, failed: set<nat>, from: Origins)
      reads this
    {
      Recorded(pool, modified, from, inBlock) && Noted(modified, failed) && AllDealt(order, mi, modified, failed)
    }

    /** Which entry is looked at next: the one at `mi`, or a modified one that is better; no modified one is better still. */
    ghost predicate Best(order: seq<nat>, better: (ModEntry, ModEntry) -> bool, d: Desk, t: nat, e: ModEntry, usingModified: bool) {
      && Source(order, d.mi, d.modified, t, e, usingModified)
      && (forall x :: x in d.modified ==> !better(d.modified[x], e))
      && (usingModified && d.mi < |order| ==> order[d.mi] in pool.txs && better(e, pool.txs[order[d.mi]].cached))
    }

    ghost predicate Source(order: seq<nat>, mi: nat, modified: ModMap, t: nat, e: ModEntry, usingModified: bool) {
      if usingModified then t in modified && e == modified[t]
      else mi < |order| && t == order[mi] && t in pool.txs && e == pool.txs[t].cached
    }

    /** The next entry, with its figures. */
    method Pick(order: seq<nat>, mi: nat, modified: ModMap, ghost failed: set<nat>, better: (ModEntry, ModEntry) -> bool, ghost from: Origins)
      returns (t: nat, e: ModEntry, usingModified: bool)
      requires Valid() && Books(order, mi, modified, failed, from) && Ranks(better)
      requires mi <= |order| && (mi == |order| ==> modified != map[])
      requires mi < |order| ==> order[mi] in pool.txs && order[mi] !in inBlock && order[mi] !in modified && order[mi] !in failed
      ensures Best(order, better, Desk(mi, modified, failed, inBlock, vtx, from), t, e, usingModified) && OnRecord(t, e, inBlock)
      ensures t in pool.txs && t !in inBlock && e.size >= 0 && EntryCovers(pool, t, e, inBlock) && EntryWithin(pool, t, e)
    {
      hide Valid, AllDealt, Reduced, Ranks, EntryCovers, EntryWithin;
      t, e, usingModified := Choose(order, mi, modified, better);
      if usingModified {
        assert RecordedAs(pool, t, e, from[t], inBlock);
      } else {
        assert forall a :: a in pool.Ancestors(t) ==> a !in inBlock;
      }
      OnRecordCovers(t, e);
    }

    /**
     Records after the block has grown: exactly those transactions outside it have one that had one
     or have an ancestor that joined, and each is what its origin leaves.
     */
    ghost predicate RecordsGoOn(mod: ModMap, from: Origins, mod': ModMap, from': Origins, block: set<nat>, block': set<nat>) {
      && Recorded(pool, mod', from', block') && GoesOn(pool, mod, from, mod', from', block' - block)
      && forall x :: x in pool.txs ==> (x in mod' <==> x !in block' && (x in mod || pool.Ancestors(x) * (block' - block) != {}))
    }

    /** The whole package of `t` joins the block, by ancestor count. */
    ghost predicate Taken(d: Desk, t: nat, usingModified: bool, updated: nat, d': Desk) {
      var package := pool.WithAncestors(t) - d.block;
      && d'.mi == (if usingModified then d.mi else d.mi + 1) && d'.failed == d.failed
      && d'.block == d.block + package && d.vtx <= d'.vtx && ByCount(d'.vtx[|d.vtx|..], package)
      && RecordsGoOn(d.modified, d.from, d'.modified, d'.from, d.block, d'.block)
      && updated == Sum(package, Outside(package))
    }

    /** Leave an entry that failed out of the rest of the selection. */
    method SetAside(order: seq<nat>, mi: nat, modified: ModMap, failed: set<nat>, t: nat, e: ModEntry, usingModified: bool, ghost from: Origins)
      returns (mi': nat, modified': ModMap, failed': set<nat>)
      requires Books(order, mi, modified, failed, from) && Source(order, mi, modified, t, e, usingModified) && mi <= |order|
      requires t in pool.txs && EntryWithin(pool, t, e)
      requires !TestPackage(e.size, e.sigOps) || !AllIncludable(pool.WithAncestors(t) - inBlock)
      ensures Books(order, mi', modified', failed', from)
      ensures mi' <= |order| && |order| - mi' + |modified'| < |order| - mi + |modified|
      ensures if usingModified then mi' == mi && modified' == modified - {t} && failed' == failed + {t}
              else mi' == mi + 1 && modified' == modified && failed' == failed
    {
      hide Recorded, EntryWithin, AllDealt, GivenUp, TestPackage, AllIncludable;
      FailedIsGivenUp(t, e);
      DealtDrop(order, mi, modified, failed, t, usingModified);
      mi', modified', failed' := mi, modified, failed;
      if usingModified {
        RecordedWithout(pool, modified, from, inBlock, t);
        modified' := modified - {t};
        failed' := failed + {t};
      } else {
        mi' := mi + 1;
      }
    }

    /** Put the package of an entry that passed both tests into the block. */
    method Include(order: seq<nat>, mi: nat, modified: ModMap, ghost failed: set<nat>, t: nat, e: ModEntry, usingModified: bool, ghost from: Origins)
      returns (mi': nat, modified': ModMap, updated: nat, ghost from': Origins)
      requires Valid() && Books(order, mi, modified, failed, from) && Source(order, mi, modified, t, e, usingModified) && mi <= |order|
      requires t in pool.txs && t !in inBlock && EntryCovers(pool, t, e, inBlock) && TestPackage(e.size, e.sigOps)
      requires AllIncludable(pool.WithAncestors(t) - inBlock)
      modifies this
      ensures Valid() && Books(order, mi', modified', failed, from') && mi' <= |order|
      ensures GoesOn(pool, modified, from, modified', from', inBlock - old(inBlock))
      ensures blockWeight < blockMaxWeight && blockSigOps < MAX_BLOCK_SIGOPS_COST
      ensures old(vtx) <= vtx && |old(inBlock)| < |inBlock| <= |pool.txs|
      ensures OnlyIncludable(old(inBlock), inBlock)
      ensures Taken(Desk(mi, modified, failed, old(inBlock), old(vtx), from), t, usingModified, updated,
                    Desk(mi', modified', failed, inBlock, vtx, from'))
    {
      assert t in pool.WithAncestors(t);
      hide Valid, Recorded, GoesOn, AllDealt, EntryCovers, TestPackage, RecordsGoOn, Taken, ByCount, Outside, Sum, Pool.WithAncestors, Noted;
      modified', updated, from' := AddPackage(t, e, modified, from);
      LargerBlock(old(inBlock), t);
      DealtAfterPackage(order, mi, failed, t, modified, modified');
      NotedAfterPackage(failed, modified, modified');
      mi' := if usingModified then mi else mi + 1;
      KeysAfter(modified, from, modified', from', old(inBlock), inBlock);
      TakenIs(Desk(mi, modified, failed, old(inBlock), old(vtx), from), t, usingModified, updated,
              Desk(mi', modified', failed, inBlock, vtx, from'));
    }

    twostate lemma NotedAfterPackage(new failed: set<nat>, new mod: ModMap, new mod': ModMap)
      requires old(Noted(mod, failed)) && old(inBlock) <= inBlock
      requires forall x :: x in mod && x !in inBlock ==> x in mod'
      requires forall a, x :: a in inBlock && a !in old(inBlock) && x in pool.Descendants(a) && x !in inBlock ==> x in mod'
      ensures Noted(mod', failed)
    {
      forall d, a | d in pool.txs && a in pool.Ancestors(d) && a in inBlock
        ensures d in inBlock || d in mod' || d in failed
      {
        assert d in pool.Descendants(a);
      }
    }

    lemma TakenIs(d: Desk, t: nat, usingModified: bool, updated: nat, d': Desk)
      requires d'.mi == (if usingModified then d.mi else d.mi + 1) && d'.failed == d.failed
      requires d'.block == d.block + pool.WithAncestors(t) && d.vtx <= d'.vtx && ByCount(d'.vtx[|d.vtx|..], d'.block - d.block)
      requires RecordsGoOn(d.modified, d.from, d'.modified, d'.from, d.block, d'.block)
      requires updated == Sum(d'.block - d.block, Outside(d'.block - d.block))
      ensures Taken(d, t, usingModified, updated, d')
    {
      hide RecordsGoOn, ByCount, Outside, Sum, Pool.WithAncestors;
      assert d'.block - d.block == pool.WithAncestors(t) - d.block;
      assert d.block + (pool.WithAncestors(t) - d.block) == d'.block;
    }

    lemma KeysAfter(mod: ModMap, from: Origins, mod': ModMap, from': Origins, block: set<nat>, block': set<nat>)
      requires Recorded(pool, mod', from', block') && GoesOn(pool, mod, from, mod', from', block' - block) && block <= block'
      requires Recorded(pool, mod, from, block)
      requires forall x :: x in mod && x !in block' ==> x in mod'
      requires forall a, x :: a in block' && a !in block && x in pool.Descendants(a) && x !in block' ==> x in mod'
      ensures RecordsGoOn(mod, from, mod', from', block, block')
    {
      hide Reduced;
      forall x | x in mod'
        ensures x !in block' && x in pool.txs && (x in mod || pool.Ancestors(x) * (block' - block) != {})
      {
        assert RecordedAs(pool, x, mod'[x], from'[x], block');
      }
      forall x | x in pool.txs && x !in block' && (x in mod || pool.Ancestors(x) * (block' - block) != {})
        ensures x in mod'
      {
        if x !in mod {
          var a :| a in pool.Ancestors(x) * (block' - block);
          assert x in pool.Descendants(a);
        }
      }
    }

    /** The records to begin with: those of the descendants of what is already in the block. */
    method Start(order: seq<nat>) returns (modified: ModMap, updated: nat, ghost from: Origins)
      requires Valid()
      ensures Books(order, 0, modified, {}, from)
      ensures RecordsGoOn(map[], map[], modified, from, {}, inBlock) && updated == Sum(inBlock, Outside(inBlock))
    {
      hide Valid, Books, GoesOn, Pool.Valid, Pool.Closed, RecordsGoOn;
      BlockIsPart();
      modified, updated, from := UpdatePackagesForAdded(inBlock, map[], map[], {});
      assert {} + inBlock == inBlock && inBlock - {} == inBlock;
      KeysAfter(map[], map[], modified, from, {}, inBlock);
      NothingBooked(order, modified, from);
    }

    lemma NothingBooked(order: seq<nat>, modified: ModMap, from: Origins)
      requires Recorded(pool, modified, from, inBlock)
      requires forall a, d :: a in inBlock && d in pool.Descendants(a) && d !in inBlock ==> d in modified
      ensures Books(order, 0, modified, {}, from)
    {
      hide Recorded;
      NothingDealt(order, modified);
      forall d, a | d in pool.txs && a in pool.Ancestors(d) && a in inBlock
        ensures d in inBlock || d in modified
      {
        assert d in pool.Descendants(a);
      }
    }

    /** An entry of the order that a record, the block or a failure has taken care of. */
    lemma BooksSkip(order: seq<nat>, mi: nat, modified: ModMap, failed: set<nat>, from: Origins)
      requires Books(order, mi, modified, failed, from) && mi < |order| && order[mi] in pool.txs
      requires order[mi] in modified || order[mi] in inBlock || order[mi] in failed
      ensures Books(order, mi + 1, modified, failed, from)
    {
      hide Recorded, Noted, AllDealt;
      DealtSkip(order, mi, modified, failed);
    }

    /** Every entry of the order is in the block or has been given up. */
    ghost predicate NothingLeftOut(order: seq<nat>)
      reads this
    {
      forall i :: 0 <= i < |order| ==> order[i] in pool.txs && (order[i] in inBlock || GivenUp(order[i]))
    }

    lemma BooksClosed(order: seq<nat>, failed: set<nat>, from: Origins)
      requires Books(order, |order|, map[], failed, from)
      ensures NothingLeftOut(order)
    {
      hide Recorded, Noted, GivenUp;
    }

    // ----- the selection as a run

    ghost function WeightOf(block: set<nat>): int { 4000 + Sum(block, pool.Weight) }

    ghost predicate FitsIn(block: set<nat>, e: ModEntry) {
      && WeightOf(block) + WITNESS_SCALE_FACTOR * e.size < blockMaxWeight
      && 400 + Sum(block, pool.SigOps) + e.sigOps < MAX_BLOCK_SIGOPS_COST
    }

    ghost predicate InPool(order: seq<nat>) {
      forall i :: 0 <= i < |order| ==> order[i] in pool.txs
    }

    lemma NextInPool(order: seq<nat>, mi: nat)
      requires InPool(order)
      ensures mi < |order| ==> order[mi] in pool.txs
    {
    }

    ghost predicate SkipsNext(order: seq<nat>, d: Desk) {
      d.mi < |order| && (order[d.mi] in d.modified || order[d.mi] in d.block || order[d.mi] in d.failed)
    }

    /** What becomes of entry `t` with figures `e`: each test comes only after those before it are passed. */
    ghost predicate Judged(d: Desk, t: nat, e: ModEntry, usingModified: bool, v: Verdict, d': Desk) {
      if e.modFees < minFee(if e.size < 0 then 0 else e.size) then v == TooCheap && d' == d
      else if !FitsIn(d.block, e) then v == DoesNotFit && d' == Aside(d, t, usingModified)
      else if !AllIncludable(pool.WithAncestors(t) - d.block) then v == NotIncludable && d' == Aside(d, t, usingModified)
      else v.Included? && Taken(d, t, usingModified, v.updated, d')
    }

    ghost function Aside(d: Desk, t: nat, usingModified: bool): Desk {
      if usingModified then d.(modified := d.modified - {t}, failed := d.failed + {t}) else d.(mi := d.mi + 1)
    }

    /** One turn: an entry that is taken care of is skipped; otherwise the best one, by its figures on record, is judged. */
    ghost predicate Turns(order: seq<nat>, better: (ModEntry, ModEntry) -> bool, d: Desk, v: Verdict, d': Desk) {
      if SkipsNext(order, d) then v == Skipped && d' == d.(mi := d.mi + 1)
      else exists t, e, usingModified :: Looks(order, better, d, t, e, usingModified) && Judged(d, t, e, usingModified, v, d')
    }

    ghost predicate Looks(order: seq<nat>, better: (ModEntry, ModEntry) -> bool, d: Desk, t: nat, e: ModEntry, usingModified: bool) {
      Best(order, better, d, t, e, usingModified) && OnRecord(t, e, d.block)
    }

    lemma TurnsByLook(order: seq<nat>, better: (ModEntry, ModEntry) -> bool, d: Desk, t: nat, e: ModEntry, usingModified: bool, v: Verdict, d': Desk)
      requires !SkipsNext(order, d) && Looks(order, better, d, t, e, usingModified) && Judged(d, t, e, usingModified, v, d')
      ensures Turns(order, better, d, v, d')
    {
      hide Looks, Judged;
    }

    /** Only includable transactions joined the block. */
    ghost predicate OnlyIncludable(block: set<nat>, block': set<nat>) {
      forall x :: x in block' && x !in block ==> includable(x)
    }

    /** The block has grown since `first` by includable transactions only, and within the limits. */
    ghost predicate Grown(first: Desk)
      reads this
    {
      && first.vtx <= vtx && OnlyIncludable(first.block, inBlock)
      && (vtx == first.vtx || (blockWeight < blockMaxWeight && blockSigOps < MAX_BLOCK_SIGOPS_COST))
    }

    lemma NotGrown(first: Desk)
      requires first.vtx == vtx && first.block == inBlock
      ensures Grown(first)
    {
    }

    lemma GrownIs(first: Desk)
      requires Grown(first)
      ensures first.vtx <= vtx && OnlyIncludable(first.block, inBlock)
      ensures vtx == first.vtx || (blockWeight < blockMaxWeight && blockSigOps < MAX_BLOCK_SIGOPS_COST)
    {
    }

    twostate lemma StillGrown(new first: Desk)
      requires old(Grown(first)) && old(vtx) <= vtx && OnlyIncludable(old(inBlock), inBlock)
      requires unchanged(this) || (blockWeight < blockMaxWeight && blockSigOps < MAX_BLOCK_SIGOPS_COST)
      ensures Grown(first)
    {
    }

    /** Test an entry, and set it aside or put its package into the block. */
    method Judge(order: seq<nat>, mi: nat, modified: ModMap, failed: set<nat>, t: nat, e: ModEntry, usingModified: bool, ghost from: Origins)
      returns (mi': nat, modified': ModMap, failed': set<nat>, verdict: Verdict, ghost from': Origins)
      requires Valid() && Books(order, mi, modified, failed, from) && Source(order, mi, modified, t, e, usingModified) && mi <= |order|
      requires t in pool.txs && t !in inBlock && e.size >= 0 && EntryCovers(pool, t, e, inBlock) && EntryWithin(pool, t, e)
      modifies this
      ensures Valid() && Books(order, mi', modified', failed', from') && mi' <= |order|
      ensures Judged(Desk(mi, modified, failed, old(inBlock), old(vtx), from), t, e, usingModified, verdict,
                     Desk(mi', modified', failed', inBlock, vtx, from'))
      ensures !verdict.Included? ==> unchanged(this)
      ensures !verdict.TooCheap? && !verdict.Included? ==> |order| - mi' + |modified'| < |order| - mi + |modified|
      ensures verdict.Included? ==> blockWeight < blockMaxWeight && blockSigOps < MAX_BLOCK_SIGOPS_COST
      ensures verdict.Included? ==> old(vtx) <= vtx && |old(inBlock)| < |inBlock| <= |pool.txs|
      ensures OnlyIncludable(old(inBlock), inBlock)
    {
      hide Books, Source, EntryWithin, EntryCovers, Valid, TestPackage, AllIncludable, GoesOn, Taken, FitsIn, Judged;
      mi', modified', failed', from' := mi, modified, failed, from;
      ghost var d := Desk(mi, modified, failed, inBlock, vtx, from);
      FitsIs(e);
      JudgedEarly(d, t, e, usingModified);
      if e.modFees < minFee(e.size) {
        verdict := TooCheap;
        return;
      }
      var fits := TestPackage(e.size, e.sigOps);
      if !fits || !AllIncludable(pool.WithAncestors(t) - inBlock) {
        mi', modified', failed' := SetAside(order, mi, modified, failed, t, e, usingModified, from);
        verdict := if fits then NotIncludable else DoesNotFit;
        return;
      }
      var n;
      mi', modified', n, from' := Include(order, mi, modified, failed, t, e, usingModified, from);
      verdict := Included(n);
      JudgedTaken(d, t, e, usingModified, n, Desk(mi', modified', failed', inBlock, vtx, from'));
    }

    /** One turn of the selection: look at the next entry, and skip it, set it aside, or put its package into the block. */
    method Turn(order: seq<nat>, mi: nat, modified: ModMap, failed: set<nat>, better: (ModEntry, ModEntry) -> bool, ghost from: Origins)
      returns (mi': nat, modified': ModMap, failed': set<nat>, verdict: Verdict, ghost from': Origins)
      requires Valid() && Ranks(better) && Books(order, mi, modified, failed, from)
      requires mi <= |order| && (mi < |order| ==> order[mi] in pool.txs) && (mi == |order| ==> modified != map[])
      modifies this
      ensures Valid() && Books(order, mi', modified', failed', from') && mi' <= |order|
      ensures Turns(order, better, Desk(mi, modified, failed, old(inBlock), old(vtx), from), verdict,
                    Desk(mi', modified', failed', inBlock, vtx, from'))
      ensures !verdict.Included? ==> unchanged(this)
      ensures !verdict.TooCheap? && !verdict.Included? ==> |order| - mi' + |modified'| < |order| - mi + |modified|
      ensures verdict.Included? ==> blockWeight < blockMaxWeight && blockSigOps < MAX_BLOCK_SIGOPS_COST
      ensures verdict.Included? ==> old(vtx) <= vtx && |old(inBlock)| < |inBlock| <= |pool.txs|
      ensures OnlyIncludable(old(inBlock), inBlock)
    {
      hide Books, Source, Ranks, EntryWithin, EntryCovers, Valid, OnRecord, Best, Turns, Looks, Judged;
      ghost var d := Desk(mi, modified, failed, inBlock, vtx, from);
      if mi < |order| && (order[mi] in modified || order[mi] in inBlock || order[mi] in failed) {
        BooksSkip(order, mi, modified, failed, from);
        mi', modified', failed', from' := mi + 1, modified, failed, from;
        verdict := Skipped;
        TurnsSkip(order, better, d);
        return;
      }
      var t, e, usingModified := Pick(order, mi, modified, failed, better, from);
      PickedFrom(order, better, d, t, e, usingModified);
      mi', modified', failed', verdict, from' := Judge(order, mi, modified, failed, t, e, usingModified, from);
      TurnsByLook(order, better, d, t, e, usingModified, verdict, Desk(mi', modified', failed', inBlock, vtx, from'));
    }

    lemma JudgedEarly(d: Desk, t: nat, e: ModEntry, usingModified: bool)
      requires e.size >= 0
      ensures e.modFees < minFee(e.size) ==> Judged(d, t, e, usingModified, TooCheap, d)
      ensures e.modFees >= minFee(e.size) && !FitsIn(d.block, e) ==> Judged(d, t, e, usingModified, DoesNotFit, Aside(d, t, usingModified))
      ensures e.modFees >= minFee(e.size) && FitsIn(d.block, e) && !AllIncludable(pool.WithAncestors(t) - d.block) ==>
                Judged(d, t, e, usingModified, NotIncludable, Aside(d, t, usingModified))
    {
      hide FitsIn, AllIncludable;
    }

    lemma JudgedTaken(d: Desk, t: nat, e: ModEntry, usingModified: bool, updated: nat, d': Desk)
      requires e.size >= 0 && e.modFees >= minFee(e.size) && FitsIn(d.block, e) && AllIncludable(pool.WithAncestors(t) - d.block)
      requires Taken(d, t, usingModified, updated, d')
      ensures Judged(d, t, e, usingModified, Included(updated), d')
    {
      hide FitsIn, AllIncludable, Taken;
    }

    lemma TurnsSkip(order: seq<nat>, better: (ModEntry, ModEntry) -> bool, d: Desk)
      requires SkipsNext(order, d)
      ensures Turns(order, better, d, Skipped, d.(mi := d.mi + 1))
    {
    }

    lemma FitsIs(e: ModEntry)
      requires Valid()
      ensures TestPackage(e.size, e.sigOps) <==> FitsIn(inBlock, e)
    {
      hide Sum, Pool.Valid, Pool.Closed, Ordered;
    }

    lemma PickedFrom(order: seq<nat>, better: (ModEntry, ModEntry) -> bool, d: Desk, t: nat, e: ModEntry, usingModified: bool)
      requires Best(order, better, d, t, e, usingModified)
      requires OnRecord(t, e, d.block)
      ensures Source(order, d.mi, d.modified, t, e, usingModified) && Looks(order, better, d, t, e, usingModified)
    {
      hide OnRecord;
    }

    /** The selection stops after `k` turns because entries keep failing and the block is nearly full. */
    ghost predicate NearlyFullAfter(desks: seq<Desk>, verdicts: seq<Verdict>, k: nat)
      requires k < |desks| && k <= |verdicts|
    {
      k > 0 && verdicts[k - 1].DoesNotFit? && Failures(verdicts[..k]) > MAX_CONSECUTIVE_FAILURES && WeightOf(desks[k].block) > blockMaxWeight - 4000
    }

    ghost predicate TooCheapAfter(verdicts: seq<Verdict>, k: nat)
      requires k <= |verdicts|
    {
      k > 0 && verdicts[k - 1].TooCheap?
    }

    /** After `k` turns there is another one. */
    ghost predicate GoesOnAfter(order: seq<nat>, desks: seq<Desk>, verdicts: seq<Verdict>, k: nat)
      requires k < |desks| && k <= |verdicts|
    {
      && !TooCheapAfter(verdicts, k) && !NearlyFullAfter(desks, verdicts, k)
      && (desks[k].mi < |order| || desks[k].modified != map[])
    }

    /** A run of the selection: where it stood before and after every turn, and what the turns did. */
    ghost predicate Log(order: seq<nat>, better: (ModEntry, ModEntry) -> bool, desks: seq<Desk>, verdicts: seq<Verdict>) {
      && |desks| == |verdicts| + 1
      && desks[0].mi == 0 && desks[0].failed == {} && RecordsGoOn(map[], map[], desks[0].modified, desks[0].from, {}, desks[0].block)
      && (forall k :: 0 <= k < |verdicts| ==> GoesOnAfter(order, desks, verdicts, k) && Turns(order, better, desks[k], verdicts[k], desks[k + 1]))
      && (forall k :: 0 <= k < |desks| ==> BooksAt(order, desks[k]))
    }

    lemma LogGoesOn(order: seq<nat>, better: (ModEntry, ModEntry) -> bool, desks: seq<Desk>, verdicts: seq<Verdict>, v: Verdict, d: Desk)
      requires Log(order, better, desks, verdicts) && GoesOnAfter(order, desks, verdicts, |verdicts|)
      requires Turns(order, better, desks[|verdicts|], v, d) && BooksAt(order, d)
      ensures Log(order, better, desks + [d], verdicts + [v])
    {
      hide Turns, BooksAt, RecordsGoOn, Failures, WeightOf;
      forall k | 0 <= k <= |verdicts|
        ensures GoesOnAfter(order, desks + [d], verdicts + [v], k)
      {
        assert (verdicts + [v])[..k] == verdicts[..k];
        assert GoesOnAfter(order, desks, verdicts, k);
      }
    }

    /** Without regard to fees, `t` can no longer join the block as a whole package. */
    ghost predicate GivenUpAt(t: nat, block: set<nat>)
      requires t in pool.txs
    {
      || !FitsIn(block, pool.txs[t].cached)
      || (exists x :: x in pool.WithAncestors(t) && x !in block && !includable(x))
    }

    /** Entry `i` of the order is in the block, given up, recorded, or still ahead with its cached figures. */
    ghost predicate Waiting(order: seq<nat>, d: Desk, i: nat)
      requires i < |order| && order[i] in pool.txs
    {
      || order[i] in d.block || GivenUpAt(order[i], d.block) || order[i] in d.modified
      || (i >= d.mi && pool.Ancestors(order[i]) !! d.block)
    }

    ghost predicate BooksAt(order: seq<nat>, d: Desk) {
      && Recorded(pool, d.modified, d.from, d.block)
      && forall i :: 0 <= i < |order| ==> order[i] in pool.txs && Waiting(order, d, i)
    }

    lemma BooksAre(order: seq<nat>, mi: nat, modified: ModMap, failed: set<nat>, from: Origins)
      requires Valid() && Books(order, mi, modified, failed, from) && InPool(order)
      ensures BooksAt(order, Desk(mi, modified, failed, inBlock, vtx, from))
    {
      hide Valid, Recorded, TestPackage, FitsIn;
      var d := Desk(mi, modified, failed, inBlock, vtx, from);
      forall i | 0 <= i < |order|
        ensures Waiting(order, d, i)
      {
        var t := order[i];
        FitsIs(pool.txs[t].cached);
        if i >= mi && !(pool.Ancestors(t) !! inBlock) {
          var a :| a in pool.Ancestors(t) && a in inBlock;
          assert t in inBlock || t in modified || t in failed;
        }
      }
    }

    /** No entry of the order comes after a better one. */
    ghost predicate InScoreOrder(order: seq<nat>, better: (ModEntry, ModEntry) -> bool) {
      forall i, j :: 0 <= i < j < |order| ==>
        order[i] in pool.txs && order[j] in pool.txs && !better(pool.txs[order[j]].cached, pool.txs[order[i]].cached)
    }

    /**
     The selection is greedy: whenever an entry is looked at, every entry of the order is in the
     block, given up, or has figures on record that do not beat those of the entry looked at.
     */
    lemma EveryLookIsBest(order: seq<nat>, better: (ModEntry, ModEntry) -> bool, desks: seq<Desk>, verdicts: seq<Verdict>, k: nat,
                          t: nat, e: ModEntry, usingModified: bool, i: nat)
      requires Ranks(better) && InScoreOrder(order, better) && Log(order, better, desks, verdicts)
      requires k < |verdicts| && Looks(order, better, desks[k], t, e, usingModified) && i < |order|
      ensures order[i] in pool.txs
      ensures || order[i] in desks[k].block || GivenUpAt(order[i], desks[k].block)
              || exists f :: OnRecord(order[i], f, desks[k].block) && !better(f, e)
    {
      hide Turns, RecordsGoOn, GivenUpAt, GoesOnAfter, Reduced;
      var d, x := desks[k], order[i];
      assert BooksAt(order, d);
      assert Waiting(order, d, i);
      if x in d.block || GivenUpAt(x, d.block) {
      } else if x in d.modified {
        assert RecordedAs(pool, x, d.modified[x], d.from[x], d.block);
        assert OnRecord(x, d.modified[x], d.block);
      } else {
        var c := pool.txs[x].cached;
        assert OnRecord(x, c, d.block);
        var next := pool.txs[order[d.mi]].cached;
        assert i > d.mi ==> !better(c, next);
        assert better(c, e) ==> better(c, next) || better(next, e);
      }
    }

    /**
     Every turn but a skip judges a best entry by its figures on record: included exactly if they pay
     the minimum and fit and all of the package is includable, and a stop exactly if they do not pay.
     */
    lemma EveryTurnLooks(order: seq<nat>, better: (ModEntry, ModEntry) -> bool, desks: seq<Desk>, verdicts: seq<Verdict>, k: nat)
      returns (t: nat, e: ModEntry, usingModified: bool)
      requires pool.Valid() && Log(order, better, desks, verdicts) && k < |verdicts| && !verdicts[k].Skipped?
      ensures Looks(order, better, desks[k], t, e, usingModified) && Judged(desks[k], t, e, usingModified, verdicts[k], desks[k + 1])
      ensures e.size >= 0 && (verdicts[k].TooCheap? <==> e.modFees < minFee(e.size))
      ensures verdicts[k].Included? <==>
              e.modFees >= minFee(e.size) && FitsIn(desks[k].block, e) && AllIncludable(pool.WithAncestors(t) - desks[k].block)
      ensures desks[k + 1].block == if verdicts[k].Included? then desks[k].block + pool.WithAncestors(t) else desks[k].block
    {
      hide Looks, Taken, RecordsGoOn, BooksAt, GoesOnAfter, FitsIn, AllIncludable, Pool.Valid;
      assert Turns(order, better, desks[k], verdicts[k], desks[k + 1]);
      t, e, usingModified :| Looks(order, better, desks[k], t, e, usingModified) && Judged(desks[k], t, e, usingModified, verdicts[k], desks[k + 1]);
      RecordNotNegative(order, better, desks[k], t, e, usingModified);
      if verdicts[k].Included? {
        TakenWhole(desks[k], t, usingModified, verdicts[k].updated, desks[k + 1]);
      }
    }

    lemma TakenWhole(d: Desk, t: nat, usingModified: bool, updated: nat, d': Desk)
      requires Taken(d, t, usingModified, updated, d')
      ensures d'.block == d.block + pool.WithAncestors(t)
    {
      hide RecordsGoOn, ByCount, Sum;
    }

    lemma RecordNotNegative(order: seq<nat>, better: (ModEntry, ModEntry) -> bool, d: Desk, t: nat, e: ModEntry, usingModified: bool)
      requires pool.Valid() && Looks(order, better, d, t, e, usingModified)
      ensures e.size >= 0
    {
      hide Best, Sum, Traced, Reduced, EntryCovers, Pool.Valid;
      if pool.Ancestors(t) !! d.block && e == pool.txs[t].cached {
        CachedCovers(pool, t, d.block);
      } else {
        var o :| Traced(pool, t, o, d.block) && e == Reduced(pool, t, o);
        RecordCovers(pool, t, o, d.block);
      }
      CoversNotNegative(pool, t, e, d.block);
    }

    /**
     Select packages from `order`, the mempool by ancestor score, and from the modified entries,
     until both are used up, fees get too low, or the block is nearly full. When both are used up,
     nothing of `order` was left out that would still fit as a whole and is includable.
     */
    method AddPackageTxs(order: seq<nat>, better: (ModEntry, ModEntry) -> bool)
      returns (packagesSelected: nat, descendantsUpdated: nat, stop: StopReason, ghost desks: seq<Desk>, ghost verdicts: seq<Verdict>)
      requires Valid() && Ranks(better) && InPool(order)
      modifies this
      ensures Valid() && old(vtx) <= vtx
      ensures vtx == old(vtx) || (blockWeight < blockMaxWeight && blockSigOps < MAX_BLOCK_SIGOPS_COST)
      ensures OnlyIncludable(old(inBlock), inBlock)
      ensures stop == UsedUp ==> NothingLeftOut(order)
      // The run that leads from the old block to the new one, and stops where it should.
      ensures Log(order, better, desks, verdicts)
      ensures desks[0].block == old(inBlock) && desks[0].vtx == old(vtx)
      ensures desks[|verdicts|].block == inBlock && desks[|verdicts|].vtx == vtx
      ensures match stop
              case LowFees => TooCheapAfter(verdicts, |verdicts|)
              case NearlyFull => NearlyFullAfter(desks, verdicts, |verdicts|)
              case UsedUp => desks[|verdicts|].mi == |order| && desks[|verdicts|].modified == map[]
      ensures packagesSelected == Selected(verdicts)
      ensures descendantsUpdated == Sum(old(inBlock), Outside(old(inBlock))) + UpdatedInAll(verdicts)
    {
      hide Books, Ranks, Valid, NothingLeftOut, Log, Turns, BooksAt, RecordsGoOn, Failures, Selected, UpdatedInAll, Outside, Sum,
        WeightOf, OpenLog, TooCheapAfter, NearlyFullAfter, OnlyIncludable, InPool, Grown;
      BlockIsPart();
      var modified;
      ghost var from;
      modified, descendantsUpdated, from := Start(order);
      ghost var updatedAtFirst := descendantsUpdated;
      packagesSelected := 0;
      var failed: set<nat> := {};
      var mi, consecutiveFailed := 0, 0;
      ghost var first := Desk(mi, modified, failed, inBlock, vtx, from);
      desks, verdicts := [first], [];
      BooksAre(order, mi, modified, failed, from);
      LogStarts(order, better, first);
      NotGrown(first);
      while mi < |order| || modified != map[]
        invariant 0 <= mi <= |order|
        invariant Valid() && Books(order, mi, modified, failed, from) && Grown(first)
        invariant |inBlock| <= |pool.txs|
        invariant OpenLog(order, better, desks, verdicts, first,
                          Desk(mi, modified, failed, inBlock, vtx, from))
        invariant consecutiveFailed == Failures(verdicts) && packagesSelected == Selected(verdicts)
        invariant descendantsUpdated == updatedAtFirst + UpdatedInAll(verdicts)
        decreases |pool.txs| - |inBlock|, |order| - mi + |modified|
      {
        var verdict;
        ghost var before := Desk(mi, modified, failed, inBlock, vtx, from);
        NextInPool(order, mi);
        label before:
        mi, modified, failed, verdict, from := Turn(order, mi, modified, failed, better, from);
        ghost var d := Desk(mi, modified, failed, inBlock, vtx, from);
        BooksAre(order, mi, modified, failed, from);
        OneMoreTurn(order, better, desks, verdicts, first, before, verdict, d);
        StillGrown@before(first);
        OneMoreVerdict(verdicts, verdict);
        desks, verdicts := desks + [d], verdicts + [verdict];
        WeightIs();
        match verdict {
          case TooCheap =>
            stop := LowFees;
            GrownIs(first);
            return;
          case DoesNotFit =>
            consecutiveFailed := consecutiveFailed + 1;
            if consecutiveFailed > MAX_CONSECUTIVE_FAILURES && blockWeight > blockMaxWeight - 4000 {
              stop := NearlyFull;
              GrownIs(first);
              return;
            }
          case Included(updated) =>
            consecutiveFailed := 0;
            packagesSelected := packagesSelected + 1;
            descendantsUpdated := descendantsUpdated + updated;
          case _ =>
        }
      }
      CloseLog(order, better, desks, verdicts, first, Desk(mi, modified, failed, inBlock, vtx, from));
      BooksClosed(order, failed, from);
      stop := UsedUp;
      GrownIs(first);
    }

    /** A run from the block of `first` to `last` that need not stop yet. */
    ghost predicate OpenLog(order: seq<nat>, better: (ModEntry, ModEntry) -> bool, desks: seq<Desk>, verdicts: seq<Verdict>, first: Desk, last: Desk) {
      && Log(order, better, desks, verdicts) && |desks| == |verdicts| + 1
      && desks[0].block == first.block && desks[0].vtx == first.vtx && desks[|verdicts|] == last
      && !TooCheapAfter(verdicts, |verdicts|) && !NearlyFullAfter(desks, verdicts, |verdicts|)
    }

    lemma CloseLog(order: seq<nat>, better: (ModEntry, ModEntry) -> bool, desks: seq<Desk>, verdicts: seq<Verdict>, first: Desk, last: Desk)
      requires OpenLog(order, better, desks, verdicts, first, last)
      ensures Log(order, better, desks, verdicts) && |desks| == |verdicts| + 1
      ensures desks[0].block == first.block && desks[0].vtx == first.vtx && desks[|verdicts|] == last
    {
      hide Log;
    }

    lemma OneMoreTurn(order: seq<nat>, better: (ModEntry, ModEntry) -> bool, desks: seq<Desk>, verdicts: seq<Verdict>, first: Desk, last: Desk,
                      v: Verdict, d: Desk)
      requires OpenLog(order, better, desks, verdicts, first, last) && (last.mi < |order| || last.modified != map[])
      requires Turns(order, better, last, v, d) && BooksAt(order, d)
      ensures var desks', verdicts' := desks + [d], verdicts + [v];
              && Log(order, better, desks', verdicts') && |desks'| == |verdicts'| + 1
              && desks'[0].block == first.block && desks'[0].vtx == first.vtx && desks'[|verdicts'|] == d
              && (TooCheapAfter(verdicts', |verdicts'|) <==> v.TooCheap?)
              && (NearlyFullAfter(desks', verdicts', |verdicts'|) <==>
                  v.DoesNotFit? && Failures(verdicts') > MAX_CONSECUTIVE_FAILURES && WeightOf(d.block) > blockMaxWeight - 4000)
              && (!v.TooCheap? && !NearlyFullAfter(desks', verdicts', |verdicts'|) ==> OpenLog(order, better, desks', verdicts', first, d))
    {
      hide Turns, BooksAt, Log, Failures, WeightOf;
      LogGoesOn(order, better, desks, verdicts, v, d);
      assert (verdicts + [v])[..|verdicts| + 1] == verdicts + [v];
    }

    lemma WeightIs()
      requires Valid()
      ensures blockWeight == WeightOf(inBlock)
    {
    }

    lemma LogStarts(order: seq<nat>, better: (ModEntry, ModEntry) -> bool, d: Desk)
      requires d.mi == 0 && d.failed == {} && RecordsGoOn(map[], map[], d.modified, d.from, {}, d.block) && BooksAt(order, d)
      ensures OpenLog(order, better, [d], [], d, d) && Failures([]) == Selected([]) == UpdatedInAll([]) == 0
    {
      hide RecordsGoOn, BooksAt;
    }

    lemma NothingDealt(order: seq<nat>, modified: ModMap)
      ensures AllDealt(order, 0, modified, {})
    {
    }
  }

  // ----- two ways in which recorded fees go wrong

  /** Two parents and their child, with a fee of 1 each; the second parent has been prioritised. */
  function Family(priority: int): Pool {
    Pool(map[
      0 := Tx(1, 4, 0, 1, 1, {}, 1, ModEntry(1, 1, 0)),
      1 := Tx(1, 4, 0, 1, 1 + priority, {}, 1, ModEntry(1, 1 + priority, 0)),
      2 := Tx(1, 4, 0, 1, 1, {0, 1}, 3, ModEntry(3, 3 + priority, 0))])
  }

  lemma SumOfFew(f: nat -> int)
    ensures Sum({0}, f) == f(0) && Sum({1}, f) == f(1) && Sum({2}, f) == f(2) && Sum({0, 1, 2}, f) == f(0) + f(1) + f(2)
  {
    forall x: nat
      ensures Sum({x}, f) == f(x)
    {
      SumOut({x}, x, f);
      assert {x} - {x} == {};
    }
    SumOfDisjoint({0}, {1}, f);
    SumOfDisjoint({0, 1}, {2}, f);
    assert {0} + {1} == {0, 1} && {0, 1} + {2} == {0, 1, 2};
  }

  lemma FamilyFigures(priority: int)
    ensures var p := Family(priority);
            && p.txs.Keys == {0, 1, 2} && p.Ancestors(0) == {} && p.Ancestors(1) == {} && p.Ancestors(2) == {0, 1}
            && p.Descendants(0) == {2} && p.Descendants(1) == {2}
            && p.txs[2].cached.modFees == 3 + priority && p.ModFee(0) == 1 && p.ModFee(1) == 1 + priority && p.ModFee(2) == 1 && p.Fee(1) == 1
  {
  }

  lemma FamilyCache(priority: int, t: nat)
    requires t in Family(priority).txs
    ensures Family(priority).CacheExact(t)
  {
    var p := Family(priority);
    SumOfFew(p.Size);
    SumOfFew(p.SigOps);
    SumOfFew(p.ModFee);
    hide Sum;
    assert p.WithAncestors(t) == if t == 2 then {0, 1, 2} else {t};
  }

  lemma FamilyIsValid(priority: int)
    ensures Family(priority).Valid() && Family(priority).Closed({0}) && Family(priority).Closed({})
    ensures Sum(Left(Family(priority), 2, {0, 1}), Family(priority).ModFee) == 1
  {
    var p := Family(priority);
    hide Pool.CacheExact, Sum;
    forall t | t in p.txs
      ensures p.CacheExact(t)
    {
      FamilyCache(priority, t);
    }
    SumOfFew(p.ModFee);
    assert Left(p, 2, {0, 1}) == {2};
  }

  /** The child's record when the second parent has joined, by whether it had one before. */
  lemma SecondParent(priority: int, mod: ModMap, from: Origins, mod': ModMap, from': Origins)
    requires Recorded(Family(priority), mod', from', {0} + {1}) && GoesOn(Family(priority), mod, from, mod', from', {1}) && 2 in mod'
    requires 2 in mod ==> 2 in from && from[2] == Origin(0, {})
    ensures mod'[2].modFees == if 2 in mod then 1 + priority else 2
  {
    var p := Family(priority);
    FamilyFigures(priority);
    hide Sum, Family;
    assert p.Ancestors(2) * {1} == {1};
    assert RecordedAs(p, 2, mod'[2], from'[2], {0} + {1});
    SumOfFew(p.Fee);
    SumOfNone(p.Fee);
    if 2 in mod {
      assert from'[2] == Origin(0, {1}) by {
        assert {} + {1} == {1};
      }
    } else {
      assert from'[2] == Origin(1, {});
    }
  }

  lemma SumOfNone(f: nat -> int)
    ensures Sum({}, f) == 0
  {
  }

  lemma FirstParent(priority: int, mod: ModMap, from: Origins)
    requires GoesOn(Family(priority), map[], map[], mod, from, {0}) && 2 in mod
    ensures 2 in from && from[2] == Origin(0, {}) && 1 !in mod
  {
    FamilyFigures(priority);
    hide Family;
    assert Family(priority).Ancestors(2) * {0} == {0};
  }

  /**
   Both parents join the block one after the other, and only the child's fee of 1 is left. Kept all
   along, its record is off by the priority of the second parent; erased in between, as after a
   failure, it starts again from the cached figures and counts the first parent in.
   */
  method TwoParents(priority: int, erase: bool) returns (e: ModEntry)
    ensures e.modFees == if erase then 2 else 1 + priority
    ensures Sum(Left(Family(priority), 2, {0, 1}), Family(priority).ModFee) == 1
  {
    FamilyIsValid(priority);
    FamilyFigures(priority);
    hide Pool.Valid, Pool.Closed, Pool.Descendants, Pool.Ancestors, Pool.ModFee, Pool.Fee, Sum, Family, Recorded, GoesOn, Left;
    var a := new BlockAssembler(Family(priority), 4000, _ => 0, _ => true);
    NoRecords(a.pool);
    var mod, n;
    ghost var from;
    mod, n, from := a.UpdatePackagesForAdded({0}, map[], map[], {});
    FirstParent(priority, mod, from);
    assert {} + {0} == {0};
    if erase {
      RecordedWithout(a.pool, mod, from, {0}, 2);
      mod := mod - {2};
    }
    ghost var before, from0 := mod, from;
    mod, n, from := a.UpdatePackagesForAdded({1}, mod, from, {0});
    SecondParent(priority, before, from0, mod, from);
    e := mod[2];
  }

  lemma NoRecords(pool: Pool)
    ensures Recorded(pool, map[], map[], {})
  {
  }
}
