/**
 The cuckoo cache: a table with eight places per element, bit-packed flags for
 places that may be overwritten, a displacement chain of limited length on
 insert, and two generations ("epochs") of entries.
 */
module Cuckoo {
  import opened Arithmetic
  import opened Wrappers

  // ----- bit-packed flags

  /** A byte, as the set of its one bits. */
  type Byte = set<nat>

  predicate BitIsSet(mem: seq<Byte>, s: nat)
    requires s < 8 * |mem|
  {
    s % 8 in mem[s / 8]
  }

  function BitSet(mem: seq<Byte>, s: nat): (r: seq<Byte>)
    requires s < 8 * |mem|
    ensures |r| == |mem|
    ensures forall i: nat :: i < 8 * |mem| ==> (BitIsSet(r, i) <==> i == s || BitIsSet(mem, i))
  {
    mem[s / 8 := mem[s / 8] + {s % 8}]
  }

  function BitUnset(mem: seq<Byte>, s: nat): (r: seq<Byte>)
    requires s < 8 * |mem|
    ensures |r| == |mem|
    ensures forall i: nat :: i < 8 * |mem| ==> (BitIsSet(r, i) <==> i != s && BitIsSet(mem, i))
  {
    mem[s / 8 := mem[s / 8] - {s % 8}]
  }

  ghost function Bits(mem: seq<Byte>, n: nat): (r: seq<bool>)
    requires n <= 8 * |mem|
    ensures |r| == n && forall i :: 0 <= i < n ==> r[i] == BitIsSet(mem, i)
  {
    seq(n, i requires 0 <= i < n => BitIsSet(mem, i))
  }

  // ----- tables

  /** Some place that must not be overwritten holds `x`. */
  ghost predicate Keeps<T>(table: seq<T>, collected: seq<bool>, x: T)
    requires |table| == |collected|
  {
    exists i :: 0 <= i < |table| && !collected[i] && table[i] == x
  }

  lemma KeptIsThere<T>(table: seq<T>, collected: seq<bool>, x: T)
    requires |table| == |collected|
    ensures Keeps(table, collected, x) ==> x in table
  {
  }

  /** How many of the first `n` places hold a kept entry of the current epoch. */
  ghost function Recent(collected: seq<bool>, epochs: seq<bool>, n: nat): nat
    requires n <= |collected| && n <= |epochs|
  {
    if n == 0 then 0
    else Recent(collected, epochs, n - 1) + if epochs[n - 1] && !collected[n - 1] then 1 else 0
  }

  lemma {:induction false} RecentAfter(collected: seq<bool>, epochs: seq<bool>, collected': seq<bool>, epochs': seq<bool>, n: nat, i: nat)
    requires |collected| == |collected'| == |epochs| == |epochs'| && n <= |epochs|
    requires forall k :: 0 <= k < n && k != i ==> collected'[k] == collected[k] && epochs'[k] == epochs[k]
    ensures i >= n ==> Recent(collected', epochs', n) == Recent(collected, epochs, n)
    ensures i < n ==>
              Recent(collected', epochs', n) == Recent(collected, epochs, n)
                                                - (if epochs[i] && !collected[i] then 1 else 0)
                                                + (if epochs'[i] && !collected'[i] then 1 else 0)
  {
    if n > 0 {
      RecentAfter(collected, epochs, collected', epochs', n - 1, i);
    }
  }

  lemma {:induction false} NoneRecent(collected: seq<bool>, epochs: seq<bool>, n: nat)
    requires n <= |collected| && n <= |epochs|
    requires forall k :: 0 <= k < n ==> !epochs[k] || collected[k]
    ensures Recent(collected, epochs, n) == 0
  {
    if n > 0 {
      NoneRecent(collected, epochs, n - 1);
    }
  }

  /** Writing `e` to place `loc` adds `e` to what is kept, if the place is kept, and removes what the place kept before. */
  lemma KeepsAfterWrite<T(!new)>(table: seq<T>, collected: seq<bool>, table': seq<T>, collected': seq<bool>, loc: nat, e: T)
    requires |table| == |collected| == |collected'| && loc < |table| && table' == table[loc := e]
    requires forall i :: 0 <= i < |table| && i != loc ==> collected'[i] == collected[i]
    ensures forall x :: Keeps(table', collected', x) ==> (x == e && !collected'[loc]) || Keeps(table, collected, x)
    ensures forall x :: Keeps(table, collected, x) ==> Keeps(table', collected', x) || (!collected[loc] && x == table[loc])
    ensures !collected'[loc] ==> Keeps(table', collected', e)
  {
    forall x | Keeps(table, collected, x)
      ensures Keeps(table', collected', x) || (!collected[loc] && x == table[loc])
    {
      var i :| 0 <= i < |table| && !collected[i] && table[i] == x;
      assert i == loc || table'[i] == x;
    }
    assert table'[loc] == e;
  }

  /** The places that do not hold a kept entry of the current epoch. */
  ghost function NotRecent(collected: seq<bool>, epochs: seq<bool>): (r: seq<bool>)
    requires |collected| == |epochs|
    ensures |r| == |collected|
    ensures forall i :: 0 <= i < |r| ==> r[i] == (collected[i] || !epochs[i])
  {
    seq(|collected|, i requires 0 <= i < |collected| => collected[i] || !epochs[i])
  }

  /** The places that may be overwritten after an epoch check. */
  ghost function Aged(collected: seq<bool>, epochs: seq<bool>, aged: bool): (r: seq<bool>)
    requires |collected| == |epochs|
    ensures |r| == |collected|
  {
    seq(|collected|, i requires 0 <= i < |collected| => collected[i] || (aged && !epochs[i]))
  }

  /** What a place holds: an element and whether it belongs to the current epoch. */
  datatype Entry<T> = Entry(value: T, recent: bool)

  ghost function Entries<T>(table: seq<T>, epochs: seq<bool>): (r: seq<Entry<T>>)
    requires |table| == |epochs|
    ensures |r| == |table| && forall i :: 0 <= i < |r| ==> r[i] == Entry(table[i], epochs[i])
  {
    seq(|table|, i requires 0 <= i < |table| => Entry(table[i], epochs[i]))
  }

  lemma EntriesAfterWrite<T>(table: seq<T>, epochs: seq<bool>, loc: nat, e: T, recent: bool)
    requires |table| == |epochs| && loc < |table|
    ensures Entries(table[loc := e], epochs[loc := recent]) == Entries(table, epochs)[loc := Entry(e, recent)]
  {
  }

  /** The table after the first `n` entries of a chain have moved to their places. */
  ghost function Moved<T>(before: seq<Entry<T>>, chain: seq<Entry<T>>, places: seq<nat>, n: nat): (r: seq<Entry<T>>)
    requires n <= |places| && n <= |chain| && forall i :: 0 <= i < n ==> places[i] < |before|
    ensures |r| == |before|
  {
    if n == 0 then before else Moved(before, chain, places, n - 1)[places[n - 1] := chain[n - 1]]
  }

  lemma {:induction false} MovedSame<T>(before: seq<Entry<T>>, chain: seq<Entry<T>>, places: seq<nat>, chain': seq<Entry<T>>, places': seq<nat>, n: nat)
    requires n <= |places| && n <= |chain| && n <= |places'| && n <= |chain'|
    requires forall i :: 0 <= i < n ==> places[i] < |before|
    requires forall i :: 0 <= i < n ==> places'[i] == places[i] && chain'[i] == chain[i]
    ensures Moved(before, chain', places', n) == Moved(before, chain, places, n)
  {
    if n > 0 {
      MovedSame(before, chain, places, chain', places', n - 1);
    }
  }

  function IndexOf<T(==)>(s: seq<T>, x: T): (k: nat)
    requires x in s
    ensures k < |s| && s[k] == x && x !in s[..k]
  {
    if s[0] == x then 0 else 1 + IndexOf(s[1..], x)
  }

  /** The bound on kept entries of the current epoch. */
  function Limit(epochSize: nat): nat {
    epochSize + if epochSize / 16 > 1 then epochSize / 16 else 1
  }

  class Cache<Element(==,!new)> {
    const hash: (nat, Element) -> nat  // number of the hash function (0 to 7), element
    const nothing: Element             // what a place holds before anything is written to it
    const size: nat
    const epochSize: nat
    const depthLimit: nat

    var table: seq<Element>
    var collectionFlags: seq<Byte>
    var epochFlags: seq<bool>
    var epochHeuristicCounter: nat

    function Loc(k: nat, e: Element): (r: nat)
      requires size > 0
      ensures r < size
    {
      FastMod(hash(k, e) % 0x1_0000_0000, size)
    }

    /** The eight places of an element. */
    function Locs(e: Element): (r: seq<nat>)
      requires size > 0
      ensures |r| == 8 && forall k :: 0 <= k < 8 ==> r[k] < size
    {
      seq(8, k requires 0 <= k < 8 => Loc(k, e))
    }

    ghost function Collected(): seq<bool>
      requires size <= 8 * |collectionFlags|
      reads this`collectionFlags
    {
      Bits(collectionFlags, size)
    }

    ghost predicate Shape()
      reads this
    {
      && size >= 2 && epochSize >= 1 && depthLimit >= 1
      && |table| == |epochFlags| == size <= 8 * |collectionFlags|
    }

    /** Whatever was written sits at one of its own places, nothing sits at two, and the epoch is not overfull. */
    ghost predicate Valid()
      reads this
    {
      && Shape()
      && Placed(table, Collected())
      && Unique(table)
      && Recent(Collected(), epochFlags, size) + epochHeuristicCounter <= Limit(epochSize)
    }

    ghost predicate Placed(table: seq<Element>, collected: seq<bool>)
      requires size > 0 && |table| == |collected|
    {
      forall i :: 0 <= i < |table| && (!collected[i] || table[i] != nothing) ==> i in Locs(table[i])
    }

    ghost predicate Unique(table: seq<Element>) {
      forall i, j :: 0 <= i < j < |table| && table[i] == table[j] ==> table[i] == nothing
    }

    /** `x` is in the cache and will not be overwritten before the next epoch change. */
    ghost predicate Has(x: Element)
      requires Shape()
      reads this
    {
      Keeps(table, Collected(), x)
    }

    /** `x` is kept and belongs to the current epoch. */
    ghost predicate HasRecent(x: Element)
      requires Shape()
      reads this
    {
      Keeps(table, NotRecent(Collected(), epochFlags), x)
    }

    /** setup: room for `newSize` elements; the depth limit is the base two logarithm of that. */
    constructor (hash: (nat, Element) -> nat, nothing: Element, newSize: nat, depthLimit: nat)
      requires depthLimit >= 1
      ensures Valid() && forall x :: !Has(x)
      ensures this.hash == hash && this.nothing == nothing && this.depthLimit == depthLimit
      ensures size == (if newSize < 2 then 2 else newSize) && table == seq(size, _ => nothing)
      ensures epochSize == (if 45 * size % 0x1_0000_0000 / 100 < 1 then 1 else 45 * size % 0x1_0000_0000 / 100)
      ensures Collected() == seq(size, _ => true) && epochFlags == seq(size, _ => false) && epochHeuristicCounter == epochSize
    {
      this.hash := hash;
      this.nothing := nothing;
      this.depthLimit := depthLimit;
      var n := if newSize < 2 then 2 else newSize;
      // 45% of the size, in 32-bit arithmetic.
      var share := 45 * n % 0x1_0000_0000 / 100;
      size := n;
      epochSize := if share < 1 then 1 else share;
      table := seq(n, _ => nothing);
      collectionFlags := seq((n + 7) / 8, _ => {0, 1, 2, 3, 4, 5, 6, 7});
      epochFlags := seq(n, _ => false);
      epochHeuristicCounter := if share < 1 then 1 else share;
      new;
      assert forall i :: 0 <= i < size ==> Collected()[i];
      NoneRecent(Collected(), epochFlags, size);
    }

    /** Count the kept entries of the current epoch. */
    method CountRecent() returns (n: nat)
      requires Shape()
      ensures n == Recent(Collected(), epochFlags, size)
    {
      n := 0;
      for i := 0 to size
        invariant n == Recent(Collected(), epochFlags, i)
      {
        if epochFlags[i] && !BitIsSet(collectionFlags, i) {
          n := n + 1;
        }
      }
    }

    /** Give up the old epoch and make the current one the old one. */
    method Age()
      requires Shape()
      modifies this`collectionFlags, this`epochFlags
      ensures Shape() && Recent(Collected(), epochFlags, size) == 0
      ensures forall i :: 0 <= i < size ==> !epochFlags[i]
      ensures forall i :: 0 <= i < size ==> Collected()[i] == (old(Collected())[i] || !old(epochFlags)[i])
    {
      for i := 0 to size
        invariant Shape()
        invariant forall k :: 0 <= k < i ==> !epochFlags[k] && Collected()[k] == (old(Collected())[k] || !old(epochFlags)[k])
        invariant forall k :: i <= k < size ==> epochFlags[k] == old(epochFlags)[k] && Collected()[k] == old(Collected())[k]
      {
        if epochFlags[i] {
          epochFlags := epochFlags[i := false];
        } else {
          collectionFlags := BitSet(collectionFlags, i);
        }
      }
      NoneRecent(Collected(), epochFlags, size);
    }

    /** How many inserts may pass before the next scan, when one found `count` entries of the current epoch. */
    function Wait(count: nat): nat {
      if count >= epochSize then epochSize
      else
        var wait := if epochSize / 16 > epochSize - count then epochSize / 16 else epochSize - count;
        if wait > 1 then wait else 1
    }

    /** Make room for one more entry of the current epoch, ageing the epochs when a scan finds the current one full. */
    method EpochCheck() returns (aged: bool)
      requires Valid()
      modifies this`collectionFlags, this`epochFlags, this`epochHeuristicCounter
      ensures Shape() && Placed(table, Collected()) && Unique(table)
      ensures Recent(Collected(), epochFlags, size) + epochHeuristicCounter + 1 <= Limit(epochSize)
      ensures aged <==> old(epochHeuristicCounter) == 0 && old(Recent(Collected(), epochFlags, size)) >= epochSize
      ensures Collected() == Aged(old(Collected()), old(epochFlags), aged)
      ensures forall x :: HasRecent(x) <==> !aged && old(HasRecent(x))
      ensures epochFlags == EpochsAfter(old(epochFlags), aged)
      ensures epochHeuristicCounter == if old(epochHeuristicCounter) != 0 then old(epochHeuristicCounter) - 1
                                       else Wait(old(Recent(Collected(), epochFlags, size)))
    {
      aged := false;
      if epochHeuristicCounter != 0 {
        epochHeuristicCounter := epochHeuristicCounter - 1;
        return;
      }
      var count := CountRecent();
      if count >= epochSize {
        Age();
        aged := true;
        epochHeuristicCounter := epochSize;
      } else {
        var wait := if epochSize / 16 > epochSize - count then epochSize / 16 else epochSize - count;
        epochHeuristicCounter := if wait > 1 then wait else 1;
      }
    }

    /** The place of `e` after its last one in the order of its hashes; the second one when `last` is none of them. */
    function NextLoc(e: Element, last: Option<nat>): (r: nat)
      requires size > 0
      ensures r in Locs(e)
      ensures last.None? || last.value !in Locs(e) ==> r == Locs(e)[1]
      // After its first occurrence, so never the same place again unless places coincide.
      ensures last.Some? && last.value in Locs(e) ==>
                exists k :: 0 <= k < 8 && Locs(e)[k] == last.value && last.value !in Locs(e)[..k] && r == Locs(e)[(k + 1) % 8]
    {
      var locs := Locs(e);
      if last.Some? && last.value in locs then locs[(1 + IndexOf(locs, last.value)) % 8] else locs[1]
    }

    /** `e` is at one of its places, kept or not. */
    ghost predicate IsThere(table: seq<Element>, e: Element)
      requires size > 0 && |table| == size
    {
      exists k :: 0 <= k < 8 && table[Locs(e)[k]] == e
    }

    /** Of the places of `e` that hold it, `at` comes first. */
    ghost predicate FoundFirst(table: seq<Element>, e: Element, at: nat)
      requires size > 0 && |table| == size
    {
      exists k :: 0 <= k < 8 && Locs(e)[k] == at && table[at] == e && forall j :: 0 <= j < k ==> table[Locs(e)[j]] != e
    }

    /** Look for `e` at its places. */
    method FindElement(e: Element) returns (at: Option<nat>)
      requires Shape()
      ensures at.Some? <==> IsThere(table, e)
      ensures at.Some? ==> at.value < size && at.value in Locs(e) && table[at.value] == e && FoundFirst(table, e, at.value)
    {
      for k := 0 to 8
        invariant forall j :: 0 <= j < k ==> table[Locs(e)[j]] != e
      {
        if table[Locs(e)[k]] == e {
          return Some(Locs(e)[k]);
        }
      }
      return None;
    }

    /** An element that is at none of its places is not in the table, unless it is the filler. */
    lemma NowhereElse(table: seq<Element>, collected: seq<bool>, e: Element)
      requires size > 0 && |table| == |collected| == size && Placed(table, collected)
      requires !IsThere(table, e)
      ensures e in table ==> e == nothing
    {
    }

    /** None of the places of `e` may be overwritten. */
    ghost predicate NoneFree(collected: seq<bool>, e: Element)
      requires size > 0 && |collected| == size
    {
      forall k :: 0 <= k < 8 ==> !collected[Locs(e)[k]]
    }

    lemma NotFree(collected: seq<bool>, e: Element, loc: nat)
      requires size > 0 && |collected| == size && NoneFree(collected, e) && loc in Locs(e)
      ensures loc < size && !collected[loc]
    {
    }

    /** Of the places of `e` that may be overwritten, `at` comes first. */
    ghost predicate FirstFree(collected: seq<bool>, e: Element, at: nat)
      requires size > 0 && |collected| == size
    {
      exists k :: 0 <= k < 8 && Locs(e)[k] == at && collected[at] && forall j :: 0 <= j < k ==> !collected[Locs(e)[j]]
    }

    /**
     Entries that displace one another: each has no place that may be overwritten, moves to the
     next of its places after the one it came from, and puts out the entry it finds there.
     */
    ghost predicate Chain(before: seq<Entry<Element>>, collected: seq<bool>, chain: seq<Entry<Element>>, places: seq<nat>)
      requires size > 0 && |before| == |collected| == size
    {
      && |chain| == |places| + 1
      && (forall i :: 0 <= i < |places| ==> places[i] < size)
      && (forall i :: 0 <= i < |places| ==> Link(before, collected, chain, places, i))
    }

    /** Entry `i` of a chain puts out the next one. */
    ghost predicate Link(before: seq<Entry<Element>>, collected: seq<bool>, chain: seq<Entry<Element>>, places: seq<nat>, i: nat)
      requires size > 0 && |before| == |collected| == size
      requires i < |places| < |chain| && forall j :: 0 <= j < |places| ==> places[j] < size
    {
      && NoneFree(collected, chain[i].value)
      && places[i] == NextLoc(chain[i].value, if i == 0 then None else Some(places[i - 1]))
      && chain[i + 1] == Moved(before, chain, places, i)[places[i]]
    }

    lemma LinkSame(before: seq<Entry<Element>>, collected: seq<bool>, chain: seq<Entry<Element>>, places: seq<nat>,
                   chain': seq<Entry<Element>>, places': seq<nat>, i: nat)
      requires size > 0 && |before| == |collected| == size
      requires i < |places| < |chain| && forall j :: 0 <= j < |places| ==> places[j] < size
      requires i < |places'| < |chain'| && forall j :: 0 <= j < |places'| ==> places'[j] < size
      requires chain <= chain' && places <= places'
      requires Link(before, collected, chain, places, i)
      ensures Link(before, collected, chain', places', i)
    {
      hide NoneFree, NextLoc, Moved;
      MovedSame(before, chain, places, chain', places', i);
    }

    lemma ChainGoesOn(before: seq<Entry<Element>>, collected: seq<bool>, chain: seq<Entry<Element>>, places: seq<nat>, loc: nat, next: Entry<Element>)
      requires size > 0 && |before| == |collected| == size && Chain(before, collected, chain, places)
      requires NoneFree(collected, chain[|places|].value)
      requires loc == NextLoc(chain[|places|].value, if places == [] then None else Some(places[|places| - 1])) < size
      requires next == Moved(before, chain, places, |places|)[loc]
      ensures Chain(before, collected, chain + [next], places + [loc])
      ensures Moved(before, chain + [next], places + [loc], |places| + 1) ==
              Moved(before, chain, places, |places|)[loc := chain[|places|]]
    {
      hide NoneFree, NextLoc, Link;
      var chain', places' := chain + [next], places + [loc];
      forall i | 0 <= i < |places|
        ensures Link(before, collected, chain', places', i)
      {
        LinkSame(before, collected, chain, places, chain', places', i);
      }
      MovedSame(before, chain, places, chain', places', |places|);
      LastLink(before, collected, chain', places');
    }

    lemma LastLink(before: seq<Entry<Element>>, collected: seq<bool>, chain: seq<Entry<Element>>, places: seq<nat>)
      requires size > 0 && |before| == |collected| == size && 0 < |places| < |chain| && forall j :: 0 <= j < |places| ==> places[j] < size
      requires var i := |places| - 1;
               && NoneFree(collected, chain[i].value)
               && places[i] == NextLoc(chain[i].value, if i == 0 then None else Some(places[i - 1]))
               && chain[i + 1] == Moved(before, chain, places, i)[places[i]]
      ensures Link(before, collected, chain, places, |places| - 1)
    {
    }

    /** Look for a place of `e` that may be overwritten. */
    method FindFree(e: Element) returns (at: Option<nat>)
      requires Shape()
      ensures at.Some? ==> at.value < size && at.value in Locs(e) && Collected()[at.value] && FirstFree(Collected(), e, at.value)
      ensures at.None? <==> NoneFree(Collected(), e)
    {
      for k := 0 to 8
        invariant forall j :: 0 <= j < k ==> !Collected()[Locs(e)[j]]
      {
        if BitIsSet(collectionFlags, Locs(e)[k]) {
          return Some(Locs(e)[k]);
        }
      }
      return None;
    }

    lemma InPlaceAfterWrite(table: seq<Element>, collected: seq<bool>, loc: nat, e: Element)
      requires size > 0 && |table| == |collected| == size && loc < size && loc in Locs(e)
      requires Placed(table, collected) && Unique(table) && (table[loc] == e || (e in table ==> e == nothing))
      ensures Placed(table[loc := e], collected[loc := false]) && Unique(table[loc := e])
    {
      hide Locs;
    }

    /** Write `e` to a place that may be overwritten, or keep it where it is. */
    method Put(loc: nat, e: Element, epoch: bool)
      requires Shape() && loc < size && loc in Locs(e)
      requires Placed(table, Collected()) && Unique(table)
      requires table[loc] == e || (e in table ==> e == nothing)
      requires Collected()[loc] || (table[loc] == e && epoch)
      modifies this`table, this`collectionFlags, this`epochFlags
      ensures Shape() && Placed(table, Collected()) && Unique(table)
      ensures forall x :: Has(x) <==> old(Has(x)) || x == e
      ensures forall x :: HasRecent(x) <==> old(HasRecent(x)) || (x == e && epoch)
      ensures Recent(Collected(), epochFlags, size) <= old(Recent(Collected(), epochFlags, size)) + (if epoch then 1 else 0)
      ensures Entries(table, epochFlags) == old(Entries(table, epochFlags))[loc := Entry(e, epoch)]
      ensures Collected() == old(Collected())[loc := false]
    {
      ghost var was, epochs, before := Collected(), epochFlags, table;
      EntriesAfterWrite(table, epochFlags, loc, e, epoch);
      InPlaceAfterWrite(table, was, loc, e);
      hide Entries, Placed, Unique, Keeps, NotRecent, Recent, Bits;
      table := table[loc := e];
      collectionFlags := BitUnset(collectionFlags, loc);
      epochFlags := epochFlags[loc := epoch];
      assert Collected() == was[loc := false];
      RecentAfter(was, epochs, Collected(), epochFlags, size, loc);
      KeepsAfterWrite(before, was, table, Collected(), loc, e);
      KeepsAfterWrite(before, NotRecent(was, epochs), table, NotRecent(Collected(), epochFlags), loc, e);
    }

    /** Exchange `e` with the kept element at one of its places. */
    method Swap(loc: nat, e: Element, epoch: bool) returns (e': Element, epoch': bool)
      requires Shape() && loc < size && loc in Locs(e) && !Collected()[loc]
      requires Placed(table, Collected()) && Unique(table) && (e in table ==> e == nothing)
      modifies this`table, this`epochFlags
      ensures Shape() && Placed(table, Collected()) && Unique(table) && (e' in table ==> e' == nothing)
      ensures forall x :: Has(x) || x == e' <==> old(Has(x)) || x == e
      ensures forall x :: HasRecent(x) || (x == e' && epoch') <==> old(HasRecent(x)) || (x == e && epoch)
      ensures Recent(Collected(), epochFlags, size) + (if epoch' then 1 else 0)
           == old(Recent(Collected(), epochFlags, size)) + (if epoch then 1 else 0)
      ensures Entries(table, epochFlags) == old(Entries(table, epochFlags))[loc := Entry(e, epoch)]
      ensures Entry(e', epoch') == old(Entries(table, epochFlags))[loc]
    {
      ghost var epochs, before := epochFlags, table;
      e', epoch' := table[loc], epochFlags[loc];
      EntriesAfterWrite(table, epochFlags, loc, e, epoch);
      table := table[loc := e];
      epochFlags := epochFlags[loc := epoch];
      RecentAfter(Collected(), epochs, Collected(), epochFlags, size, loc);
      KeepsAfterWrite(before, Collected(), table, Collected(), loc, e);
      KeepsAfterWrite(before, NotRecent(Collected(), epochs), table, NotRecent(Collected(), epochFlags), loc, e);
    }

    /** An element that is there stays there and joins the current epoch. */
    ghost predicate Stays(element: Element, before: seq<Element>, epochs: seq<bool>, collected: seq<bool>)
      requires Shape() && |before| == |epochs| == |collected| == size
      reads this
    {
      exists at: nat ::
        && at < size && FoundFirst(before, element, at)
        && Entries(table, epochFlags) == Entries(before, epochs)[at := Entry(element, true)]
        && Collected() == collected[at := false]
    }

    /** The epochs after an epoch check. */
    ghost function EpochsAfter(epochs: seq<bool>, aged: bool): (r: seq<bool>)
      ensures |r| == |epochs|
    {
      if aged then seq(|epochs|, _ => false) else epochs
    }

    /**
     How the insert of an element that is not there comes out: entries displace one another,
     beginning with the new one, until one has a place that may be overwritten; after as many moves
     as the depth limit says, the one put out last is lost.
     */
    ghost predicate Comes(element: Element, before: seq<Entry<Element>>, collected: seq<bool>,
                          chain: seq<Entry<Element>>, places: seq<nat>, lost: Option<Entry<Element>>)
      requires Shape() && |before| == |collected| == size
      reads this
    {
      var n := |places|;
      && Chain(before, collected, chain, places) && chain[0] == Entry(element, true) && n <= depthLimit
      && if n == depthLimit then
           && lost == Some(chain[n])
           && Entries(table, epochFlags) == Moved(before, chain, places, n) && Collected() == collected
         else
           && lost.None?
           && exists at: nat ::
                && at < size && FirstFree(collected, chain[n].value, at)
                && Entries(table, epochFlags) == Moved(before, chain, places, n)[at := chain[n]]
                && Collected() == collected[at := false]
    }

    /**
     insert. At most one element is lost: every kept element that survived the
     epoch check and the new one are kept afterwards, except `lost`, if any.
     */
    method Insert(element: Element)
      returns (ghost aged: bool, ghost lost: Option<Entry<Element>>, ghost chain: seq<Entry<Element>>, ghost places: seq<nat>)
      requires Valid()
      modifies this`table, this`collectionFlags, this`epochFlags, this`epochHeuristicCounter
      ensures Valid()
      ensures aged <==> old(epochHeuristicCounter) == 0 && old(Recent(Collected(), epochFlags, size)) >= epochSize
      ensures epochHeuristicCounter == if old(epochHeuristicCounter) != 0 then old(epochHeuristicCounter) - 1
                                       else Wait(old(Recent(Collected(), epochFlags, size)))
      ensures IsThere(old(table), element) ==>
                lost.None? && Stays(element, old(table), EpochsAfter(old(epochFlags), aged), Aged(old(Collected()), old(epochFlags), aged))
      ensures !IsThere(old(table), element) ==>
                Comes(element, Entries(old(table), EpochsAfter(old(epochFlags), aged)), Aged(old(Collected()), old(epochFlags), aged),
                      chain, places, lost)
      // An element with a place that may be overwritten is never lost, and nothing is lost for it.
      ensures !NoneFree(Aged(old(Collected()), old(epochFlags), aged), element) ==> lost.None? && Has(element)
      ensures forall x :: (Has(x) || (lost.Some? && lost.value.value == x)) <==>
                          (x == element || Keeps(old(table), Aged(old(Collected()), old(epochFlags), aged), x))
      ensures lost.Some? && Has(lost.value.value) ==> lost.value.value == nothing
      ensures forall x :: (HasRecent(x) || lost == Some(Entry(x, true))) <==> (x == element || (!aged && old(HasRecent(x))))
    {
      hide Recent, Placed, Unique, Keeps, Bits, NotRecent, Aged, Comes, NoneFree, Wait, IsThere, FoundFirst, Locs, Entries, EpochsAfter;
      aged := EpochCheck();
      ghost var before, collected := Entries(table, epochFlags), Collected();
      assert forall x :: Has(x) <==> Keeps(old(table), collected, x);
      lost, chain, places := None, [Entry(element, true)], [];
      var at := FindElement(element);
      if at.Some? {
        Put(at.value, element, true);
        return;
      }
      NowhereElse(table, Collected(), element);
      label middle:
      lost, chain, places := Displace(element);
      forall x
        ensures (Has(x) || (lost.Some? && lost.value.value == x)) <==> (x == element || Keeps(old(table), collected, x))
      {
        assert old@middle(Has(x)) <==> Keeps(old(table), collected, x);
      }
    }

    /** The chain of displacements that an element not in the table starts. */
    method Displace(element: Element) returns (ghost lost: Option<Entry<Element>>, ghost chain: seq<Entry<Element>>, ghost places: seq<nat>)
      requires Shape() && Placed(table, Collected()) && Unique(table) && (element in table ==> element == nothing)
      modifies this`table, this`collectionFlags, this`epochFlags
      ensures Shape() && Placed(table, Collected()) && Unique(table)
      ensures Recent(Collected(), epochFlags, size) <= old(Recent(Collected(), epochFlags, size)) + 1
      ensures Comes(element, old(Entries(table, epochFlags)), old(Collected()), chain, places, lost)
      ensures !old(NoneFree(Collected(), element)) ==> lost.None?
      ensures forall x :: (Has(x) || (lost.Some? && lost.value.value == x)) <==> (x == element || old(Has(x)))
      ensures lost.Some? && Has(lost.value.value) ==> lost.value.value == nothing
      ensures forall x :: (HasRecent(x) || lost == Some(Entry(x, true))) <==> (x == element || old(HasRecent(x)))
    {
      hide Recent, Placed, Unique, Keeps, Bits, NotRecent, Moved, Link, NextLoc, NoneFree, FirstFree, Entries;
      ghost var before, collected := Entries(table, epochFlags), Collected();
      lost, chain, places := None, [Entry(element, true)], [];
      var e, lastLoc, lastEpoch := element, None, true;
      NoMoves(before, chain);
      for depth := 0 to depthLimit
        invariant Shape() && Placed(table, Collected()) && Unique(table) && (e in table ==> e == nothing)
        invariant forall x :: (Has(x) || x == e) <==> (x == element || old(Has(x)))
        invariant forall x :: HasRecent(x) || (lastEpoch && x == e) <==> x == element || old(HasRecent(x))
        invariant Recent(Collected(), epochFlags, size) + (if lastEpoch then 1 else 0) <= old(Recent(Collected(), epochFlags, size)) + 1
        invariant Collected() == collected && Chain(before, collected, chain, places) && |places| == depth
        invariant chain[0] == Entry(element, true) && chain[depth] == Entry(e, lastEpoch)
        invariant lastLoc == if depth == 0 then None else Some(places[depth - 1])
        invariant Entries(table, epochFlags) == Moved(before, chain, places, depth)
        invariant depth > 0 ==> NoneFree(collected, element)
      {
        var free := FindFree(e);
        if free.Some? {
          Put(free.value, e, lastEpoch);
          return;
        }
        var loc := NextLoc(e, lastLoc);
        ghost var next := Entries(table, epochFlags)[loc];
        NotFree(collected, e, loc);
        ChainGoesOn(before, collected, chain, places, loc, next);
        e, lastEpoch := Swap(loc, e, lastEpoch);
        lastLoc := Some(loc);
        chain, places := chain + [next], places + [loc];
      }
      lost := Some(Entry(e, lastEpoch));
      KeptIsThere(table, Collected(), e);
    }

    lemma NoMoves(before: seq<Entry<Element>>, chain: seq<Entry<Element>>)
      ensures Moved(before, chain, [], 0) == before
    {
    }

    /** contains: finds every kept element; with `erase` it gives up the place it found. */
    method Contains(e: Element, erase: bool) returns (found: bool)
      requires Valid()
      modifies this`collectionFlags
      ensures Valid()
      ensures found <==> IsThere(table, e)
      ensures found <== e in table && e != nothing
      ensures found <== old(Has(e))
      ensures forall x :: Has(x) ==> old(Has(x))
      ensures forall x :: old(Has(x)) && (x != e || !erase) ==> Has(x)
      ensures found && erase && e != nothing ==> !Has(e)
    {
      hide Recent, Bits, FoundFirst, Locs;
      var at := FindElement(e);
      found := at.Some?;
      ThereIfKept(table, Collected(), e);
      if found && erase {
        ghost var was := Collected();
        collectionFlags := BitSet(collectionFlags, at.value);
        assert Collected() == was[at.value := true];
        RecentAfter(was, epochFlags, Collected(), epochFlags, size, at.value);
        KeepsAfterErase(table, was, at.value);
      }
    }

    lemma ThereIfKept(table: seq<Element>, collected: seq<bool>, e: Element)
      requires size > 0 && |table| == |collected| == size && Placed(table, collected)
      ensures Keeps(table, collected, e) || (e in table && e != nothing) ==> IsThere(table, e)
    {
    }
  }

  /** Giving up a place removes what it kept, and nothing else, from what is kept. */
  lemma KeepsAfterErase<T(!new)>(table: seq<T>, collected: seq<bool>, at: nat)
    requires |table| == |collected| && at < |table|
    ensures forall x :: Keeps(table, collected[at := true], x) ==> Keeps(table, collected, x)
    ensures forall x :: Keeps(table, collected, x) && x != table[at] ==> Keeps(table, collected[at := true], x)
  {
    forall x | Keeps(table, collected, x) && x != table[at]
      ensures Keeps(table, collected[at := true], x)
    {
      var i :| 0 <= i < |table| && !collected[i] && table[i] == x;
      assert !collected[at := true][i];
    }
  }
}
