/**
 The UTXO cache stack: write-back caches with DIRTY and FRESH flags, each over
 another cache or over the coin database. The specification of every layer is a
 plain map from outpoint to unspent coin, read pointwise through `At`.
 */
module Coins {
  import opened Wrappers

  datatype OutPoint = OutPoint(hash: nat, n: nat)

  datatype TxOut = TxOut(value: int, script: seq<nat>) {
    // CTxOut::IsNull: a null output is how a spent coin is represented.
    predicate IsNull() { value == -1 }

    // OP_RETURN is 0x6a, MAX_SCRIPT_SIZE is 10000.
    predicate IsUnspendable() {
      (|script| > 0 && script[0] == 0x6a) || |script| > 10000
    }
  }

  datatype Coin = Coin(out: TxOut, coinBase: bool, height: nat) {
    predicate IsSpent() { out.IsNull() }

    // The heap bytes behind the script; the first 28 bytes are stored inline.
    function DynamicMemoryUsage(): nat {
      if |out.script| <= 28 then 0 else |out.script|
    }
  }

  const EMPTY_COIN := Coin(TxOut(-1, []), false, 0)

  datatype CacheEntry = CacheEntry(coin: Coin, isDirty: bool, isFresh: bool)

  type EntryMap = map<OutPoint, CacheEntry>

  /** A coin as a plain map shows it: a spent coin is no coin. */
  function Unspent(c: Coin): Option<Coin> {
    if c.IsSpent() then None else Some(c)
  }

  /** A clean entry repeats what the base says; a FRESH one exists only where the base has no unspent coin. */
  predicate FlagsOk(e: CacheEntry, baseCoin: Option<Coin>) {
    && (!e.isDirty ==> Unspent(e.coin) == baseCoin)
    && (e.isFresh ==> baseCoin.None?)
  }

  /** What key `o` shows after the DIRTY entries of `batch` are written over a map that showed `was`. */
  function Written(batch: EntryMap, o: OutPoint, was: Option<Coin>): Option<Coin> {
    if o in batch && batch[o].isDirty then Unspent(batch[o].coin) else was
  }

  // ----- memory accounting

  ghost function TotalUsage(cache: EntryMap): nat {
    if cache == map[] then 0
    else
      var o :| o in cache;
      cache[o].coin.DynamicMemoryUsage() + TotalUsage(cache - {o})
  }

  lemma {:induction false} UsageOfRemoval(cache: EntryMap, o: OutPoint)
    requires o in cache
    ensures TotalUsage(cache) == cache[o].coin.DynamicMemoryUsage() + TotalUsage(cache - {o})
    decreases |cache|
  {
    var p :| p in cache && TotalUsage(cache) == cache[p].coin.DynamicMemoryUsage() + TotalUsage(cache - {p});
    if p != o {
      assert (cache - {p}).Keys == cache.Keys - {p};
      UsageOfRemoval(cache - {p}, o);
      UsageOfRemoval(cache - {o}, p) by {
        assert (cache - {o}).Keys == cache.Keys - {o};
      }
      assert cache - {p} - {o} == cache - {o} - {p};
    }
  }

  lemma UsageOfNothing()
    ensures TotalUsage(map[]) == 0
  {
  }

  lemma UsageOfUpdate(cache: EntryMap, o: OutPoint, e: CacheEntry)
    ensures TotalUsage(cache[o := e]) == TotalUsage(cache) + e.coin.DynamicMemoryUsage()
                                         - (if o in cache then cache[o].coin.DynamicMemoryUsage() else 0)
  {
    var c := cache[o := e];
    UsageOfRemoval(c, o);
    assert c - {o} == cache - {o};
    if o in cache {
      UsageOfRemoval(cache, o);
    } else {
      assert cache - {o} == cache;
    }
  }

  // ----- entries

  function EntryAt(m: EntryMap, o: OutPoint): Option<CacheEntry> {
    if o in m then Some(m[o]) else None
  }

  /** The entry after a coin is added: new to the base unless it may be there, or a change to it has yet to go down. */
  function Added(was: Option<CacheEntry>, coin: Coin, possibleOverwrite: bool): CacheEntry {
    match was
    case None => CacheEntry(coin, true, !possibleOverwrite)
    case Some(e) => CacheEntry(coin, true, e.isFresh || (!possibleOverwrite && !e.isDirty))
  }

  /** The entry after its coin is spent: gone if the base does not know the coin. */
  function SpentEntry(e: CacheEntry): Option<CacheEntry> {
    if e.isFresh then None else Some(CacheEntry(EMPTY_COIN, true, false))
  }

  /** The entry of a layer after it takes over entry `e` of a child. */
  function Merged(us: Option<CacheEntry>, e: CacheEntry): Option<CacheEntry> {
    if !e.isDirty then us
    else
      match us
      // A coin both created and spent above this layer never needs to be known here.
      case None => if e.isFresh && e.coin.IsSpent() then None else Some(e)
      // The child's FRESH flag is not copied: the spent state here may still have to go further down.
      case Some(u) => if u.isFresh && e.coin.IsSpent() then None else Some(CacheEntry(e.coin, true, u.isFresh))
  }

  // ----- the views

  type Store = map<OutPoint, Coin>

  function CoinIn(store: Store, o: OutPoint): Option<Coin> {
    if o in store then Some(store[o]) else None
  }

  /** What writing an entry makes of the database. */
  function AfterEntry(store: Store, o: OutPoint, e: CacheEntry): Store {
    if !e.isDirty then store else if e.coin.IsSpent() then store - {o} else store[o := e.coin]
  }

  /** `now` is the database `before` with all entries of `batch` written but those of `rest`. */
  ghost predicate Stored(before: Store, batch: EntryMap, rest: set<OutPoint>, now: Store) {
    forall o :: CoinIn(now, o) == if o in rest then CoinIn(before, o) else Written(batch, o, CoinIn(before, o))
  }

  lemma NoneStored(before: Store, batch: EntryMap)
    ensures Stored(before, batch, batch.Keys, before)
  {
  }

  lemma OneMoreStored(before: Store, batch: EntryMap, rest: set<OutPoint>, now: Store, o: OutPoint)
    requires Stored(before, batch, rest, now) && o in rest && o in batch
    ensures Stored(before, batch, rest - {o}, AfterEntry(now, o, batch[o]))
  {
    var now' := AfterEntry(now, o, batch[o]);
    assert CoinIn(now, o) == CoinIn(before, o);
    forall p
      ensures CoinIn(now', p) == if p in rest - {o} then CoinIn(before, p) else Written(batch, p, CoinIn(before, p))
    {
      assert p != o ==> CoinIn(now', p) == CoinIn(now, p);
    }
  }

  lemma AllStored(before: Store, batch: EntryMap, now: Store)
    requires Stored(before, batch, {}, now)
    ensures forall o :: CoinIn(now, o) == Written(batch, o, CoinIn(before, o))
  {
  }

  lemma SomeStored(before: Store, batch: EntryMap, rest: set<OutPoint>, now: Store)
    requires Stored(before, batch, rest, now) && rest <= batch.Keys
    ensures exists written: set<OutPoint> ::
              && written <= batch.Keys && |written| == |batch| - |rest|
              && forall o :: CoinIn(now, o) == if o in written then Written(batch, o, CoinIn(before, o)) else CoinIn(before, o)
  {
    var written := batch.Keys - rest;
    assert batch.Keys == written + rest;
    assert forall o :: CoinIn(now, o) == if o in written then Written(batch, o, CoinIn(before, o)) else CoinIn(before, o);
  }

  /** CCoinsViewDB: the bottom of every stack. */
  class CoinsDB {
    var store: Store
    var bestBlock: nat        // 0 when there is none
    var headBlocks: seq<nat>  // the new and the old best block while a write is under way

    /** Coins are serialized only while unspent, so the database never holds a spent one. */
    ghost predicate Valid()
      reads this`store
    {
      forall o :: o in store ==> !store[o].IsSpent()
    }

    ghost function At(o: OutPoint): Option<Coin>
      reads this`store
    {
      CoinIn(store, o)
    }

    /** The best block that an interrupted write was going for. */
    ghost function Pending(): Option<nat>
      reads this
    {
      if bestBlock == 0 && |headBlocks| == 2 then Some(headBlocks[0]) else None
    }

    /** The best block to go back to when a write is interrupted. */
    ghost function OldTip(): nat
      reads this
    {
      if bestBlock == 0 && |headBlocks| == 2 then headBlocks[1] else bestBlock
    }

    /**
     Write the DIRTY entries. An assert stops the node when the best block is null, or is not the one
     an interrupted write was going for. The entries go to disk in several batches; with `stopAfter`
     the process ends after the batch that completes so many of them.
     */
    method BatchWrite(mapCoins: EntryMap, hashBlock: nat, stopAfter: Option<nat>) returns (r: WriteResult)
      requires Valid()
      modifies this
      ensures Valid()
      ensures r == AssertFailed <==> hashBlock == 0 || (old(Pending()).Some? && old(Pending()).value != hashBlock)
      ensures r == AssertFailed ==> unchanged(this)
      ensures r == Complete ==> bestBlock == hashBlock && headBlocks == [] && forall o :: At(o) == Written(mapCoins, o, old(At(o)))
      ensures r == Stopped <==> r != AssertFailed && stopAfter.Some? && stopAfter.value < |mapCoins|
      ensures r == Stopped ==> bestBlock == 0 && headBlocks == [hashBlock, old(OldTip())] && Pending() == Some(hashBlock)
      ensures r == Stopped ==> exists written: set<OutPoint> ::
                && written <= mapCoins.Keys && |written| == stopAfter.value
                && forall o :: At(o) == if o in written then Written(mapCoins, o, old(At(o))) else old(At(o))
    {
      if hashBlock == 0 {
        return AssertFailed;
      }
      var oldTip := bestBlock;
      if oldTip == 0 && |headBlocks| == 2 {
        if headBlocks[0] != hashBlock {
          return AssertFailed;
        }
        oldTip := headBlocks[1];
      }
      bestBlock, headBlocks := 0, [hashBlock, oldTip];
      var done := WriteEntries(mapCoins, stopAfter);
      if !done {
        return Stopped;
      }
      bestBlock, headBlocks := hashBlock, [];
      return Complete;
    }

    method WriteEntries(mapCoins: EntryMap, stopAfter: Option<nat>) returns (done: bool)
      requires Valid()
      modifies this`store
      ensures Valid() && (done <==> stopAfter.None? || stopAfter.value >= |mapCoins|)
      ensures done ==> forall o :: At(o) == Written(mapCoins, o, old(At(o)))
      ensures !done ==> exists written: set<OutPoint> ::
                && written <= mapCoins.Keys && |written| == stopAfter.value
                && forall o :: At(o) == if o in written then Written(mapCoins, o, old(At(o))) else old(At(o))
    {
      hide Valid, Stored;
      var rest, count := mapCoins, 0;
      ghost var before := store;
      NoneStored(store, mapCoins);
      while rest != map[]
        invariant Valid() && rest.Keys <= mapCoins.Keys && count + |rest| == |mapCoins| && (stopAfter.Some? ==> count <= stopAfter.value)
        invariant forall o :: o in rest ==> rest[o] == mapCoins[o]
        invariant Stored(before, mapCoins, rest.Keys, store)
        decreases |rest|
      {
        if stopAfter == Some(count) {
          SomeStored(before, mapCoins, rest.Keys, store);
          return false;
        }
        var o :| o in rest;
        OneMoreStored(before, mapCoins, rest.Keys, store, o);
        WriteEntry(o, rest[o]);
        assert (rest - {o}).Keys == rest.Keys - {o};
        rest := rest - {o};
        count := count + 1;
      }
      AllStored(before, mapCoins, store);
      return true;
    }

    method WriteEntry(o: OutPoint, e: CacheEntry)
      requires Valid()
      modifies this`store
      ensures Valid() && store == AfterEntry(old(store), o, e)
    {
      if e.isDirty {
        if e.coin.IsSpent() {
          store := store - {o};
        } else {
          store := store[o := e.coin];
        }
      }
    }

    /** A write that was interrupted anywhere and is done again gives what an undisturbed one gives. */
    method WriteAgain(mapCoins: EntryMap, hashBlock: nat, stopAfter: Option<nat>) returns (r: WriteResult)
      requires Valid() && hashBlock != 0 && Pending().None?
      modifies this
      ensures Valid() && r == Complete && bestBlock == hashBlock && headBlocks == []
      ensures forall o :: At(o) == Written(mapCoins, o, old(At(o)))
    {
      r := BatchWrite(mapCoins, hashBlock, stopAfter);
      if r == Stopped {
        r := BatchWrite(mapCoins, hashBlock, None);
      }
    }
  }

  datatype WriteResult = Complete | AssertFailed | Stopped

  /** What matters about best blocks: those of a stack from the top down, and that of an interrupted write. */
  datatype Heads = HeadState(bests: seq<nat>, pending: Option<nat>)

  /** A flush straight into the database, with a null best block or another one than an interrupted write was going for. */
  ghost predicate FlushFails(h: Heads)
    requires |h.bests| >= 2
  {
    |h.bests| == 2 && (h.bests[0] == 0 || (h.pending.Some? && h.pending.value != h.bests[0]))
  }

  /** The layer below takes the best block of the top one, null or not. */
  ghost function Flushed(h: Heads): Heads
    requires |h.bests| >= 2
  {
    HeadState(h.bests[1 := h.bests[0]], if |h.bests| == 2 then None else h.pending)
  }

  /** A layer asked for its best block remembers the one below it when it has none itself. */
  ghost function Filled(s: seq<nat>): (r: seq<nat>)
    requires |s| >= 1
    ensures |r| == |s|
  {
    if |s| == 1 || s[0] != 0 then s
    else
      var below := Filled(s[1..]);
      [below[0]] + below
  }

  /** What shows for `o` once the spendable outputs of a transaction are there. */
  function WithOutputs(txid: nat, outputs: seq<TxOut>, isCoinBase: bool, height: nat, o: OutPoint, was: Option<Coin>): Option<Coin> {
    if o.hash == txid && o.n < |outputs| && !outputs[o.n].IsUnspendable() then Some(Coin(outputs[o.n], isCoinBase, height)) else was
  }

  /** `now` are the entries `was` with those of `batch` taken over that are not in `rest`. */
  ghost predicate MergedAll(was: EntryMap, batch: EntryMap, rest: EntryMap, now: EntryMap) {
    forall o :: EntryAt(now, o) == if o in batch && o !in rest then Merged(EntryAt(was, o), batch[o]) else EntryAt(was, o)
  }

  /** No FRESH flag of the batch, outside `rest`, is caught lying by an unspent entry. */
  ghost predicate Honest(was: EntryMap, batch: EntryMap, rest: EntryMap) {
    forall o :: o in batch && o !in rest && o in was && batch[o].isDirty && batch[o].isFresh ==> was[o].coin.IsSpent()
  }

  lemma HonestOneMore(was: EntryMap, batch: EntryMap, rest: EntryMap, o: OutPoint)
    requires Honest(was, batch, rest) && o in batch
    ensures (batch[o].isDirty && batch[o].isFresh && o in was ==> was[o].coin.IsSpent()) ==> Honest(was, batch, rest - {o})
    ensures !(batch[o].isDirty && batch[o].isFresh && o in was ==> was[o].coin.IsSpent()) ==> !Honest(was, batch, map[])
  {
  }

  lemma NoneMerged(was: EntryMap, batch: EntryMap)
    ensures MergedAll(was, batch, batch, was) && Honest(was, batch, batch)
  {
  }

  lemma NotYetMerged(was: EntryMap, batch: EntryMap, rest: EntryMap, now: EntryMap, o: OutPoint)
    requires MergedAll(was, batch, rest, now) && o in rest
    ensures EntryAt(now, o) == EntryAt(was, o)
  {
    hide Merged;
  }

  lemma OneMoreMerged(was: EntryMap, batch: EntryMap, rest: EntryMap, before: EntryMap, now: EntryMap, o: OutPoint)
    requires MergedAll(was, batch, rest, before) && o in rest && o in batch
    requires forall p :: p != o ==> EntryAt(now, p) == EntryAt(before, p)
    requires EntryAt(now, o) == Merged(EntryAt(was, o), batch[o])
    ensures MergedAll(was, batch, rest - {o}, now)
  {
    hide Merged;
  }

  /** CCoinsViewCache. Its base is another cache, or the database when `base` is null. */
  class CoinsViewCache {
    const db: CoinsDB
    const base: CoinsViewCache?
    ghost const Repr: set<object>

    var cacheCoins: EntryMap
    var hashBlock: nat  // 0 stands for the null hash
    var cachedCoinsUsage: int

    /** The shape of the stack; nothing here changes after construction. */
    ghost predicate Stack()
      decreases Repr
    {
      && this in Repr
      && (if base == null then Repr == {this, db}
          else base.Repr < Repr && base.Stack() && Repr == {this} + base.Repr && this !in base.Repr && base.db == db)
      && db in Repr && db as object != this
    }

    /** The coin this view shows for `o`. */
    ghost function At(o: OutPoint): Option<Coin>
      requires Stack()
      reads Repr
      decreases Repr
    {
      if o in cacheCoins then Unspent(cacheCoins[o].coin)
      else if base == null then db.At(o) else base.At(o)
    }

    /** The coin the base shows for `o`. */
    ghost function BaseAt(o: OutPoint): Option<Coin>
      requires Stack()
      reads Repr - {this}
    {
      if base == null then db.At(o) else base.At(o)
    }

    ghost function BestBlock(): nat
      requires Stack()
      reads Repr
      decreases Repr
    {
      if hashBlock != 0 then hashBlock
      else if base == null then db.bestBlock else base.BestBlock()
    }

    ghost function BaseBestBlock(): nat
      requires Stack()
      reads Repr - {this}
    {
      if base == null then db.bestBlock else base.BestBlock()
    }

    /** The best blocks remembered by the layers from this one down, with the one of the database at the end. */
    ghost function Bests(): (r: seq<nat>)
      requires Stack()
      reads Repr
      ensures |r| >= 2 && r[0] == hashBlock && (|r| == 2 <==> base == null)
      decreases Repr, 1
    {
      [hashBlock] + BaseBests()
    }

    ghost function BaseBests(): (r: seq<nat>)
      requires Stack()
      reads Repr - {this}
      ensures |r| >= 1 && (|r| == 1 <==> base == null)
      decreases Repr, 0
    {
      if base == null then [db.bestBlock] else base.Bests()
    }

    ghost function Heads(): Heads
      requires Stack()
      reads Repr
    {
      HeadState(Bests(), db.Pending())
    }

    /** Every layer's flags are right about the layer below it. */
    ghost predicate Valid()
      reads Repr
      decreases Repr
    {
      && Stack()
      && (if base == null then db.Valid() else base.Valid())
      && forall o :: o in cacheCoins ==> FlagsOk(cacheCoins[o], BaseAt(o))
    }

    ghost predicate BaseValid()
      requires Stack()
      reads Repr - {this}
    {
      if base == null then db.Valid() else base.Valid()
    }

    /** cachedCoinsUsage is exact in every layer. */
    ghost predicate UsageExact()
      requires Stack()
      reads Repr
      decreases Repr
    {
      && (base != null ==> base.UsageExact())
      && cachedCoinsUsage == TotalUsage(cacheCoins)
    }

    ghost predicate BaseUsageExact()
      requires Stack()
      reads Repr - {this}
    {
      base == null || base.UsageExact()
    }

    /** A cache over `baseIn`, or over the database when `baseIn` is null. */
    constructor (db: CoinsDB, baseIn: CoinsViewCache?)
      requires if baseIn == null then db.Valid() else baseIn.Valid() && baseIn.db == db
      ensures Valid() && fresh(this)
      ensures this.db == db && base == baseIn
      ensures (baseIn == null || baseIn.UsageExact()) ==> UsageExact()
      ensures forall o :: At(o) == BaseAt(o)
      ensures hashBlock == 0 && BestBlock() == BaseBestBlock()
    {
      this.db := db;
      base := baseIn;
      cacheCoins := map[];
      hashBlock := 0;
      cachedCoinsUsage := 0;
      Repr := {this} + (if baseIn == null then {db} else baseIn.Repr);
    }

    /** Nothing a reader of the base can observe has changed. */
    twostate predicate BaseUnchanged()
      requires Stack()
      reads Repr - {this}
    {
      && (forall o :: BaseAt(o) == old(BaseAt(o)))
      && BaseBestBlock() == old(BaseBestBlock())
      && (old(BaseValid()) ==> BaseValid())
      && (old(BaseUsageExact()) ==> BaseUsageExact())
    }

    /** Nothing a reader of this view can observe has changed. */
    twostate predicate Unchanged()
      requires Stack()
      reads Repr
    {
      && (forall o :: At(o) == old(At(o)))
      && BestBlock() == old(BestBlock())
      && (old(UsageExact()) ==> UsageExact())
    }

    /** An unchanged base under an unchanged layer is an unchanged view. */
    twostate lemma LayerKeepsView()
      requires old(Valid()) && BaseUnchanged()
      requires unchanged(this)
      ensures Valid() && Unchanged()
    {
      forall o
        ensures At(o) == old(At(o))
      {
        assert BaseAt(o) == old(BaseAt(o));
      }
    }

    /** The FRESH flags of a batch are right about this view. */
    ghost predicate FreshIsTruthful(batch: EntryMap)
      requires Stack()
      reads Repr
    {
      forall o :: o in batch && batch[o].isDirty && batch[o].isFresh ==> At(o).None?
    }

    /** Write one entry of this layer, charging its memory. */
    method PutEntry(o: OutPoint, e: CacheEntry)
      requires Stack()
      modifies this
      ensures old(Valid()) && FlagsOk(e, BaseAt(o)) ==> Valid()
      ensures cacheCoins == old(cacheCoins)[o := e] && hashBlock == old(hashBlock) && Heads() == old(Heads())
      ensures forall p :: At(p) == if p == o then Unspent(e.coin) else old(At(p))
      ensures BestBlock() == old(BestBlock())
      ensures old(UsageExact()) ==> UsageExact()
    {
      UsageOfUpdate(cacheCoins, o, e);
      if o in cacheCoins {
        cachedCoinsUsage := cachedCoinsUsage - cacheCoins[o].coin.DynamicMemoryUsage();
      }
      cacheCoins := cacheCoins[o := e];
      cachedCoinsUsage := cachedCoinsUsage + e.coin.DynamicMemoryUsage();
    }

    /** Erase one entry of this layer, giving its memory back. */
    method EraseEntry(o: OutPoint)
      requires Stack() && o in cacheCoins
      modifies this
      ensures old(Valid()) ==> Valid()
      ensures cacheCoins == old(cacheCoins) - {o} && hashBlock == old(hashBlock) && Heads() == old(Heads())
      ensures forall p :: At(p) == if p == o then BaseAt(o) else old(At(p))
      ensures BestBlock() == old(BestBlock())
      ensures old(UsageExact()) ==> UsageExact()
    {
      UsageOfRemoval(cacheCoins, o);
      cachedCoinsUsage := cachedCoinsUsage - cacheCoins[o].coin.DynamicMemoryUsage();
      cacheCoins := cacheCoins - {o};
    }

    method BaseGetCoin(o: OutPoint) returns (found: bool, coin: Coin)
      requires Valid()
      modifies Repr - {this}
      ensures Valid() && Unchanged() && BaseUnchanged() && Heads() == old(Heads())
      ensures (if found then Some(coin) else None) == BaseAt(o)
      ensures found ==> !coin.IsSpent()
      decreases Repr, 0
    {
      if base == null {
        found := o in db.store;
        coin := if found then db.store[o] else EMPTY_COIN;
      } else {
        found, coin := base.GetCoin(o);
        assert BaseUnchanged() && BaseBests() == old(BaseBests());
        LayerKeepsView();
      }
    }

    /** The entries after `o` has been looked up. */
    ghost function Fetched(o: OutPoint): EntryMap
      requires Stack()
      reads Repr
    {
      if o in cacheCoins || BaseAt(o).None? then cacheCoins else cacheCoins[o := CacheEntry(BaseAt(o).value, false, false)]
    }

    /** Find the entry for `o`, pulling it up from the base when this layer has none. */
    method FetchCoin(o: OutPoint) returns (found: bool)
      requires Valid()
      modifies Repr
      ensures Valid() && Unchanged() && BaseUnchanged() && Heads() == old(Heads())
      ensures found <==> o in cacheCoins
      ensures found <==> o in old(cacheCoins) || old(At(o)).Some?
      ensures cacheCoins == old(Fetched(o))
      decreases Repr, 1
    {
      if o in cacheCoins {
        return true;
      }
      var have, tmp := BaseGetCoin(o);
      if !have {
        return false;
      }
      PutEntry(o, CacheEntry(tmp, false, tmp.IsSpent()));
      return true;
    }

    method GetCoin(o: OutPoint) returns (found: bool, coin: Coin)
      requires Valid()
      modifies Repr
      ensures Valid() && Unchanged() && BaseUnchanged() && Heads() == old(Heads())
      ensures (if found then Some(coin) else None) == At(o)
      ensures found ==> !coin.IsSpent()
      ensures cacheCoins == old(Fetched(o))
      decreases Repr, 2
    {
      var it := FetchCoin(o);
      if it {
        coin := cacheCoins[o].coin;
        return !coin.IsSpent(), coin;
      }
      return false, EMPTY_COIN;
    }

    /** HaveCoinInCache asks the same question as HaveCoin without touching the base. */
    method HaveCoinInCache(o: OutPoint) returns (found: bool)
      requires Valid()
      ensures found ==> At(o).Some?
      ensures o in cacheCoins ==> (found <==> At(o).Some?)
    {
      return o in cacheCoins && !cacheCoins[o].coin.IsSpent();
    }

    /**
     Add a coin. A caller that rules out an overwrite must be right about the base;
     an overwrite of an unspent entry of this very layer is caught, and reported by `threw`.
     */
    method AddCoin(o: OutPoint, coin: Coin, possibleOverwrite: bool) returns (threw: bool)
      requires Valid()
      requires !coin.IsSpent()
      requires possibleOverwrite || o in cacheCoins || coin.out.IsUnspendable() || BaseAt(o).None?
      modifies this
      ensures Valid() && BestBlock() == old(BestBlock()) && Heads() == old(Heads())
      ensures threw <==> !coin.out.IsUnspendable() && !possibleOverwrite && o in old(cacheCoins) && old(At(o)).Some?
      ensures forall p :: At(p) == if p == o && !threw && !coin.out.IsUnspendable() then Some(coin) else old(At(p))
      ensures cacheCoins == if threw || coin.out.IsUnspendable() then old(cacheCoins)
                            else old(cacheCoins)[o := Added(EntryAt(old(cacheCoins), o), coin, possibleOverwrite)]
      ensures old(UsageExact()) ==>
                (UsageExact() <==> !threw || old(cacheCoins)[o].coin.DynamicMemoryUsage() == 0)
    {
      if coin.out.IsUnspendable() {
        return false;
      }
      var inserted := o !in cacheCoins;
      var entry := if inserted then CacheEntry(EMPTY_COIN, false, false) else cacheCoins[o];
      var markFresh := false;
      if !possibleOverwrite {
        if !entry.coin.IsSpent() {
          // The memory of the old coin has been given back by the time of the throw.
          cachedCoinsUsage := cachedCoinsUsage - entry.coin.DynamicMemoryUsage();
          return true;
        }
        markFresh := !entry.isDirty;
      }
      PutEntry(o, CacheEntry(coin, true, entry.isFresh || markFresh));
      return false;
    }

    /** Spend a coin; `moved` is the coin handed out when the call returns true. */
    method SpendCoin(o: OutPoint) returns (spent: bool, moved: Coin)
      requires Valid()
      modifies Repr
      ensures Valid() && BaseUnchanged() && BestBlock() == old(BestBlock()) && Heads() == old(Heads())
      ensures forall p :: At(p) == if p == o then None else old(At(p))
      ensures spent <==> o in old(cacheCoins) || old(At(o)).Some?
      ensures spent ==> Unspent(moved) == old(At(o))
      ensures !spent ==> cacheCoins == old(cacheCoins)
      ensures spent ==> o in old(Fetched(o)) && (forall p :: p != o ==> EntryAt(cacheCoins, p) == EntryAt(old(cacheCoins), p))
      ensures spent ==> EntryAt(cacheCoins, o) == SpentEntry(old(Fetched(o))[o]) && moved == old(Fetched(o))[o].coin
      ensures old(UsageExact()) ==> UsageExact()
    {
      var it := FetchCoin(o);
      if !it {
        return false, EMPTY_COIN;
      }
      var entry := cacheCoins[o];
      if entry.isFresh {
        EraseEntry(o);
      } else {
        PutEntry(o, CacheEntry(EMPTY_COIN, true, false));
      }
      return true, entry.coin;
    }

    /** Drop an entry that says nothing the base does not say. */
    method Uncache(o: OutPoint)
      requires Valid()
      modifies this
      ensures Valid() && Unchanged() && Heads() == old(Heads())
      ensures cacheCoins == if o in old(cacheCoins) && !old(cacheCoins)[o].isDirty && !old(cacheCoins)[o].isFresh
                            then old(cacheCoins) - {o} else old(cacheCoins)
    {
      if o in cacheCoins && !cacheCoins[o].isDirty && !cacheCoins[o].isFresh {
        EraseEntry(o);
      }
    }

    method BaseGetBestBlock() returns (h: nat)
      requires Valid()
      modifies Repr - {this}
      ensures Valid() && Unchanged() && BaseUnchanged()
      ensures h == BaseBestBlock() && h == BaseBests()[0] && BaseBests() == Filled(old(BaseBests())) && db.Pending() == old(db.Pending())
      decreases Repr, 0
    {
      if base == null {
        h := db.bestBlock;
      } else {
        h := base.GetBestBlock();
        assert BaseUnchanged();
        LayerKeepsView();
      }
    }

    method GetBestBlock() returns (h: nat)
      requires Valid()
      modifies Repr
      ensures Valid() && Unchanged() && BaseUnchanged()
      ensures h == BestBlock() && hashBlock == h
      ensures Bests() == Filled(old(Bests())) && db.Pending() == old(db.Pending())
      decreases Repr, 1
    {
      if hashBlock == 0 {
        var b := BaseGetBestBlock();
        hashBlock := b;
      }
      return hashBlock;
    }

    method SetBestBlock(h: nat)
      requires Valid()
      modifies this`hashBlock
      ensures Valid() && hashBlock == h && Heads() == HeadState(old(Bests())[0 := h], old(db.Pending()))
      ensures forall o :: At(o) == old(At(o))
      ensures old(UsageExact()) ==> UsageExact()
      ensures BestBlock() == if h != 0 then h else BaseBestBlock()
    {
      hashBlock := h;
    }

    /** Take over one entry of a child; `ok` is false when its FRESH flag is caught lying. */
    method MergeEntry(o: OutPoint, e: CacheEntry) returns (ok: bool)
      requires Stack()
      modifies this
      ensures ok <==> !(e.isDirty && e.isFresh && o in old(cacheCoins) && !old(cacheCoins)[o].coin.IsSpent())
      ensures hashBlock == old(hashBlock)
      ensures forall p :: p != o ==> EntryAt(cacheCoins, p) == EntryAt(old(cacheCoins), p)
      ensures EntryAt(cacheCoins, o) == if ok then Merged(EntryAt(old(cacheCoins), o), e) else EntryAt(old(cacheCoins), o)
      ensures old(Valid()) && (e.isDirty && e.isFresh ==> old(At(o)).None?) ==> Valid()
      ensures old(Valid()) && (e.isDirty && e.isFresh ==> old(At(o)).None?) ==>
                forall p :: At(p) == if p == o && e.isDirty then Unspent(e.coin) else old(At(p))
      ensures old(UsageExact()) ==> UsageExact()
    {
      if !e.isDirty {
        return true;
      }
      if o !in cacheCoins {
        // A coin both created and spent above this layer never needs to be known here.
        if !(e.isFresh && e.coin.IsSpent()) {
          PutEntry(o, CacheEntry(e.coin, true, e.isFresh));
        }
        return true;
      }
      var us := cacheCoins[o];
      if e.isFresh && !us.coin.IsSpent() {
        return false;
      }
      if us.isFresh && e.coin.IsSpent() {
        EraseEntry(o);
      } else {
        // The child's FRESH flag is not copied: the spent state here may still have to go further down.
        PutEntry(o, CacheEntry(e.coin, true, us.isFresh));
      }
      return true;
    }

    /** Take over the entries of a child one by one, up to the first FRESH flag caught lying. */
    method MergeAll(mapCoins: EntryMap) returns (ok: bool)
      requires Valid()
      modifies this
      ensures hashBlock == old(hashBlock)
      ensures ok <==> Honest(old(cacheCoins), mapCoins, map[])
      ensures ok ==> MergedAll(old(cacheCoins), mapCoins, map[], cacheCoins)
      ensures old(FreshIsTruthful(mapCoins)) ==> ok && Valid()
      ensures old(FreshIsTruthful(mapCoins)) ==> forall o :: At(o) == Written(mapCoins, o, old(At(o)))
      ensures old(UsageExact()) ==> UsageExact()
    {
      FreshIsSpent(mapCoins);
      hide Valid, UsageExact, At, FlagsOk, TotalUsage, Merged, MergedAll, Honest;
      var rest := mapCoins;
      NoneMerged(cacheCoins, mapCoins);
      ghost var truthful := FreshIsTruthful(mapCoins);
      while rest != map[]
        invariant hashBlock == old(hashBlock)
        invariant forall o :: o in rest ==> o in mapCoins && rest[o] == mapCoins[o]
        invariant MergedAll(old(cacheCoins), mapCoins, rest, cacheCoins)
        invariant Honest(old(cacheCoins), mapCoins, rest)
        invariant truthful ==> Valid()
        invariant truthful ==> forall o :: At(o) == if o in rest then old(At(o)) else Written(mapCoins, o, old(At(o)))
        invariant old(UsageExact()) ==> UsageExact()
        decreases |rest|
      {
        var o :| o in rest;
        var e := rest[o];
        assert (rest - {o}).Keys == rest.Keys - {o};
        NotYetMerged(old(cacheCoins), mapCoins, rest, cacheCoins, o);
        HonestOneMore(old(cacheCoins), mapCoins, rest, o);
        ghost var before := cacheCoins;
        var merged := MergeEntry(o, e);
        if !merged {
          return false;
        }
        OneMoreMerged(old(cacheCoins), mapCoins, rest, before, cacheCoins, o);
        rest := rest - {o};
      }
      return true;
    }

    /** A truthful FRESH flag meets no unspent entry of this layer. */
    lemma FreshIsSpent(mapCoins: EntryMap)
      requires Valid()
      ensures Stack()
      ensures FreshIsTruthful(mapCoins) ==> Honest(cacheCoins, mapCoins, map[])
    {
    }

    /**
     Take over the DIRTY entries of a child. The child's FRESH flags must be right about this
     view; a wrong one that hits an unspent entry of this layer is caught and reported by `ok`.
     */
    method BatchWrite(mapCoins: EntryMap, hashBlockIn: nat) returns (ok: bool)
      requires Valid()
      modifies this
      ensures ok <==> Honest(old(cacheCoins), mapCoins, map[])
      ensures hashBlock == (if ok then hashBlockIn else old(hashBlock)) && (ok ==> MergedAll(old(cacheCoins), mapCoins, map[], cacheCoins))
      ensures old(FreshIsTruthful(mapCoins)) ==> ok && Valid()
      ensures old(FreshIsTruthful(mapCoins)) ==> forall o :: At(o) == Written(mapCoins, o, old(At(o)))
      ensures old(UsageExact()) ==> UsageExact()
    {
      hide TotalUsage, FlagsOk;
      ok := MergeAll(mapCoins);
      if ok {
        hashBlock := hashBlockIn;
      }
    }

    /**
     Hand every change of this layer to its base and start over empty. The database, unlike a
     cache, does not take any best block: `ok` is false when its asserts stop the node.
     */
    method Flush() returns (ok: bool)
      requires Valid()
      modifies Repr
      ensures Valid() && hashBlock == old(hashBlock)
      ensures forall o :: At(o) == old(At(o))
      ensures old(UsageExact()) ==> UsageExact()
      ensures ok <==> !FlushFails(old(Heads()))
      ensures ok ==> Heads() == Flushed(old(Heads()))
      ensures ok ==> cacheCoins == map[] && forall o :: BaseAt(o) == old(At(o))
      ensures ok && base != null ==> MergedAll(old(base.cacheCoins), old(cacheCoins), map[], base.cacheCoins)
      ensures !ok ==> unchanged(Repr)
      // A cache takes a null hashBlock, which hides the best block it had itself.
      ensures BestBlock() == if old(hashBlock) != 0 then old(hashBlock)
                             else if base == null then old(db.bestBlock) else old(base.BaseBestBlock())
    {
      hide TotalUsage;
      UsageOfNothing();
      ok := WriteToBase();
      if !ok {
        return;
      }
      cacheCoins := map[];
      cachedCoinsUsage := 0;
      assert Bests() == old(Bests())[1 := hashBlock];
    }

    /** Hand the entries of this layer and its best block to the base. */
    method WriteToBase() returns (ok: bool)
      requires Valid()
      modifies Repr - {this}
      ensures ok <==> !FlushFails(old(Heads()))
      ensures !ok ==> unchanged(Repr)
      ensures ok ==> BaseValid() && forall o :: BaseAt(o) == old(At(o))
      ensures ok ==> BaseBests() == old(BaseBests())[0 := hashBlock]
      ensures ok ==> db.Pending() == if base == null then None else old(db.Pending())
      ensures ok ==> BaseBestBlock() == if hashBlock != 0 || base == null then hashBlock else old(base.BaseBestBlock())
      ensures old(BaseUsageExact()) ==> BaseUsageExact()
      ensures ok && base != null ==> MergedAll(old(base.cacheCoins), cacheCoins, map[], base.cacheCoins)
    {
      hide TotalUsage;
      assert forall o :: o in cacheCoins ==> FlagsOk(cacheCoins[o], BaseAt(o));
      assert forall o :: Written(cacheCoins, o, BaseAt(o)) == At(o);
      if base == null {
        var r := db.BatchWrite(cacheCoins, hashBlock, None);
        ok := r == Complete;
      } else {
        assert base.FreshIsTruthful(cacheCoins);
        ok := base.BatchWrite(cacheCoins, hashBlock);
        assert base.BaseBests() == old(base.BaseBests()) && db.Pending() == old(db.Pending());
      }
    }

    /** Add all outputs of a transaction; output `i` of `txid` becomes the coin at (txid, i). */
    method AddCoins(txid: nat, outputs: seq<TxOut>, isCoinBase: bool, height: nat, check: bool) returns (threw: bool)
      requires Valid()
      requires forall i :: 0 <= i < |outputs| ==> !outputs[i].IsNull()
      requires check || isCoinBase || forall i: nat :: i < |outputs| ==> At(OutPoint(txid, i)).None?
      modifies Repr
      ensures Valid() && !threw && Heads() == old(Heads())
      ensures forall o :: At(o) == WithOutputs(txid, outputs, isCoinBase, height, o, old(At(o)))
      ensures old(UsageExact()) ==> UsageExact()
    {
      assert Stack();
      hide Valid, UsageExact, At, Heads;
      threw := false;
      for i := 0 to |outputs|
        invariant Valid() && !threw && Heads() == old(Heads())
        invariant forall o :: At(o) == WithOutputs(txid, outputs[..i], isCoinBase, height, o, old(At(o)))
        invariant old(UsageExact()) ==> UsageExact()
      {
        threw := AddOutput(OutPoint(txid, i), Coin(outputs[i], isCoinBase, height), check);
      }
    }

    /** One turn of the loop of AddCoins. */
    method AddOutput(o: OutPoint, coin: Coin, check: bool) returns (threw: bool)
      requires Valid() && !coin.IsSpent()
      requires check || coin.coinBase || At(o).None?
      modifies Repr
      ensures Valid() && !threw && Heads() == old(Heads())
      ensures forall p :: At(p) == if p == o && !coin.out.IsUnspendable() then Some(coin) else old(At(p))
      ensures old(UsageExact()) ==> UsageExact()
      ensures var looked := if check then old(Fetched(o)) else old(cacheCoins);
              cacheCoins == if coin.out.IsUnspendable() then looked
                            else looked[o := Added(EntryAt(looked, o), coin, if check then old(At(o)).Some? else coin.coinBase)]
    {
      var overwrite := coin.coinBase;
      if check {
        var have, _ := GetCoin(o);
        overwrite := have;
      }
      threw := AddCoin(o, coin, overwrite);
    }
  }

  // ----- whole runs

  datatype Op =
    | Get(o: OutPoint)
    | Add(o: OutPoint, coin: Coin, possibleOverwrite: bool)
    | AddTx(txid: nat, outputs: seq<TxOut>, isCoinBase: bool, height: nat, check: bool)
    | Spend(o: OutPoint)
    | Drop(o: OutPoint)
    | AskBest
    | SetBest(hashBlock: nat)
    | FlushTop

  /** What a plain map that showed `was` for `o` shows after `op`. */
  function MapStep(op: Op, o: OutPoint, was: Option<Coin>): Option<Coin> {
    match op
    case Add(p, c, _) => if p == o && !c.out.IsUnspendable() then Some(c) else was
    case AddTx(txid, outputs, isCoinBase, height, _) =>
      WithOutputs(txid, outputs, isCoinBase, height, o, was)
    case Spend(p) => if p == o then None else was
    case _ => was
  }

  type View = OutPoint -> Option<Coin>

  function MapAfter(ops: seq<Op>, start: View): View {
    if ops == [] then start else Stepped(ops[|ops| - 1], MapAfter(ops[..|ops| - 1], start))
  }

  function Stepped(op: Op, was: View): View {
    o => MapStep(op, o, was(o))
  }

  ghost predicate Shows(top: CoinsViewCache, view: View)
    requires top.Stack()
    reads top.Repr
  {
    forall o :: top.At(o) == view(o)
  }

  ghost function HeadStep(op: Op, h: Heads): (r: Heads)
    requires |h.bests| >= 2
    ensures |r.bests| == |h.bests|
  {
    match op
    case AskBest => h.(bests := Filled(h.bests))
    case SetBest(b) => h.(bests := h.bests[0 := b])
    case FlushTop => Flushed(h)
    case _ => h
  }

  ghost function HeadsAfter(ops: seq<Op>, h: Heads): (r: Heads)
    requires |h.bests| >= 2
    ensures |r.bests| == |h.bests|
  {
    if ops == [] then h else HeadStep(ops[|ops| - 1], HeadsAfter(ops[..|ops| - 1], h))
  }

  /** Operation `i` is a flush that the database refuses. */
  ghost predicate FailsAt(ops: seq<Op>, i: nat, h: Heads)
    requires i < |ops| && |h.bests| >= 2
  {
    ops[i].FlushTop? && FlushFails(HeadsAfter(ops[..i], h))
  }

  /** What the code demands of whoever adds coins: no spent ones, and overwrites ruled out only where the map has none. */
  ghost predicate Truthful(op: Op, was: View) {
    match op
    case Add(o, c, possibleOverwrite) => !c.IsSpent() && (possibleOverwrite || was(o).None?)
    case AddTx(txid, outputs, isCoinBase, _, check) =>
      && (forall i :: 0 <= i < |outputs| ==> !outputs[i].IsNull())
      && (check || isCoinBase || forall i: nat :: i < |outputs| ==> was(OutPoint(txid, i)).None?)
    case _ => true
  }

  ghost predicate TruthfulRun(ops: seq<Op>, start: View) {
    forall i :: 0 <= i < |ops| ==> Truthful(ops[i], MapAfter(ops[..i], start))
  }

  ghost predicate NoneFails(ops: seq<Op>, h: Heads)
    requires |h.bests| >= 2
  {
    forall i: nat :: i < |ops| ==> !FailsAt(ops, i, h)
  }

  lemma OneMore(ops: seq<Op>, i: nat, start: View, h: Heads)
    requires i < |ops| && |h.bests| >= 2 && TruthfulRun(ops, start)
    ensures Truthful(ops[i], MapAfter(ops[..i], start))
    ensures MapAfter(ops[..i + 1], start) == Stepped(ops[i], MapAfter(ops[..i], start))
    ensures HeadsAfter(ops[..i + 1], h) == HeadStep(ops[i], HeadsAfter(ops[..i], h))
    ensures NoneFails(ops[..i], h) && !FailsAt(ops, i, h) ==> NoneFails(ops[..i + 1], h)
  {
    hide HeadStep, Stepped, Truthful, FlushFails;
    var next := ops[..i + 1];
    assert next[..i] == ops[..i];
    if NoneFails(ops[..i], h) && !FailsAt(ops, i, h) {
      forall j: nat | j <= i
        ensures !FailsAt(next, j, h)
      {
        assert next[..j] == ops[..j];
        if j < i {
          assert !FailsAt(ops[..i], j, h) && ops[..i][..j] == ops[..j];
        }
      }
    }
  }

  /** With a best block to begin with, none taken away and no write interrupted, no flush is refused. */
  lemma {:induction false} BestBlockStays(ops: seq<Op>, h: Heads)
    requires |h.bests| >= 2 && h.bests[0] != 0 && h.pending.None?
    requires forall i :: 0 <= i < |ops| && ops[i].SetBest? ==> ops[i].hashBlock != 0
    ensures HeadsAfter(ops, h).bests[0] != 0 && HeadsAfter(ops, h).pending.None?
    ensures NoneFails(ops, h)
  {
    if ops != [] {
      var init := ops[..|ops| - 1];
      BestBlockStays(init, h);
      forall i: nat | i < |ops|
        ensures !FailsAt(ops, i, h)
      {
        if i < |init| {
          assert ops[..i] == init[..i] && !FailsAt(init, i, h);
        }
      }
    }
  }

  /** One operation on a cache is the same operation on a plain map. */
  method Step(top: CoinsViewCache, op: Op, ghost was: View) returns (ok: bool)
    requires top.Valid() && Shows(top, was) && Truthful(op, was)
    modifies top.Repr
    ensures top.Valid()
    ensures ok <==> !(op.FlushTop? && FlushFails(old(top.Heads())))
    ensures Shows(top, if ok then Stepped(op, was) else was)
    ensures top.Heads() == if ok then HeadStep(op, old(top.Heads())) else old(top.Heads())
    ensures old(top.UsageExact()) ==> top.UsageExact()
  {
    hide TotalUsage;
    ok := true;
    match op
    case Get(o) =>
      var _, _ := top.GetCoin(o);
    case Add(o, c, possibleOverwrite) =>
      var threw := top.AddCoin(o, c, possibleOverwrite);
      ok := !threw;
    case AddTx(txid, outputs, isCoinBase, height, check) =>
      var threw := top.AddCoins(txid, outputs, isCoinBase, height, check);
      ok := !threw;
    case Spend(o) =>
      var _, _ := top.SpendCoin(o);
    case Drop(o) =>
      top.Uncache(o);
    case AskBest =>
      var _ := top.GetBestBlock();
    case SetBest(h) =>
      top.SetBestBlock(h);
    case FlushTop =>
      ok := top.Flush();
  }

  /**
   Any run on a cache over any stack is the same run on a plain map, and no FRESH flag is caught
   lying, as long as whoever adds coins is right about that map. The run does all of `ops`, unless
   the database refuses a flush; it stops there.
   */
  method Replay(top: CoinsViewCache, ops: seq<Op>, ghost start: View) returns (done: nat)
    requires top.Valid() && Shows(top, start)
    requires TruthfulRun(ops, start)
    modifies top.Repr
    ensures top.Valid() && done <= |ops|
    ensures Shows(top, MapAfter(ops[..done], start))
    ensures top.Heads() == HeadsAfter(ops[..done], old(top.Heads()))
    ensures old(top.UsageExact()) ==> top.UsageExact()
    ensures NoneFails(ops[..done], old(top.Heads()))
    ensures done < |ops| ==> FailsAt(ops, done, old(top.Heads()))
  {
    assert top.Stack();
    assert HeadsAfter([], top.Heads()) == top.Heads() && MapAfter([], start) == start;
    assert NoneFails([], top.Heads());
    hide top.Valid, top.UsageExact, top.Heads, Shows, Stepped, HeadStep, HeadsAfter, MapAfter;
    hide Truthful, TruthfulRun, NoneFails, FlushFails;
    done := 0;
    while done < |ops|
      invariant top.Valid() && done <= |ops|
      invariant Shows(top, MapAfter(ops[..done], start))
      invariant top.Heads() == HeadsAfter(ops[..done], old(top.Heads()))
      invariant old(top.UsageExact()) ==> top.UsageExact()
      invariant NoneFails(ops[..done], old(top.Heads()))
    {
      OneMore(ops, done, start, old(top.Heads()));
      var ok := Step(top, ops[done], MapAfter(ops[..done], start));
      if !ok {
        return;
      }
      done := done + 1;
    }
  }

  /** A new cache has a null best block, so flushing it at once into the database stops the node. */
  method FlushOfNewCache(db: CoinsDB) returns (done: nat)
    requires db.Valid()
    modifies db
    ensures done == 0
  {
    var cache := new CoinsViewCache(db, null);
    ghost var start := CoinsOf(db.store);
    assert FailsAt([FlushTop], 0, cache.Heads());
    done := Replay(cache, [FlushTop], start);
    assert [FlushTop][..1] == [FlushTop];
  }

  ghost function CoinsOf(store: map<OutPoint, Coin>): View {
    o => if o in store then Some(store[o]) else None
  }
}
