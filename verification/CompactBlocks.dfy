/**
 Compact blocks: placing prefilled transactions, matching short ids against
 known transactions, filling in the rest, and the differential coding of the
 list of missing ones.
 */
module CompactBlocks {
  import opened Wrappers

  datatype Tx = Tx(txid: nat, wtxid: nat, isNull: bool)

  /** A transaction the receiver already has, with the hash that short ids are made from. */
  datatype Known = Known(hash: nat, tx: Tx)

  datatype Prefilled = Prefilled(index: nat, tx: Tx)

  datatype CompactBlock = CompactBlock(headerIsNull: bool, shortIds: seq<nat>, prefilled: seq<Prefilled>) {
    function BlockTxCount(): nat {
      |shortIds| + |prefilled|
    }
  }

  /** What CheckBlock says of the block: fine, wrong in a way that another transaction may mend, or wrong. */
  datatype CheckOutcome = Good | Corrupt | Bad

  datatype ReadStatus = Ok | Invalid | Failed | CheckBlockFailed

  const MAX_TRANSACTIONS: nat := 4000000 / (4 * 10)  // MAX_BLOCK_WEIGHT / MIN_SERIALIZABLE_TRANSACTION_WEIGHT

  type Slots = seq<Option<Tx>>

  // ----- prefilled transactions

  /** Where the i-th prefilled transaction goes: its index counts from the one before. */
  function Position(p: seq<Prefilled>, i: nat): nat
    requires i < |p|
  {
    p[i].index + if i == 0 then 0 else Position(p, i - 1) + 1
  }

  predicate PrefilledOk(c: CompactBlock, i: nat)
    requires i < |c.prefilled|
  {
    !c.prefilled[i].tx.isNull && Position(c.prefilled, i) <= 0xffff && Position(c.prefilled, i) <= |c.shortIds| + i
  }

  lemma {:induction false} PositionsIncrease(p: seq<Prefilled>, i: nat, j: nat)
    requires i < j < |p|
    ensures Position(p, i) < Position(p, j)
  {
    if i < j - 1 {
      PositionsIncrease(p, i, j - 1);
    }
  }

  /** The number of filled slots among the first `k`. */
  ghost function Filled(s: Slots, k: nat): (r: nat)
    requires k <= |s|
    ensures r <= k
  {
    if k == 0 then 0 else Filled(s, k - 1) + if s[k - 1].Some? then 1 else 0
  }

  lemma {:induction false} FilledAfter(s: Slots, p: nat, x: Option<Tx>, k: nat)
    requires p < |s| && k <= |s|
    ensures Filled(s[p := x], k)
         == Filled(s, k) + if p < k then (if x.Some? then 1 else 0) - (if s[p].Some? then 1 else 0) else 0
  {
    if k > 0 {
      FilledAfter(s, p, x, k - 1);
    }
  }

  lemma {:induction false} FilledNone(s: Slots, k: nat)
    requires k <= |s| && forall i :: 0 <= i < k ==> s[i].None?
    ensures Filled(s, k) == 0
  {
    if k > 0 {
      FilledNone(s, k - 1);
    }
  }

  lemma {:induction false} FilledAtMost(s: Slots, j: nat, k: nat)
    requires j <= k <= |s|
    ensures Filled(s, j) <= Filled(s, k) <= Filled(s, j) + k - j
  {
    if j < k {
      FilledAtMost(s, j, k - 1);
    }
  }

  ghost predicate TakenByFirst(c: CompactBlock, n: nat, k: nat)
    requires n <= |c.prefilled|
  {
    exists i :: 0 <= i < n && Position(c.prefilled, i) == k
  }

  ghost predicate TakenByPrefilled(c: CompactBlock, k: nat) {
    TakenByFirst(c, |c.prefilled|, k)
  }

  /** The first `n` prefilled transactions are in place, and nothing else is. */
  ghost predicate PrefilledPlaced(s: Slots, c: CompactBlock, n: nat): (r: bool)
    requires n <= |c.prefilled|
    ensures r ==> |s| == c.BlockTxCount()
  {
    && |s| == c.BlockTxCount()
    && (forall i :: 0 <= i < n ==> Position(c.prefilled, i) < |s| && s[Position(c.prefilled, i)] == Some(c.prefilled[i].tx))
    && (forall k :: 0 <= k < |s| && s[k].Some? ==> TakenByFirst(c, n, k))
    && Filled(s, |s|) == n
  }

  /** `k` is the i-th free slot, counting from zero. */
  ghost predicate IsFreeSlot(s: Slots, k: nat, i: nat) {
    k < |s| && s[k].None? && Filled(s, k) == k - i
  }

  lemma FreeSlotsIncrease(s: Slots, k: nat, i: nat, k': nat, i': nat)
    requires IsFreeSlot(s, k, i) && IsFreeSlot(s, k', i') && i < i'
    ensures k < k'
  {
    if k' <= k {
      FilledAtMost(s, k', k);
    }
  }

  ghost predicate Distinct(s: seq<nat>) {
    forall i, j :: 0 <= i < j < |s| ==> s[i] != s[j]
  }

  ghost function Elements(s: seq<nat>): set<nat> {
    set x | x in s
  }

  lemma {:induction false} SizeTellsDistinct(s: seq<nat>)
    ensures |Elements(s)| <= |s|
    ensures |Elements(s)| == |s| <==> Distinct(s)
  {
    if |s| > 0 {
      var t, x := s[..|s| - 1], s[|s| - 1];
      SizeTellsDistinct(t);
      assert s == t + [x];
      assert Elements(s) == Elements(t) + {x};
      if x in t {
        var i :| 0 <= i < |t| && t[i] == x;
        assert s[i] == s[|s| - 1];
        assert Elements(s) == Elements(t);
      } else {
        assert Distinct(t) ==> Distinct(s);
        assert Distinct(s) ==> Distinct(t) by {
          assert forall i, j :: 0 <= i < j < |t| ==> s[i] == t[i] && s[j] == t[j];
        }
      }
    }
  }

  // ----- matching short ids

  predicate Matches(short: nat -> nat, e: Known, id: nat) {
    short(e.hash) == id
  }

  /**
   Of the transactions `seen`, the first `fromPool` of them in the pool, number `j` is the first with
   short id `id`, and no other one disputes it: a second one of the pool would, and so would an extra
   one that is another transaction.
   */
  ghost predicate Undisputed(seen: seq<Known>, fromPool: nat, id: nat, short: nat -> nat, j: int): (r: bool)
    ensures r ==> 0 <= j < |seen|
  {
    && 0 <= j < |seen| && Matches(short, seen[j], id)
    && (forall i :: 0 <= i < j ==> !Matches(short, seen[i], id))
    && (forall k :: j < k < |seen| && Matches(short, seen[k], id) ==> k >= fromPool && seen[k].tx.wtxid == seen[j].tx.wtxid)
  }

  /** A slot holds exactly the undisputed transaction of its short id. */
  ghost predicate Decided(slot: Option<Tx>, id: nat, seen: seq<Known>, fromPool: nat, short: nat -> nat) {
    && (slot.Some? ==> exists j :: Undisputed(seen, fromPool, id, short, j) && slot.value == seen[j].tx)
    && (slot.None? ==> forall j :: !Undisputed(seen, fromPool, id, short, j))
  }

  /** The slot of short id `id` after the transactions `seen` have been looked at. */
  ghost predicate SlotOk(slot: Option<Tx>, have: bool, id: nat, seen: seq<Known>, fromPool: nat, short: nat -> nat) {
    && (have <==> exists j :: 0 <= j < |seen| && Matches(short, seen[j], id))
    && Decided(slot, id, seen, fromPool, short)
  }

  lemma StillUndisputed(seen: seq<Known>, fromPool: nat, id: nat, short: nat -> nat, e: Known, extra: bool, j: int)
    requires fromPool <= |seen| && (!extra ==> fromPool == |seen|)
    ensures var fromPool' := if extra then fromPool else |seen| + 1;
            && (Undisputed(seen + [e], fromPool', id, short, j) && j < |seen| ==> Undisputed(seen, fromPool, id, short, j))
            && (Undisputed(seen, fromPool, id, short, j) ==>
                (Undisputed(seen + [e], fromPool', id, short, j) <==>
                 !Matches(short, e, id) || (extra && e.tx.wtxid == seen[j].tx.wtxid)))
  {
    var more := seen + [e];
    assert forall i :: 0 <= i < |seen| ==> more[i] == seen[i];
    assert more[|seen|] == e;
  }

  lemma SlotUntouched(slot: Option<Tx>, have: bool, id: nat, seen: seq<Known>, fromPool: nat, e: Known, extra: bool, short: nat -> nat)
    requires SlotOk(slot, have, id, seen, fromPool, short) && !Matches(short, e, id)
    requires fromPool <= |seen| && (!extra ==> fromPool == |seen|)
    ensures SlotOk(slot, have, id, seen + [e], if extra then fromPool else |seen| + 1, short)
  {
    hide Undisputed;
    var more, fromPool' := seen + [e], if extra then fromPool else |seen| + 1;
    assert forall j :: 0 <= j < |seen| ==> more[j] == seen[j];
    if have {
      var j :| 0 <= j < |seen| && Matches(short, seen[j], id);
      assert Matches(short, more[j], id);
    }
    forall j
      ensures Undisputed(more, fromPool', id, short, j) <==> Undisputed(seen, fromPool, id, short, j)
    {
      StillUndisputed(seen, fromPool, id, short, e, extra, j);
      UndisputedIs(more, fromPool', id, short, j);
      UndisputedIs(seen, fromPool, id, short, j);
    }
    if slot.Some? {
      var j :| Undisputed(seen, fromPool, id, short, j) && slot.value == seen[j].tx;
      UndisputedIs(seen, fromPool, id, short, j);
      assert Undisputed(more, fromPool', id, short, j) && slot.value == more[j].tx;
    }
  }

  lemma UndisputedIs(seen: seq<Known>, fromPool: nat, id: nat, short: nat -> nat, j: int)
    ensures Undisputed(seen, fromPool, id, short, j) ==>
              && 0 <= j < |seen| && Matches(short, seen[j], id) && forall i :: 0 <= i < j ==> !Matches(short, seen[i], id)
  {
  }

  lemma UnseenIsEmpty(slot: Option<Tx>, have: bool, id: nat, seen: seq<Known>, fromPool: nat, short: nat -> nat)
    requires SlotOk(slot, have, id, seen, fromPool, short)
    ensures !have ==> slot.None?
  {
  }

  /** What a matching transaction makes of a slot: it fills an unseen one, and empties a filled one if it disputes it. */
  function Touched(slot: Option<Tx>, have: bool, e: Known, extra: bool): Option<Tx> {
    if !have then Some(e.tx)
    else if slot.Some? && (!extra || slot.value.wtxid != e.tx.wtxid) then None
    else slot
  }

  lemma SlotTouched(slot: Option<Tx>, have: bool, id: nat, seen: seq<Known>, fromPool: nat, e: Known, extra: bool, short: nat -> nat)
    requires SlotOk(slot, have, id, seen, fromPool, short) && Matches(short, e, id)
    requires fromPool <= |seen| && (!extra ==> fromPool == |seen|)
    ensures SlotOk(Touched(slot, have, e, extra), true, id, seen + [e], if extra then fromPool else |seen| + 1, short)
  {
    hide Undisputed;
    var more, fromPool', slot' := seen + [e], if extra then fromPool else |seen| + 1, Touched(slot, have, e, extra);
    assert forall j :: 0 <= j < |seen| ==> more[j] == seen[j];
    assert more[|seen|] == e && Matches(short, more[|seen|], id);
    if have {
      forall j | Undisputed(more, fromPool', id, short, j)
        ensures Undisputed(seen, fromPool, id, short, j)
        ensures extra && e.tx.wtxid == seen[j].tx.wtxid
      {
        UndisputedIs(more, fromPool', id, short, j);
        var first :| 0 <= first < |seen| && Matches(short, seen[first], id);
        assert j < |seen| by { assert Matches(short, more[first], id); }
        StillUndisputed(seen, fromPool, id, short, e, extra, j);
      }
      if slot.Some? {
        var j :| Undisputed(seen, fromPool, id, short, j) && slot.value == seen[j].tx;
        UndisputedIs(seen, fromPool, id, short, j);
        StillUndisputed(seen, fromPool, id, short, e, extra, j);
        assert slot'.Some? ==> Undisputed(more, fromPool', id, short, j) && slot'.value == more[j].tx;
        forall k | Undisputed(more, fromPool', id, short, k)
          ensures k == j
        {
          OnlyOne(seen, fromPool, id, short, j, k);
        }
      }
    } else {
      FirstIsUndisputed(more, fromPool', id, short);
    }
  }

  lemma OnlyOne(seen: seq<Known>, fromPool: nat, id: nat, short: nat -> nat, j: int, k: int)
    requires Undisputed(seen, fromPool, id, short, j) && Undisputed(seen, fromPool, id, short, k)
    ensures j == k
  {
  }

  lemma FirstIsUndisputed(seen: seq<Known>, fromPool: nat, id: nat, short: nat -> nat)
    requires |seen| > 0 && Matches(short, seen[|seen| - 1], id) && forall i :: 0 <= i < |seen| - 1 ==> !Matches(short, seen[i], id)
    ensures Undisputed(seen, fromPool, id, short, |seen| - 1)
  {
  }

  /** How many of the first `n` short ids have their slot filled. */
  ghost function FilledIds(s: Slots, slots: seq<nat>, n: nat): nat
    requires n <= |slots| && forall i :: 0 <= i < |slots| ==> slots[i] < |s|
  {
    if n == 0 then 0 else FilledIds(s, slots, n - 1) + if s[slots[n - 1]].Some? then 1 else 0
  }

  lemma {:induction false} FilledIdsAfter(s: Slots, slots: seq<nat>, n: nat, i: nat, x: Option<Tx>)
    requires n <= |slots| && i < |slots| && Distinct(slots) && forall i :: 0 <= i < |slots| ==> slots[i] < |s|
    ensures FilledIds(s[slots[i] := x], slots, n)
         == FilledIds(s, slots, n) + if i < n then (if x.Some? then 1 else 0) - (if s[slots[i]].Some? then 1 else 0) else 0
  {
    if n > 0 {
      FilledIdsAfter(s, slots, n - 1, i, x);
      assert i != n - 1 ==> slots[i] != slots[n - 1];
    }
  }

  lemma {:induction false} AllFilled(s: Slots, slots: seq<nat>, n: nat)
    requires n <= |slots| && forall i :: 0 <= i < |slots| ==> slots[i] < |s|
    ensures FilledIds(s, slots, n) <= n
    ensures FilledIds(s, slots, n) == n ==> forall i :: 0 <= i < n ==> s[slots[i]].Some?
  {
    if n > 0 {
      AllFilled(s, slots, n - 1);
    }
  }

  lemma {:induction false} NoneFilled(s: Slots, slots: seq<nat>, n: nat)
    requires n <= |slots| && forall i :: 0 <= i < |slots| ==> slots[i] < |s| && s[slots[i]].None?
    ensures FilledIds(s, slots, n) == 0
  {
    if n > 0 {
      NoneFilled(s, slots, n - 1);
    }
  }

  /** A search for the transactions of the short ids: the slots before it, the ids, their slots, and what was looked at. */
  datatype Search = Search(before: Slots, ids: seq<nat>, slots: seq<nat>, seen: seq<Known>, fromPool: nat, short: nat -> nat) {
    function After(e: Known, extra: bool): Search {
      this.(seen := seen + [e], fromPool := if extra then fromPool else |seen| + 1)
    }

    function AfterAll(es: seq<Known>, extra: bool): Search {
      this.(seen := seen + es, fromPool := if extra then fromPool else |seen| + |es|)
    }

    /** Extra transactions come after those of the pool. */
    predicate Allows(extra: bool) {
      fromPool <= |seen| && (!extra ==> fromPool == |seen|)
    }

    /** Every short id's slot agrees with what has been seen, everything else is as it was, and the count is exact. */
    ghost predicate Holds(s: Slots, have: seq<bool>, count: nat): (r: bool)
      ensures r ==> |s| == |have| && |ids| == |slots| && forall i :: 0 <= i < |slots| ==> slots[i] < |s|
    {
      && |s| == |have| == |before| && |ids| == |slots| && Distinct(slots) && Distinct(ids)
      && (forall i :: 0 <= i < |slots| ==> slots[i] < |s|)
      && (forall i :: 0 <= i < |slots| ==> SlotOk(s[slots[i]], have[slots[i]], ids[i], seen, fromPool, short))
      && (forall k :: 0 <= k < |s| && k !in slots ==> s[k] == before[k])
      && count == FilledIds(s, slots, |slots|)
    }

    lemma Miss(s: Slots, have: seq<bool>, count: nat, e: Known, extra: bool)
      requires Holds(s, have, count) && Allows(extra) && short(e.hash) !in ids
      ensures After(e, extra).Holds(s, have, count)
    {
      hide SlotOk;
      forall i | 0 <= i < |slots|
        ensures SlotOk(s[slots[i]], have[slots[i]], ids[i], seen + [e], After(e, extra).fromPool, short)
      {
        SlotUntouched(s[slots[i]], have[slots[i]], ids[i], seen, fromPool, e, extra, short);
      }
    }

    lemma Touch(s: Slots, have: seq<bool>, count: nat, e: Known, extra: bool, i: nat)
      requires Holds(s, have, count) && Allows(extra) && i < |ids| && short(e.hash) == ids[i]
      ensures var x := Touched(s[slots[i]], have[slots[i]], e, extra);
              var count' := count + (if x.Some? then 1 else 0) - (if s[slots[i]].Some? then 1 else 0);
              count' >= 0 && After(e, extra).Holds(s[slots[i] := x], have[slots[i] := true], count')
      ensures !have[slots[i]] ==> s[slots[i]].None?
    {
      hide SlotOk;
      UnseenIsEmpty(s[slots[i]], have[slots[i]], ids[i], seen, fromPool, short);
      var x := Touched(s[slots[i]], have[slots[i]], e, extra);
      var s', have' := s[slots[i] := x], have[slots[i] := true];
      forall j | 0 <= j < |slots|
        ensures SlotOk(s'[slots[j]], have'[slots[j]], ids[j], seen + [e], After(e, extra).fromPool, short)
      {
        if j == i {
          SlotTouched(s[slots[i]], have[slots[i]], ids[i], seen, fromPool, e, extra, short);
        } else {
          assert slots[j] != slots[i] && ids[j] != ids[i];
          SlotUntouched(s[slots[j]], have[slots[j]], ids[j], seen, fromPool, e, extra, short);
        }
      }
      FilledIdsAfter(s, slots, |slots|, i, x);
    }
  }

  /** The map from short ids to slots. */
  ghost predicate Maps(m: map<nat, nat>, ids: seq<nat>, slots: seq<nat>) {
    && |ids| == |slots| && |m| == |ids| && Distinct(ids)
    && (forall i :: 0 <= i < |ids| ==> ids[i] in m && m[ids[i]] == slots[i])
    && (forall x :: x in m ==> x in ids)
  }

  // ----- filling in

  ghost function Empty(s: Slots): nat {
    |s| - Filled(s, |s|)
  }

  /** Slot `i` keeps its transaction, or gets the missing one whose number is the number of empty slots before it. */
  ghost predicate FillsSlot(s: Slots, missing: seq<Tx>, tx: Tx, i: nat)
    requires i < |s|
  {
    match s[i]
    case Some(t) => tx == t
    case None => i - Filled(s, i) < |missing| && tx == missing[i - Filled(s, i)]
  }

  /** The slots before the first empty one that has `missing` empty ones before it are empty now; the others are as they were. */
  ghost predicate MovedOut(s: Slots, missing: nat, s': Slots) {
    && |s'| == |s|
    && exists f: nat :: f < |s| && s[f].None? && f - Filled(s, f) == missing && s'[f..] == s[f..] && forall i :: 0 <= i < f ==> s'[i].None?
  }

  ghost predicate FillsIn(s: Slots, missing: seq<Tx>, vtx: seq<Tx>) {
    |vtx| == |s| && forall i :: 0 <= i < |s| ==> FillsSlot(s, missing, vtx[i], i)
  }

  /** The transactions of `vtx` whose slots are empty, in order. */
  function MissingOf(s: Slots, vtx: seq<Tx>, k: nat): seq<Tx>
    requires k <= |s| == |vtx|
  {
    if k == 0 then [] else MissingOf(s, vtx, k - 1) + if s[k - 1].None? then [vtx[k - 1]] else []
  }

  lemma {:induction false} MissingSize(s: Slots, vtx: seq<Tx>, k: nat)
    requires k <= |s| == |vtx|
    ensures |MissingOf(s, vtx, k)| == k - Filled(s, k)
  {
    if k > 0 {
      MissingSize(s, vtx, k - 1);
    }
  }

  lemma {:induction false} MissingInOrder(s: Slots, vtx: seq<Tx>, k: nat, i: nat)
    requires i < k <= |s| == |vtx| && s[i].None?
    ensures i - Filled(s, i) < |MissingOf(s, vtx, k)| && MissingOf(s, vtx, k)[i - Filled(s, i)] == vtx[i]
  {
    MissingSize(s, vtx, k - 1);
    if i < k - 1 {
      MissingInOrder(s, vtx, k - 1, i);
    }
  }

  /** Slots that agree with a block, filled in with what is missing of it, give the block. */
  lemma FillsBack(s: Slots, vtx: seq<Tx>, result: seq<Tx>)
    requires |s| == |vtx| && forall i :: 0 <= i < |s| && s[i].Some? ==> s[i].value == vtx[i]
    requires FillsIn(s, MissingOf(s, vtx, |s|), result)
    ensures result == vtx
  {
    forall i | 0 <= i < |s|
      ensures result[i] == vtx[i]
    {
      assert FillsSlot(s, MissingOf(s, vtx, |s|), result[i], i);
      if s[i].None? {
        MissingInOrder(s, vtx, |s|, i);
      }
    }
  }

  function HashOf(tx: Tx, useWtxid: bool): nat {
    if useWtxid then tx.wtxid else tx.txid
  }

  /** The compact form of a block: the first transaction in full, short ids of the others. */
  method Encode(headerIsNull: bool, vtx: seq<Tx>, useWtxid: bool, short: nat -> nat) returns (c: CompactBlock)
    requires |vtx| >= 1
    ensures c.headerIsNull == headerIsNull && c.prefilled == [Prefilled(0, vtx[0])]
    ensures |c.shortIds| == |vtx| - 1
    ensures forall i :: 1 <= i < |vtx| ==> c.shortIds[i - 1] == short(HashOf(vtx[i], useWtxid))
  {
    var ids := [];
    for i := 1 to |vtx|
      invariant |ids| == i - 1 && forall j :: 1 <= j < i ==> ids[j - 1] == short(HashOf(vtx[j], useWtxid))
    {
      ids := ids + [short(HashOf(vtx[i], useWtxid))];
    }
    c := CompactBlock(headerIsNull, ids, [Prefilled(0, vtx[0])]);
  }

  /** No known transaction has the short id of another one of the block. */
  ghost predicate NoImpostor(vtx: seq<Tx>, useWtxid: bool, known: seq<Known>, short: nat -> nat) {
    forall i, j :: 1 <= i < |vtx| && 0 <= j < |known| && short(known[j].hash) == short(HashOf(vtx[i], useWtxid)) ==>
      known[j].tx == vtx[i]
  }

  /** What InitData found of an encoded block belongs there. */
  lemma AgreesWithSender(s: Slots, c: CompactBlock, slots: seq<nat>, vtx: seq<Tx>, useWtxid: bool, known: seq<Known>, short: nat -> nat, k: nat)
    requires |vtx| >= 1 && c.prefilled == [Prefilled(0, vtx[0])] && |c.shortIds| == |vtx| - 1
    requires forall i :: 1 <= i < |vtx| ==> c.shortIds[i - 1] == short(HashOf(vtx[i], useWtxid))
    requires Initialized(s, c, slots, known, short) && NoImpostor(vtx, useWtxid, known, short)
    requires k < |s| && s[k].Some?
    ensures s[k].value == vtx[k]
  {
    assert Position(c.prefilled, 0) == 0;
    if k > 0 {
      SlotsOfEncoded(s, c, slots, known, short, k);
      assert Settled(s[slots[k - 1]], c.shortIds[k - 1], known, short);
      var j :| 0 <= j < |known| && Matches(short, known[j], c.shortIds[k - 1]) && s[k].value == known[j].tx;
      assert c.shortIds[k - 1] == short(HashOf(vtx[k], useWtxid));
    }
  }

  /** With only the first transaction prefilled, short id `k - 1` belongs to slot `k`. */
  lemma {:induction false} SlotsOfEncoded(s: Slots, c: CompactBlock, slots: seq<nat>, known: seq<Known>, short: nat -> nat, k: nat)
    requires Initialized(s, c, slots, known, short) && |c.prefilled| == 1 && c.prefilled[0].index == 0
    requires 1 <= k < |s|
    ensures slots[k - 1] == k
  {
    assert Position(c.prefilled, 0) == 0;
    assert !TakenByPrefilled(c, k);
    var i :| 0 <= i < |slots| && slots[i] == k;
    Counted(slots, i, |slots| - 1);
    assert TakenByPrefilled(c, 0);
    Counted(slots, 0, i);
    assert slots[0] in slots;
  }

  lemma {:induction false} Counted(slots: seq<nat>, i: nat, j: nat)
    requires i <= j < |slots| && forall i, j :: 0 <= i < j < |slots| ==> slots[i] < slots[j]
    ensures slots[j] - slots[i] >= j - i
  {
    if i < j {
      Counted(slots, i, j - 1);
    }
  }

  /**
     A block sent in compact form is rebuilt, whatever the receiver knew, as
     long as no known transaction passes for another one of the block. Writing
     one with more than 65535 transactions to the wire throws.
     */
  method SendBlock(vtx: seq<Tx>, useWtxid: bool, pool: seq<Known>, extra: seq<Known>, short: nat -> nat, crowded: nat -> bool)
    returns (status: ReadStatus, result: seq<Tx>, threw: bool)
    requires |vtx| >= 1 && NoImpostor(vtx, useWtxid, pool + extra, short)
    ensures threw <==> |vtx| > 0xffff
    ensures !threw && status == Ok ==> result == vtx
    ensures !threw ==>
            (status == Ok <==>
             && !vtx[0].isNull
             && (forall i, j :: 1 <= i < j < |vtx| ==> short(HashOf(vtx[i], useWtxid)) != short(HashOf(vtx[j], useWtxid)))
             && forall i :: 0 <= i < |vtx| - 1 ==> !crowded(i))
  {
    var c := Encode(false, vtx, useWtxid, short);
    threw := c.BlockTxCount() > 0xffff;
    if threw {
      return Invalid, [], threw;
    }
    var block := new PartiallyDownloadedBlock();
    ghost var slots, n, n';
    status, slots, n, n' := block.InitData(c, pool, extra, short, crowded);
    assert PrefilledOk(c, 0) <==> !vtx[0].isNull;
    DistinctIds(c.shortIds, vtx, useWtxid, short);
    if status != Ok {
      return status, [], threw;
    }
    ghost var s := block.txnAvailable;
    forall k | 0 <= k < |s| && s[k].Some?
      ensures s[k].value == vtx[k]
    {
      AgreesWithSender(s, c, slots, vtx, useWtxid, pool + extra, short, k);
    }
    var missing := MissingOf(block.txnAvailable, vtx, |vtx|);
    MissingSize(s, vtx, |s|);
    status, result := block.FillBlock(missing, Good);
    FillsBack(s, vtx, result);
  }

  lemma DistinctIds(ids: seq<nat>, vtx: seq<Tx>, useWtxid: bool, short: nat -> nat)
    requires |vtx| >= 1 && |ids| == |vtx| - 1 && forall i :: 1 <= i < |vtx| ==> ids[i - 1] == short(HashOf(vtx[i], useWtxid))
    ensures Distinct(ids) <==> forall i, j :: 1 <= i < j < |vtx| ==> short(HashOf(vtx[i], useWtxid)) != short(HashOf(vtx[j], useWtxid))
  {
    if Distinct(ids) {
      forall i, j | 1 <= i < j < |vtx|
        ensures short(HashOf(vtx[i], useWtxid)) != short(HashOf(vtx[j], useWtxid))
      {
        assert ids[i - 1] != ids[j - 1];
      }
    }
    if forall i, j :: 1 <= i < j < |vtx| ==> short(HashOf(vtx[i], useWtxid)) != short(HashOf(vtx[j], useWtxid)) {
      forall i, j | 0 <= i < j < |ids|
        ensures ids[i] != ids[j]
      {
        assert ids[(i + 1) - 1] == short(HashOf(vtx[i + 1], useWtxid)) && ids[(j + 1) - 1] == short(HashOf(vtx[j + 1], useWtxid));
      }
    }
  }

  class PartiallyDownloadedBlock {
    var headerIsNull: bool
    var txnAvailable: Slots
    var prefilledCount: nat
    var mempoolCount: nat

    constructor ()
      ensures headerIsNull && txnAvailable == [] && prefilledCount == 0 && mempoolCount == 0
    {
      headerIsNull, txnAvailable, prefilledCount, mempoolCount := true, [], 0, 0;
    }

    /** The first loop of InitData. */
    method PlacePrefilled(c: CompactBlock) returns (ok: bool)
      requires |txnAvailable| == c.BlockTxCount() && forall k :: 0 <= k < |txnAvailable| ==> txnAvailable[k].None?
      modifies this`txnAvailable, this`prefilledCount
      ensures ok <==> forall i :: 0 <= i < |c.prefilled| ==> PrefilledOk(c, i)
      ensures ok ==> PrefilledPlaced(txnAvailable, c, |c.prefilled|) && prefilledCount == |c.prefilled|
    {
      hide PrefilledPlaced;
      var lastPrefilledIndex := -1;
      PlaceNone(txnAvailable, c);
      for i := 0 to |c.prefilled|
        invariant lastPrefilledIndex == if i == 0 then -1 else Position(c.prefilled, i - 1)
        invariant forall j :: 0 <= j < i ==> PrefilledOk(c, j)
        invariant PrefilledPlaced(txnAvailable, c, i)
      {
        lastPrefilledIndex := lastPrefilledIndex + c.prefilled[i].index + 1;
        assert PrefilledOk(c, i) <==> !c.prefilled[i].tx.isNull && lastPrefilledIndex <= 0xffff
                                      && lastPrefilledIndex <= |c.shortIds| + i;
        if c.prefilled[i].tx.isNull {
          return false;
        }
        if lastPrefilledIndex > 0xffff {
          return false;
        }
        if lastPrefilledIndex > |c.shortIds| + i {
          return false;
        }
        PlaceOne(txnAvailable, c, i);
        txnAvailable := txnAvailable[lastPrefilledIndex := Some(c.prefilled[i].tx)];
      }
      prefilledCount := |c.prefilled|;
      ok := true;
    }

    /**
     The second loop of InitData. The i-th short id belongs to the i-th free
     slot, and the search for it does not run off the end.
     */
    method MapShortIds(c: CompactBlock, crowded: nat -> bool) returns (ok: bool, m: map<nat, nat>, ghost slots: seq<nat>)
      requires c.BlockTxCount() <= 0xffff && PrefilledPlaced(txnAvailable, c, |c.prefilled|)
      ensures ok <==> Distinct(c.shortIds) && forall i :: 0 <= i < |c.shortIds| ==> !crowded(i)
      ensures ok ==> Maps(m, c.shortIds, slots) && forall i :: 0 <= i < |slots| ==> IsFreeSlot(txnAvailable, slots[i], i)
    {
      hide PrefilledPlaced, Distinct;
      m, slots := map[], [];
      var indexOffset := 0;
      for i := 0 to |c.shortIds|
        invariant 0 <= indexOffset && i + indexOffset <= |txnAvailable| == c.BlockTxCount()
        invariant Filled(txnAvailable, i + indexOffset) == indexOffset
        invariant |slots| == i && forall j :: 0 <= j < i ==> !crowded(j) && IsFreeSlot(txnAvailable, slots[j], j)
        invariant MapsSome(m, c.shortIds, slots)
      {
        FreeSlotAhead(txnAvailable, c, i, indexOffset);
        while txnAvailable[i + indexOffset].Some?
          invariant 0 <= indexOffset && i + indexOffset < |txnAvailable|
          invariant Filled(txnAvailable, i + indexOffset) == indexOffset
          decreases |txnAvailable| - indexOffset
        {
          indexOffset := indexOffset + 1;
          FreeSlotAhead(txnAvailable, c, i, indexOffset);
        }
        assert i + indexOffset <= 0xffff;
        MapsOneMore(m, c.shortIds, slots, i + indexOffset);
        m := m[c.shortIds[i] := i + indexOffset];
        slots := slots + [i + indexOffset];
        if crowded(i) {
          return false, m, slots;
        }
      }
      MapsAll(m, c.shortIds, slots);
      ok := |m| == |c.shortIds|;
    }

    /** The last two loops of InitData. */
    method MatchKnown(c: CompactBlock, m: map<nat, nat>, pool: seq<Known>, extra: seq<Known>, short: nat -> nat, ghost slots: seq<nat>)
      returns (ghost n: nat, ghost n': nat)
      requires PrefilledPlaced(txnAvailable, c, |c.prefilled|) && mempoolCount == 0
      requires Maps(m, c.shortIds, slots) && forall i :: 0 <= i < |slots| ==> IsFreeSlot(txnAvailable, slots[i], i)
      modifies this`txnAvailable, this`mempoolCount
      ensures Initialized(txnAvailable, c, slots, pool + extra, short)
      ensures Scanned(txnAvailable, c.shortIds, slots, pool, n, extra, n', short)
      ensures mempoolCount == FilledIds(txnAvailable, slots, |slots|)
    {
      hide Search.Holds, PrefilledPlaced, Initialized, IsFreeSlot, FilledIds, Distinct, Scanned, Stops;
      ghost var before := txnAvailable;
      var have := seq(|txnAvailable|, _ => false);
      ghost var search := Search(before, c.shortIds, slots, [], 0, short);
      SearchStarts(before, c.shortIds, slots, short, have);
      have, n := LookAll(pool, false, m, have, short, search);
      ghost var s, have1, count := txnAvailable, have, mempoolCount;
      assert search.AfterAll(pool[..n], false) == Search(before, c.shortIds, slots, pool[..n], n, short);
      have, n' := LookAll(extra, true, m, have, short, Search(before, c.shortIds, slots, pool[..n], n, short));
      if n < |pool| {
        AllSeen(before, c.shortIds, slots, short, pool[..n], extra[..n'], n, s, have1, count, txnAvailable, have, mempoolCount);
      }
      SearchEnds(before, c, slots, short, txnAvailable, have, mempoolCount, pool, n, extra, n');
      ScansEnd(before, c.shortIds, slots, short, txnAvailable, have, mempoolCount, pool, n, extra, n');
      ExactCount(Search(before, c.shortIds, slots, pool[..n] + extra[..n'], n, short), txnAvailable, have, mempoolCount);
    }

    /** InitData */
    method InitData(c: CompactBlock, pool: seq<Known>, extra: seq<Known>, short: nat -> nat, crowded: nat -> bool)
      returns (status: ReadStatus, ghost slots: seq<nat>, ghost n: nat, ghost n': nat)
      requires headerIsNull && txnAvailable == [] && mempoolCount == 0
      requires c.BlockTxCount() <= 0xffff || c.BlockTxCount() > MAX_TRANSACTIONS
      modifies this
      ensures status == Invalid <==>
              || c.headerIsNull || c.BlockTxCount() == 0 || c.BlockTxCount() > MAX_TRANSACTIONS
              || exists i :: 0 <= i < |c.prefilled| && !PrefilledOk(c, i)
      ensures status == Failed <==>
              (status != Invalid && (!Distinct(c.shortIds) || exists i :: 0 <= i < |c.shortIds| && crowded(i)))
      ensures status == Ok || status == Invalid || status == Failed
      ensures status == Ok ==>
              && Initialized(txnAvailable, c, slots, pool + extra, short) && !headerIsNull
              && Scanned(txnAvailable, c.shortIds, slots, pool, n, extra, n', short)
              && prefilledCount == |c.prefilled| && mempoolCount == FilledIds(txnAvailable, slots, |slots|)
    {
      hide Search.Holds, PrefilledPlaced, Initialized, IsFreeSlot, FilledIds, Distinct, Scanned;
      slots, n, n' := [], 0, 0;
      if c.headerIsNull || (c.shortIds == [] && c.prefilled == []) {
        return Invalid, slots, n, n';
      }
      if |c.shortIds| + |c.prefilled| > MAX_TRANSACTIONS {
        return Invalid, slots, n, n';
      }
      headerIsNull := c.headerIsNull;
      txnAvailable := seq(c.BlockTxCount(), _ => None);
      var placed := PlacePrefilled(c);
      if !placed {
        return Invalid, slots, n, n';
      }
      var mapped, m;
      mapped, m, slots := MapShortIds(c, crowded);
      if !mapped {
        return Failed, slots, n, n';
      }
      n, n' := MatchKnown(c, m, pool, extra, short, slots);
      return Ok, slots, n, n';
    }

    /**
     After InitData: a slot with a prefilled transaction does not have to be asked for, and neither
     does one whose short id has an undisputed transaction among those looked at.
     */
    method IsTxAvailable(index: nat, ghost c: CompactBlock, ghost slots: seq<nat>, ghost pool: seq<Known>, ghost n: nat,
                         ghost extra: seq<Known>, ghost n': nat, ghost short: nat -> nat) returns (r: bool)
      requires !headerIsNull && index < |txnAvailable|
      ensures r <==> txnAvailable[index].Some?
      ensures Initialized(txnAvailable, c, slots, pool + extra, short) ==>
                && (TakenByPrefilled(c, index) ==> r)
                && forall i :: 0 <= i < |slots| && slots[i] == index ==>
                     && (HowMany(pool + extra, c.shortIds[i], short) == 0 ==> !r)
                     && (HowMany(pool + extra, c.shortIds[i], short) == 1 ==> r)
      ensures Scanned(txnAvailable, c.shortIds, slots, pool, n, extra, n', short) ==>
                forall i :: 0 <= i < |slots| && slots[i] == index ==> (r <==> IsFound(c.shortIds[i], pool[..n] + extra[..n'], n, short))
    {
      r := txnAvailable[index] != None;
      if Initialized(txnAvailable, c, slots, pool + extra, short) {
        forall i | 0 <= i < |slots| && slots[i] == index
          ensures HowMany(pool + extra, c.shortIds[i], short) == 0 ==> !r
          ensures HowMany(pool + extra, c.shortIds[i], short) == 1 ==> r
        {
          SettledByCount(txnAvailable[index], c.shortIds[i], pool + extra, short);
        }
      }
    }

    /**
     FillBlock. `check` is the outcome of CheckBlock. The missing transactions
     fill the empty slots in order; too few or too many make the call fail.
     */
    method FillBlock(missing: seq<Tx>, check: CheckOutcome) returns (status: ReadStatus, vtx: seq<Tx>)
      requires !headerIsNull
      modifies this
      ensures status == Invalid <==> |missing| != Empty(old(txnAvailable))
      ensures |missing| >= Empty(old(txnAvailable)) ==> headerIsNull && txnAvailable == []
      // With too few, the slots before the first that gets none have been moved out.
      ensures |missing| < Empty(old(txnAvailable)) ==> !headerIsNull && MovedOut(old(txnAvailable), |missing|, txnAvailable)
      ensures status != Invalid ==> FillsIn(old(txnAvailable), missing, vtx)
      ensures status != Invalid ==> status == (match check case Good => Ok case Corrupt => Failed case Bad => CheckBlockFailed)
    {
      vtx := [];
      ghost var s := txnAvailable;
      var missingOffset := 0;
      for i := 0 to |txnAvailable|
        invariant |txnAvailable| == |s| && txnAvailable[i..] == s[i..]
        invariant missingOffset == i - Filled(s, i) <= |missing| && |vtx| == i
        invariant forall j :: 0 <= j < i ==> FillsSlot(s, missing, vtx[j], j)
        invariant !headerIsNull && forall j :: 0 <= j < i ==> txnAvailable[j].None?
      {
        assert txnAvailable[i] == s[i];
        FilledAtMost(s, i + 1, |s|);
        if txnAvailable[i].None? {
          if |missing| <= missingOffset {
            return Invalid, vtx;
          }
          vtx := vtx + [missing[missingOffset]];
          missingOffset := missingOffset + 1;
        } else {
          vtx := vtx + [txnAvailable[i].value];
          txnAvailable := txnAvailable[i := None];
        }
      }
      headerIsNull := true;
      txnAvailable := [];
      if |missing| != missingOffset {
        return Invalid, vtx;
      }
      match check {
        case Good => status := Ok;
        case Corrupt => status := Failed;
        case Bad => status := CheckBlockFailed;
      }
    }

    /** Look at one known transaction, from the pool or from the extra ones. */
    method Look(e: Known, extra: bool, m: map<nat, nat>, have: seq<bool>, short: nat -> nat, ghost search: Search) returns (have': seq<bool>)
      requires search.Holds(txnAvailable, have, mempoolCount) && Maps(m, search.ids, search.slots) && search.short == short && search.Allows(extra)
      modifies this`txnAvailable, this`mempoolCount
      ensures search.After(e, extra).Holds(txnAvailable, have', mempoolCount)
    {
      hide Search.Holds, Distinct;
      have' := have;
      if short(e.hash) in m {
        var k := m[short(e.hash)];
        ghost var i :| 0 <= i < |search.ids| && search.ids[i] == short(e.hash);
        assert k == search.slots[i];
        search.Touch(txnAvailable, have, mempoolCount, e, extra, i);
        if !have[k] {
          txnAvailable := txnAvailable[k := Some(e.tx)];
          have' := have[k := true];
          mempoolCount := mempoolCount + 1;
        } else if txnAvailable[k].Some? && (!extra || txnAvailable[k].value.wtxid != e.tx.wtxid) {
          assert have[k := true] == have;
          txnAvailable := txnAvailable[k := None];
          mempoolCount := mempoolCount - 1;
        } else {
          assert txnAvailable[k := txnAvailable[k]] == txnAvailable && have[k := true] == have;
        }
      } else {
        search.Miss(txnAvailable, have, mempoolCount, e, extra);
      }
    }

    /** The loops over the pool and over the extra transactions; they end early when every slot is filled. */
    method LookAll(all: seq<Known>, extra: bool, m: map<nat, nat>, have: seq<bool>, short: nat -> nat, ghost search: Search)
      returns (have': seq<bool>, ghost n: nat)
      requires search.Holds(txnAvailable, have, mempoolCount) && Maps(m, search.ids, search.slots) && search.short == short && search.Allows(extra)
      modifies this`txnAvailable, this`mempoolCount
      ensures n <= |all| && search.AfterAll(all[..n], extra).Holds(txnAvailable, have', mempoolCount)
      ensures n < |all| ==> mempoolCount == |search.ids|
      ensures Stops(search, all, extra, n)
    {
      hide Search.Holds, Distinct, Found;
      have', n := have, 0;
      assert search.AfterAll([], extra) == search;
      for i := 0 to |all|
        invariant n == i && search.AfterAll(all[..n], extra).Holds(txnAvailable, have', mempoolCount)
        invariant forall k :: 1 <= k <= n ==> !Found(search.AfterAll(all[..k], extra))
      {
        have' := Look(all[i], extra, m, have', short, search.AfterAll(all[..i], extra));
        assert search.AfterAll(all[..i], extra).After(all[i], extra) == search.AfterAll(all[..i + 1], extra);
        n := i + 1;
        AllFoundIff(search.AfterAll(all[..n], extra), txnAvailable, have', mempoolCount);
        if mempoolCount == |m| {
          break;
        }
      }
    }
  }

  /** Every short id has an undisputed transaction among those seen. */
  ghost predicate AllFound(ids: seq<nat>, seen: seq<Known>, fromPool: nat, short: nat -> nat) {
    forall i :: 0 <= i < |ids| ==> IsFound(ids[i], seen, fromPool, short)
  }

  ghost predicate IsFound(id: nat, seen: seq<Known>, fromPool: nat, short: nat -> nat) {
    exists j :: Undisputed(seen, fromPool, id, short, j)
  }

  ghost predicate Found(search: Search) {
    AllFound(search.ids, search.seen, search.fromPool, search.short)
  }

  /** A scan of `all` looks at the first `n` of them: it stops after the first one with which every short id is found. */
  ghost predicate Stops(search: Search, all: seq<Known>, extra: bool, n: nat) {
    && n <= |all| && (n < |all| ==> n > 0 && Found(search.AfterAll(all[..n], extra)))
    && forall k :: 1 <= k < n ==> !Found(search.AfterAll(all[..k], extra))
  }

  lemma AllFoundIff(search: Search, s: Slots, have: seq<bool>, count: nat)
    requires search.Holds(s, have, count)
    ensures Found(search) <==> count == |search.ids|
  {
    hide Undisputed;
    AllFilled(s, search.slots, |search.slots|);
    forall i | 0 <= i < |search.ids|
      ensures s[search.slots[i]].Some? <==> IsFound(search.ids[i], search.seen, search.fromPool, search.short)
    {
      assert SlotOk(s[search.slots[i]], have[search.slots[i]], search.ids[i], search.seen, search.fromPool, search.short);
    }
    if Found(search) {
      AllAreFilled(s, search.slots, |search.slots|);
    }
  }

  /**
   How far the two scans get, and what every slot of a short id holds then: the pool is looked at
   up to the first transaction with which all short ids are found, and so are the extra ones after it.
   */
  ghost predicate Scanned(s: Slots, ids: seq<nat>, slots: seq<nat>, pool: seq<Known>, n: nat, extra: seq<Known>, n': nat, short: nat -> nat) {
    && n <= |pool| && n' <= |extra| && |ids| == |slots|
    && (n < |pool| ==> n > 0 && AllFound(ids, pool[..n], n, short))
    && (forall k :: 1 <= k < n ==> !AllFound(ids, pool[..k], k, short))
    && (n' < |extra| ==> n' > 0 && AllFound(ids, pool[..n] + extra[..n'], n, short))
    && (forall k :: 1 <= k < n' ==> !AllFound(ids, pool[..n] + extra[..k], n, short))
    && (forall i :: 0 <= i < |slots| ==> slots[i] < |s| && Decided(s[slots[i]], ids[i], pool[..n] + extra[..n'], n, short))
  }

  lemma ScansEnd(before: Slots, ids: seq<nat>, slots: seq<nat>, short: nat -> nat, s: Slots, have: seq<bool>, count: nat,
                 pool: seq<Known>, n: nat, extra: seq<Known>, n': nat)
    requires Stops(Search(before, ids, slots, [], 0, short), pool, false, n)
    requires n <= |pool| && Stops(Search(before, ids, slots, pool[..n], n, short), extra, true, n')
    requires n' <= |extra| && Search(before, ids, slots, pool[..n] + extra[..n'], n, short).Holds(s, have, count)
    ensures Scanned(s, ids, slots, pool, n, extra, n', short)
  {
    hide AllFound, Decided;
    forall k | 0 <= k <= |pool|
      ensures Found(Search(before, ids, slots, [], 0, short).AfterAll(pool[..k], false)) <==> AllFound(ids, pool[..k], k, short)
    {
      assert [] + pool[..k] == pool[..k];
    }
    forall k | 0 <= k <= |extra|
      ensures Found(Search(before, ids, slots, pool[..n], n, short).AfterAll(extra[..k], true)) <==> AllFound(ids, pool[..n] + extra[..k], n, short)
    {
    }
    forall i | 0 <= i < |slots|
      ensures slots[i] < |s| && Decided(s[slots[i]], ids[i], pool[..n] + extra[..n'], n, short)
    {
      assert SlotOk(s[slots[i]], have[slots[i]], ids[i], pool[..n] + extra[..n'], n, short);
    }
  }

  lemma {:induction false} AllAreFilled(s: Slots, slots: seq<nat>, n: nat)
    requires n <= |slots| && forall i :: 0 <= i < |slots| ==> slots[i] < |s| && s[slots[i]].Some?
    ensures FilledIds(s, slots, n) == n
  {
    if n > 0 {
      AllAreFilled(s, slots, n - 1);
    }
  }

  /** The search, run over pool and extra transactions, has settled every slot. */
  lemma SearchEnds(before: Slots, c: CompactBlock, slots: seq<nat>, short: nat -> nat, s: Slots, have: seq<bool>, count: nat,
                   pool: seq<Known>, n: nat, extra: seq<Known>, n': nat)
    requires PrefilledPlaced(before, c, |c.prefilled|)
    requires |slots| == |c.shortIds| && forall i :: 0 <= i < |slots| ==> IsFreeSlot(before, slots[i], i)
    requires n <= |pool| && n' <= |extra|
    requires Search(before, c.shortIds, slots, pool[..n] + extra[..n'], n, short).Holds(s, have, count)
    requires n < |pool| ==> forall i :: 0 <= i < |slots| ==> have[slots[i]]
    requires n' < |extra| ==> count == |slots|
    ensures Initialized(s, c, slots, pool + extra, short)
  {
    SlotsDistinct(before, slots);
    AllFilled(s, slots, |slots|);
    forall k | 0 <= k < |s|
      ensures k in slots <==> !TakenByPrefilled(c, k)
    {
      SlotsAreTheRest(before, c, slots, k);
    }
    forall i | 0 <= i < |slots|
      ensures Settled(s[slots[i]], c.shortIds[i], pool + extra, short)
    {
      Settle(s[slots[i]], have[slots[i]], c.shortIds[i], pool, n, extra, n', short);
    }
  }

  lemma ExactCount(search: Search, s: Slots, have: seq<bool>, count: nat)
    requires search.Holds(s, have, count)
    ensures count == FilledIds(s, search.slots, |search.slots|)
  {
  }

  /** What is seen stays seen. */
  lemma AllSeen(before: Slots, ids: seq<nat>, slots: seq<nat>, short: nat -> nat, seen: seq<Known>, more: seq<Known>, n: nat,
                s: Slots, have: seq<bool>, count: nat, s': Slots, have': seq<bool>, count': nat)
    requires Search(before, ids, slots, seen, n, short).Holds(s, have, count) && count == |ids|
    requires Search(before, ids, slots, seen + more, n, short).Holds(s', have', count')
    ensures forall i :: 0 <= i < |slots| ==> have'[slots[i]]
  {
    AllFilled(s, slots, |slots|);
    forall i | 0 <= i < |slots|
      ensures have'[slots[i]]
    {
      assert SlotOk(s[slots[i]], have[slots[i]], ids[i], seen, n, short);
      var j :| 0 <= j < |seen| && Matches(short, seen[j], ids[i]);
      assert (seen + more)[j] == seen[j];
      assert SlotOk(s'[slots[i]], have'[slots[i]], ids[i], seen + more, n, short);
    }
  }

  lemma SearchStarts(before: Slots, ids: seq<nat>, slots: seq<nat>, short: nat -> nat, have: seq<bool>)
    requires |ids| == |slots| && Distinct(ids) && forall i :: 0 <= i < |slots| ==> IsFreeSlot(before, slots[i], i)
    requires |have| == |before| && forall k :: 0 <= k < |have| ==> !have[k]
    ensures Search(before, ids, slots, [], 0, short).Holds(before, have, 0)
  {
    SlotsDistinct(before, slots);
    NoneFilled(before, slots, |slots|);
  }

  /** What a successful InitData leaves. */
  ghost predicate Initialized(s: Slots, c: CompactBlock, slots: seq<nat>, known: seq<Known>, short: nat -> nat) {
    && |s| == c.BlockTxCount() && |slots| == |c.shortIds|
    && (forall i :: 0 <= i < |c.prefilled| ==> Position(c.prefilled, i) < |s| && s[Position(c.prefilled, i)] == Some(c.prefilled[i].tx))
    && (forall i :: 0 <= i < |slots| ==> slots[i] < |s|)
    && (forall i, j :: 0 <= i < j < |slots| ==> slots[i] < slots[j])
    && (forall k :: 0 <= k < |s| ==> (k in slots <==> !TakenByPrefilled(c, k)))
    && (forall i :: 0 <= i < |slots| ==> Settled(s[slots[i]], c.shortIds[i], known, short))
  }

  /** A filled slot holds a known transaction of its short id; an empty one has no such transaction or more than one. */
  ghost predicate Settled(slot: Option<Tx>, id: nat, known: seq<Known>, short: nat -> nat) {
    && (slot.Some? ==> exists j :: 0 <= j < |known| && Matches(short, known[j], id) && slot.value == known[j].tx)
    && (slot.None? ==>
          || (forall j :: 0 <= j < |known| ==> !Matches(short, known[j], id))
          || (exists j, j' :: 0 <= j < j' < |known| && Matches(short, known[j], id) && Matches(short, known[j'], id)))
  }

  /** How many known transactions have a short id. */
  ghost function HowMany(known: seq<Known>, id: nat, short: nat -> nat): nat {
    if known == [] then 0
    else HowMany(known[..|known| - 1], id, short) + if Matches(short, known[|known| - 1], id) then 1 else 0
  }

  lemma {:induction false} CountsMatches(known: seq<Known>, id: nat, short: nat -> nat)
    ensures HowMany(known, id, short) == 0 ==> forall j :: 0 <= j < |known| ==> !Matches(short, known[j], id)
    ensures HowMany(known, id, short) == 1 ==> exists j :: 0 <= j < |known| && Matches(short, known[j], id)
    ensures HowMany(known, id, short) == 1 ==>
              forall j, j' :: 0 <= j < j' < |known| ==> !(Matches(short, known[j], id) && Matches(short, known[j'], id))
  {
    if known != [] {
      CountsMatches(known[..|known| - 1], id, short);
    }
  }

  /** The slot of a short id that no known transaction has stays empty, and one that a single one has is filled. */
  lemma SettledByCount(slot: Option<Tx>, id: nat, known: seq<Known>, short: nat -> nat)
    requires Settled(slot, id, known, short)
    ensures HowMany(known, id, short) == 0 ==> slot.None?
    ensures HowMany(known, id, short) == 1 ==> slot.Some?
  {
    CountsMatches(known, id, short);
  }

  /** A slot that was filled and emptied had two matches. */
  lemma TwoMatches(slot: Option<Tx>, have: bool, id: nat, seen: seq<Known>, fromPool: nat, short: nat -> nat) returns (j: int, j': int)
    requires SlotOk(slot, have, id, seen, fromPool, short) && have && slot.None?
    ensures 0 <= j < j' < |seen| && Matches(short, seen[j], id) && Matches(short, seen[j'], id)
  {
    j := 0;
    while !Matches(short, seen[j], id)
      invariant 0 <= j < |seen| && forall i :: 0 <= i < j ==> !Matches(short, seen[i], id)
      decreases |seen| - j
    {
      assert exists i :: j < i < |seen| && Matches(short, seen[i], id);
      j := j + 1;
    }
    assert !Undisputed(seen, fromPool, id, short, j);
    j' :| j < j' < |seen| && Matches(short, seen[j'], id);
  }

  /** Stopping early loses nothing: it only happens when every slot is filled. */
  lemma Settle(slot: Option<Tx>, have: bool, id: nat, pool: seq<Known>, n: nat, extra: seq<Known>, n': nat, short: nat -> nat)
    requires n <= |pool| && n' <= |extra| && SlotOk(slot, have, id, pool[..n] + extra[..n'], n, short)
    requires (n < |pool| ==> have) && (n' < |extra| ==> slot.Some?)
    ensures Settled(slot, id, pool + extra, short)
  {
    var seen, known := pool[..n] + extra[..n'], pool + extra;
    assert forall j :: 0 <= j < n ==> seen[j] == known[j];
    assert forall j :: n <= j < n + n' ==> seen[j] == known[j - n + |pool|];
    if slot.Some? {
      var j :| Undisputed(seen, n, id, short, j) && slot.value == seen[j].tx;
      var j' := if j < n then j else j - n + |pool|;
      assert Matches(short, known[j'], id) && slot.value == known[j'].tx;
    } else if have {
      var j, j' := TwoMatches(slot, have, id, seen, n, short);
      var i, i' := if j < n then j else j - n + |pool|, if j' < n then j' else j' - n + |pool|;
      assert i < i' && Matches(short, known[i], id) && Matches(short, known[i'], id);
    } else {
      assert seen == known;
    }
  }

  /** Free slots are determined by their rank. */
  lemma FreeSlotUnique(s: Slots, k: nat, k': nat, i: nat)
    requires IsFreeSlot(s, k, i) && IsFreeSlot(s, k', i)
    ensures k == k'
  {
    if k < k' {
      FilledAtMost(s, k + 1, k');
    } else if k' < k {
      FilledAtMost(s, k' + 1, k);
    }
  }

  /** The slots of the short ids are exactly those that no prefilled transaction takes. */
  lemma SlotsAreTheRest(s: Slots, c: CompactBlock, slots: seq<nat>, k: nat)
    requires PrefilledPlaced(s, c, |c.prefilled|) && k < |s|
    requires |slots| == |c.shortIds| && forall i :: 0 <= i < |slots| ==> IsFreeSlot(s, slots[i], i)
    ensures k in slots <==> s[k].None?
    ensures s[k].None? <==> !TakenByPrefilled(c, k)
  {
    if s[k].None? {
      var i := k - Filled(s, k);
      FilledAtMost(s, k + 1, |s|);
      assert Filled(s, k + 1) == Filled(s, k);
      FreeSlotUnique(s, k, slots[i], i);
    }
  }

  lemma SlotsDistinct(s: Slots, slots: seq<nat>)
    requires forall i :: 0 <= i < |slots| ==> IsFreeSlot(s, slots[i], i)
    ensures forall i, j :: 0 <= i < j < |slots| ==> slots[i] < slots[j]
    ensures Distinct(slots)
  {
    forall i, j | 0 <= i < j < |slots|
      ensures slots[i] < slots[j]
    {
      FreeSlotsIncrease(s, slots[i], i, slots[j], j);
    }
  }

  /** While short ids are left, so are free slots. */
  lemma FreeSlotAhead(s: Slots, c: CompactBlock, i: nat, offset: nat)
    requires PrefilledPlaced(s, c, |c.prefilled|) && i < |c.shortIds|
    requires i + offset <= |s| && Filled(s, i + offset) == offset
    ensures i + offset < |s|
  {
  }

  /** The first short ids are mapped; of equal ones, the last. */
  ghost predicate MapsSome(m: map<nat, nat>, ids: seq<nat>, slots: seq<nat>) {
    && |slots| <= |ids|
    && m.Keys == Elements(ids[..|slots|])
    && forall x :: x in m ==> exists j :: 0 <= j < |slots| && ids[j] == x && m[x] == slots[j]
  }

  lemma MapsOneMore(m: map<nat, nat>, ids: seq<nat>, slots: seq<nat>, k: nat)
    requires MapsSome(m, ids, slots) && |slots| < |ids|
    ensures MapsSome(m[ids[|slots|] := k], ids, slots + [k])
  {
    var n := |slots|;
    var m', slots' := m[ids[n] := k], slots + [k];
    assert ids[..n + 1] == ids[..n] + [ids[n]];
    forall x | x in m'
      ensures exists j :: 0 <= j < n + 1 && ids[j] == x && m'[x] == slots'[j]
    {
      if x == ids[n] {
        assert slots'[n] == k;
      } else {
        var j :| 0 <= j < n && ids[j] == x && m[x] == slots[j];
        assert slots'[j] == slots[j];
      }
    }
  }

  /** All ids are mapped without loss exactly if the map is as large as the list. */
  lemma MapsAll(m: map<nat, nat>, ids: seq<nat>, slots: seq<nat>)
    requires MapsSome(m, ids, slots) && |slots| == |ids|
    ensures |m| == |ids| <==> Distinct(ids)
    ensures Distinct(ids) ==> Maps(m, ids, slots)
  {
    SizeTellsDistinct(ids);
    assert ids[..|ids|] == ids;
    assert |m| == |m.Keys|;
  }

  lemma PlaceNone(s: Slots, c: CompactBlock)
    requires |s| == c.BlockTxCount() && forall k :: 0 <= k < |s| ==> s[k].None?
    ensures PrefilledPlaced(s, c, 0)
  {
    FilledNone(s, |s|);
  }

  lemma PlaceOne(s: Slots, c: CompactBlock, i: nat)
    requires i < |c.prefilled| && PrefilledPlaced(s, c, i) && PrefilledOk(c, i)
    ensures Position(c.prefilled, i) < |s|
    ensures PrefilledPlaced(s[Position(c.prefilled, i) := Some(c.prefilled[i].tx)], c, i + 1)
  {
    var p := Position(c.prefilled, i);
    forall j | 0 <= j < i
      ensures Position(c.prefilled, j) < p
    {
      PositionsIncrease(c.prefilled, j, i);
    }
    FilledAfter(s, p, Some(c.prefilled[i].tx), |s|);
    var s' := s[p := Some(c.prefilled[i].tx)];
    forall k | 0 <= k < |s'| && s'[k].Some?
      ensures TakenByFirst(c, i + 1, k)
    {
      if k != p {
        var j :| 0 <= j < i && Position(c.prefilled, j) == k;
      }
    }
  }

  // ----- differential coding of index lists

  type Index = x: nat | x <= 0xffff

  ghost predicate Increasing(s: seq<Index>) {
    forall i, j :: 0 <= i < j < |s| ==> s[i] < s[j]
  }

  /** What is written for the i-th index: its distance from the one before, in 64-bit arithmetic. */
  ghost function Diff(s: seq<Index>, i: nat): nat
    requires i < |s|
  {
    (s[i] - if i == 0 then 0 else s[i - 1] as int + 1) % 0x1_0000_0000_0000_0000
  }

  /** What reading makes of the i-th number: the sum of all up to it, with one added in between. */
  ghost function Undiff(stream: seq<nat>, i: nat): nat
    requires i < |stream|
  {
    stream[i] + if i == 0 then 0 else Undiff(stream, i - 1) + 1
  }

  lemma UndiffNext(stream: seq<nat>, i: nat)
    requires i < |stream|
    ensures Undiff(stream, i) == stream[i] + if i == 0 then 0 else Undiff(stream, i - 1) + 1
  {
  }

  lemma {:induction false} UndiffIncreases(stream: seq<nat>, i: nat, j: nat)
    requires i < j < |stream|
    ensures Undiff(stream, i) < Undiff(stream, j)
  {
    if i < j - 1 {
      UndiffIncreases(stream, i, j - 1);
    }
  }

  class BlockTransactionsRequest {
    var indexes: seq<Index>

    constructor (indexes: seq<Index>)
      ensures this.indexes == indexes
    {
      this.indexes := indexes;
    }

    method Serialize() returns (stream: seq<nat>)
      ensures |stream| == |indexes| && forall i :: 0 <= i < |stream| ==> stream[i] == Diff(indexes, i)
    {
      stream := [];
      for i := 0 to |indexes|
        invariant |stream| == i && forall j :: 0 <= j < i ==> stream[j] == Diff(indexes, j)
      {
        var index: int := indexes[i] - (if i == 0 then 0 else indexes[i - 1] as int + 1);
        stream := stream + [index % 0x1_0000_0000_0000_0000];
      }
    }

    /** Read `size` numbers; the list grows by at most a thousand places at a time while they come in. */
    method ReadNumbers(stream: seq<nat>, size: nat) returns (ok: bool)
      modifies this
      ensures ok <==> size <= |stream| && forall i :: 0 <= i < size ==> stream[i] <= 0xffff
      ensures ok ==> |indexes| == size && forall i :: 0 <= i < size ==> indexes[i] == stream[i]
    {
      indexes := [];
      var i := 0;
      while |indexes| < size
        invariant 0 <= i == |indexes| <= size && i <= |stream|
        invariant forall j :: 0 <= j < i ==> stream[j] <= 0xffff && indexes[j] == stream[j]
      {
        var n := if 1000 + |indexes| < size then 1000 + |indexes| else size;
        indexes := indexes + seq(n - |indexes|, _ => 0);
        while i < |indexes|
          invariant 0 <= i <= |indexes| == n && i <= |stream|
          invariant forall j :: 0 <= j < i ==> stream[j] <= 0xffff && indexes[j] == stream[j]
        {
          if i == |stream| || stream[i] > 0xffff {
            return false;
          }
          indexes := indexes[i := stream[i]];
          i := i + 1;
        }
      }
      ok := true;
    }

    /** Read a list; false where the source throws. */
    method Unserialize(stream: seq<nat>, size: nat) returns (ok: bool)
      modifies this
      ensures ok <==> size <= |stream| && forall i :: 0 <= i < size ==> stream[i] <= 0xffff && Undiff(stream, i) <= 0xffff
      ensures ok ==> |indexes| == size && forall i :: 0 <= i < size ==> indexes[i] == Undiff(stream, i)
    {
      hide Undiff;
      ok := ReadNumbers(stream, size);
      if !ok {
        return;
      }
      var offset := 0;
      for j := 0 to |indexes|
        invariant |indexes| == size <= |stream|
        invariant offset == if j == 0 then 0 else Undiff(stream, j - 1) + 1
        invariant forall k :: 0 <= k < j ==> Undiff(stream, k) <= 0xffff && indexes[k] == Undiff(stream, k)
        invariant forall k :: j <= k < size ==> indexes[k] == stream[k]
      {
        UndiffNext(stream, j);
        if indexes[j] as int + offset > 0xffff {
          return false;
        }
        indexes := indexes[j := indexes[j] as int + offset];
        offset := indexes[j] as int + 1;
      }
    }
  }

  /** Whatever is read, the result is strictly increasing. */
  lemma ReadsIncreasing(stream: seq<nat>, s: seq<Index>)
    requires |s| <= |stream| && forall i :: 0 <= i < |s| ==> s[i] == Undiff(stream, i)
    ensures Increasing(s)
  {
    forall i, j | 0 <= i < j < |s|
      ensures s[i] < s[j]
    {
      UndiffIncreases(stream, i, j);
    }
  }

  lemma {:induction false} UndiffOfDiff(s: seq<Index>, stream: seq<nat>, i: nat)
    requires Increasing(s) && |stream| == |s| && forall k :: 0 <= k < |s| ==> stream[k] == Diff(s, k)
    requires i < |s|
    ensures Undiff(stream, i) == s[i] && stream[i] <= 0xffff
  {
    if i > 0 {
      UndiffOfDiff(s, stream, i - 1);
      assert s[i - 1] < s[i];
    }
    assert stream[i] == Diff(s, i);
  }

  /** A list comes back from its coded form exactly if it is strictly increasing. */
  method IndexRoundTrip(s: seq<Index>) returns (ok: bool, back: seq<Index>)
    ensures Increasing(s) <==> ok && back == s
    ensures ok ==> Increasing(back)
  {
    var request := new BlockTransactionsRequest(s);
    var stream := request.Serialize();
    var read := new BlockTransactionsRequest([]);
    ok := read.Unserialize(stream, |stream|);
    back := read.indexes;
    if Increasing(s) {
      forall i | 0 <= i < |s|
        ensures Undiff(stream, i) == s[i] && stream[i] <= 0xffff
      {
        UndiffOfDiff(s, stream, i);
      }
    }
    if ok {
      ReadsIncreasing(stream, back);
    }
  }
}
