/**
 The rolling bloom filter. Each position carries a two-bit generation label,
 bit-sliced over a pair of 64-bit words; starting a generation wipes exactly the
 positions whose label is about to be reused.
 */
module RollingBloom {
  import opened Arithmetic

  // ----- 64-bit words, as the sets of their one bits

  type Word = set<nat>

  const ALL_BITS: Word := set b: nat | b < 64

  function Not(x: Word): Word { ALL_BITS - x }
  function And(x: Word, y: Word): Word { x * y }
  function Or(x: Word, y: Word): Word { x + y }
  function Xor(x: Word, y: Word): Word { (x - y) + (y - x) }

  /** (uint64_t)v << b, for a single bit v. */
  function Shifted(v: nat, b: nat): Word { if v == 1 then {b} else {} }

  /** 0 - (uint64_t)v, for a single bit v: no bits or all of them. */
  function Minus(v: nat): Word { if v == 1 then ALL_BITS else {} }

  /** Word `x` with bit `b` set to `v`. */
  function WithBit(x: Word, b: nat, v: nat): Word { Or(And(x, Not(Shifted(1, b))), Shifted(v, b)) }

  /** The label of a position: 0 is unset, otherwise the generation that set it last. */
  function Label(x1: Word, x2: Word, b: nat): nat {
    (if b in x1 then 1 else 0) + (if b in x2 then 2 else 0)
  }

  /** The mask with a 0 exactly where the label is `gen`. */
  function Mask(x1: Word, x2: Word, gen: nat): Word {
    Or(Xor(x1, Minus(gen % 2)), Xor(x2, Minus(gen / 2)))
  }

  /** Wiping a generation clears its label and no other. */
  lemma WipeLabel(x1: Word, x2: Word, gen: nat, b: nat)
    requires 1 <= gen <= 3 && b < 64
    ensures Label(And(x1, Mask(x1, x2, gen)), And(x2, Mask(x1, x2, gen)), b) ==
            if Label(x1, x2, b) == gen then 0 else Label(x1, x2, b)
  {
    if gen == 1 {
    } else if gen == 2 {
    } else {
      assert gen == 3;
    }
  }

  /** Marking a position gives it the generation's label and leaves its neighbours in the word alone. */
  lemma MarkLabel(x1: Word, x2: Word, gen: nat, b: nat, c: nat)
    requires 1 <= gen <= 3 && b < 64 && c < 64
    ensures Label(WithBit(x1, b, gen % 2), WithBit(x2, b, gen / 2), c) == if c == b then gen else Label(x1, x2, c)
  {
    if gen == 1 {
    } else if gen == 2 {
    } else {
      assert gen == 3;
    }
  }

  /** Among the three generations before `epoch`, only the oldest has its label. */
  lemma SameLabelAgain(e: nat, epoch: nat)
    requires e < epoch <= e + 3
    ensures e % 3 == epoch % 3 <==> e + 3 == epoch
  {
  }

  ghost predicate WholeGenerations(start: int, perGeneration: nat) {
    perGeneration >= 1 && start % perGeneration == 0
  }

  lemma OneMoreGeneration(start: int, perGeneration: nat)
    requires WholeGenerations(start, perGeneration)
    ensures WholeGenerations(start + perGeneration, perGeneration)
  {
    var q := start / perGeneration;
    assert start + perGeneration == perGeneration * q + perGeneration;
    DivUnique(start + perGeneration, perGeneration, q + 1, 0);
  }

  /** Which generations the latest keys belong to; a generation starts after a number of full ones. */
  ghost predicate Ages(epochOf: seq<nat>, start: int, perGeneration: nat, epoch: nat) {
    && WholeGenerations(start, perGeneration)
    && (forall i :: 0 <= i < |epochOf| ==> epochOf[i] <= epoch)
    && (forall i :: 0 <= i < |epochOf| ==> (i >= start <==> epochOf[i] == epoch))
    && (forall i :: 0 <= i < |epochOf| ==> (i >= start - perGeneration <==> epochOf[i] + 1 >= epoch))
    && (forall i :: 0 <= i < |epochOf| ==> (i >= start - 2 * perGeneration <==> epochOf[i] + 2 >= epoch))
  }

  /** The stamps that a new generation leaves: those of the two before it. */
  ghost function Remembered(stamp: map<(nat, nat), nat>, epoch: nat): (r: map<(nat, nat), nat>)
    ensures forall s :: s in r <==> s in stamp && stamp[s] + 2 >= epoch
    ensures forall s :: s in r ==> r[s] == stamp[s]
  {
    map s | s in stamp && stamp[s] + 2 >= epoch :: stamp[s]
  }

  /** A full generation becomes the one before the current. */
  lemma AgesShift(epochOf: seq<nat>, start: int, perGeneration: nat, epoch: nat)
    requires Ages(epochOf, start, perGeneration, epoch) && |epochOf| == start + perGeneration
    ensures Ages(epochOf, start + perGeneration, perGeneration, epoch + 1)
  {
    hide WholeGenerations;
    OneMoreGeneration(start, perGeneration);
  }

  /** One more key in the current generation. */
  lemma AgesOneMore(epochOf: seq<nat>, start: int, perGeneration: nat, epoch: nat)
    requires Ages(epochOf, start, perGeneration, epoch) && start <= |epochOf|
    ensures Ages(epochOf + [epoch], start, perGeneration, epoch)
  {
    hide WholeGenerations;
  }

  class RollingBloomFilter<Key(==, !new)> {
    const hash: (nat, nat, Key) -> nat  // tweak, number of the hash function, key
    const hashFuncs: nat
    const entriesPerGeneration: nat
    const data: array<Word>

    var tweak: nat
    var entriesThisGeneration: nat
    var generation: nat

    // Since the last reset: the keys in order, with the number of the generation each was inserted
    // in; the current generation's number and first key; and for each labelled position the
    // generation that marked it last.
    ghost var history: seq<Key>
    ghost var epochOf: seq<nat>
    ghost var epoch: nat
    ghost var start: int
    ghost var stamp: map<(nat, nat), nat>

    /** The word pair and the bit that hash function `n` assigns to a key. */
    function Spot(n: nat, key: Key): (r: (nat, nat))
      requires Shape()
      reads this`tweak
      ensures 2 * r.0 + 1 < data.Length && r.1 < 64
    {
      var h := hash(tweak, n, key) % 0x1_0000_0000;
      (FastMod(h, data.Length) / 2, h % 64)
    }

    ghost predicate Shape() {
      data.Length > 0 && data.Length % 2 == 0 && entriesPerGeneration >= 1 && hashFuncs >= 1
    }

    function LabelAt(w: nat, b: nat): nat
      requires 2 * w + 1 < data.Length
      reads data
    {
      Label(data[2 * w], data[2 * w + 1], b)
    }

    /** Every label is the one of the generation that marked the position, one of the last three. */
    ghost predicate LabelsOk()
      requires Shape()
      reads this`epoch, this`stamp, data
    {
      forall w: nat, b: nat :: 2 * w + 1 < data.Length && b < 64 ==>
        && ((w, b) in stamp ==> epoch <= stamp[(w, b)] + 2 && stamp[(w, b)] <= epoch && LabelAt(w, b) == stamp[(w, b)] % 3 + 1)
        && ((w, b) !in stamp ==> LabelAt(w, b) == 0)
    }

    /** The spots of a key inserted in one of the last three generations were marked no earlier than that. */
    ghost predicate KeyMarked(i: nat)
      requires Shape() && i < |history| == |epochOf|
      reads this
    {
      forall n: nat :: n < hashFuncs ==>
        Spot(n, history[i]) in stamp && stamp[Spot(n, history[i])] >= epochOf[i]
    }

    /** Position `s` is one that some hash function assigns to `key`. */
    ghost predicate IsSpot(key: Key, s: (nat, nat))
      requires Shape()
      reads this`tweak
    {
      exists n: nat :: n < hashFuncs && Spot(n, key) == s
    }

    /** Every mark was set by a key, in the generation of its stamp. */
    ghost predicate MarksAreSpots()
      requires Shape() && |history| == |epochOf|
      reads this
    {
      forall s :: s in stamp ==> exists i: nat :: i < |history| && epochOf[i] == stamp[s] && IsSpot(history[i], s)
    }

    /** Some key of the current generation or the two before it has position `s`. */
    ghost predicate Remembers(s: (nat, nat))
      requires Shape()
      reads this
    {
      exists i: nat :: start - 2 * entriesPerGeneration <= i < |history| && IsSpot(history[i], s)
    }

    /** The invariant, but for the moment when a generation has begun and has no key yet. */
    ghost predicate Core()
      reads this, data
    {
      && Shape()
      && generation == epoch % 3 + 1
      && entriesThisGeneration <= entriesPerGeneration
      && |history| == |epochOf| == start + entriesThisGeneration
      && Ages(epochOf, start, entriesPerGeneration, epoch)
      && LabelsOk() && (forall s :: s in stamp ==> stamp[s] <= epoch)
      && (forall i: nat :: i < |history| && epochOf[i] + 2 >= epoch ==> KeyMarked(i))
      && MarksAreSpots()
    }

    /** Of the keys, the current generation has those from `start` on, at least one unless there is none at all. */
    ghost predicate Valid()
      reads this, data
    {
      Core() && (|history| > 0 ==> entriesThisGeneration > 0)
    }

    /** The sizes come from the wanted number of elements and false positive rate; only the first matters here. */
    constructor (hash: (nat, nat, Key) -> nat, elements: nat, hashFuncs: nat, wordPairs: nat, tweak: nat)
      requires elements >= 1 && hashFuncs >= 1 && wordPairs >= 1
      ensures Valid() && history == [] && fresh(data) && this.tweak == tweak && this.hash == hash && this.hashFuncs == hashFuncs
      ensures entriesPerGeneration == (elements + 1) / 2 && data.Length == 2 * wordPairs
      ensures elements <= 2 * entriesPerGeneration
    {
      this.hash := hash;
      this.hashFuncs := hashFuncs;
      entriesPerGeneration := (elements + 1) / 2;
      data := new Word[2 * wordPairs](_ => {});
      this.tweak := tweak;
      entriesThisGeneration := 0;
      generation := 1;
      history, epochOf, epoch, start, stamp := [], [], 0, 0, map[];
    }

    method Reset(tweak: nat)
      requires Shape()
      modifies this, data
      ensures Valid() && history == [] && this.tweak == tweak
    {
      this.tweak := tweak;
      entriesThisGeneration := 0;
      generation := 1;
      for i := 0 to data.Length
        invariant forall k :: 0 <= k < i ==> data[k] == {}
        invariant entriesThisGeneration == 0 && generation == 1 && this.tweak == tweak
      {
        data[i] := {};
      }
      history, epochOf, epoch, start, stamp := [], [], 0, 0, map[];
    }

    /** Wipe the label `gen` everywhere. */
    method Wipe(gen: nat)
      requires Shape() && 1 <= gen <= 3
      modifies data
      ensures forall w: nat, b: nat :: 2 * w + 1 < data.Length && b < 64 ==>
                LabelAt(w, b) == if old(LabelAt(w, b)) == gen then 0 else old(LabelAt(w, b))
    {
      var p := 0;
      while p < data.Length
        invariant 0 <= p <= data.Length && p % 2 == 0
        invariant forall q :: p <= q < data.Length ==> data[q] == old(data[q])
        invariant forall w: nat, b: nat :: 2 * w < p && b < 64 ==>
                    LabelAt(w, b) == if old(LabelAt(w, b)) == gen then 0 else old(LabelAt(w, b))
      {
        var p1, p2 := data[p], data[p + 1];
        data[p] := And(p1, Mask(p1, p2, gen));
        data[p + 1] := And(p2, Mask(p1, p2, gen));
        forall w: nat, b: nat | 2 * w == p && b < 64
          ensures LabelAt(w, b) == if old(LabelAt(w, b)) == gen then 0 else old(LabelAt(w, b))
        {
          WipeLabel(p1, p2, gen, b);
        }
        p := p + 2;
      }
    }

    /** Wiping the label of a new generation forgets exactly the positions marked three generations back. */
    twostate lemma LabelsAfterWipe()
      requires Shape() && old(LabelsOk()) && epoch == old(epoch) + 1
      requires forall w: nat, b: nat :: 2 * w + 1 < data.Length && b < 64 ==>
                 LabelAt(w, b) == if old(LabelAt(w, b)) == epoch % 3 + 1 then 0 else old(LabelAt(w, b))
      requires stamp == Remembered(old(stamp), epoch)
      ensures LabelsOk()
    {
      hide LabelAt;
      forall w: nat, b: nat | 2 * w + 1 < data.Length && b < 64
        ensures (w, b) in stamp ==> epoch <= stamp[(w, b)] + 2 && stamp[(w, b)] <= epoch && LabelAt(w, b) == stamp[(w, b)] % 3 + 1
        ensures (w, b) !in stamp ==> LabelAt(w, b) == 0
      {
        if (w, b) in old(stamp) {
          SameLabelAgain(old(stamp)[(w, b)], epoch);
        }
      }
    }

    /** A key of the last three generations keeps its marks when older ones are forgotten. */
    twostate lemma StillMarked()
      requires Shape() && |history| == |epochOf| && unchanged(`tweak) && unchanged(`history) && unchanged(`epochOf)
      requires forall i: nat :: i < |history| && epochOf[i] + 2 >= epoch ==> old(KeyMarked(i))
      requires stamp == Remembered(old(stamp), epoch)
      ensures forall i: nat :: i < |history| && epochOf[i] + 2 >= epoch ==> KeyMarked(i)
    {
    }

    /** Start a generation: wipe the label it is going to use, and so forget the generation three back. */
    method NewGeneration()
      requires Core() && entriesThisGeneration == entriesPerGeneration
      modifies this, data
      ensures Core() && history == old(history) && tweak == old(tweak)
      ensures entriesThisGeneration == 0 && epoch == old(epoch) + 1 && generation == old(generation) % 3 + 1
      // Exactly the marks of the generation whose label comes round again are gone, those set three generations back.
      ensures stamp == Remembered(old(stamp), epoch)
      ensures forall w: nat, b: nat :: 2 * w + 1 < data.Length && b < 64 ==>
                LabelAt(w, b) == if old(LabelAt(w, b)) == generation then 0 else old(LabelAt(w, b))
    {
      hide LabelsOk, LabelAt, KeyMarked, Ages, Remembered, MarksAreSpots;
      AgesShift(epochOf, start, entriesPerGeneration, epoch);
      entriesThisGeneration := 0;
      generation := generation + 1;
      if generation == 4 {
        generation := 1;
      }
      Wipe(generation);
      epoch := epoch + 1;
      start := start + entriesPerGeneration;
      stamp := Remembered(stamp, epoch);
      LabelsAfterWipe();
      StillMarked();
      StillSpots();
    }

    twostate lemma StillSpots()
      requires Shape() && |history| == |epochOf| && unchanged(`tweak) && unchanged(`history) && unchanged(`epochOf)
      requires old(MarksAreSpots()) && stamp == Remembered(old(stamp), epoch)
      ensures MarksAreSpots()
    {
    }

    /** Give a position the current generation's label. */
    method MarkSpot(w: nat, b: nat)
      requires Shape() && LabelsOk() && generation == epoch % 3 + 1 && 2 * w + 1 < data.Length && b < 64
      modifies data, this`stamp
      ensures LabelsOk() && stamp == old(stamp)[(w, b) := epoch]
    {
      var x1, x2 := data[2 * w], data[2 * w + 1];
      data[2 * w] := WithBit(x1, b, generation % 2);
      data[2 * w + 1] := WithBit(x2, b, generation / 2);
      stamp := stamp[(w, b) := epoch];
      forall w': nat, b': nat | 2 * w' + 1 < data.Length && b' < 64
        ensures LabelAt(w', b') == if w' == w && b' == b then generation else old(LabelAt(w', b'))
      {
        if w' == w {
          MarkLabel(x1, x2, generation, b, b');
        }
      }
    }

    lemma SpotIsSpot(n: nat, key: Key)
      requires Shape() && n < hashFuncs
      ensures IsSpot(key, Spot(n, key))
    {
    }

    /** Mark every spot of a key. */
    method MarkKey(key: Key)
      requires Shape() && LabelsOk() && generation == epoch % 3 + 1
      requires forall s :: s in stamp ==> stamp[s] <= epoch
      modifies data, this`stamp
      ensures LabelsOk()
      ensures forall s :: s in stamp ==> stamp[s] <= epoch
      ensures forall s :: s in old(stamp) ==> s in stamp && stamp[s] >= old(stamp)[s]
      ensures forall k: nat :: k < hashFuncs ==> Spot(k, key) in stamp && stamp[Spot(k, key)] == epoch
      ensures forall s :: s in stamp ==> (IsSpot(key, s) && stamp[s] == epoch) || (s in old(stamp) && stamp[s] == old(stamp)[s])
    {
      hide LabelsOk, IsSpot, Spot, FastMod;
      for n := 0 to hashFuncs
        invariant LabelsOk()
        invariant forall s :: s in old(stamp) ==> s in stamp && stamp[s] >= old(stamp)[s]
        invariant forall s :: s in stamp ==> stamp[s] <= epoch
        invariant forall k: nat :: k < n ==> Spot(k, key) in stamp && stamp[Spot(k, key)] == epoch
        invariant forall s :: s in stamp ==> (IsSpot(key, s) && stamp[s] == epoch) || (s in old(stamp) && stamp[s] == old(stamp)[s])
      {
        var (w, b) := Spot(n, key);
        SpotIsSpot(n, key);
        MarkSpot(w, b);
      }
    }

    method Insert(key: Key)
      requires Valid()
      modifies this, data
      ensures Valid() && history == old(history) + [key] && tweak == old(tweak)
    {
      hide LabelsOk, LabelAt, Remembered, Ages, MarksAreSpots;
      if entriesThisGeneration == entriesPerGeneration {
        NewGeneration();
      }
      label begun:
      entriesThisGeneration := entriesThisGeneration + 1;
      MarkKey(key);
      AgesOneMore(epochOf, start, entriesPerGeneration, epoch);
      history := history + [key];
      epochOf := epochOf + [epoch];
      forall i: nat | i < |history| && epochOf[i] + 2 >= epoch
        ensures KeyMarked(i)
      {
        if i < |history| - 1 {
          assert old@begun(KeyMarked(i));
        }
      }
      SpotsOfNewKey@begun(key);
    }

    twostate lemma SpotsOfNewKey(new key: Key)
      requires Shape() && unchanged(`tweak) && old(|history| == |epochOf| && MarksAreSpots())
      requires history == old(history) + [key] && epochOf == old(epochOf) + [epoch]
      requires forall s :: s in stamp ==> (IsSpot(key, s) && stamp[s] == epoch) || (s in old(stamp) && stamp[s] == old(stamp)[s])
      ensures MarksAreSpots()
    {
      hide IsSpot;
      forall s | s in stamp
        ensures exists i: nat :: i < |history| && epochOf[i] == stamp[s] && IsSpot(history[i], s)
      {
        if s in old(stamp) && stamp[s] == old(stamp)[s] {
          var i: nat :| i < |old(history)| && old(epochOf)[i] == stamp[s] && old(IsSpot(history[i], s));
          assert history[i] == old(history)[i] && epochOf[i] == stamp[s];
          SameSpots(history[i], s);
        } else {
          assert history[|old(history)|] == key && epochOf[|old(history)|] == epoch;
        }
      }
    }

    twostate lemma SameSpots(new key: Key, new s: (nat, nat))
      requires Shape() && unchanged(`tweak)
      ensures IsSpot(key, s) == old(IsSpot(key, s))
    {
    }

    method Contains(key: Key) returns (r: bool)
      requires Shape()
      ensures r <==> forall n: nat :: n < hashFuncs ==> LabelAt(Spot(n, key).0, Spot(n, key).1) != 0
      // So the answer depends on the keys of the current generation and the two before it, and on nothing else.
      ensures Valid() ==> (r <==> forall n: nat :: n < hashFuncs ==> Remembers(Spot(n, key)))
      // No key of the last two full generations is missed.
      ensures Valid() ==> forall i: nat :: i < |history| <= i + 2 * entriesPerGeneration && history[i] == key ==> r
    {
      if Valid() {
        forall i: nat | i < |history| <= i + 2 * entriesPerGeneration && history[i] == key
          ensures forall n: nat :: n < hashFuncs ==> LabelAt(Spot(n, key).0, Spot(n, key).1) != 0
        {
          RemembersTheLatest(i, 2 * entriesPerGeneration);
        }
        forall n: nat | n < hashFuncs
          ensures LabelAt(Spot(n, key).0, Spot(n, key).1) != 0 <==> Remembers(Spot(n, key))
        {
          LabelledIff(Spot(n, key));
        }
      }
      hide Valid, LabelAt, Remembers;
      for n := 0 to hashFuncs
        invariant forall k: nat :: k < n ==> LabelAt(Spot(k, key).0, Spot(k, key).1) != 0
      {
        var (w, b) := Spot(n, key);
        if b !in Or(data[2 * w], data[2 * w + 1]) {
          return false;
        }
      }
      return true;
    }

    /** Exactly the positions of the keys of the current generation and the two before it carry a mark. */
    lemma LabelledIff(s: (nat, nat))
      requires Valid() && 2 * s.0 + 1 < data.Length && s.1 < 64
      ensures LabelAt(s.0, s.1) != 0 <==> Remembers(s)
    {
      if LabelAt(s.0, s.1) != 0 {
        assert s in stamp;
        var i: nat :| i < |history| && epochOf[i] == stamp[s] && IsSpot(history[i], s);
      }
      if Remembers(s) {
        var i: nat :| start - 2 * entriesPerGeneration <= i < |history| && IsSpot(history[i], s);
        assert KeyMarked(i);
        assert (s.0, s.1) in stamp;
      }
    }

    /** Without keys nothing is found. */
    lemma NothingAtFirst(key: Key)
      requires Valid() && history == []
      ensures exists n: nat :: n < hashFuncs && !Remembers(Spot(n, key)) && LabelAt(Spot(n, key).0, Spot(n, key).1) == 0
    {
      LabelledIff(Spot(0, key));
    }

    /** The last `elements` keys inserted since the reset are always found. */
    lemma RemembersTheLatest(i: nat, elements: nat)
      requires Valid() && elements <= 2 * entriesPerGeneration
      requires i < |history| && i + elements >= |history|
      ensures forall n: nat :: n < hashFuncs ==> LabelAt(Spot(n, history[i]).0, Spot(n, history[i]).1) != 0
    {
      assert epochOf[i] + 2 >= epoch;
      assert KeyMarked(i);
    }
  }
}
