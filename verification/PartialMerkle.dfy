/**
 Partial Merkle trees ("Partial Merkle branch format" of BIP 37): a depth-first
 encoding of the part of a Merkle tree that proves a set of transaction ids,
 its decoding, and its packing into bytes.
 */
module PartialMerkle {
  import opened Arithmetic

  type Hash = nat

  const NULL_HASH: Hash := 0
  const MAX_TRANSACTIONS := 4000000 / (4 * 60)  // MAX_BLOCK_WEIGHT / MIN_TRANSACTION_WEIGHT

  // ----- the shape of the tree

  /** The number of nodes at height `h` of the tree over `n` leaves. */
  function CalcTreeWidth(n: nat, h: nat): nat {
    (n + Pow2(h) - 1) / Pow2(h)
  }

  /** `w` nodes of `p` leaves each are needed for `n` leaves, and no fewer. */
  ghost predicate Covers(n: nat, w: nat, p: nat) {
    n <= w * p && (w > 0 ==> (w - 1) * p < n)
  }

  lemma DivisionCovers(n: nat, p: nat)
    requires p >= 1
    ensures Covers(n, (n + p - 1) / p, p)
  {
    var m := n + p - 1;
    var w := m / p;
    DivMod(m, p);
    MulSum(w, 1, p);
  }

  lemma CoversUnique(n: nat, v: nat, w: nat, p: nat)
    requires p >= 1 && Covers(n, v, p) && Covers(n, w, p)
    ensures v == w
  {
    if v < w {
      MulLe(v, w - 1, p);
    } else if w < v {
      MulLe(w, v - 1, p);
    }
  }

  lemma WidthCovers(n: nat, h: nat)
    ensures Covers(n, CalcTreeWidth(n, h), Pow2(h))
  {
    DivisionCovers(n, Pow2(h));
  }

  lemma HalfCovers(n: nat, v: nat, p: nat)
    requires Covers(n, v, p)
    ensures Covers(n, (v + 1) / 2, 2 * p)
  {
    var w := (v + 1) / 2;
    MulLe(v, 2 * w, p);
    MulAssoc(w, 2, p);
    if w > 0 {
      MulLe(2 * (w - 1), v - 1, p);
      MulAssoc(w - 1, 2, p);
    }
  }

  /** Each level is half the one below, rounded up. */
  lemma WidthHalves(n: nat, h: nat)
    requires h > 0
    ensures CalcTreeWidth(n, h) == (CalcTreeWidth(n, h - 1) + 1) / 2
  {
    var v := CalcTreeWidth(n, h - 1);
    WidthCovers(n, h);
    WidthCovers(n, h - 1);
    HalfCovers(n, v, Pow2(h - 1));
    CoversUnique(n, CalcTreeWidth(n, h), (v + 1) / 2, Pow2(h));
  }

  lemma WidthAtLeaves(n: nat)
    ensures CalcTreeWidth(n, 0) == n
  {
  }

  lemma ChildInRange(n: nat, h: nat, pos: nat)
    requires h > 0 && pos < CalcTreeWidth(n, h)
    ensures 2 * pos < CalcTreeWidth(n, h - 1)
  {
    hide CalcTreeWidth;
    WidthHalves(n, h);
  }

  /** The leaves under node `pos` at height `h` are those from First(h, pos) up to First(h, pos + 1). */
  function First(h: nat, pos: nat): nat {
    MulNotNegative(pos, Pow2(h));
    pos * Pow2(h)
  }

  lemma FirstOfChildren(h: nat, pos: nat)
    requires h > 0
    ensures First(h - 1, 2 * pos) == First(h, pos)
    ensures First(h - 1, 2 * pos + 2) == First(h, pos + 1)
    ensures First(h - 1, 2 * pos) <= First(h - 1, 2 * pos + 1) <= First(h - 1, 2 * pos + 2)
  {
    MulAssoc(pos, 2, Pow2(h - 1));
    MulAssoc(pos + 1, 2, Pow2(h - 1));
    MulLe(2 * pos, 2 * pos + 1, Pow2(h - 1));
    MulLe(2 * pos + 1, 2 * pos + 2, Pow2(h - 1));
  }

  /** A node is there exactly when it has a leaf. */
  lemma NodeHasLeaf(n: nat, h: nat, pos: nat)
    ensures pos < CalcTreeWidth(n, h) <==> First(h, pos) < n
  {
    hide CalcTreeWidth;
    var w := CalcTreeWidth(n, h);
    WidthCovers(n, h);
    if pos < w {
      MulLe(pos, w - 1, Pow2(h));
    } else {
      MulLe(w, pos, Pow2(h));
    }
  }

  // ----- hashes and matches

  /** The hash of a node; a missing right child counts as a copy of the left one. */
  function CalcHash(combine: (Hash, Hash) -> Hash, txids: seq<Hash>, h: nat, pos: nat): Hash
    requires pos < CalcTreeWidth(|txids|, h)
  {
    if h == 0 then
      WidthAtLeaves(|txids|);
      txids[pos]
    else
      ChildInRange(|txids|, h, pos);
      var left := CalcHash(combine, txids, h - 1, 2 * pos);
      var right := if 2 * pos + 1 < CalcTreeWidth(|txids|, h - 1) then CalcHash(combine, txids, h - 1, 2 * pos + 1) else left;
      combine(left, right)
  }

  ghost predicate Injective(combine: (Hash, Hash) -> Hash) {
    forall a, b, c, d :: combine(a, b) == combine(c, d) ==> a == c && b == d
  }

  lemma InjectiveAt(combine: (Hash, Hash) -> Hash, a: Hash, b: Hash, c: Hash, d: Hash)
    requires Injective(combine) && combine(a, b) == combine(c, d)
    ensures a == c && b == d
  {
  }

  ghost predicate Distinct(txids: seq<Hash>) {
    forall i, j :: 0 <= i < j < |txids| ==> txids[i] != txids[j]
  }

  /** Equal hashes at one height have equal first leaves. */
  lemma {:induction false} EqualHashesEqualLeaves(combine: (Hash, Hash) -> Hash, txids: seq<Hash>, h: nat, pos: nat, pos': nat)
    requires Injective(combine)
    requires pos < CalcTreeWidth(|txids|, h) && pos' < CalcTreeWidth(|txids|, h)
    requires CalcHash(combine, txids, h, pos) == CalcHash(combine, txids, h, pos')
    ensures First(h, pos) < |txids| && First(h, pos') < |txids|
    ensures txids[First(h, pos)] == txids[First(h, pos')]
  {
    hide CalcTreeWidth;
    NodeHasLeaf(|txids|, h, pos);
    NodeHasLeaf(|txids|, h, pos');
    if h > 0 {
      ChildInRange(|txids|, h, pos);
      ChildInRange(|txids|, h, pos');
      EqualHashesEqualLeaves(combine, txids, h - 1, 2 * pos, 2 * pos');
      FirstOfChildren(h, pos);
      FirstOfChildren(h, pos');
    }
  }

  /** Siblings over distinct transaction ids never look the same. */
  lemma SiblingsDiffer(combine: (Hash, Hash) -> Hash, txids: seq<Hash>, h: nat, pos: nat)
    requires Injective(combine) && Distinct(txids)
    requires pos + 1 < CalcTreeWidth(|txids|, h)
    ensures CalcHash(combine, txids, h, pos) != CalcHash(combine, txids, h, pos + 1)
  {
    hide CalcTreeWidth, CalcHash;
    if CalcHash(combine, txids, h, pos) == CalcHash(combine, txids, h, pos + 1) {
      EqualHashesEqualLeaves(combine, txids, h, pos, pos + 1);
      MulSum(pos, 1, Pow2(h));
    }
  }

  /** The matched indices from `lo` up to `hi`, in order. */
  function Matched(matching: seq<bool>, lo: nat, hi: nat): (r: seq<nat>)
    ensures forall k :: 0 <= k < |r| ==> lo <= r[k] < hi && r[k] < |matching| && matching[r[k]]
    decreases if lo < |matching| then |matching| - lo else 0
  {
    if lo >= hi || lo >= |matching| then []
    else (if matching[lo] then [lo] else []) + Matched(matching, lo + 1, hi)
  }

  lemma {:induction false} MatchedSplits(matching: seq<bool>, lo: nat, mid: nat, hi: nat)
    requires lo <= mid <= hi
    ensures Matched(matching, lo, hi) == Matched(matching, lo, mid) + Matched(matching, mid, hi)
    decreases mid - lo
  {
    if lo < mid {
      MatchedSplits(matching, lo + 1, mid, hi);
    }
  }

  /** Every match in the range is listed, exactly once and in order. */
  lemma {:induction false} MatchedComplete(matching: seq<bool>, lo: nat, hi: nat)
    ensures forall p :: lo <= p < hi && p < |matching| && matching[p] ==> p in Matched(matching, lo, hi)
    ensures forall k, l :: 0 <= k < l < |Matched(matching, lo, hi)| ==> Matched(matching, lo, hi)[k] < Matched(matching, lo, hi)[l]
    decreases if lo < |matching| then |matching| - lo else 0
  {
    if lo < hi && lo < |matching| {
      MatchedComplete(matching, lo + 1, hi);
    }
  }

  function TxidsAt(txids: seq<Hash>, indexes: seq<nat>): seq<Hash>
    requires forall k :: 0 <= k < |indexes| ==> indexes[k] < |txids|
  {
    seq(|indexes|, k requires 0 <= k < |indexes| => txids[indexes[k]])
  }

  // ----- encoding

  predicate ParentOfMatch(matching: seq<bool>, h: nat, pos: nat) {
    Matched(matching, First(h, pos), First(h, pos + 1)) != []
  }

  /** The flag bits of the subtree at a node, depth first. */
  function BitsOf(matching: seq<bool>, h: nat, pos: nat): (r: seq<bool>)
    ensures |r| >= 1
  {
    var flag := ParentOfMatch(matching, h, pos);
    if h == 0 || !flag then [flag]
    else
      [flag] + BitsOf(matching, h - 1, 2 * pos)
      + if 2 * pos + 1 < CalcTreeWidth(|matching|, h - 1) then BitsOf(matching, h - 1, 2 * pos + 1) else []
  }

  /** The hashes stored for the subtree at a node, depth first. */
  function HashesOf(combine: (Hash, Hash) -> Hash, txids: seq<Hash>, matching: seq<bool>, h: nat, pos: nat): seq<Hash>
    requires |txids| == |matching| && pos < CalcTreeWidth(|txids|, h)
  {
    if h == 0 || !ParentOfMatch(matching, h, pos) then [CalcHash(combine, txids, h, pos)]
    else
      ChildInRange(|txids|, h, pos);
      HashesOf(combine, txids, matching, h - 1, 2 * pos)
      + if 2 * pos + 1 < CalcTreeWidth(|matching|, h - 1) then HashesOf(combine, txids, matching, h - 1, 2 * pos + 1) else []
  }

  /** A subtree stores no more hashes than it has leaves, and no more hashes than bits. */
  lemma {:induction false} EncodingIsSmall(combine: (Hash, Hash) -> Hash, txids: seq<Hash>, matching: seq<bool>, h: nat, pos: nat)
    requires |txids| == |matching| && pos < CalcTreeWidth(|txids|, h)
    ensures First(h, pos) + |HashesOf(combine, txids, matching, h, pos)| <= |txids|
    ensures First(h, pos + 1) <= |txids| ==> First(h, pos) + |HashesOf(combine, txids, matching, h, pos)| <= First(h, pos + 1)
    ensures |HashesOf(combine, txids, matching, h, pos)| <= |BitsOf(matching, h, pos)|
  {
    hide CalcTreeWidth, ParentOfMatch, CalcHash, Matched, First;
    NodeHasLeaf(|txids|, h, pos);
    FirstGrows(h, pos);
    if h > 0 && ParentOfMatch(matching, h, pos) {
      ChildInRange(|txids|, h, pos);
      FirstOfChildren(h, pos);
      NodeHasLeaf(|txids|, h - 1, 2 * pos + 1);
      EncodingIsSmall(combine, txids, matching, h - 1, 2 * pos);
      if 2 * pos + 1 < CalcTreeWidth(|txids|, h - 1) {
        EncodingIsSmall(combine, txids, matching, h - 1, 2 * pos + 1);
      }
    }
  }

  lemma FirstGrows(h: nat, pos: nat)
    ensures First(h, pos) < First(h, pos + 1)
  {
    MulSum(pos, 1, Pow2(h));
  }

  // ----- decoding

  /** Where a decoder is: bits and hashes used, trouble seen, and the matches found. */
  datatype Cursor = Cursor(nBits: nat, nHash: nat, bad: bool, matches: seq<Hash>, indexes: seq<nat>)

  /** Decode the subtree at a node, of a tree over `n` leaves. Decoding goes on after trouble. */
  function Extract(combine: (Hash, Hash) -> Hash, n: nat, bits: seq<bool>, hashes: seq<Hash>, h: nat, pos: nat, c: Cursor): (Hash, Cursor)
    decreases h
  {
    if c.nBits >= |bits| then (NULL_HASH, c.(bad := true))
    else
      var flag := bits[c.nBits];
      var c1 := c.(nBits := c.nBits + 1);
      if h == 0 || !flag then
        if c1.nHash >= |hashes| then (NULL_HASH, c1.(bad := true))
        else
          var hash := hashes[c1.nHash];
          var c2 := c1.(nHash := c1.nHash + 1);
          (hash, if h == 0 && flag then c2.(matches := c2.matches + [hash], indexes := c2.indexes + [pos]) else c2)
      else
        var (left, c2) := Extract(combine, n, bits, hashes, h - 1, 2 * pos, c1);
        if 2 * pos + 1 < CalcTreeWidth(n, h - 1) then
          var (right, c3) := Extract(combine, n, bits, hashes, h - 1, 2 * pos + 1, c2);
          (combine(left, right), if right == left then c3.(bad := true) else c3)
        else (combine(left, left), c2)
  }

  ghost predicate StartsWith<T>(s: seq<T>, at: nat, part: seq<T>) {
    at + |part| <= |s| && s[at..at + |part|] == part
  }

  lemma StartsWithBoth<T>(s: seq<T>, at: nat, a: seq<T>, b: seq<T>)
    requires StartsWith(s, at, a + b)
    ensures StartsWith(s, at, a) && StartsWith(s, at + |a|, b)
  {
    var slice := s[at..at + |a + b|];
    assert s[at..at + |a|] == slice[..|a|] == a;
    assert s[at + |a|..at + |a| + |b|] == slice[|a|..] == b;
  }

  /** Nothing is matched in the part of the range beyond the last leaf. */
  lemma NothingBeyond(matching: seq<bool>, lo: nat, hi: nat)
    requires lo >= |matching|
    ensures Matched(matching, lo, hi) == []
  {
  }

  lemma TxidsAtBoth(txids: seq<Hash>, a: seq<nat>, b: seq<nat>)
    requires forall k :: 0 <= k < |a| ==> a[k] < |txids|
    requires forall k :: 0 <= k < |b| ==> b[k] < |txids|
    ensures TxidsAt(txids, a + b) == TxidsAt(txids, a) + TxidsAt(txids, b)
  {
  }

  lemma LeafMatch(txids: seq<Hash>, matching: seq<bool>, pos: nat)
    requires |txids| == |matching| && pos < CalcTreeWidth(|txids|, 0)
    ensures pos < |txids|
    ensures Matched(matching, First(0, pos), First(0, pos + 1)) == if matching[pos] then [pos] else []
    ensures TxidsAt(txids, if matching[pos] then [pos] else []) == if matching[pos] then [txids[pos]] else []
  {
    WidthAtLeaves(|txids|);
    assert Matched(matching, pos + 1, pos + 1) == [];
  }

  // ----- proofs as trees

  /** A partial tree: a node is stored by its hash, or stands for its two children or its only one. */
  datatype Node = Stored(hash: Hash, matched: bool) | Two(left: Node, right: Node) | One(child: Node)

  /** The tree has the shape that a subtree of a tree over `n` leaves has; only leaves are matched. */
  ghost predicate Fits(t: Node, n: nat, h: nat, pos: nat) {
    match t
    case Stored(_, matched) => matched ==> h == 0
    case Two(left, right) => h > 0 && 2 * pos + 1 < CalcTreeWidth(n, h - 1) && Fits(left, n, h - 1, 2 * pos) && Fits(right, n, h - 1, 2 * pos + 1)
    case One(child) => h > 0 && 2 * pos + 1 >= CalcTreeWidth(n, h - 1) && Fits(child, n, h - 1, 2 * pos)
  }

  ghost function Flags(t: Node): (r: seq<bool>)
    ensures |r| >= 1
  {
    match t
    case Stored(_, matched) => [matched]
    case Two(left, right) => [true] + (Flags(left) + Flags(right))
    case One(child) => [true] + Flags(child)
  }

  ghost function Stores(t: Node): seq<Hash> {
    match t
    case Stored(hash, _) => [hash]
    case Two(left, right) => Stores(left) + Stores(right)
    case One(child) => Stores(child)
  }

  /** The hash of the node that the tree stands for. */
  ghost function Value(combine: (Hash, Hash) -> Hash, t: Node): Hash {
    match t
    case Stored(hash, _) => hash
    case Two(left, right) => combine(Value(combine, left), Value(combine, right))
    case One(child) => combine(Value(combine, child), Value(combine, child))
  }

  /** No two siblings have the same hash. */
  ghost predicate Clean(combine: (Hash, Hash) -> Hash, t: Node) {
    match t
    case Stored(_, _) => true
    case Two(left, right) => Clean(combine, left) && Clean(combine, right) && Value(combine, left) != Value(combine, right)
    case One(child) => Clean(combine, child)
  }

  ghost function MatchesOf(t: Node): seq<Hash> {
    match t
    case Stored(hash, matched) => if matched then [hash] else []
    case Two(left, right) => MatchesOf(left) + MatchesOf(right)
    case One(child) => MatchesOf(child)
  }

  ghost function IndexesOf(t: Node, pos: nat): seq<nat> {
    match t
    case Stored(_, matched) => if matched then [pos] else []
    case Two(left, right) => IndexesOf(left, 2 * pos) + IndexesOf(right, 2 * pos + 1)
    case One(child) => IndexesOf(child, 2 * pos)
  }

  /** The cursor after a tree has been read. */
  ghost function After(combine: (Hash, Hash) -> Hash, t: Node, pos: nat, c: Cursor): Cursor {
    Cursor(c.nBits + |Flags(t)|, c.nHash + |Stores(t)|, c.bad || !Clean(combine, t), c.matches + MatchesOf(t), c.indexes + IndexesOf(t, pos))
  }

  /** What the parts of a tree with two subtrees are made of. */
  lemma PartsOfTwo(combine: (Hash, Hash) -> Hash, n: nat, h: nat, left: Node, right: Node, pos: nat)
    ensures Flags(Two(left, right)) == [true] + (Flags(left) + Flags(right)) && Stores(Two(left, right)) == Stores(left) + Stores(right)
    ensures MatchesOf(Two(left, right)) == MatchesOf(left) + MatchesOf(right)
    ensures IndexesOf(Two(left, right), pos) == IndexesOf(left, 2 * pos) + IndexesOf(right, 2 * pos + 1)
    ensures Value(combine, Two(left, right)) == combine(Value(combine, left), Value(combine, right))
    ensures Clean(combine, Two(left, right)) <==>
            Clean(combine, left) && Clean(combine, right) && Value(combine, left) != Value(combine, right)
    ensures Fits(Two(left, right), n, h, pos) <==>
            h > 0 && 2 * pos + 1 < CalcTreeWidth(n, h - 1) && Fits(left, n, h - 1, 2 * pos) && Fits(right, n, h - 1, 2 * pos + 1)
  {
  }

  lemma PartsOfStored(combine: (Hash, Hash) -> Hash, n: nat, h: nat, hash: Hash, matched: bool, pos: nat)
    ensures Flags(Stored(hash, matched)) == [matched] && Stores(Stored(hash, matched)) == [hash]
    ensures Value(combine, Stored(hash, matched)) == hash
    ensures Fits(Stored(hash, matched), n, h, pos) <==> (matched ==> h == 0)
  {
  }

  lemma PartsOfOne(combine: (Hash, Hash) -> Hash, n: nat, h: nat, child: Node, pos: nat)
    ensures Flags(One(child)) == [true] + Flags(child) && Stores(One(child)) == Stores(child)
    ensures MatchesOf(One(child)) == MatchesOf(child) && IndexesOf(One(child), pos) == IndexesOf(child, 2 * pos)
    ensures Value(combine, One(child)) == combine(Value(combine, child), Value(combine, child))
    ensures Clean(combine, One(child)) <==> Clean(combine, child)
    ensures Fits(One(child), n, h, pos) <==> h > 0 && 2 * pos + 1 >= CalcTreeWidth(n, h - 1) && Fits(child, n, h - 1, 2 * pos)
  {
  }

  lemma AfterTwo(combine: (Hash, Hash) -> Hash, left: Node, right: Node, pos: nat, c: Cursor)
    ensures var c2 := After(combine, left, 2 * pos, c.(nBits := c.nBits + 1));
            var c3 := After(combine, right, 2 * pos + 1, c2);
            After(combine, Two(left, right), pos, c) == if Value(combine, left) == Value(combine, right) then c3.(bad := true) else c3
  {
    hide Flags, Stores, MatchesOf, IndexesOf, Value, Clean, Fits;
    PartsOfTwo(combine, 0, 0, left, right, pos);
    Regroup(c.matches, MatchesOf(left), MatchesOf(right), []);
    Regroup(c.indexes, IndexesOf(left, 2 * pos), IndexesOf(right, 2 * pos + 1), []);
    NothingMore(MatchesOf(left) + MatchesOf(right));
    NothingMore(IndexesOf(left, 2 * pos) + IndexesOf(right, 2 * pos + 1));
  }

  lemma AfterOne(combine: (Hash, Hash) -> Hash, child: Node, pos: nat, c: Cursor)
    ensures After(combine, One(child), pos, c) == After(combine, child, 2 * pos, c.(nBits := c.nBits + 1))
  {
    hide Flags, Stores, MatchesOf, IndexesOf, Value, Clean, Fits;
    PartsOfOne(combine, 0, 0, child, pos);
  }

  lemma NothingMore<T>(a: seq<T>)
    ensures a + [] == a == [] + a
  {
  }

  /** The decoder at a node with two children. */
  lemma StepTwo(combine: (Hash, Hash) -> Hash, n: nat, bits: seq<bool>, hashes: seq<Hash>, h: nat, pos: nat, c: Cursor)
    requires h > 0 && 2 * pos + 1 < CalcTreeWidth(n, h - 1) && c.nBits < |bits| && bits[c.nBits]
    ensures var (left, c2) := Extract(combine, n, bits, hashes, h - 1, 2 * pos, c.(nBits := c.nBits + 1));
            var (right, c3) := Extract(combine, n, bits, hashes, h - 1, 2 * pos + 1, c2);
            Extract(combine, n, bits, hashes, h, pos, c) == (combine(left, right), if right == left then c3.(bad := true) else c3)
  {
    hide CalcTreeWidth;
  }

  /** The decoder at a node with one child. */
  lemma StepOne(combine: (Hash, Hash) -> Hash, n: nat, bits: seq<bool>, hashes: seq<Hash>, h: nat, pos: nat, c: Cursor)
    requires h > 0 && 2 * pos + 1 >= CalcTreeWidth(n, h - 1) && c.nBits < |bits| && bits[c.nBits]
    ensures var (left, c2) := Extract(combine, n, bits, hashes, h - 1, 2 * pos, c.(nBits := c.nBits + 1));
            Extract(combine, n, bits, hashes, h, pos, c) == (combine(left, left), c2)
  {
    hide CalcTreeWidth;
  }

  /** Reading a tree gives its hash, exactly its matches, and trouble exactly for equal siblings. */
  lemma {:induction false} ReadsTree(combine: (Hash, Hash) -> Hash, n: nat, bits: seq<bool>, hashes: seq<Hash>, h: nat, pos: nat, c: Cursor, t: Node)
    requires Fits(t, n, h, pos) && StartsWith(bits, c.nBits, Flags(t)) && StartsWith(hashes, c.nHash, Stores(t))
    ensures Extract(combine, n, bits, hashes, h, pos, c) == (Value(combine, t), After(combine, t, pos, c))
    decreases t
  {
    hide CalcTreeWidth, StartsWith, Extract, After, Flags, Stores, MatchesOf, IndexesOf, Value, Clean, Fits;
    match t
    case Stored(hash, matched) =>
      PartsOfStored(combine, n, h, hash, matched, pos);
      ReadsStored(combine, n, bits, hashes, h, pos, c, hash, matched);
    case Two(left, right) =>
      var c1 := c.(nBits := c.nBits + 1);
      var c2 := After(combine, left, 2 * pos, c1);
      PartsOfTwo(combine, n, h, left, right, pos);
      FirstIs(bits, c.nBits, true, Flags(left) + Flags(right));
      StartsWithBoth(bits, c1.nBits, Flags(left), Flags(right));
      StartsWithBoth(hashes, c.nHash, Stores(left), Stores(right));
      ReadsTree(combine, n, bits, hashes, h - 1, 2 * pos, c1, left);
      Used(combine, left, 2 * pos, c1);
      ReadsTree(combine, n, bits, hashes, h - 1, 2 * pos + 1, c2, right);
      StepTwo(combine, n, bits, hashes, h, pos, c);
      AfterTwo(combine, left, right, pos, c);
    case One(child) =>
      var c1 := c.(nBits := c.nBits + 1);
      PartsOfOne(combine, n, h, child, pos);
      FirstIs(bits, c.nBits, true, Flags(child));
      ReadsTree(combine, n, bits, hashes, h - 1, 2 * pos, c1, child);
      StepOne(combine, n, bits, hashes, h, pos, c);
      AfterOne(combine, child, pos, c);
  }

  lemma ReadsStored(combine: (Hash, Hash) -> Hash, n: nat, bits: seq<bool>, hashes: seq<Hash>, h: nat, pos: nat, c: Cursor, hash: Hash, matched: bool)
    requires (matched ==> h == 0) && StartsWith(bits, c.nBits, [matched]) && StartsWith(hashes, c.nHash, [hash])
    ensures Extract(combine, n, bits, hashes, h, pos, c) == (hash, After(combine, Stored(hash, matched), pos, c))
  {
    hide StartsWith;
    NothingMore([matched]);
    NothingMore([hash]);
    FirstIs(bits, c.nBits, matched, []);
    FirstIs(hashes, c.nHash, hash, []);
    NothingMore(c.matches);
    NothingMore(c.indexes);
  }

  lemma Used(combine: (Hash, Hash) -> Hash, t: Node, pos: nat, c: Cursor)
    ensures var c' := After(combine, t, pos, c); c'.nBits == c.nBits + |Flags(t)| && c'.nHash == c.nHash + |Stores(t)|
  {
  }

  lemma FirstIs<T>(s: seq<T>, at: nat, x: T, rest: seq<T>)
    requires StartsWith(s, at, [x] + rest)
    ensures at < |s| && s[at] == x && StartsWith(s, at + 1, rest)
  {
    StartsWithBoth(s, at, [x], rest);
    assert s[at..at + 1][0] == s[at];
  }

  lemma StartsWithMore<T>(s: seq<T>, at: nat, a: seq<T>, b: seq<T>)
    requires StartsWith(s, at, a) && StartsWith(s, at + |a|, b)
    ensures StartsWith(s, at, a + b)
  {
    assert s[at..at + |a| + |b|] == s[at..at + |a|] + s[at + |a|..at + |a| + |b|];
  }

  lemma OneIs<T>(s: seq<T>, at: nat)
    requires at < |s|
    ensures StartsWith(s, at, [s[at]])
  {
  }

  /** Trouble is never forgotten. */
  lemma {:induction false} TroubleStays(combine: (Hash, Hash) -> Hash, n: nat, bits: seq<bool>, hashes: seq<Hash>, h: nat, pos: nat, c: Cursor)
    ensures c.bad ==> Extract(combine, n, bits, hashes, h, pos, c).1.bad
    decreases h
  {
    hide CalcTreeWidth;
    if c.nBits < |bits| && bits[c.nBits] && h > 0 {
      var c1 := c.(nBits := c.nBits + 1);
      TroubleStays(combine, n, bits, hashes, h - 1, 2 * pos, c1);
      TroubleStays(combine, n, bits, hashes, h - 1, 2 * pos + 1, Extract(combine, n, bits, hashes, h - 1, 2 * pos, c1).1);
    }
  }

  /** Whatever is read without trouble is a tree of the right shape without equal siblings. */
  lemma {:induction false} ReadIsTree(combine: (Hash, Hash) -> Hash, n: nat, bits: seq<bool>, hashes: seq<Hash>, h: nat, pos: nat, c: Cursor) returns (t: Node)
    requires !Extract(combine, n, bits, hashes, h, pos, c).1.bad
    ensures Fits(t, n, h, pos) && Clean(combine, t) && StartsWith(bits, c.nBits, Flags(t)) && StartsWith(hashes, c.nHash, Stores(t))
    decreases h, 1
  {
    hide CalcTreeWidth, StartsWith;
    var flag, c1 := bits[c.nBits], c.(nBits := c.nBits + 1);
    OneIs(bits, c.nBits);
    if h == 0 || !flag {
      OneIs(hashes, c.nHash);
      t := Stored(hashes[c.nHash], flag);
    } else if 2 * pos + 1 < CalcTreeWidth(n, h - 1) {
      StepTwo(combine, n, bits, hashes, h, pos, c);
      t := TwoAreTree(combine, n, bits, hashes, h, pos, c);
    } else {
      StepOne(combine, n, bits, hashes, h, pos, c);
      var child := ReadIsTree(combine, n, bits, hashes, h - 1, 2 * pos, c1);
      t := One(child);
      StartsWithMore(bits, c.nBits, [true], Flags(child));
    }
  }

  lemma {:induction false} TwoAreTree(combine: (Hash, Hash) -> Hash, n: nat, bits: seq<bool>, hashes: seq<Hash>, h: nat, pos: nat, c: Cursor) returns (t: Node)
    requires h > 0 && 2 * pos + 1 < CalcTreeWidth(n, h - 1) && StartsWith(bits, c.nBits, [true])
    requires var (left, c2) := Extract(combine, n, bits, hashes, h - 1, 2 * pos, c.(nBits := c.nBits + 1));
             var (right, c3) := Extract(combine, n, bits, hashes, h - 1, 2 * pos + 1, c2);
             !c3.bad && left != right
    ensures Fits(t, n, h, pos) && Clean(combine, t) && StartsWith(bits, c.nBits, Flags(t)) && StartsWith(hashes, c.nHash, Stores(t))
    decreases h, 0
  {
    hide CalcTreeWidth, StartsWith, Extract, After, Flags, Stores, MatchesOf, IndexesOf, Value, Clean, Fits;
    var c1 := c.(nBits := c.nBits + 1);
    var (_, c2) := Extract(combine, n, bits, hashes, h - 1, 2 * pos, c1);
    TroubleStays(combine, n, bits, hashes, h - 1, 2 * pos + 1, c2);
    var left := ReadIsTree(combine, n, bits, hashes, h - 1, 2 * pos, c1);
    ReadsTree(combine, n, bits, hashes, h - 1, 2 * pos, c1, left);
    Used(combine, left, 2 * pos, c1);
    var right := ReadIsTree(combine, n, bits, hashes, h - 1, 2 * pos + 1, c2);
    ReadsTree(combine, n, bits, hashes, h - 1, 2 * pos + 1, c2, right);
    t := Two(left, right);
    PartsOfTwo(combine, n, h, left, right, pos);
    StartsWithMore(bits, c1.nBits, Flags(left), Flags(right));
    StartsWithMore(bits, c.nBits, [true], Flags(left) + Flags(right));
    StartsWithMore(hashes, c.nHash, Stores(left), Stores(right));
  }

  /** A tree stores no more hashes than it has leaves, and no more hashes than bits. */
  lemma {:induction false} TreeIsSmall(t: Node, n: nat, h: nat, pos: nat)
    requires Fits(t, n, h, pos) && pos < CalcTreeWidth(n, h)
    ensures First(h, pos) + |Stores(t)| <= n && |Stores(t)| <= |Flags(t)|
    ensures First(h, pos + 1) <= n ==> First(h, pos) + |Stores(t)| <= First(h, pos + 1)
    decreases t
  {
    hide CalcTreeWidth, First;
    NodeHasLeaf(n, h, pos);
    FirstGrows(h, pos);
    if !t.Stored? {
      ChildInRange(n, h, pos);
      FirstOfChildren(h, pos);
      NodeHasLeaf(n, h - 1, 2 * pos + 1);
      match t
      case Two(left, right) =>
        TreeIsSmall(left, n, h - 1, 2 * pos);
        TreeIsSmall(right, n, h - 1, 2 * pos + 1);
      case One(child) =>
        TreeIsSmall(child, n, h - 1, 2 * pos);
    }
  }

  // ----- built trees

  /** The tree that proves the matching ones of `txids`. */
  ghost function Built(combine: (Hash, Hash) -> Hash, txids: seq<Hash>, matching: seq<bool>, h: nat, pos: nat): Node
    requires |txids| == |matching| && pos < CalcTreeWidth(|txids|, h)
  {
    if h == 0 || !ParentOfMatch(matching, h, pos) then Stored(CalcHash(combine, txids, h, pos), ParentOfMatch(matching, h, pos))
    else
      ChildInRange(|txids|, h, pos);
      var left := Built(combine, txids, matching, h - 1, 2 * pos);
      if 2 * pos + 1 < CalcTreeWidth(|txids|, h - 1) then Two(left, Built(combine, txids, matching, h - 1, 2 * pos + 1)) else One(left)
  }

  /** It has the bits, the hashes and the hash that it should have. */
  lemma {:induction false} BuiltEncodes(combine: (Hash, Hash) -> Hash, txids: seq<Hash>, matching: seq<bool>, h: nat, pos: nat)
    requires |txids| == |matching| && pos < CalcTreeWidth(|txids|, h)
    ensures var t := Built(combine, txids, matching, h, pos);
            && Fits(t, |txids|, h, pos) && Value(combine, t) == CalcHash(combine, txids, h, pos)
            && Flags(t) == BitsOf(matching, h, pos) && Stores(t) == HashesOf(combine, txids, matching, h, pos)
  {
    hide CalcTreeWidth, ParentOfMatch, BitsOf, HashesOf;
    EncodedParts(combine, txids, matching, h, pos);
    if h > 0 && ParentOfMatch(matching, h, pos) {
      BuiltEncodes(combine, txids, matching, h - 1, 2 * pos);
      if 2 * pos + 1 < CalcTreeWidth(|txids|, h - 1) {
        BuiltEncodes(combine, txids, matching, h - 1, 2 * pos + 1);
      }
    }
  }

  /** Its matches are the matching ids under the node, with their indices in order. */
  lemma {:induction false} BuiltMatches(combine: (Hash, Hash) -> Hash, txids: seq<Hash>, matching: seq<bool>, h: nat, pos: nat)
    requires |txids| == |matching| && pos < CalcTreeWidth(|txids|, h)
    ensures var t := Built(combine, txids, matching, h, pos);
            var found := Matched(matching, First(h, pos), First(h, pos + 1));
            MatchesOf(t) == TxidsAt(txids, found) && IndexesOf(t, pos) == found
  {
    hide CalcTreeWidth, First, Matched;
    if h == 0 {
      LeafMatch(txids, matching, pos);
    } else if ParentOfMatch(matching, h, pos) {
      ChildInRange(|txids|, h, pos);
      FirstOfChildren(h, pos);
      var lo, mid, hi := First(h, pos), First(h - 1, 2 * pos + 1), First(h, pos + 1);
      MatchedSplits(matching, lo, mid, hi);
      BuiltMatches(combine, txids, matching, h - 1, 2 * pos);
      if 2 * pos + 1 < CalcTreeWidth(|txids|, h - 1) {
        BuiltMatches(combine, txids, matching, h - 1, 2 * pos + 1);
        TxidsAtBoth(txids, Matched(matching, lo, mid), Matched(matching, mid, hi));
      } else {
        NodeHasLeaf(|txids|, h - 1, 2 * pos + 1);
        NothingBeyond(matching, mid, hi);
        assert Matched(matching, lo, mid) + [] == Matched(matching, lo, mid);
      }
    }
  }

  /** The two children of a node with a match below have the same hash. */
  ghost predicate SiblingsClash(combine: (Hash, Hash) -> Hash, txids: seq<Hash>, matching: seq<bool>, h: nat, pos: nat) {
    && h > 0 && 2 * pos + 1 < CalcTreeWidth(|txids|, h - 1) && ParentOfMatch(matching, h, pos)
    && CalcHash(combine, txids, h - 1, 2 * pos) == CalcHash(combine, txids, h - 1, 2 * pos + 1)
  }

  ghost predicate AnyClash(combine: (Hash, Hash) -> Hash, txids: seq<Hash>, matching: seq<bool>) {
    exists h: nat, pos: nat :: SiblingsClash(combine, txids, matching, h, pos)
  }

  lemma {:induction false} FindClash(combine: (Hash, Hash) -> Hash, txids: seq<Hash>, matching: seq<bool>, h: nat, pos: nat)
    requires |txids| == |matching| && pos < CalcTreeWidth(|txids|, h)
    requires !Clean(combine, Built(combine, txids, matching, h, pos))
    ensures AnyClash(combine, txids, matching) && h > 0 && ParentOfMatch(matching, h, pos)
  {
    hide CalcTreeWidth, ParentOfMatch;
    ChildInRange(|txids|, h, pos);
    BuiltEncodes(combine, txids, matching, h - 1, 2 * pos);
    if !Clean(combine, Built(combine, txids, matching, h - 1, 2 * pos)) {
      FindClash(combine, txids, matching, h - 1, 2 * pos);
    } else if 2 * pos + 1 < CalcTreeWidth(|txids|, h - 1) {
      BuiltEncodes(combine, txids, matching, h - 1, 2 * pos + 1);
      if !Clean(combine, Built(combine, txids, matching, h - 1, 2 * pos + 1)) {
        FindClash(combine, txids, matching, h - 1, 2 * pos + 1);
      } else {
        assert SiblingsClash(combine, txids, matching, h, pos);
      }
    }
  }

  lemma ClashIsThere(combine: (Hash, Hash) -> Hash, txids: seq<Hash>, matching: seq<bool>, h: nat, pos: nat)
    requires |txids| == |matching| && SiblingsClash(combine, txids, matching, h, pos)
    ensures pos < CalcTreeWidth(|txids|, h) && !Clean(combine, Built(combine, txids, matching, h, pos))
    ensures h > 0 && CalcTreeWidth(|txids|, h - 1) > 1
  {
    hide CalcTreeWidth, ParentOfMatch;
    WidthHalves(|txids|, h);
    BuiltEncodes(combine, txids, matching, h - 1, 2 * pos);
    BuiltEncodes(combine, txids, matching, h - 1, 2 * pos + 1);
  }

  /** Equal siblings further down are equal siblings from the parent on. */
  lemma ClashGoesUp(combine: (Hash, Hash) -> Hash, txids: seq<Hash>, matching: seq<bool>, h: nat, pos: nat)
    requires |txids| == |matching| && pos < CalcTreeWidth(|txids|, h)
    requires !Clean(combine, Built(combine, txids, matching, h, pos))
    ensures pos / 2 < CalcTreeWidth(|txids|, h + 1) && !Clean(combine, Built(combine, txids, matching, h + 1, pos / 2))
  {
    hide CalcTreeWidth, Matched, First, Clean;
    FindClash(combine, txids, matching, h, pos);
    WidthHalves(|txids|, h + 1);
    var up := pos / 2;
    FirstOfChildren(h + 1, up);
    MatchedSplits(matching, First(h, 2 * up), First(h, 2 * up + 1), First(h, 2 * up + 2));
    assert ParentOfMatch(matching, h + 1, up);
    CleanChildren(combine, Built(combine, txids, matching, h + 1, up));
  }

  lemma CleanChildren(combine: (Hash, Hash) -> Hash, t: Node)
    ensures t.Two? && Clean(combine, t) ==> Clean(combine, t.left) && Clean(combine, t.right)
    ensures t.One? && Clean(combine, t) ==> Clean(combine, t.child)
  {
  }

  lemma {:induction false} ClashReachesTop(combine: (Hash, Hash) -> Hash, txids: seq<Hash>, matching: seq<bool>, h: nat, pos: nat, top: nat)
    requires |txids| == |matching| && pos < CalcTreeWidth(|txids|, h) && h <= top && CalcTreeWidth(|txids|, top) <= 1
    requires !Clean(combine, Built(combine, txids, matching, h, pos))
    ensures CalcTreeWidth(|txids|, top) == 1 && !Clean(combine, Built(combine, txids, matching, top, 0))
    decreases top - h
  {
    hide CalcTreeWidth, Built, Clean;
    if h < top {
      ClashGoesUp(combine, txids, matching, h, pos);
      ClashReachesTop(combine, txids, matching, h + 1, pos / 2, top);
    }
  }

  /** A node that stores its own hash has one bit and one hash; any other has a set bit and then its children. */
  lemma EncodedParts(combine: (Hash, Hash) -> Hash, txids: seq<Hash>, matching: seq<bool>, h: nat, pos: nat)
    requires |txids| == |matching| && pos < CalcTreeWidth(|txids|, h)
    ensures h == 0 || !ParentOfMatch(matching, h, pos) ==>
              BitsOf(matching, h, pos) == [ParentOfMatch(matching, h, pos)] && HashesOf(combine, txids, matching, h, pos) == [CalcHash(combine, txids, h, pos)]
    ensures h > 0 ==> 2 * pos < CalcTreeWidth(|txids|, h - 1)
    ensures h > 0 && ParentOfMatch(matching, h, pos) && 2 * pos + 1 < CalcTreeWidth(|txids|, h - 1) ==>
              && BitsOf(matching, h, pos) == [true] + (BitsOf(matching, h - 1, 2 * pos) + BitsOf(matching, h - 1, 2 * pos + 1))
              && HashesOf(combine, txids, matching, h, pos) ==
                 HashesOf(combine, txids, matching, h - 1, 2 * pos) + HashesOf(combine, txids, matching, h - 1, 2 * pos + 1)
    ensures h > 0 && ParentOfMatch(matching, h, pos) && 2 * pos + 1 >= CalcTreeWidth(|txids|, h - 1) ==>
              && BitsOf(matching, h, pos) == [true] + BitsOf(matching, h - 1, 2 * pos)
              && HashesOf(combine, txids, matching, h, pos) == HashesOf(combine, txids, matching, h - 1, 2 * pos)
  {
    hide CalcTreeWidth, ParentOfMatch, CalcHash;
    if h > 0 {
      ChildInRange(|txids|, h, pos);
    }
  }

  // ----- whole trees

  /** The lowest height, from `h` up, at which the tree has a single node. */
  function HeightFrom(n: nat, h: nat): (r: nat)
    ensures r >= h && CalcTreeWidth(n, r) <= 1
    ensures r > h ==> CalcTreeWidth(n, r - 1) > 1
    decreases CalcTreeWidth(n, h)
  {
    if CalcTreeWidth(n, h) <= 1 then h
    else
      WidthHalves(n, h + 1);
      HeightFrom(n, h + 1)
  }

  lemma RootExists(n: nat, h: nat)
    requires n > 0
    ensures CalcTreeWidth(n, h) > 0
  {
    hide CalcTreeWidth;
    NodeHasLeaf(n, h, 0);
  }

  /** Decode a whole tree: the root and the final cursor, or the null hash when anything is off. */
  function ExtractAll(combine: (Hash, Hash) -> Hash, n: nat, bits: seq<bool>, hashes: seq<Hash>, bad: bool, indexes: seq<nat>): (Hash, Cursor) {
    var start := Cursor(0, 0, bad, [], indexes);
    if n == 0 || n > MAX_TRANSACTIONS || |hashes| > n || |bits| < |hashes| then (NULL_HASH, start)
    else
      var (root, c) := Extract(combine, n, bits, hashes, HeightFrom(n, 0), 0, start);
      if c.bad || (c.nBits + 7) / 8 != (|bits| + 7) / 8 || c.nHash != |hashes| then (NULL_HASH, c)
      else (root, c)
  }

  /** The Merkle root of a list. */
  function MerkleRoot(combine: (Hash, Hash) -> Hash, txids: seq<Hash>): Hash
    requires txids != []
  {
    RootExists(|txids|, HeightFrom(|txids|, 0));
    CalcHash(combine, txids, HeightFrom(|txids|, 0), 0)
  }

  function AllBits(matching: seq<bool>): seq<bool> { BitsOf(matching, HeightFrom(|matching|, 0), 0) }

  function AllHashes(combine: (Hash, Hash) -> Hash, txids: seq<Hash>, matching: seq<bool>): seq<Hash>
    requires |txids| == |matching| > 0
  {
    RootExists(|txids|, HeightFrom(|txids|, 0));
    HashesOf(combine, txids, matching, HeightFrom(|txids|, 0), 0)
  }

  /** Bits and hashes are those of the tree, up to the padding of bits to whole bytes. */
  ghost predicate Encodes(bits: seq<bool>, hashes: seq<Hash>, t: Node) {
    Flags(t) <= bits && (|Flags(t)| + 7) / 8 == (|bits| + 7) / 8 && hashes == Stores(t)
  }

  /** Bits and hashes are those of a partial tree over `n` leaves. */
  ghost predicate EncodesWhole(n: nat, bits: seq<bool>, hashes: seq<Hash>, t: Node) {
    0 < n <= MAX_TRANSACTIONS && Fits(t, n, HeightFrom(n, 0), 0) && Encodes(bits, hashes, t)
  }

  /** What decoding answers about bits and hashes: the whole of one partial tree, or nothing. */
  ghost predicate Answers(combine: (Hash, Hash) -> Hash, n: nat, bits: seq<bool>, hashes: seq<Hash>, bad: bool, before: seq<nat>,
                          root: Hash, matches: seq<Hash>, indexes: seq<nat>)
  {
    && (root != NULL_HASH ==> !bad && exists t :: EncodesWhole(n, bits, hashes, t) && Clean(combine, t))
    && (forall t :: EncodesWhole(n, bits, hashes, t) ==>
          && root == (if bad || !Clean(combine, t) then NULL_HASH else Value(combine, t))
          && matches == MatchesOf(t) && indexes == before + IndexesOf(t, 0))
  }

  /** A whole partial tree over `n` leaves decodes to its hash and its matches; equal siblings anywhere give the null hash. */
  lemma DecodesTree(combine: (Hash, Hash) -> Hash, n: nat, bits: seq<bool>, hashes: seq<Hash>, bad: bool, indexes: seq<nat>, t: Node)
    requires EncodesWhole(n, bits, hashes, t)
    ensures ExtractAll(combine, n, bits, hashes, bad, indexes) ==
            (if bad || !Clean(combine, t) then NULL_HASH else Value(combine, t), After(combine, t, 0, Cursor(0, 0, bad, [], indexes)))
  {
    hide CalcTreeWidth, Extract, HeightFrom;
    var h := HeightFrom(n, 0);
    RootExists(n, h);
    TreeIsSmall(t, n, h, 0);
    assert First(h, 0) == 0;
    assert bits[0..|Flags(t)|] == Flags(t) && hashes[0..|hashes|] == hashes;
    ReadsTree(combine, n, bits, hashes, h, 0, Cursor(0, 0, bad, [], indexes), t);
  }

  /** Whatever decodes to a hash is the encoding of a partial tree of the right shape without equal siblings, with nothing left over. */
  lemma DecodedIsTree(combine: (Hash, Hash) -> Hash, n: nat, bits: seq<bool>, hashes: seq<Hash>, bad: bool, indexes: seq<nat>) returns (t: Node)
    requires ExtractAll(combine, n, bits, hashes, bad, indexes).0 != NULL_HASH
    ensures !bad && EncodesWhole(n, bits, hashes, t) && Clean(combine, t)
  {
    hide CalcTreeWidth, Extract, HeightFrom;
    var h, start := HeightFrom(n, 0), Cursor(0, 0, bad, [], indexes);
    TroubleStays(combine, n, bits, hashes, h, 0, start);
    t := ReadIsTree(combine, n, bits, hashes, h, 0, start);
    ReadsTree(combine, n, bits, hashes, h, 0, start, t);
    assert bits[0..|Flags(t)|] == bits[..|Flags(t)|] && hashes[0..|hashes|] == hashes;
  }

  lemma DecodingAnswers(combine: (Hash, Hash) -> Hash, n: nat, bits: seq<bool>, hashes: seq<Hash>, bad: bool, before: seq<nat>)
    ensures var (root, c) := ExtractAll(combine, n, bits, hashes, bad, before);
            Answers(combine, n, bits, hashes, bad, before, root, c.matches, c.indexes)
  {
    hide ExtractAll, EncodesWhole, Clean, Value, MatchesOf, IndexesOf;
    var (root, c) := ExtractAll(combine, n, bits, hashes, bad, before);
    if root != NULL_HASH {
      var t := DecodedIsTree(combine, n, bits, hashes, bad, before);
    }
    forall t | EncodesWhole(n, bits, hashes, t)
      ensures root == (if bad || !Clean(combine, t) then NULL_HASH else Value(combine, t))
      ensures c.matches == MatchesOf(t) && c.indexes == before + IndexesOf(t, 0)
    {
      DecodesTree(combine, n, bits, hashes, bad, before, t);
      assert [] + MatchesOf(t) == MatchesOf(t);
    }
  }

  /**
   Decoding a built tree, with up to seven padding bits, gives the root, or the null hash exactly if
   two siblings whose parent has a match below have the same hash; either way exactly the matched
   ids with their indices are reported.
   */
  lemma DecodesBuilt(combine: (Hash, Hash) -> Hash, txids: seq<Hash>, matching: seq<bool>, pad: seq<bool>, indexes: seq<nat>)
    requires 0 < |txids| == |matching| <= MAX_TRANSACTIONS
    requires (|AllBits(matching)| + |pad| + 7) / 8 == (|AllBits(matching)| + 7) / 8
    ensures var found := Matched(matching, 0, |matching|);
            var (root, c) := ExtractAll(combine, |txids|, AllBits(matching) + pad, AllHashes(combine, txids, matching), false, indexes);
            && root == (if AnyClash(combine, txids, matching) then NULL_HASH else MerkleRoot(combine, txids))
            && c.bad == AnyClash(combine, txids, matching)
            && c.matches == TxidsAt(txids, found) && c.indexes == indexes + found
  {
    hide CalcTreeWidth, ExtractAll, CalcHash, BitsOf, HashesOf, HeightFrom, Built, Clean, AnyClash, Fits, Value, Flags, Stores, MatchesOf, IndexesOf, Matched;
    var n, h := |txids|, HeightFrom(|txids|, 0);
    RootExists(n, h);
    var t := Built(combine, txids, matching, h, 0);
    BuiltEncodes(combine, txids, matching, h, 0);
    BuiltMatches(combine, txids, matching, h, 0);
    DecodesTree(combine, n, AllBits(matching) + pad, AllHashes(combine, txids, matching), false, indexes, t);
    CleanIff(combine, txids, matching);
    assert First(h, 0) == 0;
    assert First(h, 1) >= n by {
      NodeHasLeaf(n, h, 1);
    }
    MatchedSplits(matching, 0, n, First(h, 1));
    NothingBeyond(matching, n, First(h, 1));
    assert Matched(matching, 0, n) + [] == Matched(matching, 0, n);
    assert [] + TxidsAt(txids, Matched(matching, 0, n)) == TxidsAt(txids, Matched(matching, 0, n));
  }

  lemma CleanIff(combine: (Hash, Hash) -> Hash, txids: seq<Hash>, matching: seq<bool>)
    requires |txids| == |matching| > 0 && CalcTreeWidth(|txids|, HeightFrom(|txids|, 0)) > 0
    ensures Clean(combine, Built(combine, txids, matching, HeightFrom(|txids|, 0), 0)) <==> !AnyClash(combine, txids, matching)
  {
    hide CalcTreeWidth, HeightFrom, Built, Clean, SiblingsClash;
    var top := HeightFrom(|txids|, 0);
    if !Clean(combine, Built(combine, txids, matching, top, 0)) {
      FindClash(combine, txids, matching, top, 0);
    }
    if AnyClash(combine, txids, matching) {
      var h: nat, pos: nat :| SiblingsClash(combine, txids, matching, h, pos);
      ClashIsThere(combine, txids, matching, h, pos);
      if h > top {
        StaysNarrow(|txids|, h - 1, top);
      }
      ClashReachesTop(combine, txids, matching, h, pos, top);
    }
  }

  /** Above the root there is a single node at every height. */
  lemma {:induction false} StaysNarrow(n: nat, h: nat, top: nat)
    requires CalcTreeWidth(n, top) <= 1 && top <= h
    ensures CalcTreeWidth(n, h) <= 1
  {
    hide CalcTreeWidth;
    if h > top {
      StaysNarrow(n, h - 1, top);
      WidthHalves(n, h);
    }
  }

  /** Over distinct ids and with a collision-free hash a built tree always decodes to the root. */
  lemma RoundTrip(combine: (Hash, Hash) -> Hash, txids: seq<Hash>, matching: seq<bool>, pad: seq<bool>, indexes: seq<nat>)
    requires Injective(combine) && Distinct(txids)
    requires 0 < |txids| == |matching| <= MAX_TRANSACTIONS
    requires (|AllBits(matching)| + |pad| + 7) / 8 == (|AllBits(matching)| + 7) / 8
    ensures var found := Matched(matching, 0, |matching|);
            var (root, c) := ExtractAll(combine, |txids|, AllBits(matching) + pad, AllHashes(combine, txids, matching), false, indexes);
            root == MerkleRoot(combine, txids) && !c.bad && c.matches == TxidsAt(txids, found) && c.indexes == indexes + found
  {
    hide AllBits, AllHashes, ExtractAll, Injective, Distinct, Matched, MerkleRoot, TxidsAt, AnyClash;
    DecodesBuilt(combine, txids, matching, pad, indexes);
    NoClash(combine, txids, matching);
  }

  lemma NoClash(combine: (Hash, Hash) -> Hash, txids: seq<Hash>, matching: seq<bool>)
    requires Injective(combine) && Distinct(txids)
    ensures !AnyClash(combine, txids, matching)
  {
    hide Injective, Distinct, CalcTreeWidth, ParentOfMatch, CalcHash;
    if AnyClash(combine, txids, matching) {
      var h: nat, pos: nat :| SiblingsClash(combine, txids, matching, h, pos);
      SiblingsDiffer(combine, txids, h - 1, 2 * pos);
    }
  }

  /** Two equal ids that are siblings, one of them matched, make a tree that is rejected. */
  lemma DuplicateRejected(combine: (Hash, Hash) -> Hash, txids: seq<Hash>, matching: seq<bool>, p: nat, indexes: seq<nat>)
    requires 0 < |txids| == |matching| <= MAX_TRANSACTIONS
    requires 2 * p + 1 < |txids| && txids[2 * p] == txids[2 * p + 1] && (matching[2 * p] || matching[2 * p + 1])
    ensures ExtractAll(combine, |txids|, AllBits(matching), AllHashes(combine, txids, matching), false, indexes).0 == NULL_HASH
  {
    hide AllBits, AllHashes, ExtractAll, MerkleRoot, TxidsAt;
    assert SiblingsClash(combine, txids, matching, 1, p) by {
      hide CalcTreeWidth, Matched;
      WidthAtLeaves(|txids|);
      FirstOfChildren(1, p);
      assert First(0, 2 * p) == 2 * p && First(0, 2 * p + 2) == 2 * p + 2;
      MatchedComplete(matching, 2 * p, 2 * p + 2);
      var q := if matching[2 * p] then 2 * p else 2 * p + 1;
      assert q in Matched(matching, 2 * p, 2 * p + 2);
    }
    assert AllBits(matching) + [] == AllBits(matching);
    DecodesBuilt(combine, txids, matching, [], indexes);
  }

  /** Every reported pair is in the list. */
  ghost predicate AllTrue(txids: seq<Hash>, matches: seq<Hash>, indexes: seq<nat>, skip: nat) {
    skip <= |indexes| && Pairs(txids, matches, indexes[skip..])
  }

  ghost predicate Pairs(txids: seq<Hash>, matches: seq<Hash>, indexes: seq<nat>) {
    |indexes| == |matches| && forall k :: 0 <= k < |matches| ==> indexes[k] < |txids| && matches[k] == txids[indexes[k]]
  }

  lemma OneMoreTrue(txids: seq<Hash>, matches: seq<Hash>, indexes: seq<nat>, skip: nat, pos: nat)
    requires AllTrue(txids, matches, indexes, skip) && pos < |txids|
    ensures AllTrue(txids, matches + [txids[pos]], indexes + [pos], skip)
  {
    assert (indexes + [pos])[skip..] == indexes[skip..] + [pos];
  }

  lemma TrueLeaf(combine: (Hash, Hash) -> Hash, txids: seq<Hash>, bits: seq<bool>, hashes: seq<Hash>, pos: nat, c: Cursor, skip: nat)
    requires pos < CalcTreeWidth(|txids|, 0) && AllTrue(txids, c.matches, c.indexes, skip)
    requires Extract(combine, |txids|, bits, hashes, 0, pos, c).0 == CalcHash(combine, txids, 0, pos)
    ensures var c' := Extract(combine, |txids|, bits, hashes, 0, pos, c).1; AllTrue(txids, c'.matches, c'.indexes, skip)
  {
    hide CalcTreeWidth, AllTrue;
    NodeHasLeaf(|txids|, 0, pos);
    assert First(0, pos) == pos;
    OneMoreTrue(txids, c.matches, c.indexes, skip, pos);
  }

  /** Whatever the bits and hashes, a subtree that decodes to the right hash reports only true pairs. */
  lemma {:induction false} OnlyTruePairs(combine: (Hash, Hash) -> Hash, txids: seq<Hash>, bits: seq<bool>, hashes: seq<Hash>, h: nat, pos: nat, c: Cursor, skip: nat)
    requires Injective(combine) && pos < CalcTreeWidth(|txids|, h) && AllTrue(txids, c.matches, c.indexes, skip)
    requires Extract(combine, |txids|, bits, hashes, h, pos, c).0 == CalcHash(combine, txids, h, pos)
    ensures var c' := Extract(combine, |txids|, bits, hashes, h, pos, c).1; AllTrue(txids, c'.matches, c'.indexes, skip)
    decreases h
  {
    hide CalcTreeWidth, AllTrue, Injective;
    if h == 0 {
      TrueLeaf(combine, txids, bits, hashes, pos, c, skip);
    } else if c.nBits < |bits| && bits[c.nBits] {
      ChildInRange(|txids|, h, pos);
      var c1 := c.(nBits := c.nBits + 1);
      var (left, c2) := Extract(combine, |txids|, bits, hashes, h - 1, 2 * pos, c1);
      var isTwo := 2 * pos + 1 < CalcTreeWidth(|txids|, h - 1);
      var right := if isTwo then Extract(combine, |txids|, bits, hashes, h - 1, 2 * pos + 1, c2).0 else left;
      var left' := CalcHash(combine, txids, h - 1, 2 * pos);
      InjectiveAt(combine, left, right, left', if isTwo then CalcHash(combine, txids, h - 1, 2 * pos + 1) else left');
      OnlyTruePairs(combine, txids, bits, hashes, h - 1, 2 * pos, c1, skip);
      if isTwo {
        OnlyTruePairs(combine, txids, bits, hashes, h - 1, 2 * pos + 1, c2, skip);
      }
    }
  }

  /** A tree that decodes to the root of some list of that length proves nothing that is not in the list. */
  lemma Soundness(combine: (Hash, Hash) -> Hash, txids: seq<Hash>, bits: seq<bool>, hashes: seq<Hash>, bad: bool, indexes: seq<nat>)
    requires Injective(combine) && txids != [] && MerkleRoot(combine, txids) != NULL_HASH
    requires ExtractAll(combine, |txids|, bits, hashes, bad, indexes).0 == MerkleRoot(combine, txids)
    ensures var c := ExtractAll(combine, |txids|, bits, hashes, bad, indexes).1; AllTrue(txids, c.matches, c.indexes, |indexes|)
  {
    hide CalcTreeWidth, Extract, CalcHash, HeightFrom;
    var h := HeightFrom(|txids|, 0);
    RootExists(|txids|, h);
    OnlyTruePairs(combine, txids, bits, hashes, h, 0, Cursor(0, 0, bad, [], indexes), |indexes|);
  }

  // ----- packing bits into bytes

  /** A byte, as the set of its one bits. */
  type Byte = set<nat>

  function Unpacked(bytes: seq<Byte>): seq<bool> {
    seq(8 * |bytes|, p requires 0 <= p < 8 * |bytes| => p % 8 in bytes[p / 8])
  }

  method Pack(bits: seq<bool>) returns (bytes: seq<Byte>)
    ensures |bytes| == (|bits| + 7) / 8
    ensures forall i, k: nat :: 0 <= i < |bytes| && k < 8 ==> (k in bytes[i] <==> 8 * i + k < |bits| && bits[8 * i + k])
  {
    bytes := seq((|bits| + 7) / 8, _ => {});
    for p := 0 to |bits|
      invariant |bytes| == (|bits| + 7) / 8
      invariant forall i, k: nat :: 0 <= i < |bytes| && k < 8 ==> (k in bytes[i] <==> 8 * i + k < p && bits[8 * i + k])
    {
      if bits[p] {
        bytes := bytes[p / 8 := bytes[p / 8] + {p % 8}];
      }
    }
  }

  /** Unpacking what was packed gives the bits back, padded with zeroes to whole bytes. */
  lemma PackedComesBack(bits: seq<bool>, bytes: seq<Byte>)
    requires |bytes| == (|bits| + 7) / 8
    requires forall i, k: nat :: 0 <= i < |bytes| && k < 8 ==> (k in bytes[i] <==> 8 * i + k < |bits| && bits[8 * i + k])
    ensures |Unpacked(bytes)| >= |bits| && (|Unpacked(bytes)| + 7) / 8 == (|bits| + 7) / 8
    ensures Unpacked(bytes) == bits + seq(|Unpacked(bytes)| - |bits|, _ => false)
  {
    var u := Unpacked(bytes);
    forall p | 0 <= p < |u|
      ensures u[p] == (p < |bits| && bits[p])
    {
      assert p == 8 * (p / 8) + p % 8;
    }
  }

  lemma MatchedNone(matching: seq<bool>, p: nat)
    ensures Matched(matching, p, p) == []
  {
  }

  lemma MatchedOne(matching: seq<bool>, p: nat)
    requires p < |matching|
    ensures Matched(matching, p, p + 1) == if matching[p] then [p] else []
  {
    MatchedNone(matching, p + 1);
  }

  lemma Regroup<T>(a: seq<T>, b: seq<T>, c: seq<T>, d: seq<T>)
    ensures a + b + c + d == a + (b + c + d)
    ensures b == [] ==> a + c + d == a + (c + d)
    ensures d == [] ==> a + b + c == a + (b + c + d)
  {
  }

  /** A built tree that was written to bytes and read back decodes to the same, so over distinct ids to the root. */
  lemma SerializedRoundTrip(combine: (Hash, Hash) -> Hash, txids: seq<Hash>, matching: seq<bool>, bytes: seq<Byte>)
    requires 0 < |txids| == |matching| <= MAX_TRANSACTIONS
    requires |bytes| == (|AllBits(matching)| + 7) / 8
    requires forall i, k: nat :: 0 <= i < |bytes| && k < 8 ==>
               (k in bytes[i] <==> 8 * i + k < |AllBits(matching)| && AllBits(matching)[8 * i + k])
    ensures var found := Matched(matching, 0, |matching|);
            var (root, c) := ExtractAll(combine, |txids|, Unpacked(bytes), AllHashes(combine, txids, matching), false, []);
            && root == (if AnyClash(combine, txids, matching) then NULL_HASH else MerkleRoot(combine, txids))
            && c.matches == TxidsAt(txids, found) && c.indexes == found
            && (Injective(combine) && Distinct(txids) ==> root == MerkleRoot(combine, txids))
  {
    hide AllBits, AllHashes, ExtractAll, Injective, Distinct, Matched, MerkleRoot, TxidsAt, Unpacked, AnyClash;
    if Injective(combine) && Distinct(txids) {
      NoClash(combine, txids, matching);
    }
    var bits := AllBits(matching);
    PackedComesBack(bits, bytes);
    DecodesBuilt(combine, txids, matching, seq(|Unpacked(bytes)| - |bits|, _ => false), []);
    assert [] + Matched(matching, 0, |matching|) == Matched(matching, 0, |matching|);
  }

  /** The height of the tree over `n` leaves. */
  method TreeHeight(n: nat) returns (h: nat)
    ensures h == HeightFrom(n, 0)
    ensures CalcTreeWidth(n, h) <= 1 && (h > 0 ==> CalcTreeWidth(n, h - 1) > 1)
  {
    h := 0;
    while CalcTreeWidth(n, h) > 1
      invariant HeightFrom(n, h) == HeightFrom(n, 0)
      decreases CalcTreeWidth(n, h)
    {
      WidthHalves(n, h + 1);
      h := h + 1;
    }
  }

  // ----- the class

  class PartialMerkleTree {
    const combine: (Hash, Hash) -> Hash

    var nTransactions: nat
    var vBits: seq<bool>
    var vHash: seq<Hash>
    var fBad: bool

    /** Is a node the parent of at least one matched leaf? */
    method IsParentOfMatch(matching: seq<bool>, h: nat, pos: nat) returns (r: bool)
      ensures r == ParentOfMatch(matching, h, pos)
    {
      hide First, Matched;
      r := false;
      var lo, hi := First(h, pos), First(h, pos + 1);
      FirstGrows(h, pos);
      MatchedNone(matching, lo);
      var p := lo;
      while p < hi && p < |matching|
        invariant lo <= p <= hi && (r <==> Matched(matching, lo, p) != [])
        decreases hi - p
      {
        MatchedSplits(matching, lo, p, p + 1);
        MatchedOne(matching, p);
        r := r || matching[p];
        p := p + 1;
      }
      MatchedSplits(matching, lo, p, hi);
      if p == hi {
        MatchedNone(matching, hi);
      } else {
        NothingBeyond(matching, p, hi);
      }
    }

    method TraverseAndBuild(txids: seq<Hash>, matching: seq<bool>, h: nat, pos: nat)
      requires |txids| == |matching| == nTransactions && pos < CalcTreeWidth(nTransactions, h)
      modifies this`vBits, this`vHash
      ensures vBits == old(vBits) + BitsOf(matching, h, pos)
      ensures vHash == old(vHash) + HashesOf(combine, txids, matching, h, pos)
      decreases h
    {
      hide CalcTreeWidth, ParentOfMatch, CalcHash;
      var parentOfMatch := IsParentOfMatch(matching, h, pos);
      vBits := vBits + [parentOfMatch];
      if h == 0 || !parentOfMatch {
        vHash := vHash + [CalcHash(combine, txids, h, pos)];
      } else {
        ChildInRange(nTransactions, h, pos);
        TraverseAndBuild(txids, matching, h - 1, 2 * pos);
        ghost var lb, lh := BitsOf(matching, h - 1, 2 * pos), HashesOf(combine, txids, matching, h - 1, 2 * pos);
        if 2 * pos + 1 < CalcTreeWidth(nTransactions, h - 1) {
          TraverseAndBuild(txids, matching, h - 1, 2 * pos + 1);
          ghost var rb, rh := BitsOf(matching, h - 1, 2 * pos + 1), HashesOf(combine, txids, matching, h - 1, 2 * pos + 1);
          Regroup(old(vBits), [true], lb, rb);
          Regroup(old(vHash), [], lh, rh);
        } else {
          Regroup(old(vBits), [true], lb, []);
          Regroup(old(vHash), [], lh, []);
        }
      }
    }

    /** Build the partial tree over `txids` that proves the matching ones. */
    constructor (combine: (Hash, Hash) -> Hash, txids: seq<Hash>, matching: seq<bool>)
      requires |txids| == |matching| > 0
      ensures this.combine == combine && nTransactions == |txids| && !fBad
      ensures vBits == AllBits(matching) && vHash == AllHashes(combine, txids, matching)
    {
      this.combine := combine;
      nTransactions := |txids|;
      vBits, vHash, fBad := [], [], false;
      new;
      var height := TreeHeight(nTransactions);
      RootExists(nTransactions, height);
      TraverseAndBuild(txids, matching, height, 0);
    }

    method TraverseAndExtract(h: nat, pos: nat, c: Cursor) returns (hash: Hash, c': Cursor)
      requires c.bad == fBad
      modifies this`fBad
      ensures (hash, c') == Extract(combine, nTransactions, vBits, vHash, h, pos, c)
      ensures c'.bad == fBad
      decreases h
    {
      hide CalcTreeWidth;
      c' := c;
      if c'.nBits >= |vBits| {
        fBad := true;
        return NULL_HASH, c'.(bad := true);
      }
      var parentOfMatch := vBits[c'.nBits];
      c' := c'.(nBits := c'.nBits + 1);
      if h == 0 || !parentOfMatch {
        if c'.nHash >= |vHash| {
          fBad := true;
          return NULL_HASH, c'.(bad := true);
        }
        hash := vHash[c'.nHash];
        c' := c'.(nHash := c'.nHash + 1);
        if h == 0 && parentOfMatch {
          c' := c'.(matches := c'.matches + [hash], indexes := c'.indexes + [pos]);
        }
        return;
      }
      var left, right;
      left, c' := TraverseAndExtract(h - 1, 2 * pos, c');
      if 2 * pos + 1 < CalcTreeWidth(nTransactions, h - 1) {
        right, c' := TraverseAndExtract(h - 1, 2 * pos + 1, c');
        if right == left {
          fBad := true;
          c' := c'.(bad := true);
        }
      } else {
        right := left;
      }
      hash := combine(left, right);
    }

    method ExtractMatches(indexesIn: seq<nat>) returns (root: Hash, matches: seq<Hash>, indexes: seq<nat>)
      modifies this`fBad
      ensures root == ExtractAll(combine, nTransactions, vBits, vHash, old(fBad), indexesIn).0
      ensures matches == ExtractAll(combine, nTransactions, vBits, vHash, old(fBad), indexesIn).1.matches
      ensures indexes == ExtractAll(combine, nTransactions, vBits, vHash, old(fBad), indexesIn).1.indexes
      ensures fBad == ExtractAll(combine, nTransactions, vBits, vHash, old(fBad), indexesIn).1.bad
      ensures Answers(combine, nTransactions, vBits, vHash, old(fBad), indexesIn, root, matches, indexes)
    {
      hide Extract, CalcTreeWidth, HeightFrom, Answers;
      DecodingAnswers(combine, nTransactions, vBits, vHash, fBad, indexesIn);
      root, matches, indexes := NULL_HASH, [], indexesIn;
      if nTransactions == 0 || nTransactions > MAX_TRANSACTIONS || |vHash| > nTransactions || |vBits| < |vHash| {
        return;
      }
      var height := TreeHeight(nTransactions);
      var hash, c := TraverseAndExtract(height, 0, Cursor(0, 0, fBad, [], indexesIn));
      matches, indexes := c.matches, c.indexes;
      if fBad || (c.nBits + 7) / 8 != (|vBits| + 7) / 8 || c.nHash != |vHash| {
        return;
      }
      root := hash;
    }
  }
}
