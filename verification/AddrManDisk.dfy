/**
 The address manager on disk: writing it out and reading it back loses no
 record and no table slot, and renumbers the ids in order within each table.
 */
module AddrManDisk {
  import opened Wrappers
  import opened AddrMan

  const VERSION: nat := 1
  const KEY_SIZE: nat := 32
  const BUCKET_COUNT_FLAG: nat := 0x4000_0000

  /** The stream, field by field. Of each record, what is kept in memory only is not in it. */
  datatype Saved = Saved(
    version: nat, keySize: nat, key: nat, nNew: int, nTried: int, uBuckets: nat,
    newInfos: seq<AddrInfo>, triedInfos: seq<AddrInfo>, buckets: seq<seq<int>>)

  /** A record as it comes out of the stream. */
  function OnDisk(i: AddrInfo): AddrInfo {
    AddrInfo(i.svc, i.services, i.time, i.source, 0, 0, i.lastSuccess, i.attempts, 0, false, -1)
  }

  // ----- lists of ids

  ghost predicate Ascending(s: seq<int>) {
    forall i, j :: 0 <= i < j < |s| ==> s[i] < s[j]
  }

  ghost predicate Lists(s: seq<int>, t: set<int>) {
    Ascending(s) && forall x :: x in s <==> x in t
  }

  lemma AscendingMore(s: seq<int>, x: int)
    requires Ascending(s) && forall y :: y in s ==> y < x
    ensures Ascending(s + [x])
  {
    assert forall i :: 0 <= i < |s| ==> s[i] in s;
  }

  lemma ListSize(s: seq<int>, t: set<int>)
    requires Lists(s, t)
    ensures |s| == |t|
  {
    assert forall i :: 0 <= i < |s| ==> s[i] in s;
    AsManyAs(s, t);
  }

  /** Where an id is in a list, or -1. */
  function Find(s: seq<int>, x: int): (k: int)
    ensures -1 <= k < |s| && (k >= 0 ==> s[k] == x) && (k == -1 ==> x !in s)
  {
    if s == [] then -1 else if s[|s| - 1] == x then |s| - 1 else Find(s[..|s| - 1], x)
  }

  lemma FindAt(s: seq<int>, k: nat)
    requires Ascending(s) && k < |s|
    ensures Find(s, s[k]) == k
  {
    hide Find;
    var j := Find(s, s[k]);
  }

  /** The new number of an id, when the first `n` of the list have been numbered from `base` on; -1 for none. */
  function Renumbered(s: seq<int>, x: int, n: int, base: int): int {
    if 0 <= Find(s, x) < n then base + Find(s, x) else -1
  }

  /** The keys of a map in order, as iteration over an ordered map gives them. */
  method ListIds(m: InfoMap) returns (ids: seq<int>)
    ensures Lists(ids, m.Keys)
  {
    ids := [];
    var rest := m.Keys;
    while |rest| > 0
      invariant rest <= m.Keys && Ascending(ids)
      invariant forall x :: x in m.Keys <==> x in ids || x in rest
      invariant forall x, y :: x in ids && y in rest ==> x < y
      decreases |rest|
    {
      var x := Least(rest);
      AscendingMore(ids, x);
      ids := ids + [x];
      rest := rest - {x};
    }
  }

  // ----- what is true of the tables of a consistent manager

  function TriedBucketOf(h: Hashes, key: nat, svc: Service): (b: int)
    ensures 0 <= b < TRIED_BUCKETS
  {
    h.triedHash(key, svc) % TRIED_BUCKETS
  }

  function PositionOf(h: Hashes, key: nat, svc: Service, isNew: bool, bucket: int): (p: int)
    ensures 0 <= p < BUCKET_SIZE
  {
    h.posHash(key, isNew, bucket, svc) % BUCKET_SIZE
  }

  type Table = seq<seq<int>>

  ghost predicate Sized(t: Table, n: nat) {
    |t| == n && forall b :: 0 <= b < n ==> |t[b]| == BUCKET_SIZE
  }

  /** The new buckets that hold an id. */
  ghost function BucketsOf(h: Hashes, key: nat, newTable: Table, id: int, svc: Service): set<int>
    requires Sized(newTable, NEW_BUCKETS)
  {
    set b | 0 <= b < NEW_BUCKETS && newTable[b][PositionOf(h, key, svc, true, b)] == id
  }

  datatype Book = Book(h: Hashes, key: nat, info: InfoMap, newTable: Table, triedTable: Table) {
    ghost predicate Valid() {
      && Sized(newTable, NEW_BUCKETS) && Sized(triedTable, TRIED_BUCKETS)
      && (forall i, j :: i in info && j in info && i != j ==> info[i].svc.ip != info[j].svc.ip)
      && (forall b, p :: 0 <= b < NEW_BUCKETS && 0 <= p < BUCKET_SIZE && newTable[b][p] != -1 ==> NewSlotOk(b, p))
      && (forall b, p :: 0 <= b < TRIED_BUCKETS && 0 <= p < BUCKET_SIZE && triedTable[b][p] != -1 ==> TriedSlotOk(b, p))
      && (forall id :: id in info ==> InfoOk(id))
    }

    ghost predicate NewSlotOk(b: int, p: int)
      requires Sized(newTable, NEW_BUCKETS) && 0 <= b < NEW_BUCKETS && 0 <= p < BUCKET_SIZE
    {
      var id := newTable[b][p];
      id in info && !info[id].inTried && PositionOf(h, key, info[id].svc, true, b) == p
    }

    ghost predicate TriedSlotOk(b: int, p: int)
      requires Sized(triedTable, TRIED_BUCKETS) && 0 <= b < TRIED_BUCKETS && 0 <= p < BUCKET_SIZE
    {
      var id := triedTable[b][p];
      && id in info && info[id].inTried
      && TriedBucketOf(h, key, info[id].svc) == b && PositionOf(h, key, info[id].svc, false, b) == p
    }

    ghost predicate InfoOk(id: int)
      requires Sized(newTable, NEW_BUCKETS) && Sized(triedTable, TRIED_BUCKETS) && id in info
    {
      && id >= 0 && info[id].lastSuccess >= 0
      && (info[id].inTried ==>
            && info[id].lastSuccess > 0 && info[id].refCount == 0
            && triedTable[TriedBucketOf(h, key, info[id].svc)]
                 [PositionOf(h, key, info[id].svc, false, TriedBucketOf(h, key, info[id].svc))] == id)
      && (!info[id].inTried ==>
            && 0 < info[id].refCount <= NEW_BUCKETS_PER_ADDRESS
            && info[id].refCount == |BucketsOf(h, key, newTable, id, info[id].svc)|)
    }
  }

  ghost function TableOf(t: array2<int>): (r: Table)
    reads t
    ensures |r| == t.Length0
    ensures forall b :: 0 <= b < t.Length0 ==> |r[b]| == t.Length1
    ensures forall b, p :: 0 <= b < t.Length0 && 0 <= p < t.Length1 ==> r[b][p] == t[b, p]
  {
    seq(t.Length0, b requires 0 <= b < t.Length0 reads t => RowOf(t, b))
  }

  ghost function RowOf(t: array2<int>, b: int): (r: seq<int>)
    requires 0 <= b < t.Length0
    reads t
    ensures |r| == t.Length1
    ensures forall p :: 0 <= p < t.Length1 ==> r[p] == t[b, p]
  {
    seq(t.Length1, p requires 0 <= p < t.Length1 reads t => t[b, p])
  }

  ghost function BookOf(a: AddrMan): Book
    reads a, a.vvNew, a.vvTried
  {
    Book(a.hashes, a.nKey, a.mapInfo, TableOf(a.vvNew), TableOf(a.vvTried))
  }

  lemma ConsistentBook(a: AddrMan)
    requires a.Consistent()
    ensures BookOf(a).Valid()
    ensures a.nNew == |UntriedIds(a.mapInfo)| && a.nTried == |TriedIds(a.mapInfo)|
  {
    var k := BookOf(a);
    forall id | id in k.info
      ensures k.InfoOk(id)
    {
      assert a.RecordOk(id, a.mapInfo[id], {});
      assert a.NewBucketsOf(id, a.mapInfo[id].svc) == BucketsOf(k.h, k.key, k.newTable, id, k.info[id].svc);
    }
  }

  // ----- writing

  /** What is written for the first `n` slots of a bucket: the numbers of the ids in it, in order. */
  ghost function Entries(row: seq<int>, news: seq<int>, n: nat): seq<int>
    requires n <= |row|
  {
    if n == 0 then []
    else Entries(row, news, n - 1) + if row[n - 1] != -1 then [Find(news, row[n - 1])] else []
  }

  /** `s` is what the manager `k` looks like on disk; `news` and `trieds` are its ids in order. */
  ghost predicate Describes(s: Saved, k: Book, news: seq<int>, trieds: seq<int>) {
    && s.version == VERSION && s.keySize == KEY_SIZE && s.key == k.key && s.uBuckets == NEW_BUCKETS + BUCKET_COUNT_FLAG
    && s.nNew == |news| && s.nTried == |trieds|
    && Lists(news, UntriedIds(k.info)) && Lists(trieds, TriedIds(k.info))
    && |s.newInfos| == |news| && (forall i :: 0 <= i < |news| ==> news[i] in k.info && s.newInfos[i] == OnDisk(k.info[news[i]]))
    && |s.triedInfos| == |trieds| && (forall i :: 0 <= i < |trieds| ==> trieds[i] in k.info && s.triedInfos[i] == OnDisk(k.info[trieds[i]]))
    && |s.buckets| == NEW_BUCKETS
    && Sized(k.newTable, NEW_BUCKETS)
    && (forall b :: 0 <= b < NEW_BUCKETS ==> s.buckets[b] == Entries(k.newTable[b], news, BUCKET_SIZE))
  }

  /** Of the ids looked at, those with (or without) the flag have been listed. */
  ghost predicate Selected(ids: seq<int>, n: nat, info: InfoMap, tried: bool, listed: seq<int>)
    requires n <= |ids|
  {
    && Ascending(listed)
    && (forall x :: x in listed <==> x in ids[..n] && x in info && info[x].inTried == tried)
  }

  lemma SelectedNext(ids: seq<int>, n: nat, info: InfoMap, tried: bool, listed: seq<int>)
    requires n < |ids| && Ascending(ids) && Selected(ids, n, info, tried, listed) && ids[n] in info
    ensures info[ids[n]].inTried == tried ==> Selected(ids, n + 1, info, tried, listed + [ids[n]])
    ensures info[ids[n]].inTried != tried ==> Selected(ids, n + 1, info, tried, listed)
    ensures info[ids[n]].inTried == tried ==> |listed| < |set x | x in info && info[x].inTried == tried|
  {
    assert ids[..n + 1] == ids[..n] + [ids[n]];
    forall y | y in listed
      ensures y < ids[n]
    {
      var i :| 0 <= i < n && ids[i] == y;
    }
    AscendingMore(listed, ids[n]);
    var all := set x | x in info && info[x].inTried == tried;
    var some := set x | x in listed;
    assert Lists(listed, some);
    ListSize(listed, some);
    if info[ids[n]].inTried == tried {
      assert ids[n] !in listed;
      assert some + {ids[n]} <= all;
      FewerElements(some + {ids[n]}, all);
    }
  }

  lemma SelectedAll(ids: seq<int>, info: InfoMap, tried: bool, listed: seq<int>)
    requires Lists(ids, info.Keys) && Selected(ids, |ids|, info, tried, listed)
    ensures Lists(listed, set x | x in info && info[x].inTried == tried)
  {
    assert ids[..|ids|] == ids;
  }

  /** The records with the flag, in the order of their ids, and the ids numbered in that order. */
  method WriteInfos(a: AddrMan, ids: seq<int>, tried: bool) returns (infos: seq<AddrInfo>, numbers: map<int, int>, ghost listed: seq<int>)
    requires a.Consistent() && Lists(ids, a.mapInfo.Keys)
    ensures Lists(listed, if tried then TriedIds(a.mapInfo) else UntriedIds(a.mapInfo))
    ensures |infos| == |listed| && forall i :: 0 <= i < |listed| ==> listed[i] in a.mapInfo && infos[i] == OnDisk(a.mapInfo[listed[i]])
    ensures forall i :: 0 <= i < |listed| ==> listed[i] in numbers && numbers[listed[i]] == i
  {
    hide AddrMan.Consistent, Selected, Lists;
    infos, numbers, listed := [], map[], [];
    SelectedNone(ids, a.mapInfo, tried);
    var nIds := 0;
    for n := 0 to |ids|
      invariant nIds == |infos| == |listed| && Selected(ids, n, a.mapInfo, tried, listed)
      invariant forall i :: 0 <= i < |listed| ==> listed[i] in a.mapInfo && infos[i] == OnDisk(a.mapInfo[listed[i]])
      invariant forall i :: 0 <= i < |listed| ==> listed[i] in numbers && numbers[listed[i]] == i
    {
      var id := ids[n];
      IdIsKnown(a, ids, n);
      SelectedNext(ids, n, a.mapInfo, tried, listed);
      SelectedBefore(ids, n, a.mapInfo, tried, listed);
      numbers := numbers[id := nIds];
      var info := a.mapInfo[id];
      if if tried then info.inTried else info.refCount != 0 {
        assert nIds != if tried then a.nTried else a.nNew;
        infos := infos + [OnDisk(info)];
        nIds := nIds + 1;
        listed := listed + [id];
      }
    }
    SelectedAll(ids, a.mapInfo, tried, listed);
    assert (set x | x in a.mapInfo && a.mapInfo[x].inTried == tried) == if tried then TriedIds(a.mapInfo) else UntriedIds(a.mapInfo);
  }

  lemma IdIsKnown(a: AddrMan, ids: seq<int>, n: nat)
    requires a.Consistent() && Lists(ids, a.mapInfo.Keys) && n < |ids|
    ensures Ascending(ids) && ids[n] in a.mapInfo
    ensures a.mapInfo[ids[n]].refCount != 0 <==> !a.mapInfo[ids[n]].inTried
    ensures a.nNew == |UntriedIds(a.mapInfo)| && a.nTried == |TriedIds(a.mapInfo)|
    ensures UntriedIds(a.mapInfo) == set x | x in a.mapInfo && a.mapInfo[x].inTried == false
    ensures TriedIds(a.mapInfo) == set x | x in a.mapInfo && a.mapInfo[x].inTried == true
  {
    assert ids[n] in ids;
    assert a.RecordOk(ids[n], a.mapInfo[ids[n]], {});
  }

  lemma SelectedBefore(ids: seq<int>, n: nat, info: InfoMap, tried: bool, listed: seq<int>)
    requires n < |ids| && Ascending(ids) && Selected(ids, n, info, tried, listed)
    ensures ids[n] !in listed
  {
    forall i | 0 <= i < n
      ensures ids[..n][i] != ids[n]
    {
    }
    var id: int := ids[n];
    assert id !in ids[..n];
    assert id !in listed;
  }

  lemma SelectedNone(ids: seq<int>, info: InfoMap, tried: bool)
    ensures Selected(ids, 0, info, tried, [])
  {
  }

  method WriteBucket(a: AddrMan, b: int, numbers: map<int, int>, ghost news: seq<int>) returns (bucket: seq<int>)
    requires a.Consistent() && 0 <= b < NEW_BUCKETS && Lists(news, UntriedIds(a.mapInfo))
    requires forall i :: 0 <= i < |news| ==> news[i] in numbers && numbers[news[i]] == i
    ensures bucket == Entries(TableOf(a.vvNew)[b], news, BUCKET_SIZE)
  {
    hide AddrMan.Holds;
    ghost var row := TableOf(a.vvNew)[b];
    bucket := [];
    for i := 0 to BUCKET_SIZE
      invariant bucket == Entries(row, news, i)
    {
      assert row[i] == a.vvNew[b, i];
      if a.vvNew[b, i] != -1 {
        NewSlotKnown(a, b, i);
        assert row[i] in news;
        FindAt(news, Find(news, row[i]));
        bucket := bucket + [numbers[a.vvNew[b, i]]];
      }
    }
  }

  lemma NewSlotKnown(a: AddrMan, b: int, p: int)
    requires a.Consistent() && 0 <= b < NEW_BUCKETS && 0 <= p < BUCKET_SIZE && a.vvNew[b, p] != -1
    ensures a.vvNew[b, p] in UntriedIds(a.mapInfo)
  {
  }

  method Serialize(a: AddrMan) returns (s: Saved, ghost news: seq<int>, ghost trieds: seq<int>)
    requires a.Consistent()
    ensures Describes(s, BookOf(a), news, trieds)
  {
    hide AddrMan.Holds, Entries, Lists;
    var ids := ListIds(a.mapInfo);
    var newInfos, triedInfos, numbers, unused;
    newInfos, numbers, news := WriteInfos(a, ids, false);
    triedInfos, unused, trieds := WriteInfos(a, ids, true);
    var buckets := [];
    for b := 0 to NEW_BUCKETS
      invariant |buckets| == b
      invariant forall j :: 0 <= j < b ==> buckets[j] == Entries(TableOf(a.vvNew)[j], news, BUCKET_SIZE)
    {
      var bucket := WriteBucket(a, b, numbers, news);
      buckets := buckets + [bucket];
    }
    ConsistentBook(a);
    ListSize(news, UntriedIds(a.mapInfo));
    ListSize(trieds, TriedIds(a.mapInfo));
    s := Saved(VERSION, KEY_SIZE, a.nKey, a.nNew, a.nTried, NEW_BUCKETS + BUCKET_COUNT_FLAG, newInfos, triedInfos, buckets);
  }

  // ----- reading records

  /** Records numbered in order: what is in the maps after the first `n` of `all` have been read. */
  ghost predicate Loaded(info: InfoMap, addr: map<nat, int>, random: seq<int>, all: seq<AddrInfo>, n: nat) {
    && n <= |all| && |random| == n
    && (forall id :: id in info <==> 0 <= id < n)
    && (forall id :: 0 <= id < n ==> info[id] == all[id].(randomPos := id))
    && (forall i :: 0 <= i < n ==> random[i] == i)
    && (forall ip :: ip in addr ==> 0 <= addr[ip] < n && all[addr[ip]].svc.ip == ip)
    && (forall id :: 0 <= id < n ==> all[id].svc.ip in addr && addr[all[id].svc.ip] == id)
  }

  ghost predicate DistinctIps(all: seq<AddrInfo>) {
    forall i, j :: 0 <= i < j < |all| ==> all[i].svc.ip != all[j].svc.ip
  }

  lemma LoadedNext(info: InfoMap, addr: map<nat, int>, random: seq<int>, all: seq<AddrInfo>, n: nat)
    requires Loaded(info, addr, random, all, n) && n < |all| && DistinctIps(all)
    ensures Loaded(info[n := all[n].(randomPos := n)], addr[all[n].svc.ip := n], random + [n], all, n + 1)
  {
  }

  lemma LoadedIsIndexed(info: InfoMap, addr: map<nat, int>, random: seq<int>, all: seq<AddrInfo>, n: nat)
    requires Loaded(info, addr, random, all, n)
    ensures Indexed(info, addr, random)
  {
  }

  method LoadNew(m: AddrMan, infos: seq<AddrInfo>, ghost all: seq<AddrInfo>)
    requires m.mapInfo == map[] && m.mapAddr == map[] && m.vRandom == []
    requires |infos| <= |all| && all[..|infos|] == infos && DistinctIps(all)
    modifies m`mapInfo, m`mapAddr, m`vRandom
    ensures Loaded(m.mapInfo, m.mapAddr, m.vRandom, all, |infos|)
  {
    hide Loaded;
    LoadedNothing(all);
    for n := 0 to |infos|
      invariant Loaded(m.mapInfo, m.mapAddr, m.vRandom, all, n)
    {
      LoadedSize(m.mapInfo, m.mapAddr, m.vRandom, all, n);
      LoadedNext(m.mapInfo, m.mapAddr, m.vRandom, all, n);
      assert infos[n] == all[n];
      m.mapInfo := m.mapInfo[n := infos[n].(randomPos := |m.vRandom|)];
      m.mapAddr := m.mapAddr[infos[n].svc.ip := n];
      m.vRandom := m.vRandom + [n];
    }
  }

  lemma LoadedNothing(all: seq<AddrInfo>)
    ensures Loaded(map[], map[], [], all, 0)
  {
  }

  /** The tried table, after the first `n` tried records have been read and numbered from `base` on. */
  ghost predicate TriedSoFar(t: array2<int>, from: Table, trieds: seq<int>, n: int, base: int)
    reads t
  {
    && Sized(from, TRIED_BUCKETS) && t.Length0 == TRIED_BUCKETS && t.Length1 == BUCKET_SIZE
    && forall b, p :: 0 <= b < TRIED_BUCKETS && 0 <= p < BUCKET_SIZE ==> t[b, p] == Renumbered(trieds, from[b][p], n, base)
  }

  /** The n-th tried record belongs to the slot that held it, and no other slot held it. */
  lemma TriedSlotIsFree(k: Book, trieds: seq<int>, n: nat, b: int, p: int)
    requires k.Valid() && Lists(trieds, TriedIds(k.info)) && n < |trieds|
    requires 0 <= b < TRIED_BUCKETS && 0 <= p < BUCKET_SIZE
    ensures trieds[n] in k.info
    ensures var svc := k.info[trieds[n]].svc;
            var own := TriedBucketOf(k.h, k.key, svc) == b && PositionOf(k.h, k.key, svc, false, b) == p;
            && (own <==> k.triedTable[b][p] == trieds[n])
            && (own <==> Find(trieds, k.triedTable[b][p]) == n)
  {
    hide Find;
    assert trieds[n] in trieds;
    var id := trieds[n];
    assert id in k.info && k.info[id].inTried;
    assert k.InfoOk(id);
    FindAt(trieds, n);
    if k.triedTable[b][p] == id {
      assert k.TriedSlotOk(b, p);
    }
  }

  method LoadTried(m: AddrMan, infos: seq<AddrInfo>, ghost all: seq<AddrInfo>, ghost base: nat, ghost k: Book, ghost trieds: seq<int>)
    returns (lost: int)
    requires m.Shape() && m.hashes == k.h && m.nKey == k.key && k.Valid() && Lists(trieds, TriedIds(k.info)) && |trieds| == |infos|
    requires forall i :: 0 <= i < |infos| ==> trieds[i] in k.info && infos[i] == OnDisk(k.info[trieds[i]])
    requires |all| == base + |infos| && DistinctIps(all)
    requires forall i :: 0 <= i < |infos| ==> all[base + i] == infos[i].(inTried := true)
    requires Loaded(m.mapInfo, m.mapAddr, m.vRandom, all, base) && m.nIdCount == base
    requires TriedSoFar(m.vvTried, k.triedTable, trieds, 0, base)
    modifies m`mapInfo, m`mapAddr, m`vRandom, m`nIdCount, m.vvTried
    ensures lost == 0 && Loaded(m.mapInfo, m.mapAddr, m.vRandom, all, |all|) && m.nIdCount == |all|
    ensures TriedSoFar(m.vvTried, k.triedTable, trieds, |trieds|, base)
  {
    hide Loaded, Book.Valid, Lists, Find;
    lost := 0;
    for n := 0 to |infos|
      invariant lost == 0 && Loaded(m.mapInfo, m.mapAddr, m.vRandom, all, base + n) && m.nIdCount == base + n
      invariant TriedSoFar(m.vvTried, k.triedTable, trieds, n, base)
    {
      var info := infos[n];
      var kb := m.TriedBucket(info.svc);
      var kp := m.Position(info.svc, false, kb);
      forall b, p | 0 <= b < TRIED_BUCKETS && 0 <= p < BUCKET_SIZE
        ensures (b == kb && p == kp) <==> Find(trieds, k.triedTable[b][p]) == n
      {
        TriedSlotIsFree(k, trieds, n, b, p);
      }
      if m.vvTried[kb, kp] == -1 {
        LoadedNext(m.mapInfo, m.mapAddr, m.vRandom, all, base + n);
        LoadedSize(m.mapInfo, m.mapAddr, m.vRandom, all, base + n);
        m.mapInfo := m.mapInfo[m.nIdCount := info.(randomPos := |m.vRandom|, inTried := true)];
        m.vRandom := m.vRandom + [m.nIdCount];
        m.mapAddr := m.mapAddr[info.svc.ip := m.nIdCount];
        m.vvTried[kb, kp] := m.nIdCount;
        m.nIdCount := m.nIdCount + 1;
      } else {
        lost := lost + 1;
      }
    }
  }

  lemma LoadedRange(info: InfoMap, addr: map<nat, int>, random: seq<int>, all: seq<AddrInfo>, id: int)
    requires Loaded(info, addr, random, all, |all|) && id in info
    ensures 0 <= id < |all|
  {
  }

  lemma LoadedSize(info: InfoMap, addr: map<nat, int>, random: seq<int>, all: seq<AddrInfo>, n: nat)
    requires Loaded(info, addr, random, all, n)
    ensures |random| == n
  {
  }

  // ----- reading the new table

  /** Fewer loose ids make a stronger statement. */
  lemma HoldsLooser(m: AddrMan, loose: set<int>, loose': set<int>, uncounted: int)
    requires m.Holds(loose, uncounted) && loose <= loose'
    ensures m.Holds(loose', uncounted)
  {
    forall j | j in m.mapInfo
      ensures m.RecordOk(j, m.mapInfo[j], loose')
    {
      assert m.RecordOk(j, m.mapInfo[j], loose);
    }
  }

  lemma {:induction false} SizeOfRange(s: set<int>, lo: int, hi: int)
    requires lo <= hi && forall x :: x in s <==> lo <= x < hi
    ensures |s| == hi - lo
    decreases hi - lo
  {
    if lo == hi {
      HasElement(s);
    } else {
      SizeOfRange(s - {hi - 1}, lo, hi - 1);
      assert s == (s - {hi - 1}) + {hi - 1};
    }
  }

  /** The records read, in terms of the book they come from: `base` new ones and then the tried ones. */
  ghost predicate Records(all: seq<AddrInfo>, base: nat, k: Book, news: seq<int>, trieds: seq<int>) {
    && k.Valid() && Lists(news, UntriedIds(k.info)) && Lists(trieds, TriedIds(k.info))
    && |news| == base && |all| == base + |trieds|
    && (forall i :: 0 <= i < base ==> news[i] in k.info && all[i] == OnDisk(k.info[news[i]]))
    && (forall i :: 0 <= i < |trieds| ==> trieds[i] in k.info && all[base + i] == OnDisk(k.info[trieds[i]]).(inTried := true))
  }

  lemma LoadedCounts(info: InfoMap, addr: map<nat, int>, random: seq<int>, all: seq<AddrInfo>, base: nat)
    requires Loaded(info, addr, random, all, |all|) && base <= |all|
    requires forall i :: 0 <= i < |all| ==> all[i].inTried == (i >= base)
    ensures |UntriedIds(info)| == base && |TriedIds(info)| == |all| - base
    ensures forall id :: 0 <= id < base ==> id in UntriedIds(info)
  {
    forall id: int
      ensures id in UntriedIds(info) <==> 0 <= id < base
      ensures id in TriedIds(info) <==> base <= id < |all|
    {
      if 0 <= id < |all| {
        assert info[id].inTried == all[id].inTried;
      }
    }
    SizeOfRange(UntriedIds(info), 0, base);
    SizeOfRange(TriedIds(info), base, |all|);
  }

  /** A new record, just read, sits in no table yet. */
  lemma NewRecordHolds(m: AddrMan, all: seq<AddrInfo>, base: nat, k: Book, news: seq<int>, trieds: seq<int>, id: int)
    requires m.Shape() && Records(all, base, k, news, trieds)
    requires Loaded(m.mapInfo, m.mapAddr, m.vRandom, all, |all|) && m.nIdCount == |all|
    requires forall b, p :: 0 <= b < NEW_BUCKETS && 0 <= p < BUCKET_SIZE ==> m.vvNew[b, p] == -1
    requires 0 <= id < base
    ensures id in m.mapInfo && m.RecordOk(id, m.mapInfo[id], UntriedIds(m.mapInfo))
    ensures !m.mapInfo[id].inTried && !all[id].inTried
  {
    assert news[id] in news;
    assert k.InfoOk(news[id]);
    var info := m.mapInfo[id];
    assert info == all[id].(randomPos := id) && all[id] == OnDisk(k.info[news[id]]);
    assert m.NewBucketsOf(id, info.svc) == {};
    assert id in UntriedIds(m.mapInfo);
  }

  /** A tried record, just read, sits in its slot. */
  lemma TriedRecordHolds(m: AddrMan, all: seq<AddrInfo>, base: nat, k: Book, news: seq<int>, trieds: seq<int>, id: int)
    requires m.Shape() && m.hashes == k.h && m.nKey == k.key && Records(all, base, k, news, trieds)
    requires Loaded(m.mapInfo, m.mapAddr, m.vRandom, all, |all|) && m.nIdCount == |all|
    requires TriedSoFar(m.vvTried, k.triedTable, trieds, |trieds|, base)
    requires base <= id < |all|
    ensures id in m.mapInfo && m.RecordOk(id, m.mapInfo[id], UntriedIds(m.mapInfo))
    ensures m.mapInfo[id].inTried && all[id].inTried
  {
    var n := id - base;
    assert all[base + n] == OnDisk(k.info[trieds[n]]).(inTried := true);
    assert trieds[n] in trieds;
    assert k.InfoOk(trieds[n]);
    var info := m.mapInfo[id];
    assert info == all[id].(randomPos := id);
    TriedSlotIsFree(k, trieds, n, m.TriedBucket(info.svc), m.Position(info.svc, false, m.TriedBucket(info.svc)));
    assert m.TriedSlotOf(info.svc) == id;
  }

  lemma TriedSlotHolds(m: AddrMan, all: seq<AddrInfo>, base: nat, k: Book, news: seq<int>, trieds: seq<int>, b: int, p: int)
    requires m.Shape() && m.hashes == k.h && m.nKey == k.key && Records(all, base, k, news, trieds)
    requires Loaded(m.mapInfo, m.mapAddr, m.vRandom, all, |all|)
    requires TriedSoFar(m.vvTried, k.triedTable, trieds, |trieds|, base)
    requires 0 <= b < TRIED_BUCKETS && 0 <= p < BUCKET_SIZE && m.vvTried[b, p] != -1
    ensures var id := m.vvTried[b, p];
            && id in m.mapInfo && m.mapInfo[id].inTried
            && m.TriedBucket(m.mapInfo[id].svc) == b && m.Position(m.mapInfo[id].svc, false, b) == p
  {
    var n := Find(trieds, k.triedTable[b][p]);
    assert all[base + n] == OnDisk(k.info[trieds[n]]).(inTried := true);
    TriedSlotIsFree(k, trieds, n, b, p);
    assert m.mapInfo[base + n] == all[base + n].(randomPos := base + n);
  }

  /** With all records read and the new table still empty, everything is consistent but for the unplaced new records. */
  lemma RecordsHold(m: AddrMan, all: seq<AddrInfo>, base: nat, k: Book, news: seq<int>, trieds: seq<int>)
    requires m.Shape() && m.hashes == k.h && m.nKey == k.key && Records(all, base, k, news, trieds)
    requires Loaded(m.mapInfo, m.mapAddr, m.vRandom, all, |all|) && m.nIdCount == |all|
    requires TriedSoFar(m.vvTried, k.triedTable, trieds, |trieds|, base)
    requires forall b, p :: 0 <= b < NEW_BUCKETS && 0 <= p < BUCKET_SIZE ==> m.vvNew[b, p] == -1
    requires m.nNew == base && m.nTried == |trieds|
    ensures m.Holds(UntriedIds(m.mapInfo), 0)
  {
    hide Indexed, AddrMan.RecordOk, Records, TriedSoFar;
    LoadedIsIndexed(m.mapInfo, m.mapAddr, m.vRandom, all, |all|);
    forall b, p | 0 <= b < TRIED_BUCKETS && 0 <= p < BUCKET_SIZE && m.vvTried[b, p] != -1
      ensures var id := m.vvTried[b, p];
              && id in m.mapInfo && m.mapInfo[id].inTried
              && m.TriedBucket(m.mapInfo[id].svc) == b && m.Position(m.mapInfo[id].svc, false, b) == p
    {
      TriedSlotHolds(m, all, base, k, news, trieds, b, p);
    }
    forall id | id in m.mapInfo
      ensures m.RecordOk(id, m.mapInfo[id], UntriedIds(m.mapInfo)) && all[id].inTried == (id >= base)
    {
      LoadedRange(m.mapInfo, m.mapAddr, m.vRandom, all, id);
      if id < base {
        NewRecordHolds(m, all, base, k, news, trieds, id);
      } else {
        TriedRecordHolds(m, all, base, k, news, trieds, id);
      }
    }
    RecordsSize(all, base, k, news, trieds);
    LoadedCounts(m.mapInfo, m.mapAddr, m.vRandom, all, base);
  }

  lemma RecordsSize(all: seq<AddrInfo>, base: nat, k: Book, news: seq<int>, trieds: seq<int>)
    requires Records(all, base, k, news, trieds)
    ensures base <= |all| == base + |trieds|
  {
  }

  /** The new table after the buckets before `bucket` and the first `q` slots of it have been read. */
  ghost predicate NewSoFar(t: array2<int>, from: Table, news: seq<int>, bucket: int, q: int)
    reads t
  {
    && Sized(from, NEW_BUCKETS) && t.Length0 == NEW_BUCKETS && t.Length1 == BUCKET_SIZE
    && forall b, p :: 0 <= b < NEW_BUCKETS && 0 <= p < BUCKET_SIZE ==>
         t[b, p] == if b < bucket || (b == bucket && p < q) then Renumbered(news, from[b][p], |news|, 0) else -1
  }

  /** The records are those read, but for the reference counts. */
  ghost predicate Reloaded(info: InfoMap, all: seq<AddrInfo>) {
    && (forall id :: id in info <==> 0 <= id < |all|)
    && (forall id :: 0 <= id < |all| ==> info[id].(refCount := 0) == all[id].(randomPos := id))
  }

  /** The next entry of a bucket comes from the next slot that is in use. */
  lemma {:induction false} NextEntry(row: seq<int>, news: seq<int>, q: nat, end: nat) returns (p: nat)
    requires q <= end <= |row| && |Entries(row, news, q)| < |Entries(row, news, end)|
    ensures q <= p < end && row[p] != -1 && (forall i :: q <= i < p ==> row[i] == -1)
    ensures Entries(row, news, p) == Entries(row, news, q)
    ensures Entries(row, news, end)[|Entries(row, news, q)|] == Find(news, row[p])
    ensures Entries(row, news, q) <= Entries(row, news, end)
    ensures Entries(row, news, p + 1) == Entries(row, news, q) + [Find(news, row[p])]
    decreases end - q
  {
    hide Find;
    if row[q] != -1 {
      p := q;
      EntriesGrow(row, news, q + 1, end);
      assert Entries(row, news, q + 1) == Entries(row, news, q) + [Find(news, row[q])];
    } else {
      assert Entries(row, news, q + 1) == Entries(row, news, q);
      p := NextEntry(row, news, q + 1, end);
    }
  }

  lemma {:induction false} EntriesGrow(row: seq<int>, news: seq<int>, q: nat, end: nat)
    requires q <= end <= |row|
    ensures Entries(row, news, q) <= Entries(row, news, end)
  {
    hide Find;
    if q < end {
      EntriesGrow(row, news, q, end - 1);
    }
  }

  /** There is room for the entry of a slot in use: its slot is still free and its count below the limit. */
  lemma RoomForEntry(m: AddrMan, all: seq<AddrInfo>, base: nat, k: Book, news: seq<int>, trieds: seq<int>, bucket: int, q: int, p: int)
    requires m.Shape() && m.hashes == k.h && m.nKey == k.key && Records(all, base, k, news, trieds)
    requires Reloaded(m.mapInfo, all) && m.Holds(UntriedIds(m.mapInfo), 0)
    requires 0 <= bucket < NEW_BUCKETS && 0 <= q <= p < BUCKET_SIZE && k.newTable[bucket][p] != -1
    requires NewSoFar(m.vvNew, k.newTable, news, bucket, q)
    ensures var n := Find(news, k.newTable[bucket][p]);
            && 0 <= n < base && n in m.mapInfo && !m.mapInfo[n].inTried && m.mapInfo[n].refCount < NEW_BUCKETS_PER_ADDRESS
            && m.Position(m.mapInfo[n].svc, true, bucket) == p && m.vvNew[bucket, p] == -1
  {
    hide Find;
    var id := k.newTable[bucket][p];
    assert k.NewSlotOk(bucket, p);
    assert id in UntriedIds(k.info);
    assert id in news;
    var n := Find(news, id);
    assert news[n] == id && all[n] == OnDisk(k.info[id]);
    assert n in m.mapInfo && m.mapInfo[n].(refCount := 0) == all[n].(randomPos := n);
    var svc := k.info[id].svc;
    assert m.mapInfo[n].svc == m.mapInfo[n].(refCount := 0).svc == svc;
    assert m.mapInfo[n].inTried == m.mapInfo[n].(refCount := 0).inTried;
    assert m.RecordOk(n, m.mapInfo[n], UntriedIds(m.mapInfo));
    assert k.InfoOk(id);
    var mine, theirs := m.NewBucketsOf(n, svc), BucketsOf(k.h, k.key, k.newTable, id, svc);
    forall b | b in mine
      ensures b in theirs && b != bucket
    {
      assert m.vvNew[b, m.Position(svc, true, b)] == n;
    }
    assert bucket in theirs && bucket !in mine;
    FewerElements(mine + {bucket}, theirs);
  }

  lemma NewSoFarNext(t: array2<int>, from: Table, news: seq<int>, bucket: int, q: int, p: int)
    requires Sized(from, NEW_BUCKETS) && t.Length0 == NEW_BUCKETS && t.Length1 == BUCKET_SIZE
    requires 0 <= bucket < NEW_BUCKETS && 0 <= q <= p < BUCKET_SIZE && -1 !in news && from[bucket][p] in news
    requires forall i :: q <= i < p ==> from[bucket][i] == -1
    requires t[bucket, p] == Find(news, from[bucket][p])
    requires forall b', p' :: 0 <= b' < NEW_BUCKETS && 0 <= p' < BUCKET_SIZE && (b' != bucket || p' != p) ==>
               t[b', p'] == if b' < bucket || (b' == bucket && p' < q) then Renumbered(news, from[b'][p'], |news|, 0) else -1
    ensures NewSoFar(t, from, news, bucket, p + 1)
  {
    hide Find;
  }

  /** Everything known while the new table is being read. */
  ghost predicate Reading(m: AddrMan, all: seq<AddrInfo>, base: nat, k: Book, news: seq<int>, trieds: seq<int>, bucket: int, q: int)
    reads m, m.vvNew, m.vvTried
  {
    && m.Shape() && m.hashes == k.h && m.nKey == k.key && Records(all, base, k, news, trieds)
    && Reloaded(m.mapInfo, all) && m.Holds(UntriedIds(m.mapInfo), 0)
    && NewSoFar(m.vvNew, k.newTable, news, bucket, q)
    && TriedSoFar(m.vvTried, k.triedTable, trieds, |trieds|, base)
    && m.nIdCount == |all|
  }

  /** Read one entry: put the record into the slot of this bucket that it hashes to. */
  method LoadEntry(m: AddrMan, bucket: int, nIndex: int, ghost all: seq<AddrInfo>, ghost base: nat, ghost k: Book,
                   ghost news: seq<int>, ghost trieds: seq<int>, ghost q: int, ghost p: int)
    requires Reading(m, all, base, k, news, trieds, bucket, q) && m.nNew == base
    requires 0 <= bucket < NEW_BUCKETS && 0 <= q <= p < BUCKET_SIZE && k.newTable[bucket][p] != -1
    requires nIndex == Find(news, k.newTable[bucket][p]) && forall i :: q <= i < p ==> k.newTable[bucket][i] == -1
    modifies m`mapInfo, m.vvNew
    ensures Reading(m, all, base, k, news, trieds, bucket, p + 1)
  {
    hide AddrMan.Holds, AddrMan.Contents, Records, Find;
    RoomForEntry(m, all, base, k, news, trieds, bucket, q, p);
    EntryIsListed(all, base, k, news, trieds, bucket, p);
    if 0 <= nIndex < m.nNew {
      var info := m.mapInfo[nIndex];
      var pos := m.Position(info.svc, true, bucket);
      if m.vvNew[bucket, pos] == -1 && info.refCount < NEW_BUCKETS_PER_ADDRESS {
        ghost var loose := UntriedIds(m.mapInfo);
        m.LinkNew(bucket, pos, nIndex, loose, 0);
        assert UntriedIds(m.mapInfo) == loose;
        HoldsLooser(m, loose - {nIndex}, loose, 0);
        NewSoFarNext(m.vvNew, k.newTable, news, bucket, q, p);
        assert Reloaded(m.mapInfo, all);
      }
    }
  }

  lemma EntryIsListed(all: seq<AddrInfo>, base: nat, k: Book, news: seq<int>, trieds: seq<int>, bucket: int, p: int)
    requires Records(all, base, k, news, trieds)
    requires 0 <= bucket < NEW_BUCKETS && 0 <= p < BUCKET_SIZE && k.newTable[bucket][p] != -1
    ensures k.newTable[bucket][p] in news && -1 !in news && |news| == base
  {
    assert k.NewSlotOk(bucket, p);
    assert k.newTable[bucket][p] in UntriedIds(k.info);
    NotAnId(all, base, k, news, trieds);
  }

  lemma NotAnId(all: seq<AddrInfo>, base: nat, k: Book, news: seq<int>, trieds: seq<int>)
    requires Records(all, base, k, news, trieds)
    ensures -1 !in news && -1 !in trieds
  {
    forall id | id in k.info
      ensures id != -1
    {
      assert k.InfoOk(id);
    }
  }

  method LoadBucket(m: AddrMan, bucket: int, entries: seq<int>, ghost all: seq<AddrInfo>, ghost base: nat, ghost k: Book,
                    ghost news: seq<int>, ghost trieds: seq<int>)
    requires Reading(m, all, base, k, news, trieds, bucket, 0) && m.nNew == base && 0 <= bucket < NEW_BUCKETS
    requires Sized(k.newTable, NEW_BUCKETS) && entries == Entries(k.newTable[bucket], news, BUCKET_SIZE)
    modifies m`mapInfo, m.vvNew
    ensures Reading(m, all, base, k, news, trieds, bucket + 1, 0)
  {
    hide Reading, Entries, Find;
    ghost var row, q := k.newTable[bucket], 0;
    EntriesStart(row, news);
    for n := 0 to |entries|
      invariant 0 <= q <= BUCKET_SIZE && n == |Entries(row, news, q)|
      invariant Reading(m, all, base, k, news, trieds, bucket, q)
    {
      ghost var p := NextEntry(row, news, q, BUCKET_SIZE);
      LoadEntry(m, bucket, entries[n], all, base, k, news, trieds, q, p);
      q := p + 1;
    }
    BucketDone(m, all, base, k, news, trieds, bucket, q);
  }

  lemma EntriesStart(row: seq<int>, news: seq<int>)
    ensures Entries(row, news, 0) == []
  {
  }

  /** When all entries have been read, the slots left over were empty. */
  lemma BucketDone(m: AddrMan, all: seq<AddrInfo>, base: nat, k: Book, news: seq<int>, trieds: seq<int>, bucket: int, q: int)
    requires Reading(m, all, base, k, news, trieds, bucket, q) && 0 <= bucket < NEW_BUCKETS && 0 <= q <= BUCKET_SIZE
    requires |Entries(k.newTable[bucket], news, q)| == |Entries(k.newTable[bucket], news, BUCKET_SIZE)|
    ensures Reading(m, all, base, k, news, trieds, bucket + 1, 0)
  {
    hide AddrMan.Holds, Records, Find, Entries;
    NotAnId(all, base, k, news, trieds);
    forall i | q <= i < BUCKET_SIZE
      ensures k.newTable[bucket][i] == -1
    {
      NoMoreEntries(k.newTable[bucket], news, q, i);
    }
  }

  lemma NoMoreEntries(row: seq<int>, news: seq<int>, q: nat, i: nat)
    requires q <= i < |row| && |Entries(row, news, q)| == |Entries(row, news, |row|)|
    ensures row[i] == -1
  {
    hide Find;
    EntriesGrow(row, news, q, i);
    EntriesGrow(row, news, i + 1, |row|);
  }

  // ----- pruning

  ghost function Elements(s: seq<int>): set<int> {
    set x | x in s
  }

  lemma ElementsNext(s: seq<int>, n: nat)
    requires n < |s| && Ascending(s)
    ensures Elements(s[n..]) == Elements(s[n + 1..]) + {s[n]} && s[n] !in Elements(s[n + 1..])
  {
    var t := s[n + 1..];
    assert s[n..] == [s[n]] + t;
    assert forall i :: 0 <= i < |t| ==> t[i] == s[n + 1 + i];
  }

  lemma AllElements(info: InfoMap, ids: seq<int>)
    requires Lists(ids, info.Keys)
    ensures UntriedIds(info) <= Elements(ids[0..])
    ensures forall j :: 0 <= j < |ids| ==> ids[j] in info
  {
    assert ids[0..] == ids;
    forall id | id in UntriedIds(info)
      ensures id in Elements(ids)
    {
      assert id in info.Keys;
    }
    forall j | 0 <= j < |ids|
      ensures ids[j] in info
    {
      var id: int := ids[j];
      assert id in ids;
    }
  }

  lemma NotLoose(m: AddrMan, id: int, loose: set<int>)
    requires m.Holds(loose + {id}, 0) && id in m.mapInfo && (m.mapInfo[id].inTried || m.mapInfo[id].refCount != 0)
    ensures m.Holds(loose, 0)
  {
    forall j | j in m.mapInfo
      ensures m.RecordOk(j, m.mapInfo[j], loose)
    {
      assert m.RecordOk(j, m.mapInfo[j], loose + {id});
    }
  }

  /** A record that sits in some slot. */
  predicate Placed(info: AddrInfo) {
    info.inTried || info.refCount != 0
  }

  /** The last loop of Unserialize: delete the new records that ended up in no slot. */
  method Prune(m: AddrMan) returns (lost: int)
    requires m.Holds(UntriedIds(m.mapInfo), 0)
    modifies m`mapInfo, m`mapAddr, m`vRandom, m`nNew
    ensures m.Consistent() && lost == old(m.nNew) - m.nNew
    ensures forall id :: id in m.mapInfo <==> id in old(m.mapInfo) && Placed(old(m.mapInfo)[id])
    ensures forall id :: id in m.mapInfo ==> m.mapInfo[id].Anywhere() == old(m.mapInfo)[id].Anywhere()
    ensures (forall id :: id in old(m.mapInfo) ==> Placed(old(m.mapInfo)[id])) ==>
              lost == 0 && m.mapInfo == old(m.mapInfo) && m.nNew == old(m.nNew)
  {
    hide AddrMan.Holds, AddrMan.Contents;
    lost := 0;
    var ids := ListIds(m.mapInfo);
    ghost var clean := forall id :: id in m.mapInfo ==> Placed(m.mapInfo[id]);
    AllElements(m.mapInfo, ids);
    HoldsLooser(m, UntriedIds(m.mapInfo), Elements(ids[0..]), 0);
    for n := 0 to |ids|
      invariant m.Holds(Elements(ids[n..]), 0)
      invariant forall j :: n <= j < |ids| ==> ids[j] in m.mapInfo
      invariant lost == old(m.nNew) - m.nNew
      invariant forall id :: id in m.mapInfo <==> id in old(m.mapInfo) && (id in Elements(ids[n..]) || Placed(old(m.mapInfo)[id]))
      invariant forall id :: id in m.mapInfo ==> m.mapInfo[id].Anywhere() == old(m.mapInfo)[id].Anywhere()
      invariant clean ==> lost == 0 && m.mapInfo == old(m.mapInfo) && m.nNew == old(m.nNew)
    {
      var id := ids[n];
      ElementsNext(ids, n);
      if !m.mapInfo[id].inTried && m.mapInfo[id].refCount == 0 {
        m.Delete(id, Elements(ids[n + 1..]), 0);
        lost := lost + 1;
      } else {
        NotLoose(m, id, Elements(ids[n + 1..]));
      }
    }
    assert Elements(ids[|ids|..]) == {};
  }

  // ----- reading everything

  /** The manager `m` is `k` with the ids renumbered in order within each table. */
  ghost predicate Renumbers(m: AddrMan, k: Book, news: seq<int>, trieds: seq<int>)
    requires m.Shape()
    reads m, m.vvNew, m.vvTried
  {
    && Lists(news, UntriedIds(k.info)) && Lists(trieds, TriedIds(k.info)) && m.nNew == |news| && m.nTried == |trieds|
    && m.nKey == k.key && (forall id :: id in m.mapInfo <==> 0 <= id < |news| + |trieds|)
    && (forall i :: 0 <= i < |news| ==> news[i] in k.info && m.mapInfo[i].Anywhere() == Again(k.info[news[i]]))
    && (forall i :: 0 <= i < |trieds| ==> trieds[i] in k.info && m.mapInfo[|news| + i].Anywhere() == Again(k.info[trieds[i]]))
    && NewSoFar(m.vvNew, k.newTable, news, NEW_BUCKETS, 0)
    && TriedSoFar(m.vvTried, k.triedTable, trieds, |trieds|, |news|)
  }

  /** A record after it has been written and read: two times kept in memory only are gone, and its place is open. */
  function Again(i: AddrInfo): AddrInfo {
    i.(lastTry := 0, lastCountAttempt := 0, randomPos := 0)
  }

  /** Everything is cleared, and key and counts are read. */
  method StartOver(m: AddrMan, s: Saved, ghost k: Book, ghost all: seq<AddrInfo>, ghost base: nat, ghost news: seq<int>, ghost trieds: seq<int>)
    requires m.Shape() && Records(all, base, k, news, trieds)
    modifies m, m.vvNew, m.vvTried
    ensures m.mapInfo == map[] && m.mapAddr == map[] && m.vRandom == []
    ensures m.nKey == s.key && m.nNew == s.nNew && m.nTried == s.nTried
    ensures forall b, p :: 0 <= b < NEW_BUCKETS && 0 <= p < BUCKET_SIZE ==> m.vvNew[b, p] == -1
    ensures TriedSoFar(m.vvTried, k.triedTable, trieds, 0, base) && NewSoFar(m.vvNew, k.newTable, news, 0, 0)
  {
    hide AddrMan.Holds, AddrMan.Contents, AddrMan.Consistent, Records, TriedSoFar, NewSoFar;
    m.Clear(0);
    m.nKey := s.key;
    m.nNew := s.nNew;
    m.nTried := s.nTried;
    TablesStart(m, k, all, base, news, trieds);
  }

  method LoadRecords(m: AddrMan, s: Saved, ghost k: Book, ghost news: seq<int>, ghost trieds: seq<int>, ghost all: seq<AddrInfo>)
    returns (lost: int)
    requires m.Shape() && m.hashes == k.h && k.Valid() && Describes(s, k, news, trieds)
    requires all == s.newInfos + seq(|s.triedInfos|, i requires 0 <= i < |s.triedInfos| => s.triedInfos[i].(inTried := true))
    modifies m, m.vvNew, m.vvTried
    ensures lost == 0 && m.nNew == |news| && Reading(m, all, |news|, k, news, trieds, 0, 0)
  {
    hide AddrMan.Holds, AddrMan.Contents, AddrMan.Consistent, Loaded, Records, TriedSoFar, NewSoFar, Reloaded, Book.Valid, Lists;
    RecordsFromDisk(s, k, news, trieds, all);
    StartOver(m, s, k, all, |news|, news, trieds);
    assert all[..|s.newInfos|] == s.newInfos;
    LoadNew(m, s.newInfos, all);
    m.nIdCount := m.nNew;
    lost := LoadTried(m, s.triedInfos, all, |news|, k, trieds);
    m.nTried := m.nTried - lost;
    RecordsHold(m, all, |news|, k, news, trieds);
    LoadedIsReloaded(m.mapInfo, m.mapAddr, m.vRandom, all);
  }

  lemma TablesStart(m: AddrMan, k: Book, all: seq<AddrInfo>, base: nat, news: seq<int>, trieds: seq<int>)
    requires m.Shape() && Records(all, base, k, news, trieds)
    requires forall b, p :: 0 <= b < NEW_BUCKETS && 0 <= p < BUCKET_SIZE ==> m.vvNew[b, p] == -1
    requires forall b, p :: 0 <= b < TRIED_BUCKETS && 0 <= p < BUCKET_SIZE ==> m.vvTried[b, p] == -1
    ensures TriedSoFar(m.vvTried, k.triedTable, trieds, 0, base) && NewSoFar(m.vvNew, k.newTable, news, 0, 0)
  {
  }

  lemma LoadedIsReloaded(info: InfoMap, addr: map<nat, int>, random: seq<int>, all: seq<AddrInfo>)
    requires Loaded(info, addr, random, all, |all|) && forall i :: 0 <= i < |all| ==> all[i].refCount == 0
    ensures Reloaded(info, all)
  {
  }

  lemma RecordsFromDisk(s: Saved, k: Book, news: seq<int>, trieds: seq<int>, all: seq<AddrInfo>)
    requires k.Valid() && Describes(s, k, news, trieds)
    requires all == s.newInfos + seq(|s.triedInfos|, i requires 0 <= i < |s.triedInfos| => s.triedInfos[i].(inTried := true))
    ensures Records(all, |news|, k, news, trieds) && DistinctIps(all)
  {
    hide Book.Valid, Lists;
    forall i, j | 0 <= i < j < |all|
      ensures all[i].svc.ip != all[j].svc.ip
    {
      var id, jd := IdOf(news, trieds, i), IdOf(news, trieds, j);
      assert all[i].svc == k.info[id].svc && all[j].svc == k.info[jd].svc;
      IpsDiffer(k, news, trieds, i, j);
    }
  }

  /** The id of the i-th record on disk. */
  ghost function IdOf(news: seq<int>, trieds: seq<int>, i: nat): int
    requires i < |news| + |trieds|
  {
    if i < |news| then news[i] else trieds[i - |news|]
  }

  lemma IpsDiffer(k: Book, news: seq<int>, trieds: seq<int>, i: nat, j: nat)
    requires k.Valid() && Lists(news, UntriedIds(k.info)) && Lists(trieds, TriedIds(k.info)) && i < j < |news| + |trieds|
    ensures var id, jd := IdOf(news, trieds, i), IdOf(news, trieds, j);
            id in k.info && jd in k.info && k.info[id].svc.ip != k.info[jd].svc.ip
  {
    var id, jd := IdOf(news, trieds, i), IdOf(news, trieds, j);
    assert if i < |news| then id in news else id in trieds;
    assert if j < |news| then jd in news else jd in trieds;
    assert id != jd;
  }

  /** With the whole new table read, every reference count is what it was. */
  lemma CountIsBack(m: AddrMan, all: seq<AddrInfo>, base: nat, k: Book, news: seq<int>, trieds: seq<int>, i: nat)
    requires Reading(m, all, base, k, news, trieds, NEW_BUCKETS, 0) && i < base
    ensures i in m.mapInfo && news[i] in k.info && m.mapInfo[i].refCount == k.info[news[i]].refCount > 0
  {
    hide Find;
    assert news[i] in news;
    var id := news[i];
    assert k.InfoOk(id);
    assert m.mapInfo[i].(refCount := 0) == all[i].(randomPos := i) && all[i] == OnDisk(k.info[id]);
    var svc := k.info[id].svc;
    assert m.mapInfo[i].svc == m.mapInfo[i].(refCount := 0).svc == svc;
    assert m.mapInfo[i].inTried == m.mapInfo[i].(refCount := 0).inTried;
    assert m.RecordOk(i, m.mapInfo[i], UntriedIds(m.mapInfo));
    FindAt(news, i);
    assert m.NewBucketsOf(i, svc) == BucketsOf(k.h, k.key, k.newTable, id, svc);
  }

  lemma RecordIsBack(m: AddrMan, all: seq<AddrInfo>, base: nat, k: Book, news: seq<int>, trieds: seq<int>, i: nat)
    requires Reading(m, all, base, k, news, trieds, NEW_BUCKETS, 0) && i < |all| && base == |news|
    ensures i in m.mapInfo && IdOf(news, trieds, i) in k.info
    ensures m.mapInfo[i].Anywhere() == Again(k.info[IdOf(news, trieds, i)])
    ensures !m.mapInfo[i].inTried ==> m.mapInfo[i].refCount > 0
  {
    hide Find, AddrMan.Holds;
    assert m.mapInfo[i].(refCount := 0) == all[i].(randomPos := i);
    if i < base {
      CountIsBack(m, all, base, k, news, trieds, i);
      assert news[i] in news;
    } else {
      assert trieds[i - base] in trieds;
      assert all[base + (i - base)] == OnDisk(k.info[trieds[i - base]]).(inTried := true);
      assert k.InfoOk(trieds[i - base]);
      TriedHaveNoCount(m, i);
    }
  }

  lemma TriedHaveNoCount(m: AddrMan, id: int)
    requires m.Holds(UntriedIds(m.mapInfo), 0) && id in m.mapInfo && m.mapInfo[id].(refCount := 0).inTried
    ensures m.mapInfo[id].refCount == 0
  {
    assert m.RecordOk(id, m.mapInfo[id], UntriedIds(m.mapInfo));
  }

  lemma AllIsBack(m: AddrMan, all: seq<AddrInfo>, k: Book, news: seq<int>, trieds: seq<int>)
    requires Reading(m, all, |news|, k, news, trieds, NEW_BUCKETS, 0) && m.nNew == |news|
    ensures Renumbers(m, k, news, trieds)
    ensures forall id :: id in m.mapInfo && !m.mapInfo[id].inTried ==> m.mapInfo[id].refCount > 0
  {
    hide AddrMan.Holds, Find, Book.Valid, Lists;
    forall i: int | 0 <= i < |all|
      ensures i in m.mapInfo && IdOf(news, trieds, i) in k.info
      ensures m.mapInfo[i].Anywhere() == Again(k.info[IdOf(news, trieds, i)])
      ensures !m.mapInfo[i].inTried ==> m.mapInfo[i].refCount > 0
    {
      RecordIsBack(m, all, |news|, k, news, trieds, i);
    }
    assert forall i :: 0 <= i < |trieds| ==> IdOf(news, trieds, |news| + i) == trieds[i];
    TriedCount(m, all, |news|, k, news, trieds);
  }

  lemma TriedCount(m: AddrMan, all: seq<AddrInfo>, base: nat, k: Book, news: seq<int>, trieds: seq<int>)
    requires Reading(m, all, base, k, news, trieds, NEW_BUCKETS, 0)
    ensures m.nTried == |trieds|
  {
    hide Find, Indexed, AddrMan.RecordOk, NewSoFar, TriedSoFar;
    forall id: int
      ensures id in TriedIds(m.mapInfo) <==> base <= id < |all|
    {
      if 0 <= id < |all| {
        assert m.mapInfo[id].inTried == m.mapInfo[id].(refCount := 0).inTried == all[id].inTried;
        if id >= base {
          var i := id - base;
          assert all[base + i] == OnDisk(k.info[trieds[i]]).(inTried := true);
        }
      }
    }
    SizeOfRange(TriedIds(m.mapInfo), base, |all|);
  }

  /** Unserialize, of a stream that Serialize wrote: nothing is lost. */
  method Unserialize(m: AddrMan, s: Saved, ghost k: Book, ghost news: seq<int>, ghost trieds: seq<int>) returns (lost: int, lostUnk: int)
    requires m.Shape() && m.hashes == k.h && k.Valid() && Describes(s, k, news, trieds)
    modifies m, m.vvNew, m.vvTried
    ensures lost == 0 && lostUnk == 0
    ensures m.Consistent() && Renumbers(m, k, news, trieds)
  {
    hide AddrMan.Holds, Reading, Entries, Book.Valid, Lists;
    ghost var all := s.newInfos + seq(|s.triedInfos|, i requires 0 <= i < |s.triedInfos| => s.triedInfos[i].(inTried := true));
    lost := LoadRecords(m, s, k, news, trieds, all);
    // The number of buckets, without the flag that older versions take for an error.
    var nUBuckets := s.uBuckets - BUCKET_COUNT_FLAG;
    for bucket := 0 to nUBuckets
      invariant m.nNew == |news| && Reading(m, all, |news|, k, news, trieds, bucket, 0)
    {
      LoadBucket(m, bucket, s.buckets[bucket], all, |news|, k, news, trieds);
    }
    ReadingHolds(m, all, |news|, k, news, trieds);
    AllIsBack(m, all, k, news, trieds);
    lostUnk := Prune(m);
  }

  lemma ReadingHolds(m: AddrMan, all: seq<AddrInfo>, base: nat, k: Book, news: seq<int>, trieds: seq<int>)
    requires Reading(m, all, base, k, news, trieds, NEW_BUCKETS, 0)
    ensures m.Holds(UntriedIds(m.mapInfo), 0)
  {
  }

  /** Writing a consistent manager and reading it into another gives the same manager, up to the numbering of ids. */
  method SaveAndLoad(a: AddrMan, m: AddrMan) returns (lost: int, lostUnk: int, ghost news: seq<int>, ghost trieds: seq<int>)
    requires a.Consistent() && m.Shape() && m.hashes == a.hashes
    requires a != m && {a.vvNew, a.vvTried} !! {m.vvNew, m.vvTried}
    modifies m, m.vvNew, m.vvTried
    ensures lost == 0 && lostUnk == 0
    ensures m.Consistent() && Renumbers(m, old(BookOf(a)), news, trieds)
  {
    hide AddrMan.Holds, Renumbers, Describes;
    ConsistentBook(a);
    CountsWithinLimits(a);
    var s;
    s, news, trieds := Serialize(a);
    // The limits that Unserialize checks before it reads on.
    assert a.nNew <= NEW_BUCKETS * BUCKET_SIZE && a.nTried <= TRIED_BUCKETS * BUCKET_SIZE;
    lost, lostUnk := Unserialize(m, s, BookOf(a), news, trieds);
  }

  /** Every record has a slot of its own, so the limits that Unserialize checks are kept. */
  lemma CountsWithinLimits(a: AddrMan)
    requires a.Consistent()
    ensures a.nNew <= NEW_BUCKETS * BUCKET_SIZE && a.nTried <= TRIED_BUCKETS * BUCKET_SIZE
  {
    forall id | id in UntriedIds(a.mapInfo)
      ensures InSlots(TableOf(a.vvNew), NEW_BUCKETS * BUCKET_SIZE, id)
    {
      assert a.RecordOk(id, a.mapInfo[id], {});
      HasElement(a.NewBucketsOf(id, a.mapInfo[id].svc));
      var b :| b in a.NewBucketsOf(id, a.mapInfo[id].svc);
      SlotNumber(TableOf(a.vvNew), b, a.Position(a.mapInfo[id].svc, true, b), NEW_BUCKETS);
    }
    forall id | id in TriedIds(a.mapInfo)
      ensures InSlots(TableOf(a.vvTried), TRIED_BUCKETS * BUCKET_SIZE, id)
    {
      assert a.RecordOk(id, a.mapInfo[id], {});
      var b := a.TriedBucket(a.mapInfo[id].svc);
      SlotNumber(TableOf(a.vvTried), b, a.Position(a.mapInfo[id].svc, false, b), TRIED_BUCKETS);
    }
    SlotsBound(TableOf(a.vvNew), NEW_BUCKETS * BUCKET_SIZE, UntriedIds(a.mapInfo));
    SlotsBound(TableOf(a.vvTried), TRIED_BUCKETS * BUCKET_SIZE, TriedIds(a.mapInfo));
  }

  /** One of the first `n` slots, bucket by bucket, holds `id`. */
  ghost predicate InSlots(t: Table, n: nat, id: int) {
    exists s: nat :: s < n && SlotHolds(t, s, id)
  }

  ghost predicate SlotHolds(t: Table, s: nat, id: int) {
    s / BUCKET_SIZE < |t| && s % BUCKET_SIZE < |t[s / BUCKET_SIZE]| && t[s / BUCKET_SIZE][s % BUCKET_SIZE] == id
  }

  lemma SlotNumber(t: Table, b: int, p: int, n: nat)
    requires Sized(t, n) && 0 <= b < n && 0 <= p < BUCKET_SIZE
    ensures InSlots(t, n * BUCKET_SIZE, t[b][p])
  {
    var s: nat := b * BUCKET_SIZE + p;
    assert SlotHolds(t, s, t[b][p]);
  }

  lemma {:induction false} SlotsBound(t: Table, n: nat, ids: set<int>)
    requires forall id :: id in ids ==> InSlots(t, n, id)
    ensures |ids| <= n
  {
    if n == 0 {
      HasElement(ids);
    } else {
      var s := n - 1;
      if exists id :: id in ids && SlotHolds(t, s, id) {
        var id :| id in ids && SlotHolds(t, s, id);
        SlotsBound(t, n - 1, ids - {id});
      } else {
        SlotsBound(t, n - 1, ids);
      }
    }
  }
}
