/**
 The address manager: two bucket tables of ids, two maps, a randomly ordered
 vector, reference counts and a set of pending collisions, all changed together.
 */
module AddrMan {
  import opened Arithmetic
  import opened Wrappers

  const NEW_BUCKETS := 1024
  const TRIED_BUCKETS := 256
  const BUCKET_SIZE := 64
  const NEW_BUCKETS_PER_ADDRESS := 8
  const SET_TRIED_COLLISION_SIZE := 10

  datatype Service = Service(ip: nat, port: nat)

  /** A CAddress: a network address and port with its advertised services and time. */
  datatype Address = Address(svc: Service, services: set<nat>, time: nat)

  datatype AddrInfo = AddrInfo(
    svc: Service, services: set<nat>, time: int, source: nat,
    lastTry: int, lastCountAttempt: int, lastSuccess: int, attempts: int,
    refCount: int, inTried: bool, randomPos: int)
  {
    // Times are in seconds; 30 days, 7 days, 3 and 10 attempts are the ADDRMAN_ limits.
    predicate IsTerrible(now: int) {
      if lastTry != 0 && lastTry >= now - 60 then false
      else
        || time > now + 10 * 60
        || time == 0 || now - time > 30 * 24 * 60 * 60
        || (lastSuccess == 0 && attempts >= 3)
        || (now - lastSuccess > 7 * 24 * 60 * 60 && attempts >= 10)
    }

    /** The record without its place in the random order. */
    function Anywhere(): AddrInfo { this.(randomPos := 0) }
  }

  function NewInfo(a: Address, source: nat): AddrInfo {
    AddrInfo(a.svc, a.services, a.time, source, 0, 0, 0, 0, 0, false, -1)
  }

  /** What a default entry of mapInfo holds. */
  function NoInfo(): AddrInfo {
    NewInfo(Address(Service(0, 0), {}, 0), 0)
  }

  /** The keyed hashes behind bucket and position choice: any functions will do. */
  datatype Hashes = Hashes(
    triedHash: (nat, Service) -> nat,              // key, address
    newHash: (nat, nat, nat) -> nat,               // key, ip, source
    posHash: (nat, bool, int, Service) -> nat)     // key, new table?, bucket, address

  /** A record after an attempt to connect to `svc`. */
  function Attempted(was: AddrInfo, svc: Service, countFailure: bool, time: nat, lastGood: int): AddrInfo {
    if was.svc != svc then was
    else if countFailure && was.lastCountAttempt < lastGood then
      was.(lastTry := time, lastCountAttempt := time, attempts := was.attempts + 1)
    else was.(lastTry := time)
  }

  /** A record after `svc` turned out to be connected: its time moves on every twenty minutes. */
  function ConnectedTo(was: AddrInfo, svc: Service, time: nat): AddrInfo {
    if was.svc == svc && time - was.time > 20 * 60 then was.(time := time) else was
  }

  /** A record after its address was announced again: a newer time, less the penalty, and more services. */
  function Refreshed(was: AddrInfo, a: Address, timePenalty: nat, now: int): AddrInfo {
    var updateInterval := if now - a.time < 24 * 60 * 60 then 60 * 60 else 24 * 60 * 60;
    var time :=
      if a.time != 0 && (was.time == 0 || was.time < a.time - updateInterval - timePenalty) then
        (if a.time - timePenalty > 0 then a.time - timePenalty else 0)
      else was.time;
    was.(time := time, services := was.services + a.services)
  }

  lemma RefreshedAnywhere(was: AddrInfo, a: Address, timePenalty: nat, now: int)
    ensures Refreshed(was.Anywhere(), a, timePenalty, now) == Refreshed(was, a, timePenalty, now).Anywhere()
  {
  }

  /** The record of an address heard of for the first time, in its first new slot. */
  function FirstHeard(a: Address, source: nat, timePenalty: nat): AddrInfo {
    NewInfo(a, source).(time := if a.time - timePenalty > 0 then a.time - timePenalty else 0, refCount := 1)
  }

  lemma FirstReference(was: AddrInfo, first: AddrInfo)
    requires was.Anywhere() == first.(refCount := 0).Anywhere() && first.refCount == 1 && was.refCount == 0
    ensures was.(refCount := was.refCount + 1).Anywhere() == first.Anywhere()
  {
    assert was.(refCount := 1).Anywhere() == was.Anywhere().(refCount := 1);
    assert first.(refCount := 0).Anywhere().(refCount := 1) == first.Anywhere();
  }

  /** The announcement is news about an untried record that can take another reference. */
  predicate HasNews(info: AddrInfo, a: Address) {
    a.time != 0 && (info.time == 0 || a.time > info.time) && !info.inTried && info.refCount != NEW_BUCKETS_PER_ADDRESS
  }

  /** Each reference makes the next one twice as unlikely. */
  predicate Lucky(info: AddrInfo, rnd: nat) {
    info.refCount >= 0 && rnd % Pow2(info.refCount) == 0
  }

  type InfoMap = map<int, AddrInfo>

  function TriedIds(m: InfoMap): set<int> { set id | id in m && m[id].inTried }

  function UntriedIds(m: InfoMap): set<int> { set id | id in m && !m[id].inTried }

  /** The two maps hold the same records up to their places in the random order. */
  ghost predicate SameUpToPlace(m: InfoMap, m': InfoMap) {
    m.Keys == m'.Keys && forall id :: id in m ==> m[id].Anywhere() == m'[id].Anywhere()
  }

  /** Every record of `m'` was already in `m`, under the same id and with the same address and times. */
  ghost predicate Descends(m: InfoMap, m': InfoMap) {
    forall id :: id in m' ==>
      id in m && m'[id].svc == m[id].svc && m'[id].lastTry == m[id].lastTry && m'[id].lastSuccess == m[id].lastSuccess
  }

  /** mapInfo, mapAddr and vRandom are mutually inverse. */
  ghost predicate Indexed(info: InfoMap, addr: map<nat, int>, random: seq<int>) {
    && (forall id :: id in info ==> info[id].svc.ip in addr && addr[info[id].svc.ip] == id)
    && (forall ip :: ip in addr ==> addr[ip] in info && info[addr[ip]].svc.ip == ip)
    && (forall id :: id in info ==> 0 <= info[id].randomPos < |random| && random[info[id].randomPos] == id)
    && (forall i :: 0 <= i < |random| ==> random[i] in info && info[random[i]].randomPos == i)
  }

  /** vRandom lists every id once, so it is as long as mapInfo is large. */
  lemma RandomHasAllIds(info: InfoMap, addr: map<nat, int>, random: seq<int>)
    requires Indexed(info, addr, random)
    ensures |random| == |info|
    ensures |TriedIds(info)| + |UntriedIds(info)| == |random|
  {
    AsManyAs(random, info.Keys);
    assert TriedIds(info) + UntriedIds(info) == info.Keys;
    assert TriedIds(info) !! UntriedIds(info);
  }

  lemma {:induction false} AsManyAs(s: seq<int>, t: set<int>)
    requires forall i, j :: 0 <= i < j < |s| ==> s[i] != s[j]
    requires forall i :: 0 <= i < |s| ==> s[i] in t
    requires forall x :: x in t ==> x in s
    ensures |s| == |t|
  {
    if s == [] {
      assert forall x :: x in t ==> x in s;
      assert t == {};
    } else {
      AsManyAs(s[1..], t - {s[0]});
    }
  }

  lemma HasElement(s: set<int>)
    ensures s == {} || exists x :: x in s
  {
    if forall x :: x !in s {
      assert s == {};
    }
  }

  /** The least element of a set, as the first one an ordered set hands out. */
  method Least(s: set<int>) returns (m: int)
    requires |s| > 0
    ensures m in s && forall x :: x in s ==> m <= x
  {
    HasElement(s);
    m :| m in s;
    var rest := s - {m};
    while |rest| > 0
      invariant m in s && rest <= s && forall x :: x in s && x !in rest ==> m <= x
      decreases |rest|
    {
      HasElement(rest);
      var x :| x in rest;
      rest := rest - {x};
      if x < m {
        m := x;
      }
    }
  }

  ghost function Below(s: set<int>, m: int): set<int> {
    set x | x in s && x < m
  }

  /** The element of an ordered set that `n` others come before. */
  method Nth(s: set<int>, n: nat) returns (m: int)
    requires n < |s|
    ensures m in s && |Below(s, m)| == n
  {
    var rest := s;
    ghost var passed: set<int> := {};
    for k := 0 to n
      invariant rest == s - passed && passed <= s && |passed| == k
      invariant forall x, y :: x in passed && y in rest ==> x < y
    {
      SizeOfRest(s, passed);
      var x := Least(rest);
      rest := rest - {x};
      passed := passed + {x};
    }
    SizeOfRest(s, passed);
    m := Least(rest);
    forall x | x in s
      ensures x in passed <==> x in Below(s, m)
    {
      assert x in passed || x in rest;
    }
    assert Below(s, m) == passed;
  }

  lemma {:induction false} HasLeast(s: set<int>)
    requires s != {}
    ensures exists m :: m in s && forall x :: x in s ==> m <= x
    decreases |s|
  {
    HasElement(s);
    var x :| x in s;
    if s - {x} != {} {
      HasLeast(s - {x});
      var m :| m in s - {x} && forall y :: y in s - {x} ==> m <= y;
      var least := if x < m then x else m;
      assert forall y :: y in s ==> y == x || y in s - {x};
      assert least in s && forall y :: y in s ==> least <= y;
    } else {
      assert forall y :: y in s ==> y == x || y in s - {x};
    }
  }

  lemma {:induction false} HasNth(s: set<int>, n: nat)
    requires n < |s|
    ensures exists m :: m in s && |Below(s, m)| == n
    decreases |s|
  {
    HasLeast(s);
    var x :| x in s && forall y :: y in s ==> x <= y;
    if n == 0 {
      assert Below(s, x) == {};
    } else {
      HasNth(s - {x}, n - 1);
      var m :| m in s - {x} && |Below(s - {x}, m)| == n - 1;
      assert Below(s, m) == Below(s - {x}, m) + {x};
    }
  }

  /** No two elements of an ordered set have the same number of others before them. */
  lemma OnlyOneNth(s: set<int>, m: int, m': int)
    requires m in s && m' in s && |Below(s, m)| == |Below(s, m')|
    ensures m == m'
  {
    if m < m' {
      FewerElements(Below(s, m) + {m}, Below(s, m'));
    } else if m' < m {
      FewerElements(Below(s, m') + {m'}, Below(s, m));
    }
  }

  lemma SizeOfRest(s: set<int>, t: set<int>)
    requires t <= s
    ensures |s - t| == |s| - |t|
  {
    assert s == t + (s - t);
  }

  lemma FewerElements(s: set<int>, t: set<int>)
    requires s <= t
    ensures |s| <= |t|
  {
    assert t == s + (t - s);
  }

  /** What happens to the two counts when an untried record disappears. */
  lemma WithoutUntried(m: InfoMap, id: int, m': InfoMap)
    requires id in m && !m[id].inTried
    requires SameUpToPlace(m - {id}, m')
    ensures TriedIds(m') == TriedIds(m)
    ensures UntriedIds(m') == UntriedIds(m) - {id}
    ensures |UntriedIds(m')| == |UntriedIds(m)| - 1
  {
    assert forall j :: j in m' ==> m'[j].inTried == m'[j].Anywhere().inTried == m[j].Anywhere().inTried == m[j].inTried;
    assert id in UntriedIds(m);
  }

  /** The indexes do not look at anything but address and place. */
  lemma IndexedKept(m: InfoMap, m': InfoMap, addr: map<nat, int>, random: seq<int>)
    requires Indexed(m, addr, random) && m.Keys == m'.Keys
    requires forall id :: id in m ==> m[id].svc == m'[id].svc && m[id].randomPos == m'[id].randomPos
    ensures Indexed(m', addr, random)
  {
  }

  /** What happens to the two counts when a record moves between the tables. */
  lemma Moved(m: InfoMap, id: int)
    requires id in m
    ensures var m' := m[id := m[id].(inTried := !m[id].inTried)];
            var delta := if m[id].inTried then -1 else 1;
            |TriedIds(m')| == |TriedIds(m)| + delta && |UntriedIds(m')| == |UntriedIds(m)| - delta
  {
    var m' := m[id := m[id].(inTried := !m[id].inTried)];
    if m[id].inTried {
      assert TriedIds(m) == TriedIds(m') + {id};
      assert UntriedIds(m') == UntriedIds(m) + {id};
    } else {
      assert TriedIds(m') == TriedIds(m) + {id};
      assert UntriedIds(m) == UntriedIds(m') + {id};
    }
  }

  ghost predicate ListsSound(info: InfoMap, svc: Service, now: int) {
    exists id :: id in info && info[id].svc == svc && !info[id].IsTerrible(now)
  }

  /** `addrs` are the sound entries among the first `n` of the random order, found at the places `picked`. */
  ghost predicate Picked(info: InfoMap, random: seq<int>, n: int, picked: seq<int>, addrs: seq<Service>, now: int) {
    && 0 <= n <= |random| && |addrs| == |picked| <= n
    && (forall k :: 0 <= k < |picked| ==>
          && 0 <= picked[k] < n && random[picked[k]] in info
          && info[random[picked[k]]].svc == addrs[k] && !info[random[picked[k]]].IsTerrible(now))
    && (forall k, l :: 0 <= k < l < |picked| ==> picked[k] < picked[l])
    && (forall i :: 0 <= i < n ==> random[i] in info && (info[random[i]].IsTerrible(now) || i in picked))
  }

  lemma PickedNone(info: InfoMap, random: seq<int>, now: int)
    ensures Picked(info, random, 0, [], [], now)
  {
  }

  lemma SameAnyway(m: InfoMap)
    ensures SameUpToPlace(m, m)
  {
  }

  lemma SameAgain(m: InfoMap, m': InfoMap, m'': InfoMap)
    requires SameUpToPlace(m, m') && SameUpToPlace(m', m'')
    ensures SameUpToPlace(m, m'')
  {
    forall id | id in m
      ensures m[id].Anywhere() == m''[id].Anywhere()
    {
      assert id in m'.Keys;
    }
  }

  lemma PickOne(info: InfoMap, info': InfoMap, random: seq<int>, random': seq<int>, n: int, picked: seq<int>, addrs: seq<Service>, now: int)
    requires Picked(info, random, n, picked, addrs, now) && n < |random| == |random'|
    requires SameUpToPlace(info, info') && random'[n] in info'
    requires forall i :: 0 <= i < n ==> random'[i] == random[i]
    ensures info'[random'[n]].IsTerrible(now) ==> Picked(info', random', n + 1, picked, addrs, now)
    ensures !info'[random'[n]].IsTerrible(now) ==>
              Picked(info', random', n + 1, picked + [n], addrs + [info'[random'[n]].svc], now)
  {
    forall id | id in info
      ensures info'[id].svc == info[id].svc && info'[id].IsTerrible(now) == info[id].IsTerrible(now)
    {
      assert info[id].Anywhere() == info'[id].Anywhere();
    }
    assert forall i :: i in picked ==> i in picked + [n];
    assert n in picked + [n];
  }

  lemma PickedMeansSound(info: InfoMap, addr: map<nat, int>, random: seq<int>, n: int, picked: seq<int>, addrs: seq<Service>, now: int)
    requires Indexed(info, addr, random) && Picked(info, random, n, picked, addrs, now)
    ensures forall k :: 0 <= k < |addrs| ==> ListsSound(info, addrs[k], now)
    ensures forall k, l :: 0 <= k < l < |addrs| ==> addrs[k].ip != addrs[l].ip
    ensures n == |random| ==> forall id :: id in info && !info[id].IsTerrible(now) ==> info[id].svc in addrs
  {
    forall k | 0 <= k < |addrs|
      ensures ListsSound(info, addrs[k], now)
    {
      var id := random[picked[k]];
      assert id in info && info[id].svc == addrs[k];
      assert !info[id].IsTerrible(now);
    }
    forall k, l | 0 <= k < l < |addrs|
      ensures addrs[k].ip != addrs[l].ip
    {
      assert picked[k] != picked[l];
      assert random[picked[k]] != random[picked[l]];
    }
    forall id | n == |random| && id in info && !info[id].IsTerrible(now)
      ensures info[id].svc in addrs
    {
      var k :| 0 <= k < |picked| && picked[k] == info[id].randomPos;
      assert addrs[k] == info[id].svc;
    }
  }

  // ----- the manager as a value

  type Slots = map<(int, int), int>

  ghost function Cells(t: array2<int>): (r: Slots)
    reads t
    ensures forall k :: k in r <==> 0 <= k.0 < t.Length0 && 0 <= k.1 < t.Length1
    ensures forall k :: k in r ==> r[k] == t[k.0, k.1]
  {
    map b, p | 0 <= b < t.Length0 && 0 <= p < t.Length1 :: (b, p) := t[b, p]
  }

  function At(slots: Slots, spot: (int, int)): int {
    if spot in slots then slots[spot] else -1
  }

  function Blank(buckets: nat): (r: Slots)
    ensures forall k :: k in r <==> 0 <= k.0 < buckets && 0 <= k.1 < BUCKET_SIZE
    ensures forall k :: k in r ==> r[k] == -1
  {
    map b, p | 0 <= b < buckets && 0 <= p < BUCKET_SIZE :: (b, p) := -1
  }

  lemma BlankCells(t: array2<int>, buckets: nat)
    requires t.Length0 == buckets && t.Length1 == BUCKET_SIZE
    requires forall b, p :: 0 <= b < buckets && 0 <= p < BUCKET_SIZE ==> t[b, p] == -1
    ensures Cells(t) == Blank(buckets)
  {
    hide Cells, Blank;
  }

  /** The table once `id` has been taken out of every slot. */
  function Emptied(slots: Slots, id: int): Slots {
    map spot | spot in slots :: if slots[spot] == id then -1 else slots[spot]
  }

  /** The records without their places in the random order, which the order itself tells. */
  ghost function Placeless(m: InfoMap): InfoMap {
    map id | id in m :: m[id].Anywhere()
  }


  lemma PlacelessUpdate(m: InfoMap, id: int, info: AddrInfo)
    ensures Placeless(m[id := info]) == Placeless(m)[id := info.Anywhere()]
  {
  }

  lemma OnlyOneMore(m: InfoMap, m': InfoMap, id: int)
    requires m'.Keys == m.Keys + {id} && forall j :: j in m && j != id ==> m'[j] == m[j]
    ensures m' == m[id := m'[id]]
  {
    assert m'.Keys == m[id := m'[id]].Keys;
    forall j | j in m'.Keys
      ensures m'[j] == m[id := m'[id]][j]
    {
    }
  }

  lemma PlacelessSame(m: InfoMap, m': InfoMap)
    requires SameUpToPlace(m, m')
    ensures Placeless(m') == Placeless(m)
  {
    forall id | id in m
      ensures id in m' && Placeless(m')[id] == Placeless(m)[id]
    {
      assert id in m.Keys && m[id].Anywhere() == m'[id].Anywhere();
    }
    assert forall id :: id in m' ==> id in m'.Keys;
  }

  lemma SoundAnywhere(m: InfoMap, m': InfoMap, id: int, now: int)
    requires SameUpToPlace(m, m') && id in m'
    ensures id in Placeless(m) && Placeless(m)[id].svc == m'[id].svc && Placeless(m)[id].IsTerrible(now) == m'[id].IsTerrible(now)
  {
    assert id in m'.Keys;
    assert m[id].Anywhere() == m'[id].Anywhere();
  }

  lemma PlacelessWithout(m: InfoMap, id: int)
    ensures Placeless(m - {id}) == Placeless(m) - {id}
  {
  }

  function Swapped(order: seq<int>, i: int, j: int): seq<int>
    requires 0 <= i < |order| && 0 <= j < |order|
  {
    order[i := order[j]][j := order[i]]
  }

  /** The random order without the id at one place: the last id takes it. */
  ghost function Dropped(order: seq<int>, id: int): seq<int> {
    if id !in order then order
    else
      var place :| 0 <= place < |order| && order[place] == id;
      Swapped(order, place, |order| - 1)[..|order| - 1]
  }

  /** At most 23% of the entries, and at most 2500, are given away at once. */
  function Quota(entries: nat): nat {
    if 23 * entries / 100 > 2500 then 2500 else 23 * entries / 100
  }

  /** The random order shuffled from place `n` on until `nodes` sound entries are met, and their addresses. */
  ghost function Sampled(info: InfoMap, order: seq<int>, rnd: nat -> nat, now: int, n: nat, nodes: nat): (seq<int>, seq<Service>)
    requires n <= |order|
    decreases |order| - n
  {
    if n == |order| || nodes == 0 then (order, [])
    else
      var order' := Swapped(order, n, rnd(n) % (|order| - n) + n);
      if order'[n] !in info || info[order'[n]].IsTerrible(now) then Sampled(info, order', rnd, now, n + 1, nodes)
      else
        var rest := Sampled(info, order', rnd, now, n + 1, nodes - 1);
        (rest.0, [info[order'[n]].svc] + rest.1)
  }

  /** Sampling from here on, after `addrs`, ends with `all`. */
  ghost predicate SamplesOn(info: InfoMap, order: seq<int>, rnd: nat -> nat, now: int, n: nat, nodes: nat, addrs: seq<Service>, all: (seq<int>, seq<Service>))
    requires n <= |order|
  {
    var rest := Sampled(info, order, rnd, now, n, nodes);
    all == (rest.0, addrs + rest.1)
  }

  lemma SampleStarts(info: InfoMap, order: seq<int>, rnd: nat -> nat, now: int, nodes: nat)
    ensures SamplesOn(info, order, rnd, now, 0, nodes, [], Sampled(info, order, rnd, now, 0, nodes))
  {
    var all := Sampled(info, order, rnd, now, 0, nodes);
    assert [] + all.1 == all.1;
  }

  lemma SampleGoesOn(info: InfoMap, order: seq<int>, rnd: nat -> nat, now: int, n: nat, nodes: nat, addrs: seq<Service>, all: (seq<int>, seq<Service>))
    requires n < |order| && nodes > 0 && SamplesOn(info, order, rnd, now, n, nodes, addrs, all)
    ensures var order' := Swapped(order, n, rnd(n) % (|order| - n) + n);
            if order'[n] !in info || info[order'[n]].IsTerrible(now) then SamplesOn(info, order', rnd, now, n + 1, nodes, addrs, all)
            else SamplesOn(info, order', rnd, now, n + 1, nodes - 1, addrs + [info[order'[n]].svc], all)
  {
    hide AddrInfo.IsTerrible;
    var order' := Swapped(order, n, rnd(n) % (|order| - n) + n);
    if order'[n] in info && !info[order'[n]].IsTerrible(now) {
      var one, rest := [info[order'[n]].svc], Sampled(info, order', rnd, now, n + 1, nodes - 1);
      assert addrs + (one + rest.1) == (addrs + one) + rest.1;
    }
  }

  lemma SampleEnds(info: InfoMap, order: seq<int>, rnd: nat -> nat, now: int, n: nat, nodes: nat, addrs: seq<Service>, all: (seq<int>, seq<Service>))
    requires n <= |order| && (n == |order| || nodes == 0) && SamplesOn(info, order, rnd, now, n, nodes, addrs, all)
    ensures all == (order, addrs)
  {
    assert addrs + [] == addrs;
  }

  /** Everything the manager knows, as one value: what each operation makes of it is told without loops and arrays. */
  datatype State = State(
    hashes: Hashes, key: nat, idCount: int, info: InfoMap, random: seq<int>,
    newSlots: Slots, triedSlots: Slots, lastGood: int, collisions: set<int>)
  {
    function TriedSpot(svc: Service): (int, int) {
      var b := hashes.triedHash(key, svc) % TRIED_BUCKETS;
      (b, hashes.posHash(key, false, b, svc) % BUCKET_SIZE)
    }

    function NewSpot(svc: Service, source: nat): (int, int) {
      var b := hashes.newHash(key, svc.ip, source) % NEW_BUCKETS;
      (b, hashes.posHash(key, true, b, svc) % BUCKET_SIZE)
    }

    function With(id: int, record: AddrInfo): State {
      this.(info := info[id := record])
    }

    ghost function Without(id: int): State {
      this.(info := info - {id}, random := Dropped(random, id))
    }

    lemma WithThenWithout(id: int, record: AddrInfo)
      ensures With(id, record).Without(id) == Without(id)
    {
      assert info[id := record] - {id} == info - {id};
    }

    /** One new slot empty, and its entry gone if that was its last reference. */
    ghost function Cleared(spot: (int, int)): State {
      var id := At(newSlots, spot);
      var s := this.(newSlots := newSlots[spot := -1]);
      if id !in info then this
      else if info[id].refCount == 1 then s.Without(id)
      else s.With(id, info[id].(refCount := info[id].refCount - 1))
    }

    /** One new slot taken by an entry. */
    ghost function Linked(spot: (int, int), id: int): State {
      if id !in info then this
      else this.(newSlots := newSlots[spot := id]).With(id, info[id].(refCount := info[id].refCount + 1))
    }

    /** The entry of a tried slot back in the new table, in the slot of its source. */
    ghost function SentBack(spot: (int, int)): State {
      var id := At(triedSlots, spot);
      if id !in info then this
      else
        var back := NewSpot(info[id].svc, info[id].source);
        this.(triedSlots := triedSlots[spot := -1]).With(id, info[id].(inTried := false)).Cleared(back).Linked(back, id)
    }

    /** An entry moved from all its new slots to its tried slot. */
    ghost function MadeTried(id: int): State {
      if id !in info then this
      else
        var spot := TriedSpot(info[id].svc);
        var out := info[id].(refCount := 0);
        var s := this.(newSlots := Emptied(newSlots, id)).With(id, out).SentBack(spot);
        s.(triedSlots := s.triedSlots[spot := id]).With(id, out.(inTried := true))
    }

    /** An untried entry moved to its tried slot, or noted as a collision when the slot is taken and must be tested first. */
    ghost function Promoted(id: int, testBeforeEvict: bool): State {
      if id !in info then this
      else if testBeforeEvict && At(triedSlots, TriedSpot(info[id].svc)) != -1 then
        if |collisions| < SET_TRIED_COLLISION_SIZE then this.(collisions := collisions + {id}) else this
      else MadeTried(id)
    }

    /** The id of the record with this address; -1 if there is none. */
    ghost function IdOf(ip: nat): int {
      if id :| id in info && info[id].svc.ip == ip then id else -1
    }

    ghost function AfterGood(svc: Service, testBeforeEvict: bool, time: int): State {
      var id := IdOf(svc.ip);
      var s := this.(lastGood := time);
      if id !in info || info[id].svc != svc then s
      else
        var s' := s.With(id, info[id].(lastSuccess := time, lastTry := time, attempts := 0));
        if info[id].inTried then s' else s'.Promoted(id, testBeforeEvict)
    }

    /** An entry in the new slot of a source, if it may have it; an entry without a slot is given up. */
    ghost function Placed(id: int, source: nat, now: int): State {
      if id !in info then this
      else
        var spot := NewSpot(info[id].svc, source);
        var held := At(newSlots, spot);
        if held == id then this
        else if held !in info || info[held].IsTerrible(now) || (info[held].refCount > 1 && info[id].refCount == 0) then
          Cleared(spot).Linked(spot, id)
        else if info[id].refCount == 0 then Without(id)
        else this
    }

    ghost function AfterNews(id: int, a: Address, source: nat, timePenalty: nat, now: int, rnd: nat): State {
      if id !in info then this
      else
        var record := Refreshed(info[id], a, timePenalty, now);
        if HasNews(record, a) && Lucky(record, rnd) then With(id, record).Placed(id, source, now) else With(id, record)
    }

    /** The record of an unknown address created under the next id. */
    ghost function Created(a: Address, source: nat, timePenalty: nat): State {
      this.(idCount := idCount + 1, random := random + [idCount])
          .With(idCount, FirstHeard(a, source, timePenalty).(refCount := 0).Anywhere())
    }

    ghost function AfterAdd(a: Address, source: nat, routable: bool, penalty: nat, now: int, rnd: nat): State {
      var timePenalty := if a.svc.ip == source then 0 else penalty;
      var id := IdOf(a.svc.ip);
      if !routable then this
      else if id in info then AfterNews(id, a, source, timePenalty, now, rnd)
      else Created(a, source, timePenalty).Placed(idCount, source, now)
    }

    ghost function AfterAttempt(svc: Service, countFailure: bool, time: nat): State {
      this.(info := map id | id in info :: Attempted(info[id], svc, countFailure, time, lastGood))
    }

    ghost function AfterConnected(svc: Service, time: nat): State {
      this.(info := map id | id in info :: ConnectedTo(info[id], svc, time))
    }

    ghost function Sample(now: int, rnd: nat -> nat): (seq<int>, seq<Service>) {
      Sampled(info, random, rnd, now, 0, Quota(|random|))
    }

    ghost function Holder(svc: Service): int {
      At(triedSlots, TriedSpot(svc))
    }

    /** Nothing more is to be awaited for the collision: the entry is gone or invalid, or the holder of its slot is safe or had its chance. */
    ghost predicate Settles(id: int, now: int, valid: bool) {
      id in info && valid && Holder(info[id].svc) in info ==>
        var held := info[Holder(info[id].svc)];
        now - held.lastSuccess < 4 * 60 * 60 || 60 < now - held.lastTry < 4 * 60 * 60
    }

    /** The entry of a collision gets its slot if nobody holds it or the holder had its chance. */
    ghost predicate Evicts(id: int, now: int, valid: bool) {
      && id in info && valid && Settles(id, now, valid)
      && (Holder(info[id].svc) in info ==> now - info[Holder(info[id].svc)].lastSuccess >= 4 * 60 * 60)
    }

    ghost function ResolvedOne(id: int, now: int, valid: bool): State {
      if Evicts(id, now, valid) then AfterGood(info[id].svc, false, now) else this
    }

    /** The collisions of `todo` decided one after the other, the least id first. */
    ghost function ResolvedAll(todo: set<int>, now: int, isValid: Service -> bool): State
      decreases |todo|
    {
      if todo == {} then this
      else
        HasLeast(todo);
        var id :| id in todo && forall x :: x in todo ==> id <= x;
        ResolvedNext(id, now, isValid).ResolvedAll(todo - {id}, now, isValid)
    }

    lemma ResolvesLeast(todo: set<int>, id: int, now: int, isValid: Service -> bool)
      requires id in todo && forall x :: x in todo ==> id <= x
      ensures ResolvedAll(todo, now, isValid) == ResolvedNext(id, now, isValid).ResolvedAll(todo - {id}, now, isValid)
    {
    }

    ghost function ResolvedNext(id: int, now: int, isValid: Service -> bool): State {
      var valid := id in info && isValid(info[id].svc);
      var s := ResolvedOne(id, now, valid);
      if Settles(id, now, valid) then s.(collisions := s.collisions - {id}) else s
    }

    ghost function AfterSelect(rnd: nat): State {
      if |collisions| == 0 then this
      else
        HasNth(collisions, rnd % |collisions|);
        var id :| id in collisions && |Below(collisions, id)| == rnd % |collisions|;
        Asked(id)
    }

    /** After the holder of the slot of `id` was looked up. */
    ghost function Asked(id: int): State {
      if id !in info then this.(collisions := collisions - {id})
      else if Holder(info[id].svc) !in info then With(Holder(info[id].svc), NoInfo().Anywhere())
      else this
    }

    ghost function After(op: Op): State {
      match op
      case OpAdd(a, source, routable, penalty, now, rnd) => AfterAdd(a, source, routable, penalty, now, rnd)
      case OpGood(svc, test, time, _) => AfterGood(svc, test, time)
      case OpAttempt(svc, countFailure, time) => AfterAttempt(svc, countFailure, time)
      case OpGetAddr(now, rnd) => this.(random := Sample(now, rnd).0)
      case OpConnected(svc, time) => AfterConnected(svc, time)
      case OpResolve(now, _, isValid) => ResolvedAll(collisions, now, isValid)
      case OpSelect(rnd) => AfterSelect(rnd)
    }

    ghost function AfterAll(ops: seq<Op>): State {
      if ops == [] then this else AfterAll(ops[..|ops| - 1]).After(ops[|ops| - 1])
    }

    lemma SelectsNth(rnd: nat, id: int)
      requires id in collisions && |Below(collisions, id)| == rnd % |collisions|
      ensures AfterSelect(rnd) == Asked(id)
    {
      HasNth(collisions, rnd % |collisions|);
      var id' :| id' in collisions && |Below(collisions, id')| == rnd % |collisions| && AfterSelect(rnd) == Asked(id');
      OnlyOneNth(collisions, id, id');
    }
  }

  /** A manager that knows nothing. */
  function NoEntries(hashes: Hashes, key: nat): State {
    State(hashes, key, 0, map[], [], Blank(NEW_BUCKETS), Blank(TRIED_BUCKETS), 1, {})
  }

  class AddrMan {
    const hashes: Hashes
    const vvNew: array2<int>
    const vvTried: array2<int>

    var nKey: nat
    var nIdCount: int
    var mapInfo: InfoMap
    var mapAddr: map<nat, int>
    var vRandom: seq<int>
    var nTried: int
    var nNew: int
    var nLastGood: int
    var triedCollisions: set<int>

    // ----- bucket choice

    function TriedBucket(svc: Service): (b: int)
      reads this`nKey
      ensures 0 <= b < TRIED_BUCKETS
    {
      hashes.triedHash(nKey, svc) % TRIED_BUCKETS
    }

    function NewBucket(svc: Service, source: nat): (b: int)
      reads this`nKey
      ensures 0 <= b < NEW_BUCKETS
    {
      hashes.newHash(nKey, svc.ip, source) % NEW_BUCKETS
    }

    function Position(svc: Service, isNew: bool, bucket: int): (p: int)
      reads this`nKey
      ensures 0 <= p < BUCKET_SIZE
    {
      hashes.posHash(nKey, isNew, bucket, svc) % BUCKET_SIZE
    }

    // ----- the invariant

    ghost function Contents(): State
      reads this, vvNew, vvTried
    {
      State(hashes, nKey, nIdCount, Placeless(mapInfo), vRandom, Cells(vvNew), Cells(vvTried), nLastGood, triedCollisions)
    }

    ghost predicate Shape() {
      && vvNew.Length0 == NEW_BUCKETS && vvNew.Length1 == BUCKET_SIZE
      && vvTried.Length0 == TRIED_BUCKETS && vvTried.Length1 == BUCKET_SIZE
      && vvNew != vvTried
    }

    /** The new buckets that hold `id`; a bucket can hold it at one position only. */
    ghost function NewBucketsOf(id: int, svc: Service): set<int>
      requires Shape()
      reads this`nKey, vvNew
    {
      set b | 0 <= b < NEW_BUCKETS && vvNew[b, Position(svc, true, b)] == id
    }

    ghost predicate NewSlotsOk()
      requires Shape()
      reads this`nKey, this`mapInfo, vvNew
    {
      forall b, p :: 0 <= b < NEW_BUCKETS && 0 <= p < BUCKET_SIZE && vvNew[b, p] != -1 ==>
        && vvNew[b, p] in mapInfo
        && !mapInfo[vvNew[b, p]].inTried
        && Position(mapInfo[vvNew[b, p]].svc, true, b) == p
    }

    ghost predicate TriedSlotsOk()
      requires Shape()
      reads this`nKey, this`mapInfo, vvTried
    {
      forall b, p :: 0 <= b < TRIED_BUCKETS && 0 <= p < BUCKET_SIZE && vvTried[b, p] != -1 ==>
        && vvTried[b, p] in mapInfo
        && mapInfo[vvTried[b, p]].inTried
        && TriedBucket(mapInfo[vvTried[b, p]].svc) == b
        && Position(mapInfo[vvTried[b, p]].svc, false, b) == p
    }

    lemma SpotsInContents(svc: Service, source: nat)
      ensures Contents().TriedSpot(svc) == (TriedBucket(svc), Position(svc, false, TriedBucket(svc)))
      ensures Contents().NewSpot(svc, source) == (NewBucket(svc, source), Position(svc, true, NewBucket(svc, source)))
    {
    }

    lemma HolderInContents(svc: Service)
      requires Consistent()
      ensures Contents().Holder(svc) == TriedSlotOf(svc)
      ensures TriedSlotOf(svc) in Contents().info <==> TriedSlotOf(svc) != -1
      ensures TriedSlotOf(svc) in mapInfo ==> Contents().info[TriedSlotOf(svc)] == mapInfo[TriedSlotOf(svc)].Anywhere()
    {
      hide Contents;
      SpotsInContents(svc, 0);
      TriedSlotInContents(TriedBucket(svc), Position(svc, false, TriedBucket(svc)));
      RecordInContents(TriedSlotOf(svc));
      NoneBelowZero({}, 0);
    }

    lemma CountInContents()
      ensures Contents().idCount == nIdCount
    {
    }

    lemma RecordInContents(id: int)
      ensures id in Contents().info <==> id in mapInfo
      ensures id in mapInfo ==> Contents().info[id] == mapInfo[id].Anywhere()
    {
    }

    lemma NewSlotInContents(b: int, p: int)
      requires Shape() && 0 <= b < NEW_BUCKETS && 0 <= p < BUCKET_SIZE
      ensures At(Contents().newSlots, (b, p)) == vvNew[b, p]
    {
    }

    lemma TriedSlotInContents(b: int, p: int)
      requires Shape() && 0 <= b < TRIED_BUCKETS && 0 <= p < BUCKET_SIZE
      ensures At(Contents().triedSlots, (b, p)) == vvTried[b, p]
    {
    }

    /** The id in the tried slot that `svc` hashes to. */
    ghost function TriedSlotOf(svc: Service): int
      requires Shape()
      reads this`nKey, vvTried
    {
      vvTried[TriedBucket(svc), Position(svc, false, TriedBucket(svc))]
    }

    ghost predicate RecordOk(id: int, info: AddrInfo, loose: set<int>)
      requires Shape()
      reads this`nKey, this`nIdCount, vvNew, vvTried
    {
      && 0 <= id < nIdCount
      && info.lastTry >= 0 && info.lastSuccess >= 0
      && (if info.inTried then
            info.lastSuccess > 0 && info.refCount == 0 && TriedSlotOf(info.svc) == id
          else
            && info.refCount == |NewBucketsOf(id, info.svc)|
            && 0 <= info.refCount <= NEW_BUCKETS_PER_ADDRESS
            && (id !in loose ==> info.refCount > 0))
    }

    /**
     The consistency check, with two allowances for the middle of an operation: the ids in
     `loose` may sit in no table, and `uncounted` entries are not yet in nNew.
     */
    ghost predicate Holds(loose: set<int>, uncounted: int)
      reads this`nKey, this`nIdCount, this`mapInfo, this`mapAddr, this`vRandom, this`nTried, this`nNew, vvNew, vvTried
      ensures Holds(loose, uncounted) ==> Shape()
    {
      && Shape()
      && Indexed(mapInfo, mapAddr, vRandom)
      && NewSlotsOk() && TriedSlotsOk()
      && (forall id :: id in mapInfo ==> RecordOk(id, mapInfo[id], loose))
      && nIdCount >= 0 && nTried == |TriedIds(mapInfo)|
      && nNew + uncounted == |UntriedIds(mapInfo)|
    }

    ghost predicate Consistent()
      reads this`nKey, this`nIdCount, this`mapInfo, this`mapAddr, this`vRandom, this`nTried, this`nNew, vvNew, vvTried
    {
      Holds({}, 0)
    }

    /** Every pending collision still on record points at an occupied tried slot. */
    ghost predicate CollisionsOk()
      requires Shape()
      reads this`nKey, this`nIdCount, this`mapInfo, this`triedCollisions, vvTried
    {
      && |triedCollisions| <= SET_TRIED_COLLISION_SIZE
      && forall id :: id in triedCollisions ==>
           0 <= id < nIdCount && (id in mapInfo ==> TriedSlotOf(mapInfo[id].svc) != -1)
    }

    constructor (hashes: Hashes, key: nat)
      ensures Consistent() && CollisionsOk() && fresh(vvNew) && fresh(vvTried)
      ensures mapInfo == map[] && nKey == key && triedCollisions == {} && this.hashes == hashes && nLastGood == 1
      ensures Contents() == NoEntries(hashes, key)
    {
      this.hashes := hashes;
      vvNew := new int[NEW_BUCKETS, BUCKET_SIZE]((_, _) => -1);
      vvTried := new int[TRIED_BUCKETS, BUCKET_SIZE]((_, _) => -1);
      nKey := key;
      nIdCount, nTried, nNew, nLastGood := 0, 0, 0, 1;
      mapInfo, mapAddr, vRandom, triedCollisions := map[], map[], [], {};
      new;
      BlankContents();
    }

    lemma BlankContents()
      requires Shape() && mapInfo == map[] && vRandom == []
      requires forall b, p :: 0 <= b < NEW_BUCKETS && 0 <= p < BUCKET_SIZE ==> vvNew[b, p] == -1
      requires forall b, p :: 0 <= b < TRIED_BUCKETS && 0 <= p < BUCKET_SIZE ==> vvTried[b, p] == -1
      requires nIdCount == 0 && nLastGood == 1
      ensures Contents() == NoEntries(hashes, nKey).(collisions := triedCollisions)
    {
      hide Cells, Blank;
      BlankCells(vvNew, NEW_BUCKETS);
      BlankCells(vvTried, TRIED_BUCKETS);
      assert Placeless(mapInfo) == map[];
    }

    // ----- the indexes

    lemma IdInContents(ip: nat)
      requires Indexed(mapInfo, mapAddr, vRandom)
      ensures Contents().IdOf(ip) == if ip in mapAddr then mapAddr[ip] else -1
    {
      hide Contents;
      var s := Contents();
      forall id | id in s.info && s.info[id].svc.ip == ip
        ensures ip in mapAddr && mapAddr[ip] == id
      {
        RecordInContents(id);
      }
      if ip in mapAddr {
        RecordInContents(mapAddr[ip]);
      }
    }

    method Find(ip: nat) returns (id: Option<int>)
      requires Consistent()
      ensures id.Some? ==> id.value in mapInfo && mapInfo[id.value].svc.ip == ip
      ensures id.Some? ==> forall i :: i in mapInfo && mapInfo[i].svc.ip == ip ==> i == id.value
      ensures id.Some? ==> 0 <= id.value < nIdCount && mapInfo[id.value].lastTry >= 0 && mapInfo[id.value].lastSuccess >= 0
      ensures id.Some? && !mapInfo[id.value].inTried ==> 0 < mapInfo[id.value].refCount <= NEW_BUCKETS_PER_ADDRESS
      ensures id.Some? && mapInfo[id.value].inTried ==> mapInfo[id.value].lastSuccess > 0 && TriedSlotOf(mapInfo[id.value].svc) == id.value
      ensures id.None? ==> ip !in mapAddr && forall i :: i in mapInfo ==> mapInfo[i].svc.ip != ip
      ensures Contents().IdOf(ip) == if id.Some? then id.value else -1
    {
      hide Contents;
      IdInContents(ip);
      if ip !in mapAddr {
        return None;
      }
      var found := mapAddr[ip];
      assert found in mapInfo;
      assert RecordOk(found, mapInfo[found], {});
      return Some(found);
    }

    method SwapRandom(pos1: int, pos2: int)
      requires Indexed(mapInfo, mapAddr, vRandom)
      requires pos1 == pos2 || (0 <= pos1 < |vRandom| && 0 <= pos2 < |vRandom|)
      modifies this`mapInfo, this`vRandom
      ensures Indexed(mapInfo, mapAddr, vRandom)
      ensures SameUpToPlace(old(mapInfo), mapInfo)
      ensures vRandom == if pos1 == pos2 then old(vRandom)
                         else old(vRandom)[pos1 := old(vRandom)[pos2]][pos2 := old(vRandom)[pos1]]
    {
      if pos1 == pos2 {
        return;
      }
      var id1, id2 := vRandom[pos1], vRandom[pos2];
      assert id1 in mapInfo && id2 in mapInfo;
      mapInfo := mapInfo[id1 := mapInfo[id1].(randomPos := pos2)];
      mapInfo := mapInfo[id2 := mapInfo[id2].(randomPos := pos1)];
      vRandom := vRandom[pos1 := id2][pos2 := id1];
    }

    method Create(a: Address, source: nat) returns (id: int)
      requires Indexed(mapInfo, mapAddr, vRandom)
      requires a.svc.ip !in mapAddr && forall i :: i in mapInfo ==> i < nIdCount
      modifies this`mapInfo, this`mapAddr, this`vRandom, this`nIdCount
      ensures Indexed(mapInfo, mapAddr, vRandom)
      ensures id == old(nIdCount) && nIdCount == id + 1 && id !in old(mapInfo)
      ensures mapInfo == old(mapInfo)[id := NewInfo(a, source).(randomPos := |old(vRandom)|)] && vRandom == old(vRandom) + [id]
    {
      id := nIdCount;
      nIdCount := nIdCount + 1;
      mapInfo := mapInfo[id := NewInfo(a, source)];
      mapAddr := mapAddr[a.svc.ip := id];
      mapInfo := mapInfo[id := mapInfo[id].(randomPos := |vRandom|)];
      vRandom := vRandom + [id];
    }

    /** Take an id that no table holds out of the three indexes. */
    method Forget(id: int)
      requires Indexed(mapInfo, mapAddr, vRandom) && id in mapInfo
      modifies this`mapInfo, this`mapAddr, this`vRandom
      ensures Indexed(mapInfo, mapAddr, vRandom)
      ensures SameUpToPlace(old(mapInfo) - {id}, mapInfo)
      ensures vRandom == Dropped(old(vRandom), id)
    {
      var last := |vRandom| - 1;
      SwapRandom(mapInfo[id].randomPos, last);
      assert vRandom[last] == id;
      vRandom := vRandom[..last];
      mapAddr := mapAddr - {mapInfo[id].svc.ip};
      mapInfo := mapInfo - {id};
    }

    /** Entry `id`, which no table held, is gone; the tables and the other records do not notice. */
    twostate lemma AfterForget(new id: int, new loose: set<int>)
      requires Shape() && unchanged(`nKey) && unchanged(`nIdCount) && unchanged(vvNew) && unchanged(vvTried)
      requires SameUpToPlace(old(mapInfo) - {id}, mapInfo)
      requires id in old(mapInfo) && !old(mapInfo)[id].inTried
      requires forall b, p :: 0 <= b < NEW_BUCKETS && 0 <= p < BUCKET_SIZE ==> vvNew[b, p] != id
      requires old(NewSlotsOk()) && old(TriedSlotsOk())
      requires forall j :: j in old(mapInfo) ==> old(RecordOk(j, mapInfo[j], loose + {id}))
      ensures NewSlotsOk() && TriedSlotsOk()
      ensures forall j :: j in mapInfo ==> RecordOk(j, mapInfo[j], loose)
    {
      assert forall j :: j in mapInfo ==> j in old(mapInfo) && j != id && mapInfo[j].Anywhere() == old(mapInfo)[j].Anywhere();
      forall j | j in mapInfo
        ensures RecordOk(j, mapInfo[j], loose)
      {
        assert old(RecordOk(j, mapInfo[j], loose + {id}));
      }
    }

    /** An entry without references is in no new slot. */
    lemma InNoNewSlot(id: int, loose: set<int>, uncounted: int)
      requires Holds(loose, uncounted)
      requires id in mapInfo && mapInfo[id].refCount == 0
      ensures forall b, p :: 0 <= b < NEW_BUCKETS && 0 <= p < BUCKET_SIZE ==> vvNew[b, p] != id
    {
      assert RecordOk(id, mapInfo[id], loose);
      forall b, p | 0 <= b < NEW_BUCKETS && 0 <= p < BUCKET_SIZE
        ensures vvNew[b, p] != id
      {
        if !mapInfo[id].inTried {
          assert NewBucketsOf(id, mapInfo[id].svc) == {};
          assert b !in NewBucketsOf(id, mapInfo[id].svc);
        }
      }
    }

    /** Remove an entry that is in neither table. */
    method Delete(id: int, ghost loose: set<int>, ghost uncounted: int)
      requires Holds(loose + {id}, uncounted)
      requires id in mapInfo && !mapInfo[id].inTried && mapInfo[id].refCount == 0
      modifies this`mapInfo, this`mapAddr, this`vRandom, this`nNew
      ensures Holds(loose, uncounted)
      ensures SameUpToPlace(old(mapInfo) - {id}, mapInfo)
      ensures nNew == old(nNew) - 1
      ensures Contents() == old(Contents()).Without(id)
    {
      hide Indexed, NewSlotsOk, TriedSlotsOk, RecordOk, TriedIds, UntriedIds, Dropped, Placeless;
      InNoNewSlot(id, loose + {id}, uncounted);
      Forget(id);
      PlacelessWithout(old(mapInfo), id);
      PlacelessSame(old(mapInfo) - {id}, mapInfo);
      WithoutUntried(old(mapInfo), id, mapInfo);
      nNew := nNew - 1;
      AfterForget(id, loose);
    }

    /** Every new slot but one is as it was. */
    twostate predicate OtherNewSlotsKept(b: int, p: int)
      requires Shape()
      reads vvNew
    {
      forall b', p' :: 0 <= b' < NEW_BUCKETS && 0 <= p' < BUCKET_SIZE && (b' != b || p' != p)
        ==> vvNew[b', p'] == old(vvNew[b', p'])
    }

    /** One new slot changed: the buckets of an id lose it or gain it, or stay the same. */
    twostate lemma OneNewSlot(new b: int, new p: int, new j: int, new svc: Service)
      requires Shape() && 0 <= b < NEW_BUCKETS && 0 <= p < BUCKET_SIZE
      requires nKey == old(nKey) && OtherNewSlotsKept(b, p)
      ensures Position(svc, true, b) == p && old(vvNew[b, p]) == j && vvNew[b, p] != j ==>
                |NewBucketsOf(j, svc)| == |old(NewBucketsOf(j, svc))| - 1
      ensures Position(svc, true, b) == p && old(vvNew[b, p]) != j && vvNew[b, p] == j ==>
                |NewBucketsOf(j, svc)| == |old(NewBucketsOf(j, svc))| + 1
      ensures Position(svc, true, b) != p || (old(vvNew[b, p]) == j <==> vvNew[b, p] == j) ==>
                NewBucketsOf(j, svc) == old(NewBucketsOf(j, svc))
    {
      var was, now := old(NewBucketsOf(j, svc)), NewBucketsOf(j, svc);
      assert was - {b} == now - {b};
      assert b in was <==> old(vvNew[b, Position(svc, true, b)]) == j;
      assert b in now <==> vvNew[b, Position(svc, true, b)] == j;
      assert b in was ==> was == was - {b} + {b};
      assert b in now ==> now == now - {b} + {b};
      assert b !in was ==> was == was - {b};
      assert b !in now ==> now == now - {b};
    }

    twostate lemma RecordAfterNewSlot(new b: int, new p: int, new id: int, new j: int, new info: AddrInfo, new info': AddrInfo,
                                      new loose: set<int>, new loose': set<int>)
      requires Shape() && 0 <= b < NEW_BUCKETS && 0 <= p < BUCKET_SIZE
      requires unchanged(`nKey) && unchanged(`nIdCount) && unchanged(vvTried) && OtherNewSlotsKept(b, p)
      requires 0 <= j && old(RecordOk(j, info, loose))
      requires (old(vvNew[b, p]) == -1 && vvNew[b, p] == id) || (old(vvNew[b, p]) == id && vvNew[b, p] == -1)
      requires j != id ==> info' == info && (j in loose ==> j in loose')
      requires j == id ==> Position(info.svc, true, b) == p && !info.inTried
      requires j == id && vvNew[b, p] == id ==>
                 info.refCount < NEW_BUCKETS_PER_ADDRESS && info' == info.(refCount := info.refCount + 1)
      requires j == id && vvNew[b, p] == -1 ==> info' == info.(refCount := info.refCount - 1) && id in loose'
      ensures RecordOk(j, info', loose')
    {
      OneNewSlot(b, p, j, info.svc);
    }

    /** A new slot of `id` was filled or emptied and its reference count followed; all but the counts carries over. */
    twostate lemma AfterNewSlot(new b: int, new p: int, new id: int, new loose: set<int>, new loose': set<int>)
      requires Shape() && 0 <= b < NEW_BUCKETS && 0 <= p < BUCKET_SIZE
      requires unchanged(`nKey) && unchanged(`nIdCount) && unchanged(vvTried) && OtherNewSlotsKept(b, p)
      requires (old(vvNew[b, p]) == -1 && vvNew[b, p] == id) || (old(vvNew[b, p]) == id && vvNew[b, p] == -1)
      requires id in old(mapInfo) && !old(mapInfo)[id].inTried && Position(old(mapInfo)[id].svc, true, b) == p
      requires mapInfo == old(mapInfo)[id := old(mapInfo)[id].(refCount := old(mapInfo)[id].refCount + if vvNew[b, p] == id then 1 else -1)]
      requires vvNew[b, p] == id ==> old(mapInfo)[id].refCount < NEW_BUCKETS_PER_ADDRESS
      requires vvNew[b, p] == -1 ==> id in loose'
      requires loose <= loose' + {id}
      requires old(NewSlotsOk()) && old(TriedSlotsOk())
      requires forall j :: j in old(mapInfo) ==> old(RecordOk(j, mapInfo[j], loose))
      ensures NewSlotsOk() && TriedSlotsOk()
      ensures forall j :: j in mapInfo ==> RecordOk(j, mapInfo[j], loose')
      ensures TriedIds(mapInfo) == TriedIds(old(mapInfo)) && UntriedIds(mapInfo) == UntriedIds(old(mapInfo))
    {
      forall j | j in mapInfo
        ensures RecordOk(j, mapInfo[j], loose')
      {
        RecordAfterNewSlot(b, p, id, j, old(mapInfo)[j], mapInfo[j], loose, loose');
      }
    }

    twostate lemma ContentsAfterNewSlot(new b: int, new p: int, new id: int, new info: AddrInfo)
      requires Shape() && 0 <= b < NEW_BUCKETS && 0 <= p < BUCKET_SIZE && OtherNewSlotsKept(b, p)
      requires unchanged(`nKey) && unchanged(`nIdCount) && unchanged(`vRandom) && unchanged(`nLastGood) && unchanged(`triedCollisions)
      requires unchanged(vvTried) && mapInfo == old(mapInfo)[id := info]
      ensures Contents() == old(Contents()).(newSlots := old(Contents()).newSlots[(b, p) := vvNew[b, p]]).With(id, info.Anywhere())
    {
      PlacelessUpdate(old(mapInfo), id, info);
      assert Cells(vvNew) == old(Cells(vvNew))[(b, p) := vvNew[b, p]];
    }

    /** Empty a new slot and take the reference off its entry. */
    method Unlink(b: int, p: int, ghost loose: set<int>, ghost uncounted: int) returns (id: int)
      requires Holds(loose, uncounted)
      requires 0 <= b < NEW_BUCKETS && 0 <= p < BUCKET_SIZE && vvNew[b, p] != -1
      modifies this`mapInfo, vvNew
      ensures id == old(vvNew[b, p])
      ensures Holds(loose + {id}, uncounted)
      ensures vvNew[b, p] == -1 && OtherNewSlotsKept(b, p)
      ensures id in old(mapInfo) && !old(mapInfo)[id].inTried && old(mapInfo)[id].refCount > 0
      ensures mapInfo == old(mapInfo)[id := old(mapInfo)[id].(refCount := old(mapInfo)[id].refCount - 1)]
      ensures Contents() == old(Contents()).(newSlots := old(Contents()).newSlots[(b, p) := -1]).With(id, mapInfo[id].Anywhere())
    {
      hide Contents;
      id := vvNew[b, p];
      assert RecordOk(id, mapInfo[id], loose);
      assert b in NewBucketsOf(id, mapInfo[id].svc);
      mapInfo := mapInfo[id := mapInfo[id].(refCount := mapInfo[id].refCount - 1)];
      vvNew[b, p] := -1;
      IndexedKept(old(mapInfo), mapInfo, mapAddr, vRandom);
      AfterNewSlot(b, p, id, loose, loose + {id});
      ContentsAfterNewSlot(b, p, id, mapInfo[id]);
    }

    /** Put an entry into an empty new slot of its own. */
    method LinkNew(b: int, p: int, id: int, ghost loose: set<int>, ghost uncounted: int)
      requires Holds(loose, uncounted)
      requires 0 <= b < NEW_BUCKETS && 0 <= p < BUCKET_SIZE && vvNew[b, p] == -1
      requires id in mapInfo && !mapInfo[id].inTried && mapInfo[id].refCount < NEW_BUCKETS_PER_ADDRESS
      requires Position(mapInfo[id].svc, true, b) == p
      modifies this`mapInfo, vvNew
      ensures Holds(loose - {id}, uncounted)
      ensures vvNew[b, p] == id && OtherNewSlotsKept(b, p)
      ensures mapInfo == old(mapInfo)[id := old(mapInfo)[id].(refCount := old(mapInfo)[id].refCount + 1)]
      ensures Contents() == old(Contents()).Linked((b, p), id)
    {
      hide Indexed, NewSlotsOk, TriedSlotsOk, RecordOk, TriedIds, UntriedIds, Contents;
      RecordInContents(id);
      NoneBelowZero(loose, uncounted);
      mapInfo := mapInfo[id := mapInfo[id].(refCount := mapInfo[id].refCount + 1)];
      vvNew[b, p] := id;
      IndexedKept(old(mapInfo), mapInfo, mapAddr, vRandom);
      AfterNewSlot(b, p, id, loose, loose - {id});
      ContentsAfterNewSlot(b, p, id, mapInfo[id]);
    }

    /** An entry with references needs no allowance. */
    lemma Tighten(id: int, loose: set<int>, uncounted: int)
      requires Holds(loose + {id}, uncounted) && id in mapInfo && mapInfo[id].refCount != 0
      ensures Holds(loose, uncounted)
    {
      forall j | j in mapInfo
        ensures RecordOk(j, mapInfo[j], loose)
      {
        assert RecordOk(j, mapInfo[j], loose + {id});
      }
    }

    lemma NoneBelowZero(loose: set<int>, uncounted: int)
      requires Holds(loose, uncounted)
      ensures -1 !in mapInfo
    {
      assert forall id :: id in mapInfo ==> RecordOk(id, mapInfo[id], loose);
    }

    /** Clear a position of the new table, deleting the entry there if this was its last reference. */
    method ClearNew(b: int, p: int, ghost loose: set<int>, ghost uncounted: int)
      requires Holds(loose, uncounted)
      requires 0 <= b < NEW_BUCKETS && 0 <= p < BUCKET_SIZE
      modifies this`mapInfo, this`mapAddr, this`vRandom, this`nNew, vvNew
      ensures Holds(loose, uncounted) && Descends(old(mapInfo), mapInfo)
      ensures vvNew[b, p] == -1 && OtherNewSlotsKept(b, p)
      ensures var id := old(vvNew[b, p]);
              if id == -1 then mapInfo == old(mapInfo)
              else
                && id in old(mapInfo) && !old(mapInfo)[id].inTried
                && if old(mapInfo)[id].refCount == 1 then SameUpToPlace(old(mapInfo) - {id}, mapInfo)
                   else mapInfo == old(mapInfo)[id := old(mapInfo)[id].(refCount := old(mapInfo)[id].refCount - 1)]
      ensures Contents() == old(Contents()).Cleared((b, p))
    {
      hide Holds, Contents, State.Without;
      RecordInContents(vvNew[b, p]);
      NewSlotInContents(b, p);
      NoneBelowZero(loose, uncounted);
      if vvNew[b, p] != -1 {
        var id := Unlink(b, p, loose, uncounted);
        if mapInfo[id].refCount == 0 {
          old(Contents()).(newSlots := old(Contents()).newSlots[(b, p) := -1]).WithThenWithout(id, mapInfo[id].Anywhere());
          Delete(id, loose, uncounted);
          assert forall j :: j in mapInfo ==> mapInfo[j].Anywhere() == old(mapInfo)[j].(refCount := mapInfo[j].refCount).Anywhere();
        } else {
          Tighten(id, loose, uncounted);
        }
      }
    }

    twostate predicate OtherTriedSlotsKept(b: int, p: int)
      requires Shape()
      reads vvTried
    {
      forall b', p' :: 0 <= b' < TRIED_BUCKETS && 0 <= p' < BUCKET_SIZE && (b' != b || p' != p)
        ==> vvTried[b', p'] == old(vvTried[b', p'])
    }

    /** Every tried slot is as it was, but for the one that `svc` hashes to. */
    twostate predicate TriedSlotsKeptBut(svc: Service)
      requires Shape()
      reads this`nKey, vvTried
    {
      OtherTriedSlotsKept(TriedBucket(svc), Position(svc, false, TriedBucket(svc)))
    }

    /**
     Entry `id`, which is in no new bucket, changed sides, and so did its own tried slot;
     every part of the invariant but the counts follows.
     */
    twostate lemma AfterMove(new b: int, new p: int, new id: int, new loose: set<int>, new loose': set<int>)
      requires Shape() && unchanged(`nKey) && unchanged(`nIdCount) && unchanged(vvNew) && OtherTriedSlotsKept(b, p)
      requires id in old(mapInfo) && old(mapInfo)[id].refCount == 0 && old(mapInfo)[id].lastSuccess > 0
      requires mapInfo == old(mapInfo)[id := old(mapInfo)[id].(inTried := !old(mapInfo)[id].inTried)]
      requires b == TriedBucket(old(mapInfo)[id].svc) && p == Position(old(mapInfo)[id].svc, false, b)
      requires if old(mapInfo)[id].inTried then old(vvTried[b, p]) == id && vvTried[b, p] == -1
               else old(vvTried[b, p]) == -1 && vvTried[b, p] == id
      requires old(NewSlotsOk()) && old(TriedSlotsOk())
      requires forall j :: j in old(mapInfo) ==> old(RecordOk(j, mapInfo[j], loose))
      requires loose <= loose' + {id} && (old(mapInfo)[id].inTried ==> id in loose')
      ensures NewSlotsOk() && TriedSlotsOk()
      ensures forall j :: j in mapInfo ==> RecordOk(j, mapInfo[j], loose')
    {
      var svc := old(mapInfo)[id].svc;
      assert old(RecordOk(id, mapInfo[id], loose));
      assert NewBucketsOf(id, svc) == {};
      forall b', p' | 0 <= b' < NEW_BUCKETS && 0 <= p' < BUCKET_SIZE
        ensures vvNew[b', p'] != id
      {
        assert b' !in NewBucketsOf(id, svc);
      }
      forall j | j in mapInfo
        ensures RecordOk(j, mapInfo[j], loose')
      {
        assert old(RecordOk(j, mapInfo[j], loose));
      }
    }

    twostate lemma ContentsAfterTriedSlot(new b: int, new p: int, new id: int, new info: AddrInfo)
      requires Shape() && 0 <= b < TRIED_BUCKETS && 0 <= p < BUCKET_SIZE && OtherTriedSlotsKept(b, p)
      requires unchanged(`nKey) && unchanged(`nIdCount) && unchanged(`vRandom) && unchanged(`nLastGood) && unchanged(`triedCollisions)
      requires unchanged(vvNew) && mapInfo == old(mapInfo)[id := info]
      ensures Contents() == old(Contents()).(triedSlots := old(Contents()).triedSlots[(b, p) := vvTried[b, p]]).With(id, info.Anywhere())
    {
      PlacelessUpdate(old(mapInfo), id, info);
      assert Cells(vvTried) == old(Cells(vvTried))[(b, p) := vvTried[b, p]];
    }

    /** Take an entry out of the tried table, leaving it in no table at all. */
    method UnlinkTried(b: int, p: int, ghost loose: set<int>, ghost uncounted: int) returns (id: int)
      requires Holds(loose, uncounted)
      requires 0 <= b < TRIED_BUCKETS && 0 <= p < BUCKET_SIZE && vvTried[b, p] != -1
      modifies this`mapInfo, this`nTried, vvTried
      ensures id == old(vvTried[b, p]) && id in old(mapInfo) && old(mapInfo)[id].inTried && old(mapInfo)[id].refCount == 0
      ensures Holds(loose + {id}, uncounted + 1)
      ensures vvTried[b, p] == -1 && OtherTriedSlotsKept(b, p)
      ensures mapInfo == old(mapInfo)[id := old(mapInfo)[id].(inTried := false)]
      ensures Contents() == old(Contents()).(triedSlots := old(Contents()).triedSlots[(b, p) := -1]).With(id, mapInfo[id].Anywhere())
    {
      hide Contents;
      id := vvTried[b, p];
      assert RecordOk(id, mapInfo[id], loose);
      Moved(mapInfo, id);
      mapInfo := mapInfo[id := mapInfo[id].(inTried := false)];
      vvTried[b, p] := -1;
      nTried := nTried - 1;
      IndexedKept(old(mapInfo), mapInfo, mapAddr, vRandom);
      AfterMove(b, p, id, loose, loose + {id});
      ContentsAfterTriedSlot(b, p, id, mapInfo[id]);
    }

    /** Put an entry that is in no table into its own, empty tried slot. */
    method LinkTried(b: int, p: int, id: int, ghost loose: set<int>, ghost uncounted: int)
      requires Holds(loose, uncounted)
      requires id in mapInfo && !mapInfo[id].inTried && mapInfo[id].refCount == 0 && mapInfo[id].lastSuccess > 0
      requires b == TriedBucket(mapInfo[id].svc) && p == Position(mapInfo[id].svc, false, b) && vvTried[b, p] == -1
      modifies this`mapInfo, this`nTried, vvTried
      ensures Holds(loose - {id}, uncounted - 1)
      ensures vvTried[b, p] == id && OtherTriedSlotsKept(b, p)
      ensures mapInfo == old(mapInfo)[id := old(mapInfo)[id].(inTried := true)]
      ensures Contents() == old(Contents()).(triedSlots := old(Contents()).triedSlots[(b, p) := id]).With(id, mapInfo[id].Anywhere())
    {
      hide Indexed, NewSlotsOk, TriedSlotsOk, RecordOk, TriedIds, UntriedIds, Contents;
      Moved(mapInfo, id);
      vvTried[b, p] := id;
      nTried := nTried + 1;
      mapInfo := mapInfo[id := mapInfo[id].(inTried := true)];
      IndexedKept(old(mapInfo), mapInfo, mapAddr, vRandom);
      AfterMove(b, p, id, loose, loose - {id});
      ContentsAfterTriedSlot(b, p, id, mapInfo[id]);
    }

    twostate lemma ContentsAfterUnlinking(new id: int, new info: AddrInfo)
      requires Shape() && unchanged(vvTried) && mapInfo == old(mapInfo)[id := info]
      requires unchanged(`nKey) && unchanged(`nIdCount) && unchanged(`vRandom) && unchanged(`nLastGood) && unchanged(`triedCollisions)
      requires forall b, p :: 0 <= b < NEW_BUCKETS && 0 <= p < BUCKET_SIZE ==>
                 vvNew[b, p] == if old(vvNew[b, p]) == id then -1 else old(vvNew[b, p])
      ensures Contents() == old(Contents()).(newSlots := Emptied(old(Contents()).newSlots, id)).With(id, info.Anywhere())
    {
      PlacelessUpdate(old(mapInfo), id, info);
      assert Cells(vvNew) == Emptied(old(Cells(vvNew)), id);
    }

    /** Remove an entry from every new bucket that holds it. */
    method UnlinkAll(id: int)
      requires Consistent() && id in mapInfo && !mapInfo[id].inTried
      modifies this`mapInfo, vvNew
      ensures Holds({id}, 0)
      ensures mapInfo == old(mapInfo)[id := old(mapInfo)[id].(refCount := 0)]
      ensures forall b, p :: 0 <= b < NEW_BUCKETS && 0 <= p < BUCKET_SIZE ==>
                vvNew[b, p] == if old(vvNew[b, p]) == id then -1 else old(vvNew[b, p])
      ensures Contents() == old(Contents()).(newSlots := Emptied(old(Contents()).newSlots, id)).With(id, mapInfo[id].Anywhere())
    {
      hide Contents;
      var svc := mapInfo[id].svc;
      for bucket := 0 to NEW_BUCKETS
        invariant Holds({id}, 0)
        invariant id in mapInfo && mapInfo == old(mapInfo)[id := old(mapInfo)[id].(refCount := mapInfo[id].refCount)]
        invariant forall b, p :: 0 <= b < NEW_BUCKETS && 0 <= p < BUCKET_SIZE ==>
                    vvNew[b, p] == if old(vvNew[b, p]) == id && b < bucket then -1 else old(vvNew[b, p])
      {
        var pos := Position(svc, true, bucket);
        if vvNew[bucket, pos] == id {
          var _ := Unlink(bucket, pos, {id}, 0);
        }
      }
      assert NewBucketsOf(id, svc) == {};
      assert RecordOk(id, mapInfo[id], {id});
      ContentsAfterUnlinking(id, mapInfo[id]);
    }

    /** Count an entry in or out of nNew. */
    method ChangeNew(d: int, ghost loose: set<int>, ghost uncounted: int)
      requires Holds(loose, uncounted)
      modifies this`nNew
      ensures Holds(loose, uncounted - d)
      ensures nNew == old(nNew) + d && Contents() == old(Contents())
    {
      nNew := nNew + d;
    }

    /** Move the entry of a tried slot back to the new table, into the bucket of its source, deleting whatever is there. */
    method SendBack(kb: int, kp: int, ghost id: int) returns (evict: int)
      requires Holds({id}, 1)
      requires 0 <= kb < TRIED_BUCKETS && 0 <= kp < BUCKET_SIZE && vvTried[kb, kp] != -1
      requires id in mapInfo && !mapInfo[id].inTried && mapInfo[id].refCount == 0
      modifies this`mapInfo, this`mapAddr, this`vRandom, this`nNew, this`nTried, vvNew, vvTried
      ensures Holds({id}, 1)
      ensures vvTried[kb, kp] == -1 && OtherTriedSlotsKept(kb, kp)
      ensures Descends(old(mapInfo), mapInfo)
      ensures evict == old(vvTried[kb, kp]) && evict != id && evict in mapInfo && evict in old(mapInfo)
      ensures mapInfo[evict].Anywhere() == old(mapInfo)[evict].(inTried := false, refCount := 1).Anywhere()
      ensures vvNew[NewBucket(mapInfo[evict].svc, mapInfo[evict].source),
                    Position(mapInfo[evict].svc, true, NewBucket(mapInfo[evict].svc, mapInfo[evict].source))] == evict
      ensures id in mapInfo && mapInfo[id].Anywhere() == old(mapInfo)[id].Anywhere()
      ensures Contents() == old(Contents()).SentBack((kb, kp))
    {
      hide Holds, Contents, State.Cleared, State.Linked;
      TriedSlotInContents(kb, kp);
      RecordInContents(vvTried[kb, kp]);
      evict := UnlinkTried(kb, kp, {id}, 1);
      SpotsInContents(mapInfo[evict].svc, mapInfo[evict].source);
      assert {id} + {evict} == {id, evict};
      var ub := NewBucket(mapInfo[evict].svc, mapInfo[evict].source);
      var up := Position(mapInfo[evict].svc, true, ub);
      InNoNewSlot(id, {id, evict}, 2);
      InNoNewSlot(evict, {id, evict}, 2);
      ClearNew(ub, up, {id, evict}, 2);
      LinkNew(ub, up, evict, {id, evict}, 2);
      assert {id, evict} - {evict} == {id};
      ChangeNew(1, {id}, 2);
    }

    lemma NothingToSendBack(kb: int, kp: int, loose: set<int>, uncounted: int)
      requires Holds(loose, uncounted) && 0 <= kb < TRIED_BUCKETS && 0 <= kp < BUCKET_SIZE && vvTried[kb, kp] == -1
      ensures Contents().SentBack((kb, kp)) == Contents()
    {
      NoneBelowZero(loose, uncounted);
      TriedSlotInContents(kb, kp);
      RecordInContents(-1);
    }

    /** Move an entry from the new table to the tried table, sending back what it displaces. */
    method MakeTried(id: int)
      requires Consistent() && id in mapInfo && !mapInfo[id].inTried && mapInfo[id].lastSuccess > 0
      modifies this`mapInfo, this`mapAddr, this`vRandom, this`nNew, this`nTried, vvNew, vvTried
      ensures Consistent()
      ensures Descends(old(mapInfo), mapInfo)
      ensures id in mapInfo && mapInfo[id].inTried && TriedSlotOf(old(mapInfo)[id].svc) == id
      ensures mapInfo[id].Anywhere() == old(mapInfo)[id].(inTried := true, refCount := 0).Anywhere()
      ensures TriedSlotsKeptBut(old(mapInfo)[id].svc)
      ensures old(TriedSlotOf(mapInfo[id].svc)) != -1 ==>
                var evicted := old(TriedSlotOf(mapInfo[id].svc));
                evicted in mapInfo && evicted != id && !mapInfo[evicted].inTried && mapInfo[evicted].refCount == 1
      ensures Contents() == old(Contents()).MadeTried(id)
    {
      hide Holds, Contents, State.SentBack;
      RecordInContents(id);
      SpotsInContents(mapInfo[id].svc, 0);
      UnlinkAll(id);
      ChangeNew(-1, {id}, 0);
      var kb := TriedBucket(mapInfo[id].svc);
      var kp := Position(mapInfo[id].svc, false, kb);
      if vvTried[kb, kp] != -1 {
        var _ := SendBack(kb, kp, id);
      } else {
        NothingToSendBack(kb, kp, {id}, 1);
      }
      LinkTried(kb, kp, id, {id}, 1);
      assert {id} - {id} == {};
    }

    // ----- the public operations

    /**
     What no operation undoes: an occupied tried slot stays occupied, an id keeps its address,
     and an id that was given up is never used again.
     */
    twostate predicate Evolves()
      requires Shape()
      reads this, vvTried
    {
      && nKey == old(nKey) && nIdCount >= old(nIdCount)
      && (forall b, p :: 0 <= b < TRIED_BUCKETS && 0 <= p < BUCKET_SIZE && old(vvTried[b, p]) != -1 ==> vvTried[b, p] != -1)
      && (forall id :: id in mapInfo && id < old(nIdCount) ==> id in old(mapInfo) && mapInfo[id].svc == old(mapInfo)[id].svc)
    }

    twostate lemma CollisionsCarryOver()
      requires Shape() && old(CollisionsOk()) && Evolves()
      requires triedCollisions <= old(triedCollisions)
      ensures |triedCollisions| <= |old(triedCollisions)|
      ensures CollisionsOk()
    {
      FewerElements(triedCollisions, old(triedCollisions));
      forall id | id in triedCollisions && id in mapInfo
        ensures TriedSlotOf(mapInfo[id].svc) != -1
      {
        assert old(TriedSlotOf(mapInfo[id].svc)) != -1;
      }
    }

    /** Records changed, but nothing about them that a table depends on. */
    twostate lemma AfterTouch(new loose: set<int>)
      requires Shape() && unchanged(`nKey) && unchanged(`nIdCount) && unchanged(vvNew) && unchanged(vvTried)
      requires mapInfo.Keys == old(mapInfo).Keys
      requires forall j :: j in mapInfo ==>
                 && mapInfo[j].svc == old(mapInfo)[j].svc && mapInfo[j].refCount == old(mapInfo)[j].refCount
                 && mapInfo[j].inTried == old(mapInfo)[j].inTried
                 && mapInfo[j].lastTry >= 0 && mapInfo[j].lastSuccess >= 0
                 && (mapInfo[j].inTried ==> mapInfo[j].lastSuccess > 0)
      requires old(NewSlotsOk()) && old(TriedSlotsOk())
      requires forall j :: j in old(mapInfo) ==> old(RecordOk(j, mapInfo[j], loose))
      ensures NewSlotsOk() && TriedSlotsOk()
      ensures forall j :: j in mapInfo ==> RecordOk(j, mapInfo[j], loose)
      ensures TriedIds(mapInfo) == TriedIds(old(mapInfo)) && UntriedIds(mapInfo) == UntriedIds(old(mapInfo))
    {
      forall j | j in mapInfo
        ensures RecordOk(j, mapInfo[j], loose)
      {
        assert old(RecordOk(j, mapInfo[j], loose));
      }
    }

    lemma TimesSane()
      requires Consistent()
      ensures forall j :: j in mapInfo ==> mapInfo[j].lastTry >= 0 && mapInfo[j].lastSuccess >= 0
      ensures forall j :: j in mapInfo && mapInfo[j].inTried ==> mapInfo[j].lastSuccess > 0
    {
      assert forall j :: j in mapInfo ==> RecordOk(j, mapInfo[j], {});
    }

    /** Overwrite the statistics of a record. */
    method Touch(id: int, info: AddrInfo)
      requires Consistent() && id in mapInfo
      requires info.svc == mapInfo[id].svc && info.randomPos == mapInfo[id].randomPos
      requires info.refCount == mapInfo[id].refCount && info.inTried == mapInfo[id].inTried
      requires info.lastTry >= 0 && info.lastSuccess >= 0 && (info.inTried ==> info.lastSuccess > 0)
      modifies this`mapInfo
      ensures Consistent() && mapInfo == old(mapInfo)[id := info]
      ensures Contents() == old(Contents()).With(id, info.Anywhere())
    {
      hide Placeless, Cells, Indexed, NewSlotsOk, TriedSlotsOk, TriedIds, UntriedIds, RecordOk;
      TimesSane();
      mapInfo := mapInfo[id := info];
      IndexedKept(old(mapInfo), mapInfo, mapAddr, vRandom);
      AfterTouch({});
      PlacelessUpdate(old(mapInfo), id, info);
    }

    /** Starting anywhere, a bucket holding an entry of the new table is always found. */
    method FindNewBucket(id: int, rnd: int) returns (ub: int)
      requires Consistent() && id in mapInfo && !mapInfo[id].inTried && 0 <= rnd < NEW_BUCKETS
      ensures ub in NewBucketsOf(id, mapInfo[id].svc)
    {
      var svc := mapInfo[id].svc;
      assert RecordOk(id, mapInfo[id], {});
      ghost var b :| b in NewBucketsOf(id, svc);
      ghost var m := if b >= rnd then b - rnd else b - rnd + NEW_BUCKETS;
      ub := -1;
      for n := 0 to NEW_BUCKETS
        invariant n <= m
      {
        var nb := (n + rnd) % NEW_BUCKETS;
        if vvNew[nb, Position(svc, true, nb)] == id {
          ub := nb;
          break;
        }
      }
    }

    twostate lemma ContentsAfterCollision()
      requires unchanged(`nKey) && unchanged(`nIdCount) && unchanged(`mapInfo) && unchanged(`vRandom) && unchanged(`nLastGood)
      requires unchanged(vvNew) && unchanged(vvTried)
      ensures Contents() == old(Contents()).(collisions := triedCollisions)
      ensures old(Contents()).collisions == old(triedCollisions)
    {
      hide Cells, Placeless;
    }

    /** Move an entry to the tried table, or note the collision when its slot is taken and must be tested first. */
    method Promote(id: int, testBeforeEvict: bool, rnd: int)
      requires Consistent() && id in mapInfo && 0 <= rnd < NEW_BUCKETS
      requires !mapInfo[id].inTried && mapInfo[id].lastSuccess > 0 && 0 <= id < nIdCount
      modifies this`mapInfo, this`mapAddr, this`vRandom, this`nNew, this`nTried, this`triedCollisions, vvNew, vvTried
      ensures Consistent() && Evolves() && Descends(old(mapInfo), mapInfo)
      ensures old(CollisionsOk()) ==> CollisionsOk()
      ensures triedCollisions == if testBeforeEvict && old(TriedSlotOf(mapInfo[id].svc)) != -1 && |old(triedCollisions)| < SET_TRIED_COLLISION_SIZE
                                 then old(triedCollisions) + {id} else old(triedCollisions)
      ensures id in mapInfo && TriedSlotOf(mapInfo[id].svc) != -1
      ensures mapInfo[id].inTried ==> TriedSlotOf(mapInfo[id].svc) == id
      ensures TriedSlotsKeptBut(mapInfo[id].svc)
      ensures mapInfo[id].inTried <==> !testBeforeEvict || old(TriedSlotOf(mapInfo[id].svc)) == -1
      ensures mapInfo[id].lastSuccess == old(mapInfo)[id].lastSuccess && mapInfo[id].attempts == old(mapInfo)[id].attempts
      ensures !mapInfo[id].inTried ==> mapInfo == old(mapInfo) && unchanged(vvNew) && unchanged(vvTried)
      ensures Contents() == old(Contents()).Promoted(id, testBeforeEvict)
    {
      hide Holds, Contents, State.MadeTried;
      var _ := FindNewBucket(id, rnd);
      var kb := TriedBucket(mapInfo[id].svc);
      var kp := Position(mapInfo[id].svc, false, kb);
      RecordInContents(id);
      SpotsInContents(mapInfo[id].svc, 0);
      TriedSlotInContents(kb, kp);
      if testBeforeEvict && vvTried[kb, kp] != -1 {
        if |triedCollisions| < SET_TRIED_COLLISION_SIZE {
          triedCollisions := triedCollisions + {id};
        }
        ContentsAfterCollision();
      } else {
        MakeTried(id);
        if old(CollisionsOk()) {
          CollisionsCarryOver();
        }
      }
    }

    twostate lemma ContentsAfterStamp()
      requires unchanged(`nKey) && unchanged(`nIdCount) && unchanged(`mapInfo) && unchanged(`vRandom) && unchanged(`triedCollisions)
      requires unchanged(vvNew) && unchanged(vvTried)
      ensures Contents() == old(Contents()).(lastGood := nLastGood)
    {
      hide Cells, Placeless;
    }

    /** Mark an entry good, moving it to the tried table unless that would evict an entry untested. */
    method Good(svc: Service, testBeforeEvict: bool, time: int, rnd: int)
      requires Consistent() && time > 0 && 0 <= rnd < NEW_BUCKETS
      modifies this, vvNew, vvTried
      ensures Consistent() && Evolves()
      ensures old(CollisionsOk()) ==> CollisionsOk()
      ensures nLastGood == time
      ensures !(exists id :: id in old(mapInfo) && old(mapInfo)[id].svc == svc) ==>
                mapInfo == old(mapInfo) && triedCollisions == old(triedCollisions) && unchanged(vvNew) && unchanged(vvTried)
      ensures forall id :: id in old(mapInfo) && old(mapInfo)[id].svc == svc ==>
                && id in mapInfo && mapInfo[id].lastSuccess == mapInfo[id].lastTry == time && mapInfo[id].attempts == 0
                && TriedSlotOf(svc) == (if mapInfo[id].inTried then id else old(TriedSlotOf(svc))) != -1
                && var collides := !old(mapInfo)[id].inTried && testBeforeEvict && old(TriedSlotOf(svc)) != -1;
                && (mapInfo[id].inTried <==> !collides)
                && (collides ==> unchanged(vvNew) && unchanged(vvTried))
                && triedCollisions == if collides && |old(triedCollisions)| < SET_TRIED_COLLISION_SIZE
                                      then old(triedCollisions) + {id} else old(triedCollisions)
      ensures TriedSlotsKeptBut(svc)
      ensures forall j :: j in mapInfo ==> j in old(mapInfo) && mapInfo[j].svc == old(mapInfo)[j].svc
      ensures forall j :: j in mapInfo && mapInfo[j].svc != svc ==>
                mapInfo[j].lastTry == old(mapInfo)[j].lastTry && mapInfo[j].lastSuccess == old(mapInfo)[j].lastSuccess
      ensures Contents() == old(Contents()).AfterGood(svc, testBeforeEvict, time)
    {
      hide Holds, Contents, State.Promoted, State.IdOf;
      var found := Find(svc.ip);
      NoneBelowZero({}, 0);
      RecordInContents(if found.Some? then found.value else -1);
      nLastGood := time;
      ContentsAfterStamp();
      if found.None? || mapInfo[found.value].svc != svc {
        return;
      }
      var id := found.value;
      var info := mapInfo[id];
      Touch(id, info.(lastSuccess := time, lastTry := time, attempts := 0));
      if info.inTried {
        return;
      }
      Promote(id, testBeforeEvict, rnd);
    }

    /** The new slot that `svc` hashes to when learnt from `source`. */
    ghost function NewSlotFor(svc: Service, source: nat): int
      requires Shape()
      reads this`nKey, vvNew
    {
      vvNew[NewBucket(svc, source), Position(svc, true, NewBucket(svc, source))]
    }

    /** Entry `id` may take the new slot that it hashes to when learnt from `source`. */
    ghost predicate MayPlace(id: int, source: nat, now: int)
      requires Shape() && id in mapInfo
      reads this`nKey, this`mapInfo, vvNew
    {
      var held := NewSlotFor(mapInfo[id].svc, source);
      && held != id
      && (held != -1 ==> held in mapInfo && (mapInfo[held].IsTerrible(now) || (mapInfo[held].refCount > 1 && mapInfo[id].refCount == 0)))
    }

    lemma SlotIsListed(b: int, p: int, loose: set<int>, uncounted: int)
      requires Holds(loose, uncounted) && 0 <= b < NEW_BUCKETS && 0 <= p < BUCKET_SIZE
      ensures vvNew[b, p] != -1 ==> vvNew[b, p] in mapInfo && mapInfo[vvNew[b, p]].refCount > 0
    {
      if vvNew[b, p] != -1 {
        assert RecordOk(vvNew[b, p], mapInfo[vvNew[b, p]], loose);
        assert b in NewBucketsOf(vvNew[b, p], mapInfo[vvNew[b, p]].svc);
      }
    }

    lemma Loosen(id: int)
      requires Consistent()
      ensures Holds({id}, 0)
    {
      forall j | j in mapInfo
        ensures RecordOk(j, mapInfo[j], {id})
      {
        assert RecordOk(j, mapInfo[j], {});
      }
    }

    /** Create the record of an unknown address, counted as new but not yet in any bucket. */
    method AddRecord(a: Address, source: nat, timePenalty: nat) returns (id: int)
      requires Consistent() && a.svc.ip !in mapAddr
      modifies this`mapInfo, this`mapAddr, this`vRandom, this`nIdCount, this`nNew
      ensures Holds({id}, 0)
      ensures 0 <= id == old(nIdCount) && nIdCount == id + 1
      ensures mapInfo.Keys == old(mapInfo).Keys + {id} && id !in old(mapInfo)
      ensures forall j :: j in old(mapInfo) ==> mapInfo[j] == old(mapInfo)[j]
      ensures mapInfo[id].svc == a.svc && mapInfo[id].refCount == 0 && !mapInfo[id].inTried
      ensures mapInfo[id].Anywhere() == FirstHeard(a, source, timePenalty).(refCount := 0).Anywhere()
      ensures Contents() == old(Contents()).Created(a, source, timePenalty)
    {
      hide Contents, Indexed, NewSlotsOk, TriedSlotsOk, RecordOk, TriedIds, UntriedIds;
      IdsBounded();
      id := Create(a, source);
      ghost var created := mapInfo;
      mapInfo := mapInfo[id := mapInfo[id].(time := if mapInfo[id].time - timePenalty > 0 then mapInfo[id].time - timePenalty else 0)];
      IndexedKept(created, mapInfo, mapAddr, vRandom);
      nNew := nNew + 1;
      AfterCreate(id);
      ContentsAfterCreate(id);
    }

    twostate lemma ContentsAfterCreate(new id: int)
      requires unchanged(`nKey) && unchanged(`nLastGood) && unchanged(`triedCollisions) && unchanged(vvNew) && unchanged(vvTried)
      requires id == old(nIdCount) && nIdCount == id + 1 && vRandom == old(vRandom) + [id]
      requires mapInfo.Keys == old(mapInfo).Keys + {id} && forall j :: j in old(mapInfo) && j != id ==> mapInfo[j] == old(mapInfo)[j]
      ensures Contents() == old(Contents()).(idCount := id + 1, random := old(vRandom) + [id]).With(id, mapInfo[id].Anywhere())
      ensures old(Contents()).idCount == id && old(Contents()).random == old(vRandom)
    {
      hide Cells, Placeless;
      OnlyOneMore(old(mapInfo), mapInfo, id);
      PlacelessUpdate(old(mapInfo), id, mapInfo[id]);
    }

    twostate lemma AfterCreate(new id: int)
      requires Shape() && unchanged(`nKey) && unchanged(vvNew) && unchanged(vvTried)
      requires id == old(nIdCount) && nIdCount == id + 1 && id >= 0
      requires mapInfo.Keys == old(mapInfo).Keys + {id} && id !in old(mapInfo)
      requires forall j :: j in old(mapInfo) ==> mapInfo[j] == old(mapInfo)[j]
      requires mapInfo[id].refCount == 0 && !mapInfo[id].inTried && mapInfo[id].lastTry == 0 && mapInfo[id].lastSuccess == 0
      requires old(NewSlotsOk()) && old(TriedSlotsOk())
      requires forall j :: j in old(mapInfo) ==> old(RecordOk(j, mapInfo[j], {}))
      ensures NewSlotsOk() && TriedSlotsOk()
      ensures forall j :: j in mapInfo ==> RecordOk(j, mapInfo[j], {id})
      ensures |TriedIds(mapInfo)| == |TriedIds(old(mapInfo))| && |UntriedIds(mapInfo)| == |UntriedIds(old(mapInfo))| + 1
    {
      assert NewBucketsOf(id, mapInfo[id].svc) == {};
      forall j | j in mapInfo
        ensures RecordOk(j, mapInfo[j], {id})
      {
        if j != id {
          assert old(RecordOk(j, mapInfo[j], {}));
        }
      }
      assert TriedIds(mapInfo) == TriedIds(old(mapInfo));
      assert UntriedIds(mapInfo) == UntriedIds(old(mapInfo)) + {id};
    }

    /** Put a listed entry into the new bucket of a source, or give it up when it has no reference and no room. */
    method PlaceInNew(id: int, source: nat, now: int)
      requires Holds({id}, 0) && id in mapInfo && !mapInfo[id].inTried && 0 <= mapInfo[id].refCount < NEW_BUCKETS_PER_ADDRESS
      modifies this`mapInfo, this`mapAddr, this`vRandom, this`nNew, vvNew
      ensures Consistent() && Descends(old(mapInfo), mapInfo)
      ensures id in mapInfo <==>
                || old(mapInfo)[id].refCount > 0
                || old(NewSlotFor(mapInfo[id].svc, source)) == -1
                || old(mapInfo[NewSlotFor(mapInfo[id].svc, source)].IsTerrible(now))
                || old(mapInfo[NewSlotFor(mapInfo[id].svc, source)].refCount) > 1
      ensures old(MayPlace(id, source, now)) ==>
                && id in mapInfo && NewSlotFor(mapInfo[id].svc, source) == id
                && mapInfo[id].Anywhere() == old(mapInfo)[id].(refCount := old(mapInfo)[id].refCount + 1).Anywhere()
                && OtherNewSlotsKept(NewBucket(mapInfo[id].svc, source), Position(mapInfo[id].svc, true, NewBucket(mapInfo[id].svc, source)))
      ensures !old(MayPlace(id, source, now)) ==> unchanged(vvNew)
      ensures !old(MayPlace(id, source, now)) && old(mapInfo)[id].refCount > 0 ==> mapInfo == old(mapInfo)
      ensures Contents() == old(Contents()).Placed(id, source, now)
    {
      hide Holds, Contents, State.Cleared, State.Linked, State.Without;
      var info := mapInfo[id];
      var ub := NewBucket(info.svc, source);
      var up := Position(info.svc, true, ub);
      RecordInContents(id);
      SpotsInContents(info.svc, source);
      NewSlotInContents(ub, up);
      NoneBelowZero({id}, 0);
      RecordInContents(vvNew[ub, up]);
      SlotIsListed(ub, up, {id}, 0);
      assert {} + {id} == {id} && {id} - {id} == {};
      if info.refCount == 0 {
        InNoNewSlot(id, {id}, 0);
      }
      if vvNew[ub, up] == id {
        Tighten(id, {}, 0);
        return;
      }
      var insert := vvNew[ub, up] == -1;
      if !insert {
        var existing := mapInfo[vvNew[ub, up]];
        if existing.IsTerrible(now) || (existing.refCount > 1 && info.refCount == 0) {
          insert := true;
        }
      }
      if insert {
        ClearNew(ub, up, {id}, 0);
        LinkNew(ub, up, id, {id}, 0);
      } else if info.refCount == 0 {
        Delete(id, {}, 0);
      } else {
        Tighten(id, {}, 0);
      }
    }

    /** Record `id` has learnt time and services, and gained one reference, in the slot for this source, if news, luck and room allow. */
    twostate predicate Learns(new id: int, new a: Address, new source: nat, new timePenalty: nat, new now: int, new rnd: nat)
      requires Shape() && id in old(mapInfo)
      reads this, vvNew
    {
      var info := Refreshed(old(mapInfo)[id], a, timePenalty, now);
      var gains := HasNews(info, a) && Lucky(info, rnd) && old(MayPlace(id, source, now));
      && id in mapInfo
      && mapInfo[id].Anywhere() == info.(refCount := info.refCount + if gains then 1 else 0).Anywhere()
      && (gains ==> NewSlotFor(info.svc, source) == id)
      && (!gains ==> unchanged(vvNew) && mapInfo == old(mapInfo)[id := info])
    }

    /** More news about a known address: refresh it and perhaps give it one more bucket. */
    method AddKnown(id: int, a: Address, source: nat, timePenalty: nat, now: int, rnd: nat)
      requires Consistent() && id in mapInfo && mapInfo[id].lastTry >= 0 && mapInfo[id].lastSuccess >= 0
      requires if mapInfo[id].inTried then mapInfo[id].lastSuccess > 0 else 0 < mapInfo[id].refCount <= NEW_BUCKETS_PER_ADDRESS
      modifies this`mapInfo, this`mapAddr, this`vRandom, this`nNew, vvNew
      ensures Consistent() && Descends(old(mapInfo), mapInfo)
      ensures Learns(id, a, source, timePenalty, now, rnd)
      ensures Contents() == old(Contents()).AfterNews(id, a, source, timePenalty, now, rnd)
    {
      hide Holds, MayPlace, Refreshed, Contents, State.Placed;
      RecordInContents(id);
      RefreshedAnywhere(mapInfo[id], a, timePenalty, now);
      var info := Refresh(id, a, timePenalty, now);
      if a.time == 0 || (info.time != 0 && a.time <= info.time) {
        return;
      }
      if info.inTried || info.refCount == NEW_BUCKETS_PER_ADDRESS {
        return;
      }
      var lucky := Draw(info, rnd);
      if !lucky {
        return;
      }
      Loosen(id);
      PlaceInNew(id, source, now);
    }

    /** Take over a newer time and more services. */
    method Refresh(id: int, a: Address, timePenalty: nat, now: int) returns (info: AddrInfo)
      requires Consistent() && id in mapInfo && mapInfo[id].lastTry >= 0 && mapInfo[id].lastSuccess >= 0
      requires mapInfo[id].inTried ==> mapInfo[id].lastSuccess > 0
      modifies this`mapInfo
      ensures Consistent() && mapInfo == old(mapInfo)[id := info] && info == Refreshed(old(mapInfo)[id], a, timePenalty, now)
      ensures Descends(old(mapInfo), mapInfo)
      ensures info.svc == old(mapInfo)[id].svc && info.refCount == old(mapInfo)[id].refCount && info.inTried == old(mapInfo)[id].inTried
      ensures forall source: nat :: MayPlace(id, source, now) == old(MayPlace(id, source, now))
      ensures Contents() == old(Contents()).With(id, info.Anywhere())
    {
      hide Holds, Contents;
      info := mapInfo[id];
      var currentlyOnline := now - a.time < 24 * 60 * 60;
      var updateInterval := if currentlyOnline then 60 * 60 else 24 * 60 * 60;
      if a.time != 0 && (info.time == 0 || info.time < a.time - updateInterval - timePenalty) {
        info := info.(time := if a.time - timePenalty > 0 then a.time - timePenalty else 0);
      }
      info := info.(services := info.services + a.services);
      Touch(id, info);
    }

    /** Whether the draw lets the record have one more bucket. */
    method Draw(info: AddrInfo, rnd: nat) returns (lucky: bool)
      requires info.refCount >= 0
      ensures lucky <==> Lucky(info, rnd)
    {
      var factor := 1;
      for n := 0 to info.refCount
        invariant factor == Pow2(n)
      {
        factor := factor * 2;
      }
      return factor <= 1 || rnd % factor == 0;
    }

    method AddUnknown(a: Address, source: nat, timePenalty: nat, now: int)
      requires Consistent() && a.svc.ip !in mapAddr && forall j :: j in mapInfo ==> mapInfo[j].svc.ip != a.svc.ip
      modifies this`mapInfo, this`mapAddr, this`vRandom, this`nIdCount, this`nNew, vvNew
      ensures Consistent() && nIdCount == old(nIdCount) + 1
      ensures forall j :: j in mapInfo && j != old(nIdCount) ==> j in old(mapInfo) && mapInfo[j].svc == old(mapInfo)[j].svc
      ensures old(nIdCount) in mapInfo ==>
                && mapInfo[old(nIdCount)].Anywhere() == FirstHeard(a, source, timePenalty).Anywhere()
                && NewSlotFor(a.svc, source) == old(nIdCount)
      ensures old(nIdCount) in mapInfo <==>
                 || old(NewSlotFor(a.svc, source)) == -1
                 || old(mapInfo[NewSlotFor(a.svc, source)].IsTerrible(now))
                 || old(mapInfo[NewSlotFor(a.svc, source)].refCount) > 1
      ensures Contents() == old(Contents()).Created(a, source, timePenalty).Placed(old(nIdCount), source, now)
    {
      hide Holds, Contents, State.Created, State.Placed;
      ghost var b := NewBucket(a.svc, source);
      SlotIsListed(b, Position(a.svc, true, b), {}, 0);
      var id := AddRecord(a, source, timePenalty);
      FirstReference(mapInfo[id], FirstHeard(a, source, timePenalty));
      assert NewSlotFor(a.svc, source) != id;
      PlaceInNew(id, source, now);
    }

    /** Add an address learnt from `source`; true when it was unknown. */
    method Add(a: Address, source: nat, routable: bool, penalty: nat, now: int, rnd: nat) returns (isNew: bool)
      requires Consistent()
      modifies this, vvNew
      ensures Consistent() && Evolves()
      ensures old(CollisionsOk()) ==> CollisionsOk()
      ensures isNew <==> routable && forall id :: id in old(mapInfo) ==> old(mapInfo)[id].svc.ip != a.svc.ip
      ensures !routable ==> mapInfo == old(mapInfo) && unchanged(vvNew)
      ensures forall id :: routable && id in old(mapInfo) && old(mapInfo)[id].svc.ip == a.svc.ip ==>
                Learns(id, a, source, if a.svc.ip == source then 0 else penalty, now, rnd)
      ensures isNew && old(nIdCount) in mapInfo ==>
                && mapInfo[old(nIdCount)].Anywhere() == FirstHeard(a, source, if a.svc.ip == source then 0 else penalty).Anywhere()
                && NewSlotFor(a.svc, source) == old(nIdCount)
      // A new address is stored unless its one slot is held by a sound entry with no other reference.
      ensures isNew ==>
                ((exists id :: id in mapInfo && mapInfo[id].svc == a.svc) <==>
                 (|| old(NewSlotFor(a.svc, source)) == -1
                  || old(mapInfo[NewSlotFor(a.svc, source)].IsTerrible(now))
                  || old(mapInfo[NewSlotFor(a.svc, source)].refCount) > 1))
      ensures Contents() == old(Contents()).AfterAdd(a, source, routable, penalty, now, rnd)
    {
      hide Holds, MayPlace, Refreshed, HasNews, Lucky, Contents, State.Created, State.Placed, State.AfterNews, State.IdOf;
      if !routable {
        return false;
      }
      var timePenalty := if a.svc.ip == source then 0 else penalty;
      var found := Find(a.svc.ip);
      NoneBelowZero({}, 0);
      RecordInContents(if found.Some? then found.value else -1);
      assert Contents().idCount == nIdCount by { CountInContents(); }
      if found.Some? {
        AddKnown(found.value, a, source, timePenalty, now, rnd);
        isNew := false;
      } else {
        AddUnknown(a, source, timePenalty, now);
        isNew := true;
      }
      if old(CollisionsOk()) {
        CollisionsCarryOver();
      }
    }

    twostate lemma ContentsAfterAttempt(new svc: Service, new countFailure: bool, new time: nat)
      requires unchanged(`nKey) && unchanged(`nIdCount) && unchanged(`vRandom) && unchanged(`nLastGood) && unchanged(`triedCollisions)
      requires unchanged(vvNew) && unchanged(vvTried) && mapInfo.Keys == old(mapInfo).Keys
      requires forall id :: id in mapInfo ==> mapInfo[id] == Attempted(old(mapInfo)[id], svc, countFailure, time, nLastGood)
      ensures Contents() == old(Contents()).AfterAttempt(svc, countFailure, time)
    {
      hide Cells;
      forall id | id in mapInfo.Keys
        ensures mapInfo[id].Anywhere() == Attempted(old(mapInfo)[id].Anywhere(), svc, countFailure, time, nLastGood)
      {
      }
      assert forall id :: id in mapInfo <==> id in old(mapInfo).Keys;
    }

    /** Mark an entry as attempted. */
    method Attempt(svc: Service, countFailure: bool, time: nat)
      requires Consistent()
      modifies this`mapInfo
      ensures Consistent() && Evolves()
      ensures old(CollisionsOk()) ==> CollisionsOk()
      ensures mapInfo.Keys == old(mapInfo).Keys
      ensures forall id :: id in mapInfo ==> mapInfo[id] == Attempted(old(mapInfo)[id], svc, countFailure, time, nLastGood)
      ensures Contents() == old(Contents()).AfterAttempt(svc, countFailure, time)
    {
      hide Holds, Contents, State.AfterAttempt;
      var found := Find(svc.ip);
      if found.None? || mapInfo[found.value].svc != svc {
        ContentsAfterAttempt(svc, countFailure, time);
        return;
      }
      var info := mapInfo[found.value].(lastTry := time);
      if countFailure && info.lastCountAttempt < nLastGood {
        info := info.(lastCountAttempt := time, attempts := info.attempts + 1);
      }
      Touch(found.value, info);
      ContentsAfterAttempt(svc, countFailure, time);
      if old(CollisionsOk()) {
        CollisionsCarryOver();
      }
    }

    /** Swap two places of the random order of a consistent manager. */
    method Shuffle(pos1: int, pos2: int)
      requires Consistent() && 0 <= pos1 < |vRandom| && 0 <= pos2 < |vRandom|
      modifies this`mapInfo, this`vRandom
      ensures Consistent() && SameUpToPlace(old(mapInfo), mapInfo)
      ensures vRandom == old(vRandom)[pos1 := old(vRandom)[pos2]][pos2 := old(vRandom)[pos1]]
    {
      hide Indexed, NewSlotsOk, TriedSlotsOk, TriedIds, UntriedIds, RecordOk;
      TimesSane();
      SwapRandom(pos1, pos2);
      assert forall j :: j in mapInfo ==> mapInfo[j].Anywhere() == old(mapInfo)[j].Anywhere();
      AfterTouch({});
    }

    lemma IdsBounded()
      requires Consistent()
      ensures forall id :: id in mapInfo ==> 0 <= id < nIdCount
    {
      assert forall j :: j in mapInfo ==> RecordOk(j, mapInfo[j], {});
    }

    lemma IsIndexed()
      requires Consistent()
      ensures Indexed(mapInfo, mapAddr, vRandom)
    {
    }

    /**
     A random selection: at most 23% of the entries and at most 2500, no address twice, none terrible;
     a shorter answer is complete.
     */
    method GetAddr(now: int, rnd: nat -> nat) returns (addrs: seq<Service>)
      requires Consistent()
      modifies this`mapInfo, this`vRandom
      ensures Consistent() && SameUpToPlace(old(mapInfo), mapInfo)
      ensures |addrs| <= 23 * |old(vRandom)| / 100 && |addrs| <= 2500
      ensures forall k :: 0 <= k < |addrs| ==> ListsSound(mapInfo, addrs[k], now)
      ensures forall k, l :: 0 <= k < l < |addrs| ==> addrs[k].ip != addrs[l].ip
      ensures |addrs| < 2500 && |addrs| < 23 * |old(vRandom)| / 100 ==>
                forall id :: id in mapInfo && !mapInfo[id].IsTerrible(now) ==> mapInfo[id].svc in addrs
      ensures (vRandom, addrs) == old(Contents()).Sample(now, rnd)
      ensures Contents() == old(Contents()).(random := vRandom)
    {
      hide Holds, AddrInfo.IsTerrible, Contents, SamplesOn, Sampled, Picked, SameUpToPlace;
      addrs := [];
      var nodes := 23 * |vRandom| / 100;
      if nodes > 2500 {
        nodes := 2500;
      }
      ghost var picked: seq<int> := [];
      var n := 0;
      ghost var info, all := Placeless(mapInfo), Contents().Sample(now, rnd);
      SameAnyway(mapInfo);
      ContentsAfterShuffle();
      PickedNone(mapInfo, vRandom, now);
      SampleStarts(info, vRandom, rnd, now, nodes);
      while n < |vRandom| && |addrs| < nodes
        invariant Consistent() && SameUpToPlace(old(mapInfo), mapInfo)
        invariant 0 <= n <= |vRandom| == |old(vRandom)| && |addrs| <= nodes
        invariant Picked(mapInfo, vRandom, n, picked, addrs, now)
        invariant SamplesOn(info, vRandom, rnd, now, n, nodes - |addrs|, addrs, all)
      {
        ghost var before, order := mapInfo, vRandom;
        Shuffle(n, rnd(n) % (|vRandom| - n) + n);
        IsIndexed();
        PickOne(before, mapInfo, order, vRandom, n, picked, addrs, now);
        SampleGoesOn(info, order, rnd, now, n, nodes - |addrs|, addrs, all);
        SameAgain(old(mapInfo), before, mapInfo);
        SoundAnywhere(old(mapInfo), mapInfo, vRandom[n], now);
        if !mapInfo[vRandom[n]].IsTerrible(now) {
          addrs := addrs + [mapInfo[vRandom[n]].svc];
          picked := picked + [n];
        }
        n := n + 1;
      }
      IsIndexed();
      PickedMeansSound(mapInfo, mapAddr, vRandom, n, picked, addrs, now);
      SampleEnds(info, vRandom, rnd, now, n, nodes - |addrs|, addrs, all);
      ContentsAfterShuffle();
    }

    twostate lemma ContentsAfterShuffle()
      requires unchanged(`nKey) && unchanged(`nIdCount) && unchanged(`nLastGood) && unchanged(`triedCollisions)
      requires unchanged(vvNew) && unchanged(vvTried) && SameUpToPlace(old(mapInfo), mapInfo)
      ensures Contents() == old(Contents()).(random := vRandom)
      ensures old(Contents()).info == Placeless(old(mapInfo)) && old(Contents()).random == old(vRandom)
    {
      hide Cells, Placeless;
      PlacelessSame(old(mapInfo), mapInfo);
    }

    twostate lemma ContentsAfterConnected(new svc: Service, new time: nat)
      requires unchanged(`nKey) && unchanged(`nIdCount) && unchanged(`vRandom) && unchanged(`nLastGood) && unchanged(`triedCollisions)
      requires unchanged(vvNew) && unchanged(vvTried) && mapInfo.Keys == old(mapInfo).Keys
      requires forall id :: id in mapInfo ==> mapInfo[id] == ConnectedTo(old(mapInfo)[id], svc, time)
      ensures Contents() == old(Contents()).AfterConnected(svc, time)
    {
      hide Cells;
      forall id | id in mapInfo.Keys
        ensures mapInfo[id].Anywhere() == ConnectedTo(old(mapInfo)[id].Anywhere(), svc, time)
      {
      }
      assert forall id :: id in mapInfo <==> id in old(mapInfo).Keys;
    }

    method Connected(svc: Service, time: nat)
      requires Consistent()
      modifies this`mapInfo
      ensures Consistent() && Evolves()
      ensures old(CollisionsOk()) ==> CollisionsOk()
      ensures mapInfo.Keys == old(mapInfo).Keys
      ensures forall id :: id in mapInfo ==> mapInfo[id] == ConnectedTo(old(mapInfo)[id], svc, time)
      ensures Contents() == old(Contents()).AfterConnected(svc, time)
    {
      hide Holds, Contents, State.AfterConnected;
      var found := Find(svc.ip);
      if found.Some? && mapInfo[found.value].svc == svc && time - mapInfo[found.value].time > 20 * 60 {
        Touch(found.value, mapInfo[found.value].(time := time));
      }
      ContentsAfterConnected(svc, time);
      if old(CollisionsOk()) {
        CollisionsCarryOver();
      }
    }

    lemma TriedIsListed(svc: Service)
      requires Consistent()
      ensures TriedSlotOf(svc) != -1 ==>
                TriedSlotOf(svc) in mapInfo && mapInfo[TriedSlotOf(svc)].inTried && TriedSlotOf(svc) >= 0
    {
      if TriedSlotOf(svc) != -1 {
        assert RecordOk(TriedSlotOf(svc), mapInfo[TriedSlotOf(svc)], {});
      }
    }

    /** The tried slot of `svc` is held by an entry without a success in the last four hours. */
    ghost predicate HeldByStale(svc: Service, now: int)
      requires Shape()
      reads this`nKey, this`mapInfo, vvTried
    {
      TriedSlotOf(svc) in mapInfo && now - mapInfo[TriedSlotOf(svc)].lastSuccess >= 4 * 60 * 60
    }

    /** That entry was tried in the last four hours, but not in the last minute, so it has had its chance. */
    ghost predicate HadItsChance(svc: Service, now: int)
      requires Shape()
      reads this`nKey, this`mapInfo, vvTried
    {
      TriedSlotOf(svc) in mapInfo && 60 < now - mapInfo[TriedSlotOf(svc)].lastTry < 4 * 60 * 60
    }

    /** Entry `id` now holds its tried slot and has just succeeded; other slots, addresses and times are as they were. */
    twostate predicate TookTheSlot(new id: int, new now: int)
      requires Shape()
      reads this, vvTried
    {
      && id in mapInfo && id in old(mapInfo) && mapInfo[id].svc == old(mapInfo)[id].svc
      && TriedSlotOf(mapInfo[id].svc) == id && mapInfo[id].lastSuccess == now
      && TriedSlotsKeptBut(mapInfo[id].svc)
      && forall j :: j in mapInfo && j != id ==>
           j in old(mapInfo) && mapInfo[j].svc == old(mapInfo)[j].svc
           && mapInfo[j].lastTry == old(mapInfo)[j].lastTry && mapInfo[j].lastSuccess == old(mapInfo)[j].lastSuccess
    }

    /** Decide one pending collision; true when it is settled. */
    method ResolveOne(id: int, now: int, rnd: int, valid: bool) returns (settled: bool)
      requires Consistent() && now > 0 && 0 <= rnd < NEW_BUCKETS
      modifies this, vvNew, vvTried
      ensures Consistent() && Evolves() && triedCollisions == old(triedCollisions)
      ensures old(CollisionsOk()) ==> CollisionsOk()
      // The old entry keeps its place for good, for now, or not at all, by its last success and last try.
      ensures settled <==>
                || id !in old(mapInfo) || !valid || !old(HeldByStale(mapInfo[id].svc, now))
                || old(HadItsChance(mapInfo[id].svc, now))
      ensures var moves := valid && settled && id in old(mapInfo) && old(TriedSlotOf(mapInfo[id].svc) == -1 || HeldByStale(mapInfo[id].svc, now));
              if moves then TookTheSlot(id, now) else mapInfo == old(mapInfo) && unchanged(vvNew) && unchanged(vvTried)
      ensures settled == old(Contents()).Settles(id, now, valid) && Contents() == old(Contents()).ResolvedOne(id, now, valid)
    {
      hide Holds, Contents, State.AfterGood;
      RecordInContents(id);
      if id !in mapInfo {
        return true;
      }
      var svc := mapInfo[id].svc;
      HolderInContents(svc);
      var kb := TriedBucket(svc);
      var kp := Position(svc, false, kb);
      TriedIsListed(svc);
      OnlyOneRecord(id);
      NoRecordBelowZero();
      if !valid {
        return true;
      }
      if vvTried[kb, kp] != -1 {
        var infoOld := mapInfo[vvTried[kb, kp]];
        if now - infoOld.lastSuccess < 4 * 60 * 60 {
          return true;
        }
        if now - infoOld.lastTry < 4 * 60 * 60 && now - infoOld.lastTry > 60 {
          Good(svc, false, now, rnd);
          OnlyOneRecord(id);
          return true;
        }
        return false;
      }
      Good(svc, false, now, rnd);
      OnlyOneRecord(id);
      return true;
    }

    lemma OnlyOneRecord(id: int)
      requires Consistent() && id in mapInfo
      ensures forall j :: j in mapInfo && mapInfo[j].svc == mapInfo[id].svc ==> j == id
    {
    }

    lemma NoRecordBelowZero()
      ensures Consistent() ==> -1 !in mapInfo
    {
      if Consistent() {
        IdsBounded();
      }
    }

    twostate lemma NoneWasBelowZero()
      requires old(Consistent())
      ensures -1 !in old(mapInfo)
    {
    }

    /** What ResolveCollisions has decided about `id`: it waits exactly for a stale entry that has not had its chance. */
    ghost predicate Decided(id: int, now: int, isValid: Service -> bool)
      requires Shape()
      reads this`nKey, this`mapInfo, this`triedCollisions, vvTried
    {
      id in mapInfo ==>
        var svc := mapInfo[id].svc;
        && (id in triedCollisions <==> isValid(svc) && HeldByStale(svc, now))
        && (id in triedCollisions ==> !HadItsChance(svc, now))
    }

    /** An entry that took its slot changes nothing for a collision over another slot, and a stale entry for no other one. */
    twostate lemma StillDecided(new id: int, new j: int, new now: int, new isValid: Service -> bool)
      requires old(Consistent()) && Consistent() && nKey == old(nKey) && TookTheSlot(id, now)
      requires triedCollisions == old(triedCollisions) - {id} && j != id && old(Decided(j, now, isValid))
      requires old(HeldByStale(mapInfo[id].svc, now)) ==> old(HadItsChance(mapInfo[id].svc, now))
      ensures Decided(j, now, isValid)
    {
      hide Holds;
      if j in mapInfo {
        var svc, svc' := mapInfo[id].svc, mapInfo[j].svc;
        TriedIsListed(svc');
        if TriedBucket(svc) != TriedBucket(svc') || Position(svc, false, TriedBucket(svc)) != Position(svc', false, TriedBucket(svc')) {
          assert TriedSlotOf(svc') == old(TriedSlotOf(svc'));
          HolderHashesHere(svc');
          NoRecordBelowZero();
          NoneWasBelowZero();
        } else {
          assert TriedSlotOf(svc') == id && old(TriedSlotOf(svc')) == old(TriedSlotOf(svc));
        }
      }
    }

    /** One decision leaves the ones before it as they were. */
    twostate lemma AfterResolve(new id: int, new j: int, new settled: bool, new valid: bool, new now: int, new isValid: Service -> bool)
      requires old(Consistent()) && Consistent() && nKey == old(nKey) && id in old(triedCollisions)
      requires valid <==> id in old(mapInfo) && isValid(old(mapInfo)[id].svc)
      requires settled <==> id !in old(mapInfo) || !valid || !old(HeldByStale(mapInfo[id].svc, now)) || old(HadItsChance(mapInfo[id].svc, now))
      requires triedCollisions == if settled then old(triedCollisions) - {id} else old(triedCollisions)
      requires var moves := valid && settled && id in old(mapInfo) && old(TriedSlotOf(mapInfo[id].svc) == -1 || HeldByStale(mapInfo[id].svc, now));
               if moves then TookTheSlot(id, now) else mapInfo == old(mapInfo) && unchanged(vvTried)
      requires j == id || old(Decided(j, now, isValid))
      ensures Decided(j, now, isValid)
    {
      hide Holds;
      if j != id && valid && settled && old(TriedSlotOf(mapInfo[id].svc) == -1 || HeldByStale(mapInfo[id].svc, now)) {
        StillDecided(id, j, now, isValid);
      }
    }

    lemma HolderHashesHere(svc: Service)
      requires Consistent()
      ensures var id := TriedSlotOf(svc);
              id != -1 ==>
                && id in mapInfo && TriedBucket(mapInfo[id].svc) == TriedBucket(svc)
                && Position(mapInfo[id].svc, false, TriedBucket(svc)) == Position(svc, false, TriedBucket(svc))
    {
    }

    /** Decide one pending collision and take it off the list if it is settled. */
    method ResolveNext(id: int, now: int, rnd: int, isValid: Service -> bool)
      requires Consistent() && now > 0 && 0 <= rnd < NEW_BUCKETS && id in triedCollisions
      modifies this, vvNew, vvTried
      ensures Consistent() && Evolves() && old(triedCollisions) - {id} <= triedCollisions <= old(triedCollisions)
      ensures old(CollisionsOk()) ==> CollisionsOk()
      ensures forall j :: j == id || old(Decided(j, now, isValid)) ==> Decided(j, now, isValid)
      ensures Contents() == old(Contents()).ResolvedNext(id, now, isValid)
    {
      hide Holds, Decided, Contents, State.Settles, State.ResolvedOne;
      RecordInContents(id);
      var valid := id in mapInfo && isValid(mapInfo[id].svc);
      var settled := ResolveOne(id, now, rnd, valid);
      label after:
      if settled {
        triedCollisions := triedCollisions - {id};
      }
      ContentsAfterCollision@after();
      forall j | j == id || old(Decided(j, now, isValid))
        ensures Decided(j, now, isValid)
      {
        AfterResolve(id, j, settled, valid, now, isValid);
      }
      if old(CollisionsOk()) {
        CollisionsCarryOver();
      }
    }

    /** Settle whatever pending collisions can be settled, in ascending order of id. */
    method ResolveCollisions(now: int, rnd: nat -> nat, isValid: Service -> bool)
      requires Consistent() && now > 0
      modifies this, vvNew, vvTried
      ensures Consistent() && Evolves() && triedCollisions <= old(triedCollisions)
      ensures old(CollisionsOk()) ==> CollisionsOk()
      ensures forall id :: id in old(triedCollisions) ==> Decided(id, now, isValid)
      ensures Contents() == old(Contents()).ResolvedAll(old(triedCollisions), now, isValid)
    {
      hide Holds, Decided, Contents, State.ResolvedNext;
      var todo := triedCollisions;
      while |todo| > 0
        invariant Consistent() && Evolves() && todo <= triedCollisions <= old(triedCollisions)
        invariant old(CollisionsOk()) ==> CollisionsOk()
        invariant forall id :: id in old(triedCollisions) && id !in todo ==> Decided(id, now, isValid)
        invariant Contents().ResolvedAll(todo, now, isValid) == old(Contents()).ResolvedAll(old(triedCollisions), now, isValid)
        decreases |todo|
      {
        var id := Least(todo);
        Contents().ResolvesLeast(todo, id, now, isValid);
        todo := todo - {id};
        ResolveNext(id, now, rnd(|todo|) % NEW_BUCKETS, isValid);
      }
    }

    lemma CollisionsInContents()
      ensures Contents().collisions == triedCollisions
    {
    }

    twostate lemma ContentsAfterPlanting(new id: int)
      requires unchanged(`nKey) && unchanged(`nIdCount) && unchanged(`vRandom) && unchanged(`nLastGood) && unchanged(`triedCollisions)
      requires unchanged(vvNew) && unchanged(vvTried) && mapInfo == old(mapInfo)[id := NoInfo()]
      ensures Contents() == old(Contents()).With(id, NoInfo().Anywhere())
    {
      hide Cells, Placeless;
      PlacelessUpdate(old(mapInfo), id, NoInfo());
    }

    /**
     Pick the pending collision that the random number points at and hand out the tried entry it
     would evict. An id that was given up is dropped. Looking up an empty slot would plant a record
     under id -1, so the manager stays consistent exactly when the slot is occupied.
     */
    method SelectTriedCollision(rnd: nat) returns (id: int, answer: Option<AddrInfo>)
      requires Consistent()
      modifies this`mapInfo, this`triedCollisions
      ensures old(triedCollisions) == {} ==> answer.None? && unchanged(this)
      ensures old(triedCollisions) != {} ==>
                id in old(triedCollisions) && |Below(old(triedCollisions), id)| == rnd % |old(triedCollisions)|
      ensures old(triedCollisions) != {} && id !in old(mapInfo) ==>
                answer.None? && Consistent() && mapInfo == old(mapInfo) && triedCollisions == old(triedCollisions) - {id}
      ensures old(triedCollisions) != {} && id in old(mapInfo) ==>
                var held := old(TriedSlotOf(mapInfo[id].svc));
                && triedCollisions == old(triedCollisions)
                && (held != -1 ==> held in mapInfo && answer == Some(mapInfo[held]) && mapInfo == old(mapInfo) && Consistent())
                && (held == -1 ==> answer == Some(NoInfo()) && mapInfo == old(mapInfo)[-1 := NoInfo()] && !Consistent())
      ensures old(CollisionsOk()) ==> Consistent() && CollisionsOk()
      ensures old(CollisionsOk()) && answer.Some? ==> answer.value.inTried
      ensures Contents() == old(Contents()).AfterSelect(rnd)
    {
      hide Holds, Contents;
      CollisionsInContents();
      id, answer := -1, None;
      if |triedCollisions| == 0 {
        return;
      }
      id := Nth(triedCollisions, rnd % |triedCollisions|);
      Contents().SelectsNth(rnd, id);
      RecordInContents(id);
      if id !in mapInfo {
        triedCollisions := triedCollisions - {id};
        ContentsAfterCollision();
        if old(CollisionsOk()) {
          CollisionsCarryOver();
        }
        return;
      }
      NoRecordBelowZero();
      var svc := mapInfo[id].svc;
      var kb := TriedBucket(svc);
      var idOld := vvTried[kb, Position(svc, false, kb)];
      TriedIsListed(svc);
      HolderInContents(svc);
      if idOld !in mapInfo {
        mapInfo := mapInfo[idOld := NoInfo()];
        ContentsAfterPlanting(idOld);
        NoRecordBelowZero();
      }
      answer := Some(mapInfo[idOld]);
    }

    /** Start over with a fresh key. The pending collisions are not cleared, and are wrong from here on. */
    method Clear(key: nat)
      requires Shape()
      modifies this, vvNew, vvTried
      ensures Consistent() && mapInfo == map[] && nKey == key && triedCollisions == old(triedCollisions)
      ensures mapAddr == map[] && vRandom == [] && nIdCount == nNew == nTried == 0 && nLastGood == 1
      ensures forall b, p :: 0 <= b < NEW_BUCKETS && 0 <= p < BUCKET_SIZE ==> vvNew[b, p] == -1
      ensures forall b, p :: 0 <= b < TRIED_BUCKETS && 0 <= p < BUCKET_SIZE ==> vvTried[b, p] == -1
      ensures old(|triedCollisions|) <= SET_TRIED_COLLISION_SIZE ==> (CollisionsOk() <==> triedCollisions == {})
      ensures Contents() == NoEntries(hashes, key).(collisions := old(triedCollisions))
    {
      hide Contents;
      vRandom := [];
      nKey := key;
      forall b, p | 0 <= b < NEW_BUCKETS && 0 <= p < BUCKET_SIZE {
        vvNew[b, p] := -1;
      }
      forall b, p | 0 <= b < TRIED_BUCKETS && 0 <= p < BUCKET_SIZE {
        vvTried[b, p] := -1;
      }
      nIdCount, nTried, nNew, nLastGood := 0, 0, 0, 1;
      mapInfo, mapAddr := map[], map[];
      HasElement(triedCollisions);
      BlankContents();
    }
  }

  // ----- whole runs

  datatype Op =
    | OpAdd(a: Address, source: nat, routable: bool, penalty: nat, addNow: int, addRnd: nat)
    | OpGood(goodSvc: Service, testBeforeEvict: bool, goodTime: int, bucketRnd: int)
    | OpAttempt(attemptSvc: Service, countFailure: bool, attemptTime: nat)
    | OpGetAddr(listNow: int, listRnd: nat -> nat)
    | OpConnected(connectedSvc: Service, connectedTime: nat)
    | OpResolve(resolveNow: int, resolveRnd: nat -> nat, isValid: Service -> bool)
    | OpSelect(selectRnd: nat)
  {
    /** Clocks show positive times, and random bucket numbers are bucket numbers. */
    predicate Possible() {
      && (OpGood? ==> goodTime > 0 && 0 <= bucketRnd < NEW_BUCKETS)
      && (OpResolve? ==> resolveNow > 0)
    }
  }

  method Apply(m: AddrMan, op: Op)
    requires m.Consistent() && m.CollisionsOk() && op.Possible()
    modifies m, m.vvNew, m.vvTried
    ensures m.Consistent() && m.CollisionsOk()
    ensures forall b, p :: 0 <= b < TRIED_BUCKETS && 0 <= p < BUCKET_SIZE && old(m.vvTried[b, p]) != -1 ==> m.vvTried[b, p] != -1
    ensures m.Contents() == old(m.Contents()).After(op)
  {
    hide AddrMan.Holds, AddrMan.CollisionsOk, AddrMan.Contents, State.AfterAdd, State.AfterGood, State.AfterAttempt, State.Sample,
      State.AfterConnected, State.ResolvedAll, State.AfterSelect;
    m.CollisionsInContents();
    match op
    case OpAdd(a, source, routable, penalty, now, rnd) => var _ := m.Add(a, source, routable, penalty, now, rnd);
    case OpGood(svc, test, time, rnd) => m.Good(svc, test, time, rnd);
    case OpAttempt(svc, countFailure, time) => m.Attempt(svc, countFailure, time);
    case OpGetAddr(now, rnd) =>
      var _ := m.GetAddr(now, rnd);
      SamePlaces(m);
    case OpConnected(svc, time) => m.Connected(svc, time);
    case OpResolve(now, rnd, isValid) => m.ResolveCollisions(now, rnd, isValid);
    case OpSelect(rnd) => var _, _ := m.SelectTriedCollision(rnd);
  }

  twostate lemma SamePlaces(m: AddrMan)
    requires m.Shape() && old(m.CollisionsOk()) && SameUpToPlace(old(m.mapInfo), m.mapInfo)
    requires unchanged(m`nKey) && unchanged(m`nIdCount) && unchanged(m`triedCollisions) && unchanged(m.vvTried)
    ensures m.CollisionsOk()
  {
    forall id | id in m.mapInfo
      ensures m.mapInfo[id].svc == old(m.mapInfo)[id].svc
    {
      assert m.mapInfo[id].Anywhere() == old(m.mapInfo)[id].Anywhere();
    }
  }

  /**
   Every run of operations does to the manager what the operations do to its value one by one, keeps
   the consistency check and the pending collisions, and empties no tried slot.
   */
  method Run(m: AddrMan, ops: seq<Op>)
    requires m.Consistent() && m.CollisionsOk() && forall i :: 0 <= i < |ops| ==> ops[i].Possible()
    modifies m, m.vvNew, m.vvTried
    ensures m.Consistent() && m.CollisionsOk()
    ensures forall b, p :: 0 <= b < TRIED_BUCKETS && 0 <= p < BUCKET_SIZE && old(m.vvTried[b, p]) != -1 ==> m.vvTried[b, p] != -1
    ensures m.Contents() == old(m.Contents()).AfterAll(ops)
  {
    hide AddrMan.Holds, AddrMan.CollisionsOk, AddrMan.Contents, State.After;
    assert ops[..|ops|] == ops;
    for i := 0 to |ops|
      invariant m.Consistent() && m.CollisionsOk() && m.Contents() == old(m.Contents()).AfterAll(ops[..i])
      invariant forall b, p :: 0 <= b < TRIED_BUCKETS && 0 <= p < BUCKET_SIZE && old(m.vvTried[b, p]) != -1 ==> m.vvTried[b, p] != -1
    {
      assert ops[..i + 1][..i] == ops[..i];
      Apply(m, ops[i]);
    }
  }
}
