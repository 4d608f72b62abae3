/**
 Rebuilding the address manager from its own disk image gives the same tables, up
 to a renaming of the ids.
 */
module AddrManRoundTrip {
  import opened Sets
  import opened AddrMan
  import opened AddrManCodec

  // ---------------------------------------------------------------------------- numbering

  ghost predicate Ascending(ids: seq<Id>) {
    forall i, j :: 0 <= i < j < |ids| ==> ids[i] < ids[j]
  }

  lemma {:induction false} NewListIs(m: map<Id, Info>, k: nat)
    ensures var l := NewList(m, k);
            Ascending(l) && forall i :: 0 <= i < |l| ==> l[i] < k && l[i] in m && m[l[i]].nRefCount != 0 && Number(m, l[i]) == i
  {
    if k > 0 {
      NewListIs(m, k - 1);
    }
  }

  lemma {:induction false} NumberIs(m: map<Id, Info>, k: nat, id: Id)
    requires id < k && id in m && m[id].nRefCount != 0
    ensures Number(m, id) < |NewList(m, k)| && NewList(m, k)[Number(m, id)] == id
    decreases k
  {
    if id < k - 1 {
      NumberIs(m, k - 1, id);
    }
  }

  lemma {:induction false} TriedListIs(m: map<Id, Info>, k: nat)
    ensures var l := TriedList(m, k);
            Ascending(l) && forall i :: 0 <= i < |l| ==> l[i] < k && l[i] in m && m[l[i]].fInTried && |TriedList(m, l[i])| == i
  {
    if k > 0 {
      TriedListIs(m, k - 1);
    }
  }

  lemma {:induction false} TriedNumberIs(m: map<Id, Info>, k: nat, id: Id)
    requires id < k && id in m && m[id].fInTried
    ensures |TriedList(m, id)| < |TriedList(m, k)| && TriedList(m, k)[|TriedList(m, id)|] == id
    decreases k
  {
    if id < k - 1 {
      TriedNumberIs(m, k - 1, id);
    }
  }

  function NewBelow(m: map<Id, Info>, k: nat): set<Id> {
    set n | n in m && n < k && m[n].nRefCount != 0
  }

  lemma {:induction false} NewListSize(m: map<Id, Info>, k: nat)
    ensures |NewList(m, k)| == |NewBelow(m, k)|
  {
    if k == 0 {
      assert NewBelow(m, 0) == {};
    } else {
      NewListSize(m, k - 1);
      assert NewBelow(m, k) == if k - 1 in m && m[k - 1].nRefCount != 0 then NewBelow(m, k - 1) + {k - 1} else NewBelow(m, k - 1);
    }
  }

  function TriedBelow(m: map<Id, Info>, k: nat): set<Id> {
    set n | n in m && n < k && m[n].fInTried
  }

  lemma {:induction false} TriedListSize(m: map<Id, Info>, k: nat)
    ensures |TriedList(m, k)| == |TriedBelow(m, k)|
  {
    if k == 0 {
      assert TriedBelow(m, 0) == {};
    } else {
      TriedListSize(m, k - 1);
      assert TriedBelow(m, k) == if k - 1 in m && m[k - 1].fInTried then TriedBelow(m, k - 1) + {k - 1} else TriedBelow(m, k - 1);
    }
  }

  /** Under the invariant the entries with references are those not tried. */
  lemma NewIffReferenced(key: Key, st: State, n: Id)
    requires Inv(key, st) && n in st.mapInfo
    ensures st.mapInfo[n].nRefCount != 0 <==> !st.mapInfo[n].fInTried
    ensures n < st.nIdCount
  {
    assert RefsInRange(n, st.mapInfo[n], {});
    if st.mapInfo[n].fInTried {
      assert Refs(st.vvNew, n) == {};
    }
  }

  /** All ids in the order in which they are loaded. */
  function Order(st: State): seq<Id> {
    NewList(st.mapInfo, st.nIdCount) + TriedList(st.mapInfo, st.nIdCount)
  }

  function News(st: State): nat {
    |NewList(st.mapInfo, st.nIdCount)|
  }

  /** The id under which an entry comes back. */
  function Renamed(st: State, n: Id): Id
    requires n in st.mapInfo
  {
    if st.mapInfo[n].fInTried then News(st) + |TriedList(st.mapInfo, n)| else Number(st.mapInfo, n)
  }

  /** Order and Renamed are inverse to each other. */
  ghost predicate Numbering(st: State) {
    && (forall n :: n in st.mapInfo ==> Renamed(st, n) < |Order(st)| && Order(st)[Renamed(st, n)] == n)
    && (forall k :: 0 <= k < |Order(st)| ==> Order(st)[k] in st.mapInfo && Renamed(st, Order(st)[k]) == k)
    && (forall k :: 0 <= k < |Order(st)| ==> (st.mapInfo[Order(st)[k]].fInTried <==> k >= News(st)))
  }

  lemma OrderIsNumbering(key: Key, st: State)
    requires Inv(key, st)
    ensures Numbering(st)
  {
    var m, nl, tl := st.mapInfo, NewList(st.mapInfo, st.nIdCount), TriedList(st.mapInfo, st.nIdCount);
    NewListIs(m, st.nIdCount);
    TriedListIs(m, st.nIdCount);
    forall n | n in m ensures Renamed(st, n) < |Order(st)| && Order(st)[Renamed(st, n)] == n {
      NewIffReferenced(key, st, n);
      if m[n].fInTried {
        TriedNumberIs(m, st.nIdCount, n);
      } else {
        NumberIs(m, st.nIdCount, n);
      }
    }
    forall k | 0 <= k < |Order(st)|
      ensures Order(st)[k] in m && Renamed(st, Order(st)[k]) == k && (m[Order(st)[k]].fInTried <==> k >= News(st))
    {
      if k < |nl| {
        NewIffReferenced(key, st, nl[k]);
      } else {
        assert Order(st)[k] == tl[k - |nl|];
      }
    }
  }

  lemma CountsAreRight(key: Key, st: State)
    requires Inv(key, st)
    ensures st.nNew == News(st) && st.nTried == |Order(st)| - News(st)
  {
    var m, k := st.mapInfo, st.nIdCount;
    NewListSize(m, k);
    TriedListSize(m, k);
    forall n | n in m ensures (n in NewBelow(m, k) <==> n in NewIds(m)) && (n in TriedBelow(m, k) <==> n in TriedIds(m)) {
      NewIffReferenced(key, st, n);
    }
    SetsMatch(key, st);
  }

  lemma SetsMatch(key: Key, st: State)
    requires Inv(key, st)
    requires forall n :: n in st.mapInfo ==> (n in NewBelow(st.mapInfo, st.nIdCount) <==> n in NewIds(st.mapInfo))
    requires forall n :: n in st.mapInfo ==> (n in TriedBelow(st.mapInfo, st.nIdCount) <==> n in TriedIds(st.mapInfo))
    ensures |NewBelow(st.mapInfo, st.nIdCount)| == st.nNew && |TriedBelow(st.mapInfo, st.nIdCount)| == st.nTried
  {
    hide Indexed;
    hide NewTable;
    hide TriedTable;
    hide RefCounts;
    hide Stats;
    var m := st.mapInfo;
    assert NewBelow(m, st.nIdCount) == NewIds(m);
    assert TriedBelow(m, st.nIdCount) == TriedIds(m);
    assert NewIds(m) - {} == NewIds(m);
  }

  // ------------------------------------------------------------------------ loading entries

  /** An entry as it is loaded, before its references are. */
  function Entry(info: Info, k: nat): Info {
    Fresh(StoredOf(info), k).(fInTried := info.fInTried)
  }

  /** The first n entries are loaded, under their new ids. */
  ghost predicate LoadedTo(m: map<Id, Info>, ids: seq<Id>, tm: map<Id, Info>, ta: map<NetAddr, Id>, n: nat) {
    && n <= |ids| && (forall k :: 0 <= k < |ids| ==> ids[k] in m)
    && (forall k :: 0 <= k < n ==> k in tm && tm[k] == Entry(m[ids[k]], k) && FoundAt(ta, m[ids[k]].addr.service.ip, k))
    && (forall k :: k in tm ==> k < n)
    && (forall a :: a in ta ==> ta[a] < n && m[ids[ta[a]]].addr.service.ip == a)
  }

  predicate FoundAt(ta: map<NetAddr, Id>, a: NetAddr, k: Id) {
    a in ta && ta[a] == k
  }

  ghost predicate DistinctAddrs(m: map<Id, Info>, ids: seq<Id>) {
    && (forall k :: 0 <= k < |ids| ==> ids[k] in m)
    && forall i, j :: 0 <= i < j < |ids| ==> m[ids[i]].addr.service.ip != m[ids[j]].addr.service.ip
  }

  lemma AddrsAreDistinct(key: Key, st: State)
    requires Inv(key, st) && Numbering(st)
    ensures DistinctAddrs(st.mapInfo, Order(st))
  {
    hide NewTable;
    hide TriedTable;
    hide RefCounts;
    hide Stats;
    hide Counters;
    hide Order;
    hide Renamed;
    hide News;
    var m, ids := st.mapInfo, Order(st);
    forall i, j | 0 <= i < j < |ids| ensures m[ids[i]].addr.service.ip != m[ids[j]].addr.service.ip {
      assert Listed(ids[i], m[ids[i]], st.mapAddr, st.vRandom) && Listed(ids[j], m[ids[j]], st.mapAddr, st.vRandom);
      assert Renamed(st, ids[i]) == i && Renamed(st, ids[j]) == j;
    }
  }

  lemma LoadStep(m: map<Id, Info>, ids: seq<Id>, tm: map<Id, Info>, ta: map<NetAddr, Id>, n: nat)
    requires LoadedTo(m, ids, tm, ta, n) && n < |ids| && DistinctAddrs(m, ids)
    ensures LoadedTo(m, ids, tm[n := Entry(m[ids[n]], n)], ta[m[ids[n]].addr.service.ip := n], n + 1)
  {
    var a := m[ids[n]].addr.service.ip;
    forall k | 0 <= k < n ensures FoundAt(ta[a := n], m[ids[k]].addr.service.ip, k) {
      assert FoundAt(ta, m[ids[k]].addr.service.ip, k);
    }
  }

  lemma NothingLoaded(m: map<Id, Info>, ids: seq<Id>)
    requires forall k :: 0 <= k < |ids| ==> ids[k] in m
    ensures LoadedTo(m, ids, map[], map[], 0)
  {
  }

  predicate IsStored(m: map<Id, Info>, id: Id, s: Stored, tried: bool) {
    id in m && s == StoredOf(m[id]) && m[id].fInTried == tried
  }

  /** Loading the first n entries of "new". */
  lemma {:induction false} NewsLoaded(key: Key, m: map<Id, Info>, ids: seq<Id>, s: seq<Stored>)
    requires DistinctAddrs(m, ids) && |s| <= |ids|
    requires forall k :: 0 <= k < |s| ==> IsStored(m, ids[k], s[k], false)
    ensures var t := LoadNews(key, true, s);
            && LoadedTo(m, ids, t.mapInfo, t.mapAddr, |s|) && |t.vRandom| == |s|
            && t.vvNew == map[] && t.vvTried == map[] && t.nLastGood == 1
  {
    hide LoadedTo;
    hide DistinctAddrs;
    NewsAreDense(key, true, s);
    if s == [] {
      assert DistinctAddrs(m, ids);
      InDomain(m, ids);
      NothingLoaded(m, ids);
    } else {
      var n := |s| - 1;
      InDomain(m, ids);
      NewsLoaded(key, m, ids, s[..n]);
      var t := LoadNews(key, true, s[..n]);
      LoadStep(m, ids, t.mapInfo, t.mapAddr, n);
    }
  }

  lemma InDomain(m: map<Id, Info>, ids: seq<Id>)
    requires DistinctAddrs(m, ids)
    ensures forall k :: 0 <= k < |ids| ==> ids[k] in m
  {
  }

  /** The tried entries from the first one on, up to n, are in their slots. */
  ghost predicate TriedTo(key: Key, m: map<Id, Info>, ids: seq<Id>, first: nat, vvTried: map<Slot, Id>, n: nat) {
    && first <= n <= |ids| && (forall k :: 0 <= k < |ids| ==> ids[k] in m)
    && (forall s :: s in vvTried ==> first <= vvTried[s] < n && s == TriedSlot(key, m[ids[vvTried[s]]].addr.service))
    && (forall k :: first <= k < n ==> InTriedSlot(key, k, m[ids[k]].addr.service, vvTried))
  }

  /** Different tried entries have different slots. */
  ghost predicate DistinctSlots(key: Key, m: map<Id, Info>, ids: seq<Id>, first: nat) {
    && (forall k :: 0 <= k < |ids| ==> ids[k] in m)
    && forall i, j :: first <= i < j < |ids| ==> TriedSlot(key, m[ids[i]].addr.service) != TriedSlot(key, m[ids[j]].addr.service)
  }

  lemma SlotsAreDistinct(key: Key, st: State)
    requires Inv(key, st) && Numbering(st)
    ensures DistinctSlots(key, st.mapInfo, Order(st), News(st))
  {
    hide Indexed;
    hide NewTable;
    hide RefCounts;
    hide Stats;
    hide Counters;
    hide Order;
    hide Renamed;
    hide News;
    hide TriedSlot;
    var m, ids := st.mapInfo, Order(st);
    forall i, j | News(st) <= i < j < |ids| ensures TriedSlot(key, m[ids[i]].addr.service) != TriedSlot(key, m[ids[j]].addr.service) {
      assert InTriedSlot(key, ids[i], m[ids[i]].addr.service, st.vvTried) && InTriedSlot(key, ids[j], m[ids[j]].addr.service, st.vvTried);
      assert Renamed(st, ids[i]) == i && Renamed(st, ids[j]) == j;
    }
  }

  lemma TriedStep(key: Key, m: map<Id, Info>, ids: seq<Id>, first: nat, vvTried: map<Slot, Id>, n: nat)
    requires TriedTo(key, m, ids, first, vvTried, n) && n < |ids| && DistinctSlots(key, m, ids, first)
    ensures var slot := TriedSlot(key, m[ids[n]].addr.service);
            slot !in vvTried && TriedTo(key, m, ids, first, vvTried[slot := n], n + 1)
  {
    hide TriedSlot;
    var slot := TriedSlot(key, m[ids[n]].addr.service);
    forall k | first <= k < n ensures InTriedSlot(key, k, m[ids[k]].addr.service, vvTried[slot := n]) {
      assert InTriedSlot(key, k, m[ids[k]].addr.service, vvTried);
    }
  }

  /** What all loading steps leave alone. */
  predicate SameRest(st: State, t: State) {
    t.vvNew == st.vvNew && t.nNew == st.nNew && t.nTried == st.nTried && t.nLastGood == st.nLastGood
  }

  lemma {:induction false} TriedsLoaded(key: Key, m: map<Id, Info>, ids: seq<Id>, first: nat, st: State, s: seq<Stored>)
    requires DistinctAddrs(m, ids) && DistinctSlots(key, m, ids, first) && first + |s| <= |ids|
    requires LoadedTo(m, ids, st.mapInfo, st.mapAddr, first) && |st.vRandom| == first == st.nIdCount && st.vvTried == map[]
    requires forall k :: 0 <= k < |s| ==> IsStored(m, ids[first + k], s[k], true)
    ensures var t := LoadTrieds(key, st, s); var n := first + |s|;
            && LoadedTo(m, ids, t.mapInfo, t.mapAddr, n) && |t.vRandom| == n == t.nIdCount
            && TriedTo(key, m, ids, first, t.vvTried, n) && SameRest(st, t)
    decreases |s|
  {
    hide LoadedTo;
    hide DistinctAddrs;
    hide DistinctSlots;
    hide TriedTo;
    hide TriedSlot;
    InDomain(m, ids);
    if s == [] {
      NoneTried(key, m, ids, first);
    } else {
      var k := |s| - 1;
      TriedsLoaded(key, m, ids, first, st, s[..k]);
      var t := LoadTrieds(key, st, s[..k]);
      TriedStep(key, m, ids, first, t.vvTried, first + k);
      LoadStep(m, ids, t.mapInfo, t.mapAddr, first + k);
    }
  }

  lemma NoneTried(key: Key, m: map<Id, Info>, ids: seq<Id>, first: nat)
    requires first <= |ids| && forall k :: 0 <= k < |ids| ==> ids[k] in m
    ensures TriedTo(key, m, ids, first, map[], first)
  {
  }

  // --------------------------------------------------------------------- loading references

  /** The slots in `done` are loaded, and every count is exact. */
  ghost predicate RefsTo(st: State, base: map<Id, Info>, t: State, done: set<Slot>) {
    && t.vvNew.Keys == done <= st.vvNew.Keys
    && (forall s :: s in done ==> st.vvNew[s] in st.mapInfo && t.vvNew[s] == Renamed(st, st.vvNew[s]))
    && t.mapInfo.Keys == base.Keys
    && (forall k :: k in base ==> t.mapInfo[k] == base[k].(nRefCount := |Refs(t.vvNew, k)|))
  }

  /** The slots of the buckets below b, and of the first p slots of bucket b. */
  function Done(st: State, b: nat, p: nat): set<Slot> {
    set s | s in st.vvNew && (s.bucket < b || (s.bucket == b && s.pos < p))
  }

  lemma RefsAfter(vvNew: map<Slot, Id>, slot: Slot, id: Id, k: Id)
    requires slot !in vvNew
    ensures |Refs(vvNew[slot := id], k)| == |Refs(vvNew, k)| + (if k == id then 1 else 0)
  {
    var after := Refs(vvNew[slot := id], k);
    assert after == if k == id then Refs(vvNew, k) + {slot} else Refs(vvNew, k);
  }

  /** There is still room for one more reference. */
  lemma RoomForOne(key: Key, st: State, base: map<Id, Info>, t: State, done: set<Slot>, slot: Slot)
    requires Inv(key, st) && Numbering(st) && RefsTo(st, base, t, done) && slot in st.vvNew && slot !in done && st.vvNew[slot] in st.mapInfo
    ensures |Refs(t.vvNew, Renamed(st, st.vvNew[slot]))| < NEW_BUCKETS_PER_ADDRESS
  {
    hide Indexed;
    hide TriedTable;
    hide Stats;
    hide Counters;
    hide Renamed;
    hide Order;
    var id := st.vvNew[slot];
    var before, after := Refs(t.vvNew, Renamed(st, id)), Refs(st.vvNew, id);
    forall s | s in before ensures s in after {
      assert Order(st)[Renamed(st, st.vvNew[s])] == st.vvNew[s];
      assert Order(st)[Renamed(st, id)] == id;
    }
    assert slot in after && slot !in before;
    SubsetSize(before + {slot}, after);
    assert RefsInRange(id, st.mapInfo[id], {});
  }

  lemma AddRefStep(st: State, base: map<Id, Info>, t: State, done: set<Slot>, slot: Slot)
    requires RefsTo(st, base, t, done) && slot in st.vvNew && slot !in done && st.vvNew[slot] in st.mapInfo
    requires Renamed(st, st.vvNew[slot]) in base
    ensures RefsTo(st, base, AddRef(t, slot, Renamed(st, st.vvNew[slot])), done + {slot})
  {
    hide Renamed;
    hide Refs;
    var idx := Renamed(st, st.vvNew[slot]);
    var u := AddRef(t, slot, idx);
    forall k | k in base ensures u.mapInfo[k] == base[k].(nRefCount := |Refs(u.vvNew, k)|) {
      RefsAfter(t.vvNew, slot, idx, k);
    }
  }

  /** The slot is read as it was written. */
  lemma RefStep(key: Key, st: State, base: map<Id, Info>, t: State, done: set<Slot>, slot: Slot)
    requires Inv(key, st) && Numbering(st) && RefsTo(st, base, t, done) && slot in st.vvNew && slot !in done
    requires BaseOk(st, base) && t.nNew == News(st)
    ensures st.vvNew[slot] in st.mapInfo && Number(st.mapInfo, st.vvNew[slot]) == Renamed(st, st.vvNew[slot])
    ensures var u := LoadRef(key, true, t, slot.bucket, Number(st.mapInfo, st.vvNew[slot]));
            RefsTo(st, base, u, done + {slot}) && u.nNew == t.nNew && SameButRefs(t, u)
  {
    var id := st.vvNew[slot];
    assert id in st.mapInfo && !st.mapInfo[id].fInTried && NewHome(key, st.mapInfo[id].addr.service, slot);
    NewIffReferenced(key, st, id);
    NumberIs(st.mapInfo, st.nIdCount, id);
    RoomForOne(key, st, base, t, done, slot);
    hide Inv;
    hide Numbering;
    hide Order;
    hide NewList;
    assert Renamed(st, id) in base && base[Renamed(st, id)].addr.service == st.mapInfo[id].addr.service;
    AddRefStep(st, base, t, done, slot);
  }

  /** Every entry of "new" is there under its new id. */
  ghost predicate BaseOk(st: State, base: map<Id, Info>) {
    forall n :: n in st.mapInfo ==> Renamed(st, n) in base && base[Renamed(st, n)].addr.service == st.mapInfo[n].addr.service
  }

  predicate SameButRefs(t: State, u: State) {
    u == t.(mapInfo := u.mapInfo, vvNew := u.vvNew)
  }

  lemma {:induction false} BucketLoaded(key: Key, st: State, base: map<Id, Info>, t: State, b: nat, p: nat)
    requires Inv(key, st) && Numbering(st) && BaseOk(st, base) && t.nNew == News(st) && RefsTo(st, base, t, Done(st, b, 0))
    ensures var u := LoadBucket(key, true, t, b, Bucket(st, b, p)); RefsTo(st, base, u, Done(st, b, p)) && SameButRefs(t, u)
    decreases p
  {
    hide Inv;
    hide Numbering;
    hide RefsTo;
    hide BaseOk;
    hide Number;
    if p > 0 {
      BucketLoaded(key, st, base, t, b, p - 1);
      var u, slot := LoadBucket(key, true, t, b, Bucket(st, b, p - 1)), Slot(b, p - 1);
      if slot in st.vvNew {
        assert Done(st, b, p) == Done(st, b, p - 1) + {slot};
        RefStep(key, st, base, u, Done(st, b, p - 1), slot);
        LastOfBucket(key, t, b, Bucket(st, b, p - 1), Number(st.mapInfo, st.vvNew[slot]));
      } else {
        assert Done(st, b, p) == Done(st, b, p - 1);
        assert Bucket(st, b, p - 1) + [] == Bucket(st, b, p - 1);
      }
    }
  }

  lemma LastOfBucket(key: Key, t: State, b: nat, s: seq<int>, i: int)
    ensures LoadBucket(key, true, t, b, s + [i]) == LoadRef(key, true, LoadBucket(key, true, t, b, s), b, i)
  {
    assert (s + [i])[..|s|] == s;
  }

  lemma {:induction false} BucketsLoaded(key: Key, st: State, base: map<Id, Info>, t: State, n: nat)
    requires Inv(key, st) && Numbering(st) && BaseOk(st, base) && t.nNew == News(st) && RefsTo(st, base, t, Done(st, 0, 0))
    ensures var u := LoadBuckets(key, true, t, Buckets(st, n)); RefsTo(st, base, u, Done(st, n, 0)) && SameButRefs(t, u)
    decreases n
  {
    hide RefsTo;
    hide Numbering;
    hide BaseOk;
    if n > 0 {
      BucketsLoaded(key, st, base, t, n - 1);
      var s := Buckets(st, n - 1);
      assert Buckets(st, n)[..n - 1] == s;
      var u := LoadBuckets(key, true, t, s);
      BucketLoaded(key, st, base, u, n - 1, BUCKET_SIZE);
      BucketIsDone(key, st, n - 1);
    }
  }

  lemma BucketIsDone(key: Key, st: State, b: nat)
    requires Inv(key, st)
    ensures Done(st, b, BUCKET_SIZE) == Done(st, b + 1, 0)
  {
    hide Indexed;
    hide TriedTable;
    hide RefCounts;
    hide Stats;
    hide Counters;
    forall s | s in st.vvNew ensures s.pos < BUCKET_SIZE {
      assert NewHome(key, st.mapInfo[st.vvNew[s]].addr.service, s);
    }
  }

  lemma AllBucketsDone(key: Key, st: State)
    requires Inv(key, st)
    ensures Done(st, NEW_BUCKET_COUNT, 0) == st.vvNew.Keys && Done(st, 0, 0) == {}
  {
    hide Indexed;
    hide TriedTable;
    hide RefCounts;
    hide Stats;
    hide Counters;
    forall s | s in st.vvNew ensures s.bucket < NEW_BUCKET_COUNT {
      assert NewHome(key, st.mapInfo[st.vvNew[s]].addr.service, s);
    }
  }
}
