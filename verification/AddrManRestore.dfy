/**
 The whole round trip of the address manager through its disk image.
 */
module AddrManRestore {
  import opened AddrMan
  import opened AddrManCodec
  import opened AddrManRoundTrip

  /** t is st under new ids, one to one: the same addresses with what is stored
      about them, in the same slots, with the same reference counts. */
  ghost predicate SameTables(st: State, t: State) {
    && Numbering(st) && SameEntries(st, t) && SameAddrs(st, st.mapAddr, t.mapAddr)
    && SameSlots(st, st.vvNew, t.vvNew) && SameSlots(st, st.vvTried, t.vvTried)
    && t.nNew == st.nNew && t.nTried == st.nTried
  }

  ghost predicate SameEntries(st: State, t: State) {
    && (forall n :: n in st.mapInfo ==> SameEntry(st, t, n))
    && (forall k :: k in t.mapInfo ==> exists n :: SameId(st, n, k))
  }

  ghost predicate SameAddrs(st: State, was: map<NetAddr, Id>, now: map<NetAddr, Id>) {
    now.Keys == was.Keys && forall a :: a in was ==> SameId(st, was[a], now[a])
  }

  ghost predicate SameSlots(st: State, was: map<Slot, Id>, now: map<Slot, Id>) {
    now.Keys == was.Keys && forall s :: s in was ==> SameId(st, was[s], now[s])
  }

  ghost predicate SameId(st: State, n: Id, k: Id) {
    n in st.mapInfo && k == Renamed(st, n)
  }

  ghost predicate SameEntry(st: State, t: State, n: Id)
    requires n in st.mapInfo
  {
    Renamed(st, n) in t.mapInfo && var was, now := st.mapInfo[n], t.mapInfo[Renamed(st, n)];
    StoredOf(now) == StoredOf(was) && now.nRefCount == was.nRefCount && now.fInTried == was.fInTried
  }

  // ------------------------------------------------------------------------- the last state

  /** All that the loading steps have established; base is mapInfo before the
      references were counted. */
  ghost predicate Complete(key: Key, st: State, base: map<Id, Info>, t: State) {
    && Numbering(st) && |t.vRandom| == |Order(st)| == t.nIdCount && Dense(t.mapInfo, t.vRandom)
    && LoadedTo(st.mapInfo, Order(st), base, t.mapAddr, |Order(st)|)
    && TriedTo(key, st.mapInfo, Order(st), News(st), t.vvTried, |Order(st)|)
    && RefsTo(st, base, t, st.vvNew.Keys)
    && t.nNew == st.nNew == News(st) && t.nTried == st.nTried
  }

  lemma BaseIsOk(st: State, t: State)
    requires Numbering(st) && LoadedTo(st.mapInfo, Order(st), t.mapInfo, t.mapAddr, |Order(st)|)
    ensures BaseOk(st, t.mapInfo)
  {
    hide Order;
    hide Renamed;
    hide News;
    forall n | n in st.mapInfo
      ensures Renamed(st, n) in t.mapInfo && t.mapInfo[Renamed(st, n)].addr.service == st.mapInfo[n].addr.service
    {
      var k := Renamed(st, n);
      assert t.mapInfo[k] == Entry(st.mapInfo[Order(st)[k]], k);
    }
  }

  lemma NoRefsYet(st: State, t: State)
    requires LoadedTo(st.mapInfo, Order(st), t.mapInfo, t.mapAddr, |Order(st)|) && t.vvNew == map[]
    ensures RefsTo(st, t.mapInfo, t, {})
  {
    hide Order;
    forall k | k in t.mapInfo ensures t.mapInfo[k] == t.mapInfo[k].(nRefCount := |Refs(t.vvNew, k)|) {
      assert Refs(t.vvNew, k) == {};
      assert t.mapInfo[k] == Entry(st.mapInfo[Order(st)[k]], k);
    }
  }

  /** What is stored, in the order in which it is loaded. */
  lemma ImageInOrder(key: Key, st: State)
    requires Numbering(st)
    ensures var d, m, ids := Image(key, st), st.mapInfo, Order(st);
            && |d.news| == News(st) && |d.news| + |d.trieds| == |ids|
            && (forall k :: 0 <= k < |d.news| ==> IsStored(m, ids[k], d.news[k], false))
            && (forall k :: 0 <= k < |d.trieds| ==> IsStored(m, ids[News(st) + k], d.trieds[k], true))
  {
    hide NewList;
    hide TriedList;
    hide Renamed;
    ListsAreIds(st.mapInfo, st.nIdCount);
    var d, m, ids := Image(key, st), st.mapInfo, Order(st);
    forall k | 0 <= k < |d.news| ensures IsStored(m, ids[k], d.news[k], false) {
      assert ids[k] == NewList(m, st.nIdCount)[k];
    }
    forall k | 0 <= k < |d.trieds| ensures IsStored(m, ids[News(st) + k], d.trieds[k], true) {
      assert ids[News(st) + k] == TriedList(m, st.nIdCount)[k];
    }
  }

  function WithEntries(d: Disk): State {
    LoadTrieds(d.nKey, LoadNews(d.nKey, true, d.news).(nNew := |d.news|, nTried := |d.trieds|, nIdCount := |d.news|), d.trieds)
  }

  lemma EntriesLoaded(key: Key, st: State)
    requires Inv(key, st) && Numbering(st)
    ensures var t := WithEntries(Image(key, st));
            && LoadedTo(st.mapInfo, Order(st), t.mapInfo, t.mapAddr, |Order(st)|) && |t.vRandom| == |Order(st)| == t.nIdCount
            && TriedTo(key, st.mapInfo, Order(st), News(st), t.vvTried, |Order(st)|)
            && t.vvNew == map[] && t.nNew == News(st) && t.nTried == |Order(st)| - News(st)
  {
    hide Inv;
    hide DistinctAddrs;
    hide DistinctSlots;
    hide LoadedTo;
    hide TriedTo;
    hide Order;
    hide News;
    hide Numbering;
    hide StoredList;
    hide LoadNews;
    hide LoadTrieds;
    AddrsAreDistinct(key, st);
    SlotsAreDistinct(key, st);
    ImageInOrder(key, st);
    var d := Image(key, st);
    EntriesInOrder(key, st.mapInfo, Order(st), d.news, d.trieds);
  }

  lemma EntriesInOrder(key: Key, m: map<Id, Info>, ids: seq<Id>, news: seq<Stored>, trieds: seq<Stored>)
    requires DistinctAddrs(m, ids) && DistinctSlots(key, m, ids, |news|) && |news| + |trieds| == |ids|
    requires forall k :: 0 <= k < |news| ==> IsStored(m, ids[k], news[k], false)
    requires forall k :: 0 <= k < |trieds| ==> IsStored(m, ids[|news| + k], trieds[k], true)
    ensures var t := LoadTrieds(key, LoadNews(key, true, news).(nNew := |news|, nTried := |trieds|, nIdCount := |news|), trieds);
            && LoadedTo(m, ids, t.mapInfo, t.mapAddr, |ids|) && |t.vRandom| == |ids| == t.nIdCount
            && TriedTo(key, m, ids, |news|, t.vvTried, |ids|)
            && t.vvNew == map[] && t.nNew == |news| && t.nTried == |trieds|
  {
    hide DistinctAddrs;
    hide DistinctSlots;
    hide LoadedTo;
    hide TriedTo;
    hide LoadNews;
    hide LoadTrieds;
    NewsLoaded(key, m, ids, news);
    var t1 := LoadNews(key, true, news).(nNew := |news|, nTried := |trieds|, nIdCount := |news|);
    TriedsLoaded(key, m, ids, |news|, t1, trieds);
  }

  lemma LoadedIsStepwise(key: Key, st: State)
    ensures var d := Image(key, st); Loaded(d) == LoadBuckets(key, true, WithEntries(d), Buckets(st, NEW_BUCKET_COUNT))
  {
  }

  lemma LoadedIsComplete(key: Key, st: State) returns (base: map<Id, Info>)
    requires Inv(key, st)
    ensures Complete(key, st, base, Loaded(Image(key, st)))
  {
    hide LoadedTo;
    hide TriedTo;
    hide RefsTo;
    hide BaseOk;
    hide Numbering;
    hide Dense;
    hide Image;
    hide Loaded;
    hide WithEntries;
    hide Done;
    OrderIsNumbering(key, st);
    CountsAreRight(key, st);
    EntriesLoaded(key, st);
    var t := WithEntries(Image(key, st));
    base := t.mapInfo;
    BaseIsOk(st, t);
    NoRefsYet(st, t);
    AllBucketsDone(key, st);
    hide Inv;
    BucketsLoaded(key, st, base, t, NEW_BUCKET_COUNT);
    LoadedIsStepwise(key, st);
  }

  // ----------------------------------------------------------------------- the invariant

  /** One entry of the rebuilt state. */
  lemma EntryOf(key: Key, st: State, base: map<Id, Info>, t: State, k: Id)
    requires Complete(key, st, base, t)
    ensures k in t.mapInfo <==> k < |Order(st)|
    ensures k < |Order(st)| ==> Order(st)[k] in st.mapInfo && t.mapInfo[k] == Entry(st.mapInfo[Order(st)[k]], k).(nRefCount := |Refs(t.vvNew, k)|)
    ensures k < |Order(st)| ==> (t.mapInfo[k].fInTried <==> k >= News(st)) && FoundAt(t.mapAddr, t.mapInfo[k].addr.service.ip, k)
  {
    hide Order;
    hide News;
    hide Renamed;
    hide TriedTo;
    hide Refs;
    if k < |Order(st)| {
      assert k in t.mapInfo;
      assert base[k] == Entry(st.mapInfo[Order(st)[k]], k);
    }
  }

  /** An entry has as many references as before. */
  lemma SameRefs(key: Key, st: State, base: map<Id, Info>, t: State, n: Id)
    requires Complete(key, st, base, t) && n in st.mapInfo
    ensures Refs(t.vvNew, Renamed(st, n)) == Refs(st.vvNew, n)
  {
    hide LoadedTo;
    hide TriedTo;
    hide Dense;
    hide Order;
    hide News;
    hide Renamed;
    forall s | s in st.vvNew ensures s in Refs(t.vvNew, Renamed(st, n)) <==> s in Refs(st.vvNew, n) {
      assert Order(st)[Renamed(st, n)] == n && Order(st)[Renamed(st, st.vvNew[s])] == st.vvNew[s];
    }
  }

  lemma RebuiltIndexed(key: Key, st: State, base: map<Id, Info>, t: State)
    requires Complete(key, st, base, t)
    ensures Indexed(t.nIdCount, t.mapInfo, t.mapAddr, t.vRandom)
  {
    forall k | k in t.mapInfo ensures k < t.nIdCount && Listed(k, t.mapInfo[k], t.mapAddr, t.vRandom) {
      EntryOf(key, st, base, t, k);
    }
    forall a | a in t.mapAddr ensures t.mapAddr[a] in t.mapInfo && t.mapInfo[t.mapAddr[a]].addr.service.ip == a {
      EntryOf(key, st, base, t, t.mapAddr[a]);
    }
  }

  lemma RebuiltNewTable(key: Key, st: State, base: map<Id, Info>, t: State)
    requires Inv(key, st) && Complete(key, st, base, t)
    ensures NewTable(key, t.mapInfo, t.vvNew)
  {
    hide Indexed;
    hide TriedTable;
    hide RefCounts;
    hide Stats;
    hide Counters;
    hide LoadedTo;
    hide TriedTo;
    hide Dense;
    hide Order;
    hide News;
    hide Renamed;
    forall s | s in t.vvNew
      ensures t.vvNew[s] in t.mapInfo && !t.mapInfo[t.vvNew[s]].fInTried && NewHome(key, t.mapInfo[t.vvNew[s]].addr.service, s)
    {
      var n := st.vvNew[s];
      assert !st.mapInfo[n].fInTried && NewHome(key, st.mapInfo[n].addr.service, s);
      assert Order(st)[Renamed(st, n)] == n;
      EntryOf(key, st, base, t, t.vvNew[s]);
    }
  }

  lemma RebuiltTriedTable(key: Key, st: State, base: map<Id, Info>, t: State)
    requires Complete(key, st, base, t)
    ensures TriedTable(key, t.mapInfo, t.vvTried)
  {
    hide TriedSlot;
    hide Order;
    hide News;
    hide Renamed;
    hide Dense;
    hide Refs;
    forall s | s in t.vvTried
      ensures t.vvTried[s] in t.mapInfo && t.mapInfo[t.vvTried[s]].fInTried && s == TriedSlot(key, t.mapInfo[t.vvTried[s]].addr.service)
    {
      EntryOf(key, st, base, t, t.vvTried[s]);
    }
    forall k | k in t.mapInfo && t.mapInfo[k].fInTried ensures InTriedSlot(key, k, t.mapInfo[k].addr.service, t.vvTried) {
      EntryOf(key, st, base, t, k);
      assert InTriedSlot(key, k, st.mapInfo[Order(st)[k]].addr.service, t.vvTried);
    }
  }

  lemma RebuiltCounts(key: Key, st: State, base: map<Id, Info>, t: State)
    requires Inv(key, st) && Complete(key, st, base, t)
    ensures RefCounts(t.mapInfo, t.vvNew, {}) && Stats(t.mapInfo)
  {
    hide Indexed;
    hide NewTable;
    hide TriedTable;
    hide Counters;
    hide LoadedTo;
    hide TriedTo;
    hide Dense;
    hide Order;
    hide News;
    hide Renamed;
    hide Refs;
    forall k | k in t.mapInfo ensures t.mapInfo[k].nRefCount == |Refs(t.vvNew, k)| && RefsInRange(k, t.mapInfo[k], {}) && GoodStats(t.mapInfo[k]) {
      EntryOf(key, st, base, t, k);
      var n := Order(st)[k];
      assert Renamed(st, n) == k;
      SameRefs(key, st, base, t, n);
      assert RefsInRange(n, st.mapInfo[n], {}) && GoodStats(st.mapInfo[n]);
    }
  }

  function Range(a: nat, b: nat): (r: set<Id>)
    ensures forall k :: k in r <==> a <= k < b
  {
    if b <= a then {} else Range(a, b - 1) + {b - 1}
  }

  lemma {:induction false} RangeSize(a: nat, b: nat)
    requires a <= b
    ensures |Range(a, b)| == b - a
  {
    if a < b {
      RangeSize(a, b - 1);
    }
  }

  lemma RebuiltCounters(key: Key, st: State, base: map<Id, Info>, t: State)
    requires Inv(key, st) && Complete(key, st, base, t)
    ensures Counters(t, {}, 0) && t.mapInfo.Keys == Range(0, |Order(st)|)
  {
    hide Indexed;
    hide NewTable;
    hide TriedTable;
    hide RefCounts;
    hide Stats;
    hide LoadedTo;
    hide RefsTo;
    hide Dense;
    hide Numbering;
    hide Order;
    hide News;
    hide Refs;
    CountsAreRight(key, st);
    forall k: nat ensures (k in t.mapInfo <==> k < |Order(st)|) && (k < |Order(st)| ==> (t.mapInfo[k].fInTried <==> k >= News(st))) {
      EntryOf(key, st, base, t, k);
    }
    assert NewIds(t.mapInfo) == Range(0, News(st));
    assert TriedIds(t.mapInfo) == Range(News(st), |Order(st)|);
    RangeSize(0, News(st));
    RangeSize(News(st), |Order(st)|);
    assert NewIds(t.mapInfo) - {} == NewIds(t.mapInfo);
  }

  lemma RebuiltInv(key: Key, st: State, base: map<Id, Info>, t: State)
    requires Inv(key, st) && Complete(key, st, base, t)
    ensures Inv(key, t)
  {
    hide Complete;
    hide Indexed;
    hide NewTable;
    hide TriedTable;
    hide RefCounts;
    hide Stats;
    hide Counters;
    RebuiltIndexed(key, st, base, t);
    RebuiltNewTable(key, st, base, t);
    RebuiltTriedTable(key, st, base, t);
    RebuiltCounts(key, st, base, t);
    RebuiltCounters(key, st, base, t);
  }

  /** Nothing is lost on the way, so nothing is pruned. */
  lemma {:induction false} PrunesNothing(key: Key, t: State, k: nat)
    requires Inv(key, t) && RandomOk(t.mapInfo, t.vRandom)
    ensures Prune(t, k) == t
  {
    if k > 0 {
      PrunesNothing(key, t, k - 1);
      if k - 1 in t.mapInfo {
        assert RefsInRange(k - 1, t.mapInfo[k - 1], {});
      }
    }
  }

  // --------------------------------------------------------------------------- the limits

  /** As many slots as ids, if every id has a slot. */
  lemma {:induction false} OneSlotEach(ids: set<Id>, slots: set<Slot>, vv: map<Slot, Id>)
    requires slots <= vv.Keys && forall n :: n in ids ==> exists s :: s in slots && vv[s] == n
    ensures |ids| <= |slots|
  {
    if ids != {} {
      var n :| n in ids;
      var s :| s in slots && vv[s] == n;
      forall k | k in ids - {n} ensures exists r :: r in slots - {s} && vv[r] == k {
        var r :| r in slots && vv[r] == k;
        assert r in slots - {s};
      }
      OneSlotEach(ids - {n}, slots - {s}, vv);
    }
  }

  lemma {:induction false} RowSize(row: set<Slot>, b: nat, width: nat)
    requires forall s :: s in row ==> s.bucket == b && s.pos < width
    ensures |row| <= width
  {
    if width == 0 {
      if s :| s in row {
        assert false;
      }
    } else {
      RowSize(row - {Slot(b, width - 1)}, b, width - 1);
    }
  }

  lemma {:induction false} TableSize(slots: set<Slot>, height: nat, width: nat)
    requires forall s :: s in slots ==> s.bucket < height && s.pos < width
    ensures |slots| <= height * width
  {
    if height == 0 {
      if s :| s in slots {
        assert false;
      }
    } else {
      var row := set s | s in slots && s.bucket == height - 1;
      RowSize(row, height - 1, width);
      TableSize(slots - row, height - 1, width);
      assert |slots - row| == |slots| - |row|;
      assert height * width == (height - 1) * width + width;
    }
  }

  lemma NewFits(key: Key, st: State)
    requires Inv(key, st)
    ensures News(st) <= NEW_BUCKET_COUNT * BUCKET_SIZE
  {
    hide Indexed;
    hide TriedTable;
    hide Stats;
    hide News;
    CountsAreRight(key, st);
    var ids := NewIds(st.mapInfo);
    forall n | n in ids ensures exists s :: s in st.vvNew.Keys && st.vvNew[s] == n {
      assert RefsInRange(n, st.mapInfo[n], {});
      assert Refs(st.vvNew, n) != {};
      var s :| s in Refs(st.vvNew, n);
    }
    OneSlotEach(ids, st.vvNew.Keys, st.vvNew);
    forall s | s in st.vvNew.Keys ensures s.bucket < NEW_BUCKET_COUNT && s.pos < BUCKET_SIZE {
      assert NewHome(key, st.mapInfo[st.vvNew[s]].addr.service, s);
    }
    TableSize(st.vvNew.Keys, NEW_BUCKET_COUNT, BUCKET_SIZE);
    assert ids - {} == ids;
  }

  lemma TriedFits(key: Key, st: State)
    requires Inv(key, st)
    ensures |Order(st)| - News(st) <= TRIED_BUCKET_COUNT * BUCKET_SIZE
  {
    CountsAreRight(key, st);
    var ids := TriedIds(st.mapInfo);
    forall n | n in ids ensures exists s :: s in st.vvTried.Keys && st.vvTried[s] == n {
      assert InTriedSlot(key, n, st.mapInfo[n].addr.service, st.vvTried);
    }
    OneSlotEach(ids, st.vvTried.Keys, st.vvTried);
    TableSize(st.vvTried.Keys, TRIED_BUCKET_COUNT, BUCKET_SIZE);
  }

  // --------------------------------------------------------------------------- the theorem

  lemma RebuiltEntries(key: Key, st: State, base: map<Id, Info>, t: State)
    requires Inv(key, st) && Complete(key, st, base, t)
    ensures SameEntries(st, t)
  {
    hide Indexed;
    hide NewTable;
    hide TriedTable;
    hide Stats;
    hide Counters;
    hide LoadedTo;
    hide RefsTo;
    hide TriedTo;
    hide Dense;
    hide Order;
    hide News;
    hide Renamed;
    hide Refs;
    forall n | n in st.mapInfo ensures SameEntry(st, t, n) {
      assert Order(st)[Renamed(st, n)] == n;
      EntryOf(key, st, base, t, Renamed(st, n));
      SameRefs(key, st, base, t, n);
    }
    forall k | k in t.mapInfo ensures exists n :: SameId(st, n, k) {
      EntryOf(key, st, base, t, k);
      assert SameId(st, Order(st)[k], k);
    }
  }

  lemma RebuiltAddrs(key: Key, st: State, base: map<Id, Info>, t: State)
    requires Inv(key, st) && Complete(key, st, base, t)
    ensures SameAddrs(st, st.mapAddr, t.mapAddr)
  {
    hide NewTable;
    hide TriedTable;
    hide RefCounts;
    hide Stats;
    hide Counters;
    hide RefsTo;
    hide TriedTo;
    hide Dense;
    hide Order;
    hide News;
    hide Renamed;
    forall a | a in st.mapAddr ensures a in t.mapAddr && SameId(st, st.mapAddr[a], t.mapAddr[a]) {
      var n := st.mapAddr[a];
      assert Order(st)[Renamed(st, n)] == n;
      assert FoundAt(t.mapAddr, st.mapInfo[Order(st)[Renamed(st, n)]].addr.service.ip, Renamed(st, n));
    }
    forall a | a in t.mapAddr ensures a in st.mapAddr {
      var n := Order(st)[t.mapAddr[a]];
      assert Listed(n, st.mapInfo[n], st.mapAddr, st.vRandom);
    }
  }

  lemma RebuiltTriedSlots(key: Key, st: State, base: map<Id, Info>, t: State)
    requires Inv(key, st) && Complete(key, st, base, t)
    ensures SameSlots(st, st.vvTried, t.vvTried)
  {
    hide Indexed;
    hide NewTable;
    hide RefCounts;
    hide Stats;
    hide Counters;
    hide LoadedTo;
    hide RefsTo;
    hide Dense;
    hide Order;
    hide News;
    hide Renamed;
    hide TriedSlot;
    forall s | s in st.vvTried ensures s in t.vvTried && SameId(st, st.vvTried[s], t.vvTried[s]) {
      var n := st.vvTried[s];
      var k := Renamed(st, n);
      assert Order(st)[k] == n;
      assert InTriedSlot(key, k, st.mapInfo[Order(st)[k]].addr.service, t.vvTried);
    }
    forall s | s in t.vvTried ensures s in st.vvTried {
      var n := Order(st)[t.vvTried[s]];
      assert InTriedSlot(key, n, st.mapInfo[n].addr.service, st.vvTried);
    }
  }

  lemma RebuiltSameTables(key: Key, st: State, base: map<Id, Info>, t: State)
    requires Inv(key, st) && Complete(key, st, base, t)
    ensures SameTables(st, t)
  {
    hide Inv;
    hide LoadedTo;
    hide TriedTo;
    hide Dense;
    hide Numbering;
    hide SameEntries;
    hide SameAddrs;
    RebuiltEntries(key, st, base, t);
    RebuiltAddrs(key, st, base, t);
    RebuiltTriedSlots(key, st, base, t);
  }

  /** The image of a valid address manager is accepted, loses nothing, and rebuilds
      the same tables with all indexes consistent. */
  lemma RebuildsImage(key: Key, st: State)
    requires Inv(key, st)
    ensures WithinLimits(Image(key, st)) && Inv(key, Rebuilt(Image(key, st))) && SameTables(st, Rebuilt(Image(key, st)))
  {
    hide Complete;
    hide SameTables;
    hide Inv;
    var t := Loaded(Image(key, st));
    var base := LoadedIsComplete(key, st);
    RebuiltInv(key, st, base, t);
    RebuiltSameTables(key, st, base, t);
    DenseIsRandomOk(t.mapInfo, t.vRandom);
    PrunesNothing(key, t, t.nIdCount);
    NewFits(key, st);
    TriedFits(key, st);
    OrderIsNumbering(key, st);
    ImageInOrder(key, st);
  }
}
