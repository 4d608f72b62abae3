/**
 CAddrMan::Serialize and Unserialize, loop by loop.
 */
module AddrManDisk {
  import opened AddrMan
  import opened AddrManCodec
  import opened AddrManRoundTrip
  import opened AddrManRestore

  /** mapUnkIds numbers the entries below id. */
  ghost predicate Numbers(m: map<Id, Info>, mapUnkIds: map<Id, nat>, id: nat) {
    forall n :: n in m && n < id ==> HasNumber(m, mapUnkIds, n)
  }

  predicate HasNumber(m: map<Id, Info>, mapUnkIds: map<Id, nat>, n: Id) {
    n in mapUnkIds && mapUnkIds[n] == Number(m, n)
  }

  lemma StoredNext(m: map<Id, Info>, ids: seq<Id>, id: Id)
    requires id in m && forall i :: 0 <= i < |ids| ==> ids[i] in m
    ensures StoredList(m, ids + [id]) == StoredList(m, ids) + [StoredOf(m[id])]
  {
    assert (ids + [id])[..|ids|] == ids;
  }

  method SerializeNew(key: Key, st: State) returns (news: seq<Stored>, mapUnkIds: map<Id, nat>)
    requires Inv(key, st)
    ensures news == Image(key, st).news && Numbers(st.mapInfo, mapUnkIds, st.nIdCount)
  {
    hide Inv;
    hide StoredList;
    hide Numbers;
    hide Order;
    mapUnkIds, news := map[], [];
    var nIds := 0;
    CountsAreRight(key, st);
    NoneStored(st.mapInfo);
    NoneNumbered(st.mapInfo);
    for id := 0 to st.nIdCount
      invariant nIds == |NewList(st.mapInfo, id)| && Numbers(st.mapInfo, mapUnkIds, id)
      invariant (forall i :: 0 <= i < nIds ==> NewList(st.mapInfo, id)[i] in st.mapInfo) && news == StoredList(st.mapInfo, NewList(st.mapInfo, id))
    {
      NextNumber(st.mapInfo, mapUnkIds, id);
      if id in st.mapInfo {
        mapUnkIds := mapUnkIds[id := nIds];
        if st.mapInfo[id].nRefCount != 0 {
          NumberIs(st.mapInfo, st.nIdCount, id);
          assert nIds != st.nNew;
          StoredNext(st.mapInfo, NewList(st.mapInfo, id), id);
          news := news + [StoredOf(st.mapInfo[id])];
          nIds := nIds + 1;
        }
      }
    }
  }

  lemma NoneStored(m: map<Id, Info>)
    ensures StoredList(m, []) == []
  {
  }

  lemma NoneNumbered(m: map<Id, Info>)
    ensures Numbers(m, map[], 0)
  {
  }

  lemma NextNumber(m: map<Id, Info>, mapUnkIds: map<Id, nat>, id: Id)
    requires Numbers(m, mapUnkIds, id)
    ensures id in m ==> Numbers(m, mapUnkIds[id := Number(m, id)], id + 1)
    ensures id !in m ==> Numbers(m, mapUnkIds, id + 1)
  {
    hide Number;
    forall n | n in m && n < id ensures HasNumber(m, mapUnkIds[id := Number(m, id)], n) {
      assert HasNumber(m, mapUnkIds, n);
    }
  }

  method SerializeTried(key: Key, st: State) returns (trieds: seq<Stored>)
    requires Inv(key, st)
    ensures trieds == Image(key, st).trieds
  {
    hide Inv;
    hide StoredList;
    trieds := [];
    var nIds := 0;
    CountsAreRight(key, st);
    NoneStored(st.mapInfo);
    for id := 0 to st.nIdCount
      invariant nIds == |TriedList(st.mapInfo, id)|
      invariant (forall i :: 0 <= i < nIds ==> TriedList(st.mapInfo, id)[i] in st.mapInfo) && trieds == StoredList(st.mapInfo, TriedList(st.mapInfo, id))
    {
      if id in st.mapInfo && st.mapInfo[id].fInTried {
        TriedNumberIs(st.mapInfo, st.nIdCount, id);
        assert nIds != st.nTried;
        StoredNext(st.mapInfo, TriedList(st.mapInfo, id), id);
        trieds := trieds + [StoredOf(st.mapInfo[id])];
        nIds := nIds + 1;
      }
    }
  }

  lemma SlotHasNumber(key: Key, st: State, mapUnkIds: map<Id, nat>, slot: Slot)
    requires Inv(key, st) && Numbers(st.mapInfo, mapUnkIds, st.nIdCount) && slot in st.vvNew
    ensures var n := st.vvNew[slot]; n in mapUnkIds && mapUnkIds[n] == Number(st.mapInfo, n)
  {
    assert st.vvNew[slot] in st.mapInfo;
    assert HasNumber(st.mapInfo, mapUnkIds, st.vvNew[slot]);
  }

  method SerializeBuckets(key: Key, st: State, mapUnkIds: map<Id, nat>) returns (buckets: seq<seq<int>>)
    requires Inv(key, st) && Numbers(st.mapInfo, mapUnkIds, st.nIdCount)
    ensures buckets == Buckets(st, NEW_BUCKET_COUNT)
  {
    hide Inv;
    hide Numbers;
    hide Number;
    buckets := [];
    for bucket := 0 to NEW_BUCKET_COUNT
      invariant buckets == Buckets(st, bucket)
    {
      var list := [];
      for i := 0 to BUCKET_SIZE
        invariant list == Bucket(st, bucket, i)
      {
        if Slot(bucket, i) in st.vvNew {
          SlotHasNumber(key, st, mapUnkIds, Slot(bucket, i));
          list := list + [mapUnkIds[st.vvNew[Slot(bucket, i)]]];
        }
      }
      buckets := buckets + [list];
    }
  }

  method Serialize(key: Key, st: State) returns (d: Disk)
    requires Inv(key, st)
    ensures d == Image(key, st)
  {
    hide Inv;
    var news, mapUnkIds := SerializeNew(key, st);
    var trieds := SerializeTried(key, st);
    var buckets := SerializeBuckets(key, st, mapUnkIds);
    d := Disk(1, key, news, trieds, buckets);
  }

  /** Refuses only tables larger than there are slots. */
  method Unserialize(d: Disk) returns (ok: bool, st: State)
    ensures ok <==> WithinLimits(d)
    ensures ok ==> st == Rebuilt(d)
  {
    st := EMPTY;
    if |d.news| > NEW_BUCKET_COUNT * BUCKET_SIZE {
      return false, st;
    }
    if |d.trieds| > TRIED_BUCKET_COUNT * BUCKET_SIZE {
      return false, st;
    }
    var usable := Usable(d);
    st := UnserializeEntries(d, usable);
    ghost var entries := st;
    assert d.buckets[..0] == [];
    for bucket := 0 to |d.buckets|
      invariant st == LoadBuckets(d.nKey, usable, entries, d.buckets[..bucket])
    {
      ghost var before := st;
      var list := d.buckets[bucket];
      assert list[..0] == [];
      for n := 0 to |list|
        invariant st == LoadBucket(d.nKey, usable, before, bucket, list[..n])
      {
        assert list[..n + 1][..n] == list[..n];
        st := LoadRef(d.nKey, usable, st, bucket, list[n]);
      }
      assert list[..|list|] == list;
      assert d.buckets[..bucket + 1][..bucket] == d.buckets[..bucket];
    }
    assert d.buckets[..|d.buckets|] == d.buckets;
    st := PruneLost(d, st);
    ok := true;
  }

  method UnserializeEntries(d: Disk, usable: bool) returns (st: State)
    ensures st == LoadTrieds(d.nKey, LoadNews(d.nKey, usable, d.news).(nNew := |d.news|, nTried := |d.trieds|, nIdCount := |d.news|), d.trieds)
  {
    hide LoadNew;
    hide LoadTried;
    st := EMPTY;
    assert d.news[..0] == [];
    for n := 0 to |d.news|
      invariant st == LoadNews(d.nKey, usable, d.news[..n])
    {
      assert d.news[..n + 1][..n] == d.news[..n];
      st := LoadNew(d.nKey, usable, st, d.news[n]);
    }
    assert d.news[..|d.news|] == d.news;
    st := st.(nNew := |d.news|, nTried := |d.trieds|, nIdCount := |d.news|);
    ghost var news := st;
    assert d.trieds[..0] == [];
    for n := 0 to |d.trieds|
      invariant st == LoadTrieds(d.nKey, news, d.trieds[..n])
    {
      assert d.trieds[..n + 1][..n] == d.trieds[..n];
      st := LoadTried(d.nKey, st, d.trieds[n]);
    }
    assert d.trieds[..|d.trieds|] == d.trieds;
  }

  method PruneLost(d: Disk, loaded: State) returns (st: State)
    requires loaded == Loaded(d)
    ensures st == Rebuilt(d)
  {
    hide RandomOk;
    hide CanDelete;
    hide Delete;
    DenseIsRandomOk(loaded.mapInfo, loaded.vRandom);
    st := loaded;
    for id := 0 to loaded.nIdCount
      invariant RandomOk(loaded.mapInfo, loaded.vRandom) && st == Prune(loaded, id)
    {
      if IsLost(st, id) {
        LostCanBeDeleted(st, id);
        st := Delete(st, id);
      }
    }
  }

  /** Saving and loading. */
  method SaveAndLoad(key: Key, st: State) returns (ok: bool, t: State)
    requires Inv(key, st)
    ensures ok && Inv(key, t) && SameTables(st, t)
  {
    hide Inv;
    hide SameTables;
    var d := Serialize(key, st);
    RebuildsImage(key, st);
    ok, t := Unserialize(d);
  }
}
