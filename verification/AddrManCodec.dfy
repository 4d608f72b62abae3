/**
 What the address manager writes to disk and how it is rebuilt from that.  A disk
 image holds the entries without the fields that exist in memory only, and for
 every "new" bucket the entries in it by number.
 */
module AddrManCodec {
  import opened AddrMan

  /** The fields of CAddrInfo that are written. */
  datatype Stored = Stored(addr: Address, source: NetAddr, nLastSuccess: int, nAttempts: int)

  datatype Disk = Disk(nVersion: int, nKey: Key, news: seq<Stored>, trieds: seq<Stored>, buckets: seq<seq<int>>)

  function StoredOf(info: Info): Stored {
    Stored(info.addr, info.source, info.nLastSuccess, info.nAttempts)
  }

  function Fresh(s: Stored, nRandomPos: int): Info {
    Info(s.addr, s.source, 0, 0, s.nLastSuccess, s.nAttempts, 0, false, nRandomPos)
  }

  // ---------------------------------------------------------------------------- writing

  /** The ids below k that are in "new", in order. */
  function NewList(m: map<Id, Info>, k: nat): seq<Id> {
    if k == 0 then []
    else NewList(m, k - 1) + (if k - 1 in m && m[k - 1].nRefCount != 0 then [k - 1] else [])
  }

  function TriedList(m: map<Id, Info>, k: nat): seq<Id> {
    if k == 0 then []
    else TriedList(m, k - 1) + (if k - 1 in m && m[k - 1].fInTried then [k - 1] else [])
  }

  /** mapUnkIds: the number under which an entry of "new" is written. */
  function Number(m: map<Id, Info>, id: Id): nat {
    |NewList(m, id)|
  }

  /** The numbers of the entries in the first p slots of a bucket. */
  function Bucket(st: State, b: nat, p: nat): seq<int> {
    if p == 0 then []
    else Bucket(st, b, p - 1) + (if Slot(b, p - 1) in st.vvNew then [Number(st.mapInfo, st.vvNew[Slot(b, p - 1)])] else [])
  }

  function StoredList(m: map<Id, Info>, ids: seq<Id>): (s: seq<Stored>)
    requires forall i :: 0 <= i < |ids| ==> ids[i] in m
    ensures |s| == |ids| && forall i :: 0 <= i < |ids| ==> s[i] == StoredOf(m[ids[i]])
  {
    if ids == [] then [] else StoredList(m, ids[..|ids| - 1]) + [StoredOf(m[ids[|ids| - 1]])]
  }

  lemma {:induction false} ListsAreIds(m: map<Id, Info>, k: nat)
    ensures forall i :: 0 <= i < |NewList(m, k)| ==> NewList(m, k)[i] in m
    ensures forall i :: 0 <= i < |TriedList(m, k)| ==> TriedList(m, k)[i] in m
  {
    if k > 0 {
      ListsAreIds(m, k - 1);
    }
  }

  function Buckets(st: State, n: nat): (r: seq<seq<int>>)
    ensures |r| == n && forall b :: 0 <= b < n ==> r[b] == Bucket(st, b, BUCKET_SIZE)
  {
    if n == 0 then [] else Buckets(st, n - 1) + [Bucket(st, n - 1, BUCKET_SIZE)]
  }

  function Image(key: Key, st: State): Disk {
    ListsAreIds(st.mapInfo, st.nIdCount);
    Disk(1, key, StoredList(st.mapInfo, NewList(st.mapInfo, st.nIdCount)),
         StoredList(st.mapInfo, TriedList(st.mapInfo, st.nIdCount)), Buckets(st, NEW_BUCKET_COUNT))
  }

  // ---------------------------------------------------------------------------- reading

  /** The positions of "new" entries on disk can be used. */
  predicate Usable(d: Disk) {
    d.nVersion == 1 && |d.buckets| == NEW_BUCKET_COUNT
  }

  /** One entry of "new"; without usable positions it gets the slot of its source. */
  function LoadNew(key: Key, usable: bool, st: State, s: Stored): State {
    var n := |st.vRandom|;
    var t := st.(mapInfo := st.mapInfo[n := Fresh(s, n)], mapAddr := st.mapAddr[s.addr.service.ip := n], vRandom := st.vRandom + [n]);
    var slot := NewSlot(key, s.addr.service, s.source);
    if !usable && slot !in t.vvNew then AddRef(t, slot, n) else t
  }

  function LoadNews(key: Key, usable: bool, s: seq<Stored>): State {
    if s == [] then EMPTY else LoadNew(key, usable, LoadNews(key, usable, s[..|s| - 1]), s[|s| - 1])
  }

  /** One entry of "tried"; it is lost if its slot is taken. */
  function LoadTried(key: Key, st: State, s: Stored): State {
    var slot, n := TriedSlot(key, s.addr.service), st.nIdCount;
    if slot in st.vvTried then st.(nTried := st.nTried - 1)
    else
      st.(vRandom := st.vRandom + [n], mapInfo := st.mapInfo[n := Fresh(s, |st.vRandom|).(fInTried := true)],
          mapAddr := st.mapAddr[s.addr.service.ip := n], vvTried := st.vvTried[slot := n], nIdCount := n + 1)
  }

  function LoadTrieds(key: Key, st: State, s: seq<Stored>): State {
    if s == [] then st else LoadTried(key, LoadTrieds(key, st, s[..|s| - 1]), s[|s| - 1])
  }

  /** One entry of a bucket. */
  function LoadRef(key: Key, usable: bool, st: State, b: nat, nIndex: int): State {
    if 0 <= nIndex < st.nNew && nIndex in st.mapInfo then
      var info := st.mapInfo[nIndex];
      var slot := SlotIn(key, info.addr.service, b);
      if usable && slot !in st.vvNew && info.nRefCount < NEW_BUCKETS_PER_ADDRESS then AddRef(st, slot, nIndex) else st
    else st
  }

  function LoadBucket(key: Key, usable: bool, st: State, b: nat, s: seq<int>): State {
    if s == [] then st else LoadRef(key, usable, LoadBucket(key, usable, st, b, s[..|s| - 1]), b, s[|s| - 1])
  }

  function LoadBuckets(key: Key, usable: bool, st: State, s: seq<seq<int>>): State {
    if s == [] then st else LoadBucket(key, usable, LoadBuckets(key, usable, st, s[..|s| - 1]), |s| - 1, s[|s| - 1])
  }

  /** An entry of "new" that no slot refers to goes. */
  predicate IsLost(st: State, id: Id) {
    id in st.mapInfo && !st.mapInfo[id].fInTried && st.mapInfo[id].nRefCount == 0
  }

  /** vRandom lists the entries of mapInfo: all that Delete relies on. */
  ghost predicate RandomOk(m: map<Id, Info>, vRandom: seq<Id>) {
    && (forall n :: n in m ==> 0 <= m[n].nRandomPos < |vRandom| && vRandom[m[n].nRandomPos] == n)
    && (forall k :: 0 <= k < |vRandom| ==> vRandom[k] in m && m[vRandom[k]].nRandomPos == k)
  }

  /** While loading, entry k is the k-th in vRandom. */
  ghost predicate Dense(m: map<Id, Info>, vRandom: seq<Id>) {
    && (forall n :: n in m ==> n < |vRandom| && m[n].nRandomPos == n)
    && (forall k :: 0 <= k < |vRandom| ==> k in m && vRandom[k] == k)
  }

  lemma DenseAppend(m: map<Id, Info>, vRandom: seq<Id>, info: Info)
    requires Dense(m, vRandom) && info.nRandomPos == |vRandom|
    ensures Dense(m[|vRandom| := info], vRandom + [|vRandom|])
  {
  }

  lemma DenseKeeps(st: State, slot: Slot, id: Id)
    requires Dense(st.mapInfo, st.vRandom) && id in st.mapInfo
    ensures Dense(AddRef(st, slot, id).mapInfo, AddRef(st, slot, id).vRandom)
  {
  }

  lemma {:induction false} NewsAreDense(key: Key, usable: bool, s: seq<Stored>)
    ensures var t := LoadNews(key, usable, s); Dense(t.mapInfo, t.vRandom) && |t.vRandom| == |s|
  {
    hide Dense;
    if s == [] {
      NothingIsDense();
    } else {
      var st, x := LoadNews(key, usable, s[..|s| - 1]), s[|s| - 1];
      NewsAreDense(key, usable, s[..|s| - 1]);
      var n := |st.vRandom|;
      DenseAppend(st.mapInfo, st.vRandom, Fresh(x, n));
      var t := st.(mapInfo := st.mapInfo[n := Fresh(x, n)], mapAddr := st.mapAddr[x.addr.service.ip := n], vRandom := st.vRandom + [n]);
      DenseKeeps(t, NewSlot(key, x.addr.service, x.source), n);
    }
  }

  lemma NothingIsDense()
    ensures Dense(map[], [])
  {
  }

  lemma {:induction false} TriedsAreDense(key: Key, st: State, s: seq<Stored>)
    requires Dense(st.mapInfo, st.vRandom) && st.nIdCount == |st.vRandom|
    ensures var t := LoadTrieds(key, st, s); Dense(t.mapInfo, t.vRandom) && t.nIdCount == |t.vRandom|
  {
    hide Dense;
    if s != [] {
      TriedsAreDense(key, st, s[..|s| - 1]);
      var t, x := LoadTrieds(key, st, s[..|s| - 1]), s[|s| - 1];
      DenseAppend(t.mapInfo, t.vRandom, Fresh(x, |t.vRandom|).(fInTried := true));
    }
  }

  lemma {:induction false} BucketIsDense(key: Key, usable: bool, st: State, b: nat, s: seq<int>)
    requires Dense(st.mapInfo, st.vRandom)
    ensures var t := LoadBucket(key, usable, st, b, s); Dense(t.mapInfo, t.vRandom) && t.vRandom == st.vRandom
  {
    hide Dense;
    if s != [] {
      BucketIsDense(key, usable, st, b, s[..|s| - 1]);
      var t, i := LoadBucket(key, usable, st, b, s[..|s| - 1]), s[|s| - 1];
      if 0 <= i < t.nNew && i in t.mapInfo {
        DenseKeeps(t, SlotIn(key, t.mapInfo[i].addr.service, b), i);
      }
    }
  }

  lemma {:induction false} BucketsAreDense(key: Key, usable: bool, st: State, s: seq<seq<int>>)
    requires Dense(st.mapInfo, st.vRandom)
    ensures var t := LoadBuckets(key, usable, st, s); Dense(t.mapInfo, t.vRandom)
  {
    if s != [] {
      BucketsAreDense(key, usable, st, s[..|s| - 1]);
      BucketIsDense(key, usable, LoadBuckets(key, usable, st, s[..|s| - 1]), |s| - 1, s[|s| - 1]);
    }
  }

  lemma DenseIsRandomOk(m: map<Id, Info>, vRandom: seq<Id>)
    requires Dense(m, vRandom)
    ensures RandomOk(m, vRandom)
  {
  }

  lemma LostCanBeDeleted(st: State, id: Id)
    requires RandomOk(st.mapInfo, st.vRandom) && IsLost(st, id)
    ensures CanDelete(st, id)
  {
  }

  lemma SwapKeepsRandom(st: State, i: nat, j: nat)
    requires RandomOk(st.mapInfo, st.vRandom) && CanSwap(st, i, j)
    ensures var t := SwapRandom(st, i, j); RandomOk(t.mapInfo, t.vRandom) && |t.vRandom| == |st.vRandom|
  {
  }

  lemma DropKeepsRandom(m: map<Id, Info>, vRandom: seq<Id>)
    requires RandomOk(m, vRandom) && |vRandom| > 0
    ensures RandomOk(m - {vRandom[|vRandom| - 1]}, vRandom[..|vRandom| - 1])
  {
  }

  lemma DeleteKeepsRandom(st: State, id: Id)
    requires RandomOk(st.mapInfo, st.vRandom) && CanDelete(st, id)
    ensures var t := Delete(st, id); RandomOk(t.mapInfo, t.vRandom)
  {
    var k, last := st.mapInfo[id].nRandomPos, |st.vRandom| - 1;
    SwapKeepsRandom(st, k, last);
    var s := SwapRandom(st, k, last);
    assert s.vRandom[last] == id;
    hide RandomOk;
    hide SwapRandom;
    DropKeepsRandom(s.mapInfo, s.vRandom);
  }

  /** The tables before entries without a slot are dropped. */
  function Loaded(d: Disk): (t: State)
    ensures Dense(t.mapInfo, t.vRandom)
  {
    var usable := Usable(d);
    NewsAreDense(d.nKey, usable, d.news);
    var t := LoadNews(d.nKey, usable, d.news).(nNew := |d.news|, nTried := |d.trieds|, nIdCount := |d.news|);
    TriedsAreDense(d.nKey, t, d.trieds);
    BucketsAreDense(d.nKey, usable, LoadTrieds(d.nKey, t, d.trieds), d.buckets);
    LoadBuckets(d.nKey, usable, LoadTrieds(d.nKey, t, d.trieds), d.buckets)
  }

  /** Drops the lost entries among the ids below k.  The assertions of Delete hold
      whatever was on disk. */
  function Prune(st: State, k: nat): (t: State)
    requires RandomOk(st.mapInfo, st.vRandom)
    ensures RandomOk(t.mapInfo, t.vRandom)
  {
    hide RandomOk;
    hide Delete;
    hide CanDelete;
    if k == 0 then st
    else
      var s := Prune(st, k - 1);
      if IsLost(s, k - 1) then
        LostCanBeDeleted(s, k - 1);
        DeleteKeepsRandom(s, k - 1);
        Delete(s, k - 1)
      else s
  }

  predicate WithinLimits(d: Disk) {
    |d.news| <= NEW_BUCKET_COUNT * BUCKET_SIZE && |d.trieds| <= TRIED_BUCKET_COUNT * BUCKET_SIZE
  }

  function Rebuilt(d: Disk): State {
    var t := Loaded(d);
    DenseIsRandomOk(t.mapInfo, t.vRandom);
    Prune(t, t.nIdCount)
  }
}
