/**
 CAddrMan::Check_, the consistency check that the address manager carries itself:
 what it accepts, exactly, and that it accepts every state that can be reached.
 */
module AddrManCheck {
  import opened Sets
  import opened AddrMan
  import O = AddrManOps

  /** mapAddr[info]: a missing key reads as 0. */
  function AddrId(st: State, ip: NetAddr): int {
    if ip in st.mapAddr then st.mapAddr[ip] else 0
  }

  predicate EntryOk(st: State, n: Id)
    requires n in st.mapInfo
  {
    var info := st.mapInfo[n];
    && (if info.fInTried then info.nLastSuccess != 0 && info.nRefCount == 0 else 1 <= info.nRefCount <= NEW_BUCKETS_PER_ADDRESS)
    && AddrId(st, info.addr.service.ip) == n
    && 0 <= info.nRandomPos < |st.vRandom| && st.vRandom[info.nRandomPos] == n
    && info.nLastTry >= 0 && info.nLastSuccess >= 0
  }

  /** The slots of a table are within its bounds. */
  ghost predicate InBounds(vv: map<Slot, Id>, height: nat, width: nat) {
    forall s :: s in vv ==> s.bucket < height && s.pos < width
  }

  /** The slots before (n, i) in the order of the loops. */
  predicate Before(s: Slot, n: nat, i: nat) {
    s.bucket < n || (s.bucket == n && s.pos < i)
  }

  // --------------------------------------------------------------------------- entries

  method CheckEntry(st: State, n: Id) returns (err: int)
    requires n in st.mapInfo
    ensures err == 0 <==> EntryOk(st, n)
  {
    var info := st.mapInfo[n];
    if info.fInTried {
      if info.nLastSuccess == 0 {
        return -1;
      }
      if info.nRefCount != 0 {
        return -2;
      }
    } else {
      if info.nRefCount < 0 || info.nRefCount > NEW_BUCKETS_PER_ADDRESS {
        return -3;
      }
      if info.nRefCount == 0 {
        return -4;
      }
    }
    if AddrId(st, info.addr.service.ip) != n {
      return -5;
    }
    if info.nRandomPos < 0 || info.nRandomPos >= |st.vRandom| || st.vRandom[info.nRandomPos] != n {
      return -14;
    }
    if info.nLastTry < 0 {
      return -6;
    }
    if info.nLastSuccess < 0 {
      return -8;
    }
    return 0;
  }

  method CheckEntries(st: State) returns (err: int, setTried: set<Id>, mapNew: map<Id, int>)
    ensures err == 0 <==> forall n :: n in st.mapInfo ==> EntryOk(st, n)
    ensures err == 0 ==> setTried == TriedIds(st.mapInfo) && mapNew.Keys == NewIds(st.mapInfo)
    ensures err == 0 ==> forall n :: n in mapNew ==> n in st.mapInfo && mapNew[n] == st.mapInfo[n].nRefCount
  {
    hide EntryOk;
    setTried, mapNew := {}, map[];
    var rest := st.mapInfo.Keys;
    while rest != {}
      invariant rest <= st.mapInfo.Keys && forall n :: n in st.mapInfo && n !in rest ==> EntryOk(st, n)
      invariant forall n :: n in setTried <==> n in st.mapInfo && n !in rest && st.mapInfo[n].fInTried
      invariant forall n :: n in mapNew <==> n in st.mapInfo && n !in rest && !st.mapInfo[n].fInTried
      invariant forall n :: n in mapNew ==> mapNew[n] == st.mapInfo[n].nRefCount
      decreases rest
    {
      var n :| n in rest;
      err := CheckEntry(st, n);
      if err != 0 {
        return;
      }
      if st.mapInfo[n].fInTried {
        setTried := setTried + {n};
      } else {
        mapNew := mapNew[n := st.mapInfo[n].nRefCount];
      }
      rest := rest - {n};
    }
    err := 0;
  }

  // ----------------------------------------------------------------------------- tried

  /** A filled "tried" slot is right. */
  predicate TriedOk(key: Key, m: map<Id, Info>, vvTried: map<Slot, Id>, s: Slot)
    requires s in vvTried
  {
    vvTried[s] in m && m[vvTried[s]].fInTried && s == TriedSlot(key, m[vvTried[s]].addr.service)
  }

  predicate Shown(key: Key, id: Id, service: Service, vvTried: map<Slot, Id>, n: nat, i: nat) {
    InTriedSlot(key, id, service, vvTried) && Before(TriedSlot(key, service), n, i)
  }

  /** The slots before (n, i) are right, and setTried is what they have not shown. */
  ghost predicate TriedInv(key: Key, m: map<Id, Info>, vvTried: map<Slot, Id>, setTried: set<Id>, n: nat, i: nat) {
    && (forall s :: s in vvTried && Before(s, n, i) ==> TriedOk(key, m, vvTried, s) && vvTried[s] !in setTried)
    && (forall id :: id in setTried ==> id in m && m[id].fInTried)
    && (forall id :: id in m && m[id].fInTried && id !in setTried ==> Shown(key, id, m[id].addr.service, vvTried, n, i))
  }

  lemma TriedStep(key: Key, m: map<Id, Info>, vvTried: map<Slot, Id>, setTried: set<Id>, n: nat, i: nat)
    requires TriedInv(key, m, vvTried, setTried, n, i)
    ensures Slot(n, i) !in vvTried ==> TriedInv(key, m, vvTried, setTried, n, i + 1)
    ensures Slot(n, i) in vvTried ==>
              var id := vvTried[Slot(n, i)];
              if id in setTried && Slot(n, i) == TriedSlot(key, m[id].addr.service) then TriedInv(key, m, vvTried, setTried - {id}, n, i + 1)
              else !TriedTable(key, m, vvTried)
  {
    hide TriedSlot;
    var s0 := Slot(n, i);
    forall id | id in m && m[id].fInTried && id !in setTried ensures Shown(key, id, m[id].addr.service, vvTried, n, i + 1) {
      assert Shown(key, id, m[id].addr.service, vvTried, n, i);
    }
    forall s | s in vvTried && Before(s, n, i + 1) && s != s0 ensures Before(s, n, i) {
    }
    if s0 in vvTried {
      var id := vvTried[s0];
      if id in setTried && s0 == TriedSlot(key, m[id].addr.service) {
        forall s | s in vvTried && Before(s, n, i + 1) ensures TriedOk(key, m, vvTried, s) && vvTried[s] !in setTried - {id} {
          if s != s0 {
            assert Before(s, n, i);
          }
        }
      } else if TriedTable(key, m, vvTried) {
        assert false;
      }
    }
  }

  lemma TriedNextBucket(key: Key, m: map<Id, Info>, vvTried: map<Slot, Id>, setTried: set<Id>, n: nat)
    requires TriedInv(key, m, vvTried, setTried, n, BUCKET_SIZE) && InBounds(vvTried, TRIED_BUCKET_COUNT, BUCKET_SIZE)
    ensures TriedInv(key, m, vvTried, setTried, n + 1, 0)
  {
    hide TriedSlot;
    forall id | id in m && m[id].fInTried && id !in setTried ensures Shown(key, id, m[id].addr.service, vvTried, n + 1, 0) {
      assert Shown(key, id, m[id].addr.service, vvTried, n, BUCKET_SIZE);
    }
  }

  lemma TriedDone(key: Key, m: map<Id, Info>, vvTried: map<Slot, Id>, setTried: set<Id>)
    requires TriedInv(key, m, vvTried, setTried, TRIED_BUCKET_COUNT, 0) && InBounds(vvTried, TRIED_BUCKET_COUNT, BUCKET_SIZE)
    ensures setTried == {} <==> TriedTable(key, m, vvTried)
  {
    hide TriedSlot;
    if setTried == {} {
      forall s | s in vvTried ensures TriedOk(key, m, vvTried, s) {
        assert Before(s, TRIED_BUCKET_COUNT, 0);
      }
      forall id | id in m && m[id].fInTried ensures InTriedSlot(key, id, m[id].addr.service, vvTried) {
        assert Shown(key, id, m[id].addr.service, vvTried, TRIED_BUCKET_COUNT, 0);
      }
    } else if TriedTable(key, m, vvTried) {
      assert false;
    }
  }

  /** `left` are the entries that no slot holds; Check_ reports them last. */
  method CheckTried(key: Key, st: State, setTriedIn: set<Id>) returns (err: int, left: set<Id>)
    requires InBounds(st.vvTried, TRIED_BUCKET_COUNT, BUCKET_SIZE) && setTriedIn == TriedIds(st.mapInfo)
    ensures err == 0 && left == {} <==> TriedTable(key, st.mapInfo, st.vvTried)
  {
    hide TriedTable;
    hide TriedSlot;
    hide InBounds;
    var setTried := setTriedIn;
    for n := 0 to TRIED_BUCKET_COUNT
      invariant TriedInv(key, st.mapInfo, st.vvTried, setTried, n, 0)
    {
      for i := 0 to BUCKET_SIZE
        invariant TriedInv(key, st.mapInfo, st.vvTried, setTried, n, i)
      {
        TriedStep(key, st.mapInfo, st.vvTried, setTried, n, i);
        var slot := Slot(n, i);
        if slot in st.vvTried {
          var id := st.vvTried[slot];
          if id !in setTried {
            return -11, setTried;
          }
          var home := TriedSlot(key, st.mapInfo[id].addr.service);
          if home.bucket != n {
            return -17, setTried;
          }
          if home.pos != i {
            return -18, setTried;
          }
          setTried := setTried - {id};
        }
      }
      TriedNextBucket(key, st.mapInfo, st.vvTried, setTried, n);
    }
    TriedDone(key, st.mapInfo, st.vvTried, setTried);
    return 0, setTried;
  }

  // ------------------------------------------------------------------------------- new

  /** The references of an entry before (n, i). */
  function Seen(vvNew: map<Slot, Id>, id: Id, n: nat, i: nat): set<Slot> {
    set s | s in vvNew && Before(s, n, i) && vvNew[s] == id
  }

  predicate NewOk(key: Key, m: map<Id, Info>, vvNew: map<Slot, Id>, s: Slot)
    requires s in vvNew
  {
    vvNew[s] in m && !m[vvNew[s]].fInTried && NewHome(key, m[vvNew[s]].addr.service, s)
  }

  /** What mapNew says about an entry: how many references are still to be seen. */
  predicate Left(m: map<Id, Info>, vvNew: map<Slot, Id>, mapNew: map<Id, int>, id: Id, n: nat, i: nat)
    requires id in m
  {
    var left := m[id].nRefCount - |Seen(vvNew, id, n, i)|;
    left >= 0 && (id in mapNew <==> left > 0) && (id in mapNew ==> mapNew[id] == left)
  }

  ghost predicate NewInv(key: Key, m: map<Id, Info>, vvNew: map<Slot, Id>, mapNew: map<Id, int>, n: nat, i: nat) {
    && (forall s :: s in vvNew && Before(s, n, i) ==> NewOk(key, m, vvNew, s))
    && (forall id :: id in mapNew ==> id in m && !m[id].fInTried)
    && (forall id :: id in m && !m[id].fInTried ==> Left(m, vvNew, mapNew, id, n, i))
  }

  /** The "new" table is right and every entry in it has its exact count. */
  ghost predicate NewCounted(key: Key, m: map<Id, Info>, vvNew: map<Slot, Id>) {
    NewTable(key, m, vvNew) && forall id :: id in m && !m[id].fInTried ==> Counted(m, vvNew, id)
  }

  predicate Counted(m: map<Id, Info>, vvNew: map<Slot, Id>, id: Id)
    requires id in m
  {
    m[id].nRefCount == |Refs(vvNew, id)|
  }

  lemma SeenNext(vvNew: map<Slot, Id>, id: Id, n: nat, i: nat)
    ensures var s := Slot(n, i);
            |Seen(vvNew, id, n, i + 1)| == |Seen(vvNew, id, n, i)| + (if s in vvNew && vvNew[s] == id then 1 else 0)
  {
    var s := Slot(n, i);
    var after := Seen(vvNew, id, n, i + 1);
    assert after == if s in vvNew && vvNew[s] == id then Seen(vvNew, id, n, i) + {s} else Seen(vvNew, id, n, i);
  }

  /** One decrement of mapNew. */
  function Decremented(mapNew: map<Id, int>, id: Id): map<Id, int>
    requires id in mapNew
  {
    if mapNew[id] == 1 then mapNew - {id} else mapNew[id := mapNew[id] - 1]
  }

  lemma NewHit(key: Key, m: map<Id, Info>, vvNew: map<Slot, Id>, mapNew: map<Id, int>, n: nat, i: nat)
    requires NewInv(key, m, vvNew, mapNew, n, i) && Slot(n, i) in vvNew && vvNew[Slot(n, i)] in mapNew
    requires NewHome(key, m[vvNew[Slot(n, i)]].addr.service, Slot(n, i))
    ensures NewInv(key, m, vvNew, Decremented(mapNew, vvNew[Slot(n, i)]), n, i + 1)
  {
    hide NewHome;
    var id0 := vvNew[Slot(n, i)];
    var after := Decremented(mapNew, id0);
    forall id | id in m && !m[id].fInTried ensures Left(m, vvNew, after, id, n, i + 1) {
      assert Left(m, vvNew, mapNew, id, n, i);
      SeenNext(vvNew, id, n, i);
    }
    forall s | s in vvNew && Before(s, n, i + 1) ensures NewOk(key, m, vvNew, s) {
      if s != Slot(n, i) {
        assert Before(s, n, i);
      }
    }
  }

  lemma NewMiss(key: Key, m: map<Id, Info>, vvNew: map<Slot, Id>, mapNew: map<Id, int>, n: nat, i: nat)
    requires NewInv(key, m, vvNew, mapNew, n, i) && Slot(n, i) !in vvNew
    ensures NewInv(key, m, vvNew, mapNew, n, i + 1)
  {
    hide NewHome;
    forall id | id in m && !m[id].fInTried ensures Left(m, vvNew, mapNew, id, n, i + 1) {
      assert Left(m, vvNew, mapNew, id, n, i);
      SeenNext(vvNew, id, n, i);
    }
    forall s | s in vvNew && Before(s, n, i + 1) ensures NewOk(key, m, vvNew, s) {
      assert Before(s, n, i);
    }
  }

  /** A slot of an entry whose references have all been seen is one too many. */
  lemma NewBad(key: Key, m: map<Id, Info>, vvNew: map<Slot, Id>, mapNew: map<Id, int>, n: nat, i: nat)
    requires NewInv(key, m, vvNew, mapNew, n, i) && Slot(n, i) in vvNew
    requires vvNew[Slot(n, i)] !in mapNew || !NewHome(key, m[vvNew[Slot(n, i)]].addr.service, Slot(n, i))
    ensures !NewCounted(key, m, vvNew)
  {
    hide NewHome;
    var s := Slot(n, i);
    var id := vvNew[s];
    if NewTable(key, m, vvNew) && id !in mapNew {
      assert Left(m, vvNew, mapNew, id, n, i);
      SeenNext(vvNew, id, n, i);
      SubsetSize(Seen(vvNew, id, n, i + 1), Refs(vvNew, id));
      assert !Counted(m, vvNew, id);
    }
  }

  lemma NewNextBucket(key: Key, m: map<Id, Info>, vvNew: map<Slot, Id>, mapNew: map<Id, int>, n: nat)
    requires NewInv(key, m, vvNew, mapNew, n, BUCKET_SIZE) && InBounds(vvNew, NEW_BUCKET_COUNT, BUCKET_SIZE)
    ensures NewInv(key, m, vvNew, mapNew, n + 1, 0)
  {
    hide NewHome;
    forall id | id in m && !m[id].fInTried ensures Left(m, vvNew, mapNew, id, n + 1, 0) {
      assert Left(m, vvNew, mapNew, id, n, BUCKET_SIZE);
      assert Seen(vvNew, id, n + 1, 0) == Seen(vvNew, id, n, BUCKET_SIZE);
    }
  }

  lemma NewDone(key: Key, m: map<Id, Info>, vvNew: map<Slot, Id>, mapNew: map<Id, int>)
    requires NewInv(key, m, vvNew, mapNew, NEW_BUCKET_COUNT, 0) && InBounds(vvNew, NEW_BUCKET_COUNT, BUCKET_SIZE)
    ensures mapNew == map[] <==> NewCounted(key, m, vvNew)
  {
    hide NewHome;
    forall id | id in m && !m[id].fInTried ensures Counted(m, vvNew, id) <==> id !in mapNew {
      assert Left(m, vvNew, mapNew, id, NEW_BUCKET_COUNT, 0);
      assert Seen(vvNew, id, NEW_BUCKET_COUNT, 0) == Refs(vvNew, id);
    }
    forall s | s in vvNew ensures NewOk(key, m, vvNew, s) {
      assert Before(s, NEW_BUCKET_COUNT, 0);
    }
    if mapNew != map[] {
      assert mapNew.Keys != {};
      var id :| id in mapNew;
      assert !Counted(m, vvNew, id);
    }
  }

  method CheckNew(key: Key, st: State, mapNewIn: map<Id, int>) returns (err: int, left: map<Id, int>)
    requires InBounds(st.vvNew, NEW_BUCKET_COUNT, BUCKET_SIZE) && NewInv(key, st.mapInfo, st.vvNew, mapNewIn, 0, 0)
    ensures err == 0 && left == map[] <==> NewCounted(key, st.mapInfo, st.vvNew)
  {
    hide NewInv;
    hide NewCounted;
    hide InBounds;
    var mapNew := mapNewIn;
    for n := 0 to NEW_BUCKET_COUNT
      invariant NewInv(key, st.mapInfo, st.vvNew, mapNew, n, 0)
    {
      for i := 0 to BUCKET_SIZE
        invariant NewInv(key, st.mapInfo, st.vvNew, mapNew, n, i)
      {
        var slot := Slot(n, i);
        if slot in st.vvNew {
          var id := st.vvNew[slot];
          KeysAreEntries(key, st.mapInfo, st.vvNew, mapNew, n, i);
          if id !in mapNew {
            NewBad(key, st.mapInfo, st.vvNew, mapNew, n, i);
            return -12, mapNew;
          }
          if SlotIn(key, st.mapInfo[id].addr.service, n).pos != i {
            NewBad(key, st.mapInfo, st.vvNew, mapNew, n, i);
            return -19, mapNew;
          }
          NewHit(key, st.mapInfo, st.vvNew, mapNew, n, i);
          mapNew := Decremented(mapNew, id);
        } else {
          NewMiss(key, st.mapInfo, st.vvNew, mapNew, n, i);
        }
      }
      NewNextBucket(key, st.mapInfo, st.vvNew, mapNew, n);
    }
    NewDone(key, st.mapInfo, st.vvNew, mapNew);
    return 0, mapNew;
  }

  lemma KeysAreEntries(key: Key, m: map<Id, Info>, vvNew: map<Slot, Id>, mapNew: map<Id, int>, n: nat, i: nat)
    requires NewInv(key, m, vvNew, mapNew, n, i)
    ensures forall id :: id in mapNew ==> id in m
  {
  }

  // ------------------------------------------------------------------------- the whole

  /** What Check_ accepts. */
  ghost predicate CheckOk(key: Key, keyIsNull: bool, st: State) {
    && |st.vRandom| == st.nTried + st.nNew && (forall n :: n in st.mapInfo ==> EntryOk(st, n))
    && |TriedIds(st.mapInfo)| == st.nTried && |NewIds(st.mapInfo)| == st.nNew
    && TriedTable(key, st.mapInfo, st.vvTried) && NewCounted(key, st.mapInfo, st.vvNew) && !keyIsNull
  }

  lemma NothingSeen(key: Key, st: State, mapNew: map<Id, int>)
    requires forall n :: n in st.mapInfo ==> EntryOk(st, n)
    requires mapNew.Keys == NewIds(st.mapInfo) && forall n :: n in mapNew ==> n in st.mapInfo && mapNew[n] == st.mapInfo[n].nRefCount
    ensures NewInv(key, st.mapInfo, st.vvNew, mapNew, 0, 0)
  {
    forall id | id in st.mapInfo && !st.mapInfo[id].fInTried ensures Left(st.mapInfo, st.vvNew, mapNew, id, 0, 0) {
      assert Seen(st.vvNew, id, 0, 0) == {};
      assert EntryOk(st, id);
      assert id in NewIds(st.mapInfo);
    }
    assert forall id :: id in mapNew ==> id in NewIds(st.mapInfo);
  }

  method Check(key: Key, keyIsNull: bool, st: State) returns (err: int)
    requires InBounds(st.vvTried, TRIED_BUCKET_COUNT, BUCKET_SIZE) && InBounds(st.vvNew, NEW_BUCKET_COUNT, BUCKET_SIZE)
    ensures err == 0 <==> CheckOk(key, keyIsNull, st)
  {
    hide EntryOk;
    hide NewInv;
    hide TriedTable;
    hide NewCounted;
    hide InBounds;
    if |st.vRandom| != st.nTried + st.nNew {
      return -7;
    }
    var setTried, mapNew;
    err, setTried, mapNew := CheckEntries(st);
    if err != 0 {
      return;
    }
    if |setTried| != st.nTried {
      return -9;
    }
    if |mapNew.Keys| != st.nNew {
      return -10;
    }
    NothingSeen(key, st, mapNew);
    err, setTried := CheckTried(key, st, setTried);
    if err != 0 {
      return;
    }
    err, mapNew := CheckNew(key, st, mapNew);
    if err != 0 {
      return;
    }
    if setTried != {} {
      return -13;
    }
    if mapNew != map[] {
      return -15;
    }
    if keyIsNull {
      return -16;
    }
    return 0;
  }

  /** What the check leaves out: stray keys in mapAddr, and ids not yet given out. */
  ghost predicate Tidy(st: State) {
    && (forall n :: n in st.mapInfo ==> n < st.nIdCount && st.mapInfo[n].addr.service.ip in st.mapAddr)
    && (forall a :: a in st.mapAddr ==> st.mapAddr[a] in st.mapInfo && st.mapInfo[st.mapAddr[a]].addr.service.ip == a)
  }

  lemma TablesInBounds(key: Key, st: State)
    requires Inv(key, st)
    ensures InBounds(st.vvTried, TRIED_BUCKET_COUNT, BUCKET_SIZE) && InBounds(st.vvNew, NEW_BUCKET_COUNT, BUCKET_SIZE)
  {
    hide Indexed;
    hide RefCounts;
    hide Stats;
    hide Counters;
    forall s | s in st.vvNew ensures s.bucket < NEW_BUCKET_COUNT && s.pos < BUCKET_SIZE {
      assert NewHome(key, st.mapInfo[st.vvNew[s]].addr.service, s);
    }
  }

  /** A one-to-one listing has as many entries as there are ids. */
  lemma {:induction false} ListingSize(m: map<Id, Info>, v: seq<Id>, ids: set<Id>, k: nat)
    requires k <= |v| && ids <= m.Keys && forall n :: n in ids ==> 0 <= m[n].nRandomPos < k && v[m[n].nRandomPos] == n
    ensures |ids| <= k
    ensures |ids| == k ==> forall j :: 0 <= j < k ==> v[j] in ids && m[v[j]].nRandomPos == j
    decreases k
  {
    if k == 0 {
      assert forall n :: n in ids ==> false;
      assert ids == {};
    } else if v[k - 1] in ids && m[v[k - 1]].nRandomPos == k - 1 {
      ListingSize(m, v, ids - {v[k - 1]}, k - 1);
    } else {
      ListingSize(m, v, ids, k - 1);
    }
  }

  lemma {:induction false} ListedIds(m: map<Id, Info>, v: seq<Id>, k: nat) returns (ids: set<Id>)
    requires k <= |v| && forall j :: 0 <= j < |v| ==> v[j] in m && m[v[j]].nRandomPos == j
    ensures |ids| == k && ids <= m.Keys && forall n :: n in ids ==> m[n].nRandomPos < k
  {
    if k == 0 {
      ids := {};
    } else {
      ids := ListedIds(m, v, k - 1);
      assert v[k - 1] !in ids;
      ids := ids + {v[k - 1]};
    }
  }

  lemma NewAndTried(m: map<Id, Info>)
    ensures |NewIds(m)| + |TriedIds(m)| == |m.Keys|
  {
    assert NewIds(m) + TriedIds(m) == m.Keys && NewIds(m) !! TriedIds(m);
  }

  lemma ValidListing(key: Key, st: State)
    requires Inv(key, st)
    ensures |st.vRandom| == st.nTried + st.nNew
  {
    hide NewTable;
    hide TriedTable;
    hide RefCounts;
    hide Stats;
    var m, v := st.mapInfo, st.vRandom;
    forall n | n in m ensures 0 <= m[n].nRandomPos < |v| && v[m[n].nRandomPos] == n {
      assert Listed(n, m[n], st.mapAddr, v);
    }
    ListingSize(m, v, m.Keys, |v|);
    var ids := ListedIds(m, v, |v|);
    SubsetSize(ids, m.Keys);
    NewAndTried(m);
    assert NewIds(m) - {} == NewIds(m);
  }

  lemma ValidEntries(key: Key, st: State, n: Id)
    requires Inv(key, st) && n in st.mapInfo
    ensures EntryOk(st, n)
  {
    hide Counters;
    assert Listed(n, st.mapInfo[n], st.mapAddr, st.vRandom);
    assert RefsInRange(n, st.mapInfo[n], {}) && GoodStats(st.mapInfo[n]);
    if st.mapInfo[n].fInTried {
      assert Refs(st.vvNew, n) == {};
    }
  }

  /** Every valid state passes, so every state that can be reached does. */
  lemma ValidPasses(key: Key, st: State)
    requires Inv(key, st)
    ensures CheckOk(key, false, st) && Tidy(st)
  {
    ValidListing(key, st);
    forall n | n in st.mapInfo ensures EntryOk(st, n) {
      ValidEntries(key, st, n);
    }
    assert NewIds(st.mapInfo) - {} == NewIds(st.mapInfo);
    forall n | n in st.mapInfo ensures n < st.nIdCount && st.mapInfo[n].addr.service.ip in st.mapAddr {
      assert Listed(n, st.mapInfo[n], st.mapAddr, st.vRandom);
    }
  }

  /** And a state that passes is valid exactly if mapAddr is tidy. */
  lemma PassedIsValid(key: Key, st: State)
    requires CheckOk(key, false, st)
    ensures Inv(key, st) <==> Tidy(st)
  {
    hide CheckOk;
    hide Tidy;
    hide Indexed;
    hide NewTable;
    hide TriedTable;
    hide RefCounts;
    hide Stats;
    hide Counters;
    if Tidy(st) {
      PassedIndexes(key, st);
      PassedTables(key, st);
    } else if Inv(key, st) {
      ValidPasses(key, st);
    }
  }

  lemma PassedTables(key: Key, st: State)
    requires CheckOk(key, false, st)
    ensures NewTable(key, st.mapInfo, st.vvNew) && TriedTable(key, st.mapInfo, st.vvTried)
    ensures RefCounts(st.mapInfo, st.vvNew, {}) && Stats(st.mapInfo) && Counters(st, {}, 0)
  {
    hide NewTable;
    hide TriedTable;
    hide Refs;
    var m := st.mapInfo;
    assert NewIds(m) - {} == NewIds(m);
    forall n | n in m ensures m[n].nRefCount == |Refs(st.vvNew, n)| && RefsInRange(n, m[n], {}) && GoodStats(m[n]) {
      PassedCount(key, st, n);
      assert EntryOk(st, n);
    }
  }

  lemma PassedIndexes(key: Key, st: State)
    requires CheckOk(key, false, st) && Tidy(st)
    ensures Indexed(st.nIdCount, st.mapInfo, st.mapAddr, st.vRandom)
  {
    hide TriedTable;
    hide NewTable;
    var m, v := st.mapInfo, st.vRandom;
    forall n | n in m ensures n < st.nIdCount && Listed(n, m[n], st.mapAddr, v) {
      assert EntryOk(st, n);
    }
    NewAndTried(m);
    ListingSize(m, v, m.Keys, |v|);
  }

  lemma PassedCount(key: Key, st: State, n: Id)
    requires CheckOk(key, false, st) && n in st.mapInfo
    ensures st.mapInfo[n].nRefCount == |Refs(st.vvNew, n)| && RefsInRange(n, st.mapInfo[n], {})
  {
    hide TriedTable;
    assert EntryOk(st, n);
    if st.mapInfo[n].fInTried {
      assert Refs(st.vvNew, n) == {};
    } else {
      assert Counted(st.mapInfo, st.vvNew, n);
    }
  }

  /** A stray key in mapAddr passes, although the indexes are not inverse to each other. */
  lemma StrayKeyPasses(key: Key, ip: NetAddr)
    ensures var st := EMPTY.(mapAddr := map[ip := 0]);
            CheckOk(key, false, st) && !Tidy(st) && !Inv(key, st)
  {
    var st := EMPTY.(mapAddr := map[ip := 0]);
    assert ip in st.mapAddr;
    assert NewIds(st.mapInfo) == {} && TriedIds(st.mapInfo) == {};
  }

  /** In every run from a fresh address manager, at every point. */
  lemma EveryRunPassesCheck(key: Key, states: seq<State>, ops: seq<O.Op>, k: nat)
    requires O.IsRun(key, states, ops) && k <= |ops|
    ensures CheckOk(key, false, states[k])
  {
    hide Inv;
    hide CheckOk;
    O.EveryRunKeepsInv(key, states, ops, k);
    ValidPasses(key, states[k]);
  }

  /** Calling it there returns 0. */
  method CheckDuringRun(key: Key, ghost states: seq<State>, ghost ops: seq<O.Op>, ghost k: nat, st: State) returns (err: int)
    requires O.IsRun(key, states, ops) && k <= |ops| && st == states[k]
    ensures err == 0
  {
    hide Inv;
    hide CheckOk;
    O.EveryRunKeepsInv(key, states, ops, k);
    TablesInBounds(key, st);
    EveryRunPassesCheck(key, states, ops, k);
    err := Check(key, false, st);
  }
}
