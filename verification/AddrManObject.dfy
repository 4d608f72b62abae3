/**
 CAddrMan as an object: the methods change the indexes in place, step by step, and
 leave what the operations of `AddrMan` and `AddrManOps` say.  `vvNew` and `vvTried`
 are maps in which an absent slot stands for -1.
 */
module AddrManObject {
  import opened AddrMan
  import opened AddrManSteps
  import opened AddrManMoves
  import O = AddrManOps

  const GETADDR_MAX_PCT: nat := 23
  const GETADDR_MAX: nat := 2500

  /** The non-terrible ones among the first k entries of vRandom. */
  function Sampled(st: State, k: nat, nNow: int): seq<Address>
    requires k <= |st.vRandom| && forall i :: 0 <= i < k ==> st.vRandom[i] in st.mapInfo
  {
    if k == 0 then []
    else
      var info := st.mapInfo[st.vRandom[k - 1]];
      Sampled(st, k - 1, nNow) + (if IsTerrible(info, nNow) then [] else [info.addr])
  }

  lemma {:induction false} SampledFrame(st: State, t: State, k: nat, nNow: int)
    requires k <= |st.vRandom| && k <= |t.vRandom|
    requires forall i :: 0 <= i < k ==> st.vRandom[i] in st.mapInfo && t.vRandom[i] == st.vRandom[i] && t.vRandom[i] in t.mapInfo
    requires forall n :: n in st.mapInfo && n in t.mapInfo ==> t.mapInfo[n] == st.mapInfo[n].(nRandomPos := t.mapInfo[n].nRandomPos)
    ensures Sampled(t, k, nNow) == Sampled(st, k, nNow)
  {
    if k > 0 {
      SampledFrame(st, t, k - 1, nNow);
    }
  }

  /** The n-th bucket in a walk over all "new" buckets from a random start. */
  function Rotate(n: nat, nRnd: nat): nat {
    (n + nRnd) % NEW_BUCKET_COUNT
  }

  class CAddrMan {
    const nKey: Key
    var nIdCount: nat
    var mapInfo: map<Id, Info>
    var mapAddr: map<NetAddr, Id>
    var vRandom: seq<Id>
    var nTried: int
    var vvTried: map<Slot, Id>
    var nNew: int
    var vvNew: map<Slot, Id>
    var nLastGood: int

    ghost function Value(): State
      reads this
    {
      State(nIdCount, mapInfo, mapAddr, vRandom, vvTried, nTried, vvNew, nNew, nLastGood)
    }

    constructor (key: Key)
      ensures nKey == key && Value() == EMPTY && Inv(key, Value())
    {
      nKey := key;
      nIdCount, mapInfo, mapAddr, vRandom := 0, map[], map[], [];
      nTried, vvTried, nNew, vvNew, nLastGood := 0, map[], 0, map[], 1;
      EmptyIsValid(key);
    }

    method Create(addr: Address, addrSource: NetAddr) returns (nId: Id)
      modifies this
      ensures nId == old(nIdCount) && Value() == AddrMan.Create(old(Value()), addr, addrSource)
    {
      nId := nIdCount;
      nIdCount := nIdCount + 1;
      mapInfo := mapInfo[nId := Info(addr, addrSource, 0, 0, 0, 0, 0, false, -1)];
      mapAddr := mapAddr[addr.service.ip := nId];
      mapInfo := mapInfo[nId := mapInfo[nId].(nRandomPos := |vRandom|)];
      vRandom := vRandom + [nId];
    }

    method SwapRandom(nRndPos1: nat, nRndPos2: nat)
      requires CanSwap(Value(), nRndPos1, nRndPos2)
      modifies this
      ensures Value() == AddrMan.SwapRandom(old(Value()), nRndPos1, nRndPos2)
    {
      if nRndPos1 == nRndPos2 {
        return;
      }
      var nId1, nId2 := vRandom[nRndPos1], vRandom[nRndPos2];
      mapInfo := mapInfo[nId1 := mapInfo[nId1].(nRandomPos := nRndPos2)];
      mapInfo := mapInfo[nId2 := mapInfo[nId2].(nRandomPos := nRndPos1)];
      vRandom := vRandom[nRndPos1 := nId2];
      vRandom := vRandom[nRndPos2 := nId1];
    }

    method Delete(nId: Id)
      requires CanDelete(Value(), nId)
      modifies this
      ensures Value() == AddrMan.Delete(old(Value()), nId)
    {
      SwapRandom(mapInfo[nId].nRandomPos, |vRandom| - 1);
      vRandom := vRandom[..|vRandom| - 1];
      mapAddr := mapAddr - {mapInfo[nId].addr.service.ip};
      mapInfo := mapInfo - {nId};
      nNew := nNew - 1;
    }

    method ClearNew(slot: Slot)
      requires CanClear(Value(), slot)
      modifies this
      ensures Value() == AddrMan.ClearNew(old(Value()), slot)
    {
      if slot in vvNew {
        var nIdDelete := vvNew[slot];
        mapInfo := mapInfo[nIdDelete := mapInfo[nIdDelete].(nRefCount := mapInfo[nIdDelete].nRefCount - 1)];
        vvNew := vvNew - {slot};
        assert Value() == DropRef(old(Value()), slot);
        if mapInfo[nIdDelete].nRefCount == 0 {
          Delete(nIdDelete);
        }
      }
    }

    /** The loop over all "new" buckets at the start of MakeTried. */
    method RemoveFromNew(nId: Id)
      requires NewTable(nKey, mapInfo, vvNew) && nId in mapInfo && mapInfo[nId].nRefCount == |Refs(vvNew, nId)|
      modifies this
      ensures Value() == LeaveNew(old(Value()), nId)
    {
      ghost var was := Value();
      ghost var info := mapInfo[nId];
      LeftNone(vvNew, nId);
      for bucket := 0 to NEW_BUCKET_COUNT
        invariant nId in mapInfo && mapInfo == was.mapInfo[nId := info.(nRefCount := |Refs(vvNew, nId)|)]
        invariant Value() == was.(mapInfo := mapInfo, vvNew := vvNew)
        invariant vvNew == LeftBuckets(was.vvNew, nId, bucket)
      {
        var slot := SlotIn(nKey, mapInfo[nId].addr.service, bucket);
        LeftOneMore(nKey, was, nId, bucket, slot);
        if slot in vvNew && vvNew[slot] == nId {
          vvNew := vvNew - {slot};
          mapInfo := mapInfo[nId := mapInfo[nId].(nRefCount := mapInfo[nId].nRefCount - 1)];
        }
      }
      nNew := nNew - 1;
      LeftAll(nKey, was, nId);
    }

    /** MakeTried, whose asserts are proved on the way. */
    method MakeTried(nId: Id)
      requires Inv(nKey, Value()) && nId in mapInfo && !mapInfo[nId].fInTried
      modifies this
      ensures Value() == O.MakeTried(nKey, old(Value()), nId)
    {
      hide InvWith;
      hide NewTable;
      hide O.MakeRoom;
      NewPart(nKey, Value(), nId);
      LeaveNewKeeps(nKey, Value(), nId);
      var slot := TriedSlot(nKey, mapInfo[nId].addr.service);
      RemoveFromNew(nId);
      O.RoomSparesId(nKey, Value(), slot, nId);
      EvictFrom(slot, nId);
      vvTried := vvTried[slot := nId];
      nTried := nTried + 1;
      mapInfo := mapInfo[nId := mapInfo[nId].(fInTried := true)];
    }

    method EvictFrom(slot: Slot, ghost nId: Id)
      requires InvWith(nKey, Value(), {nId}, 0)
      modifies this
      ensures Value() == O.MakeRoom(nKey, old(Value()), slot, nId)
    {
      hide InvWith;
      hide AddrMan.ClearNew;
      hide CanClear;
      hide NewSlot;
      hide Refs;
      if slot in vvTried {
        LeaveTriedKeeps(nKey, Value(), slot, {nId});
        var nIdEvict := vvTried[slot];
        mapInfo := mapInfo[nIdEvict := mapInfo[nIdEvict].(fInTried := false)];
        vvTried := vvTried - {slot};
        nTried := nTried - 1;
        assert Value() == LeaveTried(old(Value()), slot);
        var uslot := NewSlot(nKey, mapInfo[nIdEvict].addr.service, mapInfo[nIdEvict].source);
        ghost var limbo := {nId} + {nIdEvict};
        ClearNewKeeps(nKey, Value(), uslot, limbo, 0);
        O.LimboSurvives(nKey, Value(), uslot, limbo, nIdEvict);
        NoRefs(nKey, Value(), nIdEvict, limbo, 0);
        ClearNew(uslot);
        mapInfo := mapInfo[nIdEvict := mapInfo[nIdEvict].(nRefCount := 1)];
        vvNew := vvNew[uslot := nIdEvict];
        nNew := nNew + 1;
      }
    }

    /** The search of Good_ for a bucket that holds the entry, from a random start. */
    method FindBucket(nId: Id, nRnd: nat) returns (found: bool)
      requires nId in mapInfo
      ensures found <==> O.InSomeBucket(nKey, Value(), nId)
    {
      found := false;
      for n := 0 to NEW_BUCKET_COUNT
        invariant !found && forall k :: 0 <= k < n ==> !O.HeldIn(nKey, Value(), nId, Rotate(k, nRnd))
      {
        var nB := Rotate(n, nRnd);
        var slot := SlotIn(nKey, mapInfo[nId].addr.service, nB);
        if slot in vvNew && vvNew[slot] == nId {
          assert O.HeldIn(nKey, Value(), nId, nB);
          return true;
        }
      }
      forall b: nat | b < NEW_BUCKET_COUNT ensures !O.HeldIn(nKey, Value(), nId, b) {
        var k := Rotated(b, nRnd);
        assert !O.HeldIn(nKey, Value(), nId, Rotate(k, nRnd));
      }
    }

    method Good_(addr: Service, nTime: int, nRnd: nat)
      requires Inv(nKey, Value()) && nTime > 0
      modifies this
      ensures Value() == O.Good(nKey, old(Value()), addr, nTime) && Inv(nKey, Value())
    {
      hide InvWith;
      hide O.MakeTried;
      O.GoodKeeps(nKey, Value(), addr, nTime);
      LastGoodIsFree(nKey, Value(), nTime);
      nLastGood := nTime;
      if addr.ip !in mapAddr || mapAddr[addr.ip] !in mapInfo || mapInfo[mapAddr[addr.ip]].addr.service != addr {
        return;
      }
      var nId := mapAddr[addr.ip];
      var info := mapInfo[nId].(nLastSuccess := nTime, nLastTry := nTime, nAttempts := 0);
      O.SetInfoKeeps(nKey, Value(), nId, info);
      mapInfo := mapInfo[nId := info];
      if info.fInTried {
        return;
      }
      var found := FindBucket(nId, nRnd);
      if !found {
        return;
      }
      MakeTried(nId);
    }

    /** The end of Add_; the entry has just been created if and only if it is in limbo. */
    method Insert(nId: Id, source: NetAddr, nNow: int, ghost limbo: set<Id>, ghost extra: int)
      requires InvWith(nKey, Value(), limbo, extra) && limbo <= {nId} && nId in mapInfo && !mapInfo[nId].fInTried
      modifies this
      ensures Value() == O.Insert(nKey, old(Value()), nId, source, nNow, limbo, extra)
    {
      hide InvWith;
      var slot := NewSlot(nKey, mapInfo[nId].addr.service, source);
      if slot !in vvNew || vvNew[slot] != nId {
        var fInsert := slot !in vvNew;
        if !fInsert && vvNew[slot] in mapInfo {
          var existing := mapInfo[vvNew[slot]];
          if IsTerrible(existing, nNow) || (existing.nRefCount > 1 && mapInfo[nId].nRefCount == 0) {
            fInsert := true;
          }
        }
        if fInsert {
          ClearNewKeeps(nKey, Value(), slot, limbo, extra);
          ClearNewSpares(nKey, Value(), slot);
          ClearNew(slot);
          mapInfo := mapInfo[nId := mapInfo[nId].(nRefCount := mapInfo[nId].nRefCount + 1)];
          vvNew := vvNew[slot := nId];
        } else if mapInfo[nId].nRefCount == 0 {
          O.ZeroRefsInLimbo(nKey, Value(), nId, limbo, extra);
          LimboCanBeDeleted(nKey, Value(), nId, limbo, extra);
          Delete(nId);
        }
      }
    }

    /** `routable` is addr.IsRoutable(), `lucky` the outcome of the stochastic test. */
    method Add_(addr: Address, source: NetAddr, nTimePenalty: int, nNow: int, routable: bool, lucky: bool) returns (fNew: bool)
      requires Inv(nKey, Value())
      modifies this
      ensures fNew <==> routable && addr.service.ip !in old(mapAddr)
      ensures Value() == O.Add(nKey, old(Value()), addr, source, nTimePenalty, nNow, routable, lucky) && Inv(nKey, Value())
    {
      hide InvWith;
      hide O.Insert;
      O.AddKeeps(nKey, Value(), addr, source, nTimePenalty, nNow, routable, lucky);
      fNew := false;
      if !routable {
        return;
      }
      var nId: Id;
      if addr.service.ip in mapAddr {
        nId := mapAddr[addr.service.ip];
        KnownId(nKey, Value(), addr.service.ip);
        O.RefreshKeeps(nKey, Value(), nId, addr, nTimePenalty, nNow);
        var info := O.Refreshed(mapInfo[nId], addr, nTimePenalty, nNow);
        mapInfo := mapInfo[nId := info];
        if addr.nTime == 0 || (info.addr.nTime != 0 && addr.nTime <= info.addr.nTime) {
          return;
        }
        if info.fInTried || info.nRefCount == NEW_BUCKETS_PER_ADDRESS {
          return;
        }
        if info.nRefCount > 0 && !lucky {
          return;
        }
        Insert(nId, source, nNow, {}, 0);
      } else {
        O.CreatedKeeps(nKey, Value(), addr, source, nTimePenalty);
        nId := Create(addr, source);
        var info := mapInfo[nId];
        mapInfo := mapInfo[nId := info.(addr := info.addr.(nTime := O.Max0(info.addr.nTime - nTimePenalty)))];
        nNew := nNew + 1;
        fNew := true;
        assert mapInfo == O.Created(old(Value()), addr, source, nTimePenalty).mapInfo;
        Insert(nId, source, nNow, {nId}, 1);
      }
    }

    method Attempt_(addr: Service, fCountFailure: bool, nTime: int)
      requires Inv(nKey, Value()) && nTime > 0
      modifies this
      ensures Value() == O.Attempt(old(Value()), addr, fCountFailure, nTime) && Inv(nKey, Value())
    {
      hide InvWith;
      O.AttemptKeeps(nKey, Value(), addr, fCountFailure, nTime);
      if addr.ip !in mapAddr || mapAddr[addr.ip] !in mapInfo || mapInfo[mapAddr[addr.ip]].addr.service != addr {
        return;
      }
      var nId := mapAddr[addr.ip];
      var info := mapInfo[nId].(nLastTry := nTime);
      if fCountFailure && info.nLastCountAttempt < nLastGood {
        info := info.(nLastCountAttempt := nTime);
        info := info.(nAttempts := info.nAttempts + 1);
      }
      mapInfo := mapInfo[nId := info];
    }

    method Connected_(addr: Service, nTime: int)
      requires Inv(nKey, Value())
      modifies this
      ensures Value() == O.Connected(old(Value()), addr, nTime) && Inv(nKey, Value())
    {
      hide InvWith;
      O.ConnectedKeeps(nKey, Value(), addr, nTime);
      if addr.ip !in mapAddr || mapAddr[addr.ip] !in mapInfo || mapInfo[mapAddr[addr.ip]].addr.service != addr {
        return;
      }
      var nId := mapAddr[addr.ip];
      var nUpdateInterval := 20 * 60;
      if nTime - mapInfo[nId].addr.nTime > nUpdateInterval {
        mapInfo := mapInfo[nId := mapInfo[nId].(addr := mapInfo[nId].addr.(nTime := nTime))];
      }
    }

    method SetServices_(addr: Service, nServices: set<nat>)
      requires Inv(nKey, Value())
      modifies this
      ensures Value() == O.SetServices(old(Value()), addr, nServices) && Inv(nKey, Value())
    {
      hide InvWith;
      O.SetServicesKeeps(nKey, Value(), addr, nServices);
      if addr.ip !in mapAddr || mapAddr[addr.ip] !in mapInfo || mapInfo[mapAddr[addr.ip]].addr.service != addr {
        return;
      }
      var nId := mapAddr[addr.ip];
      mapInfo := mapInfo[nId := mapInfo[nId].(addr := mapInfo[nId].addr.(nServices := nServices))];
    }

    /** The first |picks| entries have been shuffled to the front and sampled. */
    ghost predicate Sampling(start: State, picks: seq<nat>, vAddr: seq<Address>, nNow: int)
      reads this
    {
      && Inv(nKey, start) && O.GoodPicks(start, picks) && Value() == O.Shuffle(nKey, start, picks)
      && |picks| <= |vRandom| == |start.vRandom| && (forall i :: 0 <= i < |vRandom| ==> vRandom[i] in mapInfo)
      && vAddr == Sampled(Value(), |picks|, nNow)
    }

    /** One round of the loop of GetAddr_. */
    method SampleOne(n: nat, nRndPos: nat, vAddrIn: seq<Address>, nNow: int, ghost start: State, ghost picks: seq<nat>) returns (vAddr: seq<Address>)
      requires Sampling(start, picks, vAddrIn, nNow) && n == |picks| <= nRndPos < |vRandom|
      modifies this
      ensures Sampling(start, picks + [nRndPos], vAddr, nNow) && |vRandom| == old(|vRandom|) && |vAddrIn| <= |vAddr| <= |vAddrIn| + 1
    {
      hide InvWith;
      hide AddrMan.SwapRandom;
      hide O.Shuffle;
      hide O.GoodPicks;
      hide IsTerrible;
      ghost var was := Value();
      vAddr := vAddrIn;
      O.ShuffleNext(nKey, start, picks, nRndPos);
      SwapTail(was, n, nRndPos);
      SwapRandom(n, nRndPos);
      O.IndicesAreKnown(nKey, Value());
      SampledFrame(was, Value(), n, nNow);
      var ai := mapInfo[vRandom[n]];
      if !IsTerrible(ai, nNow) {
        vAddr := vAddr + [ai.addr];
      }
    }

    /** `rnd` is the source of randomness.  The sample is taken from the entries that
        have been shuffled to the front. */
    method GetAddr_(rnd: nat -> nat, nNow: int) returns (vAddr: seq<Address>, ghost picks: seq<nat>)
      requires Inv(nKey, Value())
      modifies this
      ensures Sampling(old(Value()), picks, vAddr, nNow) && Inv(nKey, Value())
      ensures |vAddr| <= GETADDR_MAX && 100 * |vAddr| <= GETADDR_MAX_PCT * |vRandom|
      ensures |picks| == |vRandom| || |vAddr| == GETADDR_MAX || 100 * (|vAddr| + 1) > GETADDR_MAX_PCT * |vRandom|
    {
      hide InvWith;
      hide Mod;
      vAddr, picks := [], [];
      var nNodes := GETADDR_MAX_PCT * |vRandom| / 100;
      if nNodes > GETADDR_MAX {
        nNodes := GETADDR_MAX;
      }
      SamplingStarts(nNow);
      hide Sampling;
      var n := 0;
      while n < |vRandom| && |vAddr| < nNodes
        invariant n == |picks| <= |vRandom| == |old(vRandom)| && |vAddr| <= nNodes && Sampling(old(Value()), picks, vAddr, nNow)
        decreases |old(vRandom)| - n
      {
        var nRndPos := n + Mod(rnd(n), |vRandom| - n);
        vAddr := SampleOne(n, nRndPos, vAddr, nNow, old(Value()), picks);
        picks := picks + [nRndPos];
        n := n + 1;
      }
      SamplingKeeps(old(Value()), picks, vAddr, nNow);
    }

    lemma SamplingStarts(nNow: int)
      requires Inv(nKey, Value())
      ensures Sampling(Value(), [], [], nNow)
    {
      hide InvWith;
      O.IndicesAreKnown(nKey, Value());
      O.NoPicks(nKey, Value());
    }

    lemma SamplingKeeps(start: State, picks: seq<nat>, vAddr: seq<Address>, nNow: int)
      requires Sampling(start, picks, vAddr, nNow)
      ensures Inv(nKey, Value())
    {
      hide InvWith;
      hide O.GoodPicks;
    }
  }

  /** Swapping at or after n leaves the first n entries where they are. */
  lemma SwapTail(st: State, n: nat, j: nat)
    requires CanSwap(st, n, j) && n <= j
    ensures var t := SwapRandom(st, n, j);
            && |t.vRandom| == |st.vRandom| && t.mapInfo.Keys == st.mapInfo.Keys
            && (forall i :: 0 <= i < n ==> t.vRandom[i] == st.vRandom[i])
            && (forall k :: k in st.mapInfo ==> t.mapInfo[k] == st.mapInfo[k].(nRandomPos := t.mapInfo[k].nRandomPos))
  {
    if n != j {
      MovedSpares(st.mapInfo, st.vRandom[n], j);
      MovedSpares(Moved(st.mapInfo, st.vRandom[n], j), st.vRandom[j], n);
    }
  }

  /** Every bucket is reached from a random start. */
  lemma Rotated(b: nat, nRnd: nat) returns (k: nat)
    requires b < NEW_BUCKET_COUNT
    ensures k < NEW_BUCKET_COUNT && Rotate(k, nRnd) == b
  {
    k := (b + NEW_BUCKET_COUNT - nRnd % NEW_BUCKET_COUNT) % NEW_BUCKET_COUNT;
  }

  lemma LastGoodIsFree(key: Key, st: State, nTime: int)
    requires Inv(key, st)
    ensures Inv(key, st.(nLastGood := nTime))
  {
  }

  lemma KnownId(key: Key, st: State, ip: NetAddr)
    requires Inv(key, st) && ip in st.mapAddr
    ensures st.mapAddr[ip] in st.mapInfo
  {
  }

  lemma NewPart(key: Key, st: State, id: Id)
    requires Inv(key, st) && id in st.mapInfo
    ensures NewTable(key, st.mapInfo, st.vvNew) && st.mapInfo[id].nRefCount == |Refs(st.vvNew, id)|
  {
  }

  /** vvNew after the entry has been removed from the buckets below b. */
  function LeftBuckets(vvNew: map<Slot, Id>, id: Id, b: nat): map<Slot, Id> {
    map s | s in vvNew && !(vvNew[s] == id && s.bucket < b) :: vvNew[s]
  }

  lemma LeftNone(vvNew: map<Slot, Id>, id: Id)
    ensures LeftBuckets(vvNew, id, 0) == vvNew
  {
  }

  /** In its bucket, an entry can only be at its own position. */
  lemma LeftOneMore(key: Key, st: State, id: Id, b: nat, slot: Slot)
    requires NewTable(key, st.mapInfo, st.vvNew) && id in st.mapInfo && slot == SlotIn(key, st.mapInfo[id].addr.service, b)
    ensures var v, v' := LeftBuckets(st.vvNew, id, b), LeftBuckets(st.vvNew, id, b + 1);
            if slot in v && v[slot] == id then v' == v - {slot} && |Refs(v', id)| == |Refs(v, id)| - 1 else v' == v
  {
    var v, v' := LeftBuckets(st.vvNew, id, b), LeftBuckets(st.vvNew, id, b + 1);
    OnlyHome(key, st, id, b);
    if slot in v && v[slot] == id {
      assert v' == v - {slot};
      RefsDrop(v, slot, id);
      assert slot in Refs(v, id);
    } else {
      assert v' == v;
    }
  }

  lemma LeftAll(key: Key, st: State, id: Id)
    requires NewTable(key, st.mapInfo, st.vvNew) && id in st.mapInfo
    ensures LeftBuckets(st.vvNew, id, NEW_BUCKET_COUNT) == LeaveNew(st, id).vvNew
    ensures Refs(LeftBuckets(st.vvNew, id, NEW_BUCKET_COUNT), id) == {}
  {
    OnlyBuckets(key, st);
  }

  /** In its bucket, an entry can only be at its own position. */
  lemma OnlyHome(key: Key, st: State, id: Id, bucket: nat)
    requires NewTable(key, st.mapInfo, st.vvNew) && id in st.mapInfo
    ensures forall s :: s in st.vvNew && st.vvNew[s] == id && s.bucket == bucket ==> s == SlotIn(key, st.mapInfo[id].addr.service, bucket)
  {
  }

  lemma OnlyBuckets(key: Key, st: State)
    requires NewTable(key, st.mapInfo, st.vvNew)
    ensures forall s :: s in st.vvNew ==> s.bucket < NEW_BUCKET_COUNT
  {
  }
}
