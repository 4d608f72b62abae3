/**
 The public operations of the address manager, and the theorem about every run of
 them from a fresh object.
 */
module AddrManOps {
  import opened AddrMan
  import opened AddrManSteps
  import opened AddrManMoves

  // -------------------------------------------------------------------- MakeTried

  /** The evicted entry goes back to "new", displacing whatever has its slot there. */
  ghost function MakeRoom(key: Key, st: State, slot: Slot, id: Id): State
    requires InvWith(key, st, {id}, 0)
  {
    if slot !in st.vvTried then st
    else
      LeaveTriedKeeps(key, st, slot, {id});
      var evicted, s := st.vvTried[slot], LeaveTried(st, slot);
      var nslot := NewSlot(key, s.mapInfo[evicted].addr.service, s.mapInfo[evicted].source);
      ClearNewKeeps(key, s, nslot, {id} + {evicted}, 0);
      var t := ClearNew(s, nslot);
      assert evicted in t.mapInfo;
      AddRef(t, nslot, evicted).(nNew := t.nNew + 1)
  }

  lemma RoomForEvicted(key: Key, st: State, slot: Slot, id: Id)
    requires InvWith(key, st, {id}, 0) && slot in st.vvTried
    ensures InvWith(key, MakeRoom(key, st, slot, id), {id}, 0)
    ensures slot !in MakeRoom(key, st, slot, id).vvTried
  {
    hide InvWith;
    hide ClearNew;
    LeaveTriedKeeps(key, st, slot, {id});
    var evicted, s := st.vvTried[slot], LeaveTried(st, slot);
    var nslot := NewSlot(key, s.mapInfo[evicted].addr.service, s.mapInfo[evicted].source);
    var limbo := {id} + {evicted};
    ClearNewKeeps(key, s, nslot, limbo, 0);
    ClearNewSpares(key, s, nslot);
    LimboSurvives(key, s, nslot, limbo, evicted);
    NoRefs(key, s, evicted, limbo, 0);
    var t := ClearNew(s, nslot);
    AddRefKeeps(key, t, nslot, evicted, limbo, 0);
    assert limbo - {evicted} == {id};
    OneMore(key, AddRef(t, nslot, evicted), {id}, -1);
  }

  lemma OneMore(key: Key, st: State, limbo: set<Id>, extra: int)
    requires InvWith(key, st, limbo, extra)
    ensures InvWith(key, st.(nNew := st.nNew + 1), limbo, extra + 1)
  {
  }

  /** An entry in limbo is in no slot, so ClearNew leaves it alone. */
  lemma LimboSurvives(key: Key, st: State, slot: Slot, limbo: set<Id>, id: Id)
    requires InvWith(key, st, limbo, 0) && id in limbo && CanClear(st, slot)
    ensures id in st.mapInfo && id in ClearNew(st, slot).mapInfo
    ensures var m := ClearNew(st, slot).mapInfo; m[id] == st.mapInfo[id].(nRandomPos := m[id].nRandomPos)
  {
    hide InvWith;
    hide ClearNew;
    NoRefs(key, st, id, limbo, 0);
    ClearNewSpares(key, st, slot);
    if slot in st.vvNew {
      assert st.vvNew[slot] != id by {
        assert slot !in Refs(st.vvNew, id);
      }
    }
  }

  lemma RoomSparesId(key: Key, st: State, slot: Slot, id: Id)
    requires InvWith(key, st, {id}, 0)
    ensures id in st.mapInfo && id in MakeRoom(key, st, slot, id).mapInfo
    ensures var m := MakeRoom(key, st, slot, id).mapInfo; m[id] == st.mapInfo[id].(nRandomPos := m[id].nRandomPos)
  {
    if slot in st.vvTried {
      LeaveTriedKeeps(key, st, slot, {id});
      var evicted, s := st.vvTried[slot], LeaveTried(st, slot);
      var nslot := NewSlot(key, s.mapInfo[evicted].addr.service, s.mapInfo[evicted].source);
      ClearNewKeeps(key, s, nslot, {id} + {evicted}, 0);
      LimboSurvives(key, s, nslot, {id} + {evicted}, id);
    }
  }

  ghost function MakeTried(key: Key, st: State, id: Id): State
    requires Inv(key, st) && id in st.mapInfo && !st.mapInfo[id].fInTried
  {
    LeaveNewKeeps(key, st, id);
    var s, slot := LeaveNew(st, id), TriedSlot(key, st.mapInfo[id].addr.service);
    RoomSparesId(key, s, slot, id);
    EnterTried(MakeRoom(key, s, slot, id), slot, id)
  }

  /** A successful entry moves to "tried": nothing is lost but what had to make
      room, and every assert of MakeTried holds. */
  lemma MakeTriedKeeps(key: Key, st: State, id: Id)
    requires Inv(key, st) && id in st.mapInfo && !st.mapInfo[id].fInTried && st.mapInfo[id].nLastSuccess != 0
    ensures Inv(key, MakeTried(key, st, id))
    ensures id in MakeTried(key, st, id).mapInfo && MakeTried(key, st, id).mapInfo[id].fInTried
  {
    LeaveNewKeeps(key, st, id);
    var s, slot := LeaveNew(st, id), TriedSlot(key, st.mapInfo[id].addr.service);
    RoomSparesId(key, s, slot, id);
    if slot in s.vvTried {
      RoomForEvicted(key, s, slot, id);
    }
    EnterTriedKeeps(key, MakeRoom(key, s, slot, id), slot, id);
  }

  // ----------------------------------------------------------------- simple updates

  /** Replace the info of a known entry. */
  function SetInfo(st: State, id: Id, info: Info): State {
    st.(mapInfo := st.mapInfo[id := info])
  }

  predicate SameButStats(a: Info, b: Info) {
    SamePlace(a, b) && a.nRefCount == b.nRefCount && a.fInTried == b.fInTried
  }

  lemma SetInfoKeeps(key: Key, st: State, id: Id, info: Info)
    requires Inv(key, st) && id in st.mapInfo && SameButStats(info, st.mapInfo[id]) && GoodStats(info)
    ensures Inv(key, SetInfo(st, id, info))
  {
    IndexedUpdate(st.nIdCount, st.mapInfo, st.mapAddr, st.vRandom, id, info);
    StatsUpdate(st.mapInfo, id, info);
    UpdateSameEntries(st.mapInfo, id, info);
    FieldsKeep(key, st, SetInfo(st, id, info), {}, 0);
  }

  lemma StatsAreGood(key: Key, st: State, id: Id)
    requires Inv(key, st) && id in st.mapInfo
    ensures GoodStats(st.mapInfo[id])
  {
  }

  lemma UpdateSameEntries(m: map<Id, Info>, n: Id, info: Info)
    requires n in m && SameButStats(info, m[n])
    ensures SameEntries(m, m[n := info])
  {
  }

  /** The entry that Find returns, if it is for exactly this service. */
  predicate Knows(st: State, addr: Service) {
    addr.ip in st.mapAddr && st.mapAddr[addr.ip] in st.mapInfo && st.mapInfo[st.mapAddr[addr.ip]].addr.service == addr
  }

  /** The search in Good_ for a bucket that holds the entry. */
  ghost predicate InSomeBucket(key: Key, st: State, id: Id)
    requires id in st.mapInfo
  {
    exists b: nat :: b < NEW_BUCKET_COUNT && HeldIn(key, st, id, b)
  }

  predicate HeldIn(key: Key, st: State, id: Id, b: nat)
    requires id in st.mapInfo
  {
    var s := SlotIn(key, st.mapInfo[id].addr.service, b); s in st.vvNew && st.vvNew[s] == id
  }

  /** ... always finds one: the "no bucket found" bail-out is unreachable. */
  lemma BucketIsFound(key: Key, st: State, id: Id)
    requires Inv(key, st) && id in st.mapInfo && !st.mapInfo[id].fInTried
    ensures InSomeBucket(key, st, id)
  {
    assert RefsInRange(id, st.mapInfo[id], {});
    assert |Refs(st.vvNew, id)| >= 1;
    var s :| s in Refs(st.vvNew, id);
    assert NewHome(key, st.mapInfo[id].addr.service, s);
    assert HeldIn(key, st, id, s.bucket);
  }

  ghost function Good(key: Key, st: State, addr: Service, nTime: int): State
    requires Inv(key, st) && nTime > 0
  {
    var s := st.(nLastGood := nTime);
    if !Knows(st, addr) then s
    else
      var id := st.mapAddr[addr.ip];
      var info := st.mapInfo[id].(nLastSuccess := nTime, nLastTry := nTime, nAttempts := 0);
      SetInfoKeeps(key, s, id, info);
      var t := SetInfo(s, id, info);
      if info.fInTried || !InSomeBucket(key, t, id) then t else MakeTried(key, t, id)
  }

  lemma GoodKeeps(key: Key, st: State, addr: Service, nTime: int)
    requires Inv(key, st) && nTime > 0
    ensures Inv(key, Good(key, st, addr, nTime))
    ensures Knows(st, addr) ==> Knows(Good(key, st, addr, nTime), addr)
    ensures Knows(st, addr) ==>
              var m := Good(key, st, addr, nTime).mapInfo;
              st.mapAddr[addr.ip] in m && m[st.mapAddr[addr.ip]].fInTried
  {
    if Knows(st, addr) {
      var id := st.mapAddr[addr.ip];
      var info := st.mapInfo[id].(nLastSuccess := nTime, nLastTry := nTime, nAttempts := 0);
      var s := st.(nLastGood := nTime);
      SetInfoKeeps(key, s, id, info);
      var t := SetInfo(s, id, info);
      if !info.fInTried {
        BucketIsFound(key, t, id);
        MakeTriedKeeps(key, t, id);
        MadeTriedIsKnown(key, t, id);
      }
    }
  }

  lemma MadeTriedIsKnown(key: Key, st: State, id: Id)
    requires Inv(key, st) && id in st.mapInfo && !st.mapInfo[id].fInTried && st.mapInfo[id].nLastSuccess != 0
    ensures Knows(MakeTried(key, st, id), st.mapInfo[id].addr.service)
    ensures MakeTried(key, st, id).mapAddr[st.mapInfo[id].addr.service.ip] == id
  {
    MakeTriedKeeps(key, st, id);
    LeaveNewKeeps(key, st, id);
    var s, slot := LeaveNew(st, id), TriedSlot(key, st.mapInfo[id].addr.service);
    RoomSparesId(key, s, slot, id);
    var t := MakeTried(key, st, id);
    assert Listed(id, t.mapInfo[id], t.mapAddr, t.vRandom);
  }

  function Attempt(st: State, addr: Service, fCountFailure: bool, nTime: int): State {
    if !Knows(st, addr) then st
    else
      var id := st.mapAddr[addr.ip];
      var info := st.mapInfo[id].(nLastTry := nTime);
      SetInfo(st, id, if fCountFailure && info.nLastCountAttempt < st.nLastGood
                      then info.(nLastCountAttempt := nTime, nAttempts := info.nAttempts + 1) else info)
  }

  function Connected(st: State, addr: Service, nTime: int): State {
    if !Knows(st, addr) then st
    else
      var id := st.mapAddr[addr.ip];
      var info := st.mapInfo[id];
      if nTime - info.addr.nTime > 20 * 60 then SetInfo(st, id, info.(addr := info.addr.(nTime := nTime))) else st
  }

  function SetServices(st: State, addr: Service, nServices: set<nat>): State {
    if !Knows(st, addr) then st
    else
      var id := st.mapAddr[addr.ip];
      SetInfo(st, id, st.mapInfo[id].(addr := st.mapInfo[id].addr.(nServices := nServices)))
  }

  lemma AttemptKeeps(key: Key, st: State, addr: Service, fCountFailure: bool, nTime: int)
    requires Inv(key, st) && nTime >= 0
    ensures Inv(key, Attempt(st, addr, fCountFailure, nTime))
  {
    hide Inv;
    if Knows(st, addr) {
      var id := st.mapAddr[addr.ip];
      StatsAreGood(key, st, id);
      SetInfoKeeps(key, st, id, Attempt(st, addr, fCountFailure, nTime).mapInfo[id]);
    }
  }

  lemma ConnectedKeeps(key: Key, st: State, addr: Service, nTime: int)
    requires Inv(key, st)
    ensures Inv(key, Connected(st, addr, nTime))
  {
    hide Inv;
    if Knows(st, addr) {
      var id := st.mapAddr[addr.ip];
      StatsAreGood(key, st, id);
      SetInfoKeeps(key, st, id, st.mapInfo[id].(addr := st.mapInfo[id].addr.(nTime := nTime)));
    }
  }

  lemma SetServicesKeeps(key: Key, st: State, addr: Service, nServices: set<nat>)
    requires Inv(key, st)
    ensures Inv(key, SetServices(st, addr, nServices))
  {
    hide Inv;
    if Knows(st, addr) {
      var id := st.mapAddr[addr.ip];
      StatsAreGood(key, st, id);
      SetInfoKeeps(key, st, id, st.mapInfo[id].(addr := st.mapInfo[id].addr.(nServices := nServices)));
    }
  }

  // --------------------------------------------------------------------------- Add

  /** The end of Add_: try to give the entry a reference in the bucket of `source`. */
  ghost function Insert(key: Key, st: State, id: Id, source: NetAddr, nNow: int, limbo: set<Id>, extra: int): State
    requires InvWith(key, st, limbo, extra) && limbo <= {id} && id in st.mapInfo
    requires !st.mapInfo[id].fInTried
  {
    var slot := NewSlot(key, st.mapInfo[id].addr.service, source);
    if slot in st.vvNew && st.vvNew[slot] == id then st
    else if slot !in st.vvNew || Overwrites(st, slot, id, nNow) then
      ClearNewKeeps(key, st, slot, limbo, extra);
      ClearNewSpares(key, st, slot);
      AddRef(ClearNew(st, slot), slot, id)
    else if st.mapInfo[id].nRefCount == 0 then
      ZeroRefsInLimbo(key, st, id, limbo, extra);
      LimboCanBeDeleted(key, st, id, limbo, extra);
      Delete(st, id)
    else st
  }

  predicate Overwrites(st: State, slot: Slot, id: Id, nNow: int)
    requires id in st.mapInfo
  {
    && slot in st.vvNew && st.vvNew[slot] in st.mapInfo
    && var existing := st.mapInfo[st.vvNew[slot]];
       IsTerrible(existing, nNow) || (existing.nRefCount > 1 && st.mapInfo[id].nRefCount == 0)
  }

  lemma ZeroRefsInLimbo(key: Key, st: State, id: Id, limbo: set<Id>, extra: int)
    requires InvWith(key, st, limbo, extra) && id in st.mapInfo && !st.mapInfo[id].fInTried && st.mapInfo[id].nRefCount == 0
    ensures id in limbo
  {
    assert RefsInRange(id, st.mapInfo[id], limbo);
  }

  lemma NewSlotIsHome(key: Key, service: Service, source: NetAddr)
    ensures NewHome(key, service, NewSlot(key, service, source))
  {
  }

  lemma InsertRefKeeps(key: Key, st: State, id: Id, slot: Slot, limbo: set<Id>, extra: int)
    requires InvWith(key, st, limbo, extra) && id in st.mapInfo && !st.mapInfo[id].fInTried
    requires st.mapInfo[id].nRefCount < NEW_BUCKETS_PER_ADDRESS && NewHome(key, st.mapInfo[id].addr.service, slot)
    requires slot in st.vvNew ==> st.vvNew[slot] != id
    ensures CanClear(st, slot) && id in ClearNew(st, slot).mapInfo
    ensures InvWith(key, AddRef(ClearNew(st, slot), slot, id), limbo - {id}, if id in limbo then extra - 1 else extra)
  {
    hide InvWith;
    ClearNewKeeps(key, st, slot, limbo, extra);
    ClearNewSpares(key, st, slot);
    AddRefKeeps(key, ClearNew(st, slot), slot, id, limbo, extra);
  }

  /** Whatever branch it takes, the end of Add_ leaves nothing in limbo. */
  lemma InsertKeeps(key: Key, st: State, id: Id, source: NetAddr, nNow: int, limbo: set<Id>, extra: int)
    requires InvWith(key, st, limbo, extra) && id in st.mapInfo && !st.mapInfo[id].fInTried
    requires (limbo == {} && extra == 0) || (limbo == {id} && extra == 1)
    requires st.mapInfo[id].nRefCount < NEW_BUCKETS_PER_ADDRESS
    ensures Inv(key, Insert(key, st, id, source, nNow, limbo, extra))
  {
    hide InvWith;
    var slot := NewSlot(key, st.mapInfo[id].addr.service, source);
    NewSlotIsHome(key, st.mapInfo[id].addr.service, source);
    assert limbo - {id} == {};
    if slot in st.vvNew && st.vvNew[slot] == id {
      HeldIsNotInLimbo(key, st, id, slot, limbo, extra);
    } else if slot !in st.vvNew || Overwrites(st, slot, id, nNow) {
      InsertRefKeeps(key, st, id, slot, limbo, extra);
    } else if st.mapInfo[id].nRefCount == 0 {
      ZeroRefsInLimbo(key, st, id, limbo, extra);
      DeleteKeeps(key, st, id, limbo, extra);
    } else {
      CountedIsNotInLimbo(key, st, id, limbo, extra);
    }
  }

  lemma HeldIsNotInLimbo(key: Key, st: State, id: Id, slot: Slot, limbo: set<Id>, extra: int)
    requires InvWith(key, st, limbo, extra) && slot in st.vvNew && st.vvNew[slot] == id
    ensures id !in limbo
  {
    assert slot in Refs(st.vvNew, id);
    if id in limbo {
      NoRefs(key, st, id, limbo, extra);
    }
  }

  lemma CountedIsNotInLimbo(key: Key, st: State, id: Id, limbo: set<Id>, extra: int)
    requires InvWith(key, st, limbo, extra) && id in st.mapInfo && st.mapInfo[id].nRefCount != 0
    ensures id !in limbo
  {
    assert RefsInRange(id, st.mapInfo[id], limbo);
  }

  function Max0(x: int): int { if x < 0 then 0 else x }

  /** The update of a known entry at the start of Add_. */
  function Refreshed(info: Info, addr: Address, nTimePenalty: int, nNow: int): Info {
    var nUpdateInterval := if nNow - addr.nTime < 24 * 60 * 60 then 60 * 60 else 24 * 60 * 60;
    var nTime := if addr.nTime != 0 && (info.addr.nTime == 0 || info.addr.nTime < addr.nTime - nUpdateInterval - nTimePenalty)
                 then Max0(addr.nTime - nTimePenalty) else info.addr.nTime;
    info.(addr := info.addr.(nTime := nTime, nServices := info.addr.nServices + addr.nServices))
  }

  /** A known entry gets a further reference only if all these tests pass; `lucky`
      is the outcome of the stochastic one. */
  predicate WantsRef(info: Info, addr: Address, lucky: bool) {
    && addr.nTime != 0 && (info.addr.nTime == 0 || addr.nTime > info.addr.nTime)
    && !info.fInTried && info.nRefCount != NEW_BUCKETS_PER_ADDRESS && (info.nRefCount > 0 ==> lucky)
  }

  ghost function Add(key: Key, st: State, addr: Address, source: NetAddr, nTimePenalty: int, nNow: int, routable: bool, lucky: bool): State
    requires Inv(key, st)
  {
    if !routable then st
    else if addr.service.ip in st.mapAddr then
      var id := st.mapAddr[addr.service.ip];
      var info := Refreshed(st.mapInfo[id], addr, nTimePenalty, nNow);
      RefreshKeeps(key, st, id, addr, nTimePenalty, nNow);
      var s := SetInfo(st, id, info);
      if WantsRef(info, addr, lucky) then Insert(key, s, id, source, nNow, {}, 0) else s
    else
      CreatedKeeps(key, st, addr, source, nTimePenalty);
      Insert(key, Created(st, addr, source, nTimePenalty), st.nIdCount, source, nNow, {st.nIdCount}, 1)
  }

  function Created(st: State, addr: Address, source: NetAddr, nTimePenalty: int): State {
    var s := Create(st, addr.(nTime := Max0(addr.nTime - nTimePenalty)), source);
    s.(nNew := s.nNew + 1)
  }

  lemma CreatedKeeps(key: Key, st: State, addr: Address, source: NetAddr, nTimePenalty: int)
    requires Inv(key, st) && addr.service.ip !in st.mapAddr
    ensures InvWith(key, Created(st, addr, source, nTimePenalty), {st.nIdCount}, 1)
    ensures st.nIdCount in Created(st, addr, source, nTimePenalty).mapInfo
    ensures var info := Created(st, addr, source, nTimePenalty).mapInfo[st.nIdCount]; !info.fInTried && info.nRefCount == 0
  {
    hide InvWith;
    var a := addr.(nTime := Max0(addr.nTime - nTimePenalty));
    CreateKeeps(key, st, a, source);
    OneMore(key, Create(st, a, source), {st.nIdCount}, 0);
  }

  lemma RefreshKeeps(key: Key, st: State, id: Id, addr: Address, nTimePenalty: int, nNow: int)
    requires Inv(key, st) && id in st.mapInfo
    ensures Inv(key, SetInfo(st, id, Refreshed(st.mapInfo[id], addr, nTimePenalty, nNow)))
  {
    assert GoodStats(st.mapInfo[id]);
    SetInfoKeeps(key, st, id, Refreshed(st.mapInfo[id], addr, nTimePenalty, nNow));
  }

  lemma AddKeeps(key: Key, st: State, addr: Address, source: NetAddr, nTimePenalty: int, nNow: int, routable: bool, lucky: bool)
    requires Inv(key, st)
    ensures Inv(key, Add(key, st, addr, source, nTimePenalty, nNow, routable, lucky))
  {
    if routable {
      if addr.service.ip in st.mapAddr {
        var id := st.mapAddr[addr.service.ip];
        var info := Refreshed(st.mapInfo[id], addr, nTimePenalty, nNow);
        RefreshKeeps(key, st, id, addr, nTimePenalty, nNow);
        var s := SetInfo(st, id, info);
        assert RefsInRange(id, s.mapInfo[id], {});
        if WantsRef(info, addr, lucky) {
          InsertKeeps(key, s, id, source, nNow, {}, 0);
        }
      } else {
        CreatedKeeps(key, st, addr, source, nTimePenalty);
        InsertKeeps(key, Created(st, addr, source, nTimePenalty), st.nIdCount, source, nNow, {st.nIdCount}, 1);
      }
    }
  }

  // ----------------------------------------------------------------------- GetAddr

  /** The shuffle of GetAddr_: position n is swapped with picks[n], a random later one. */
  predicate GoodPicks(st: State, picks: seq<nat>) {
    |picks| <= |st.vRandom| && forall n :: 0 <= n < |picks| ==> n <= picks[n] < |st.vRandom|
  }

  ghost function Shuffle(key: Key, st: State, picks: seq<nat>): (r: State)
    requires Inv(key, st) && GoodPicks(st, picks)
    ensures Inv(key, r) && |r.vRandom| == |st.vRandom|
    decreases |picks|
  {
    if picks == [] then st
    else
      var n := |picks| - 1;
      var s := Shuffle(key, st, picks[..n]);
      SwapIsSafe(key, s, n, picks[n]);
      SwapRandom(s, n, picks[n])
  }

  lemma NoPicks(key: Key, st: State)
    requires Inv(key, st)
    ensures GoodPicks(st, []) && Shuffle(key, st, []) == st
  {
  }

  lemma ShuffleNext(key: Key, st: State, picks: seq<nat>, j: nat)
    requires Inv(key, st) && GoodPicks(st, picks) && |picks| <= j < |st.vRandom|
    ensures GoodPicks(st, picks + [j]) && CanSwap(Shuffle(key, st, picks), |picks|, j)
    ensures Shuffle(key, st, picks + [j]) == SwapRandom(Shuffle(key, st, picks), |picks|, j)
  {
    hide Inv;
    hide SwapRandom;
    assert (picks + [j])[..|picks|] == picks;
    SwapIsSafe(key, Shuffle(key, st, picks), |picks|, j);
  }

  lemma SwapIsSafe(key: Key, st: State, i: nat, j: nat)
    requires Inv(key, st) && i < |st.vRandom| && j < |st.vRandom|
    ensures CanSwap(st, i, j) && Inv(key, SwapRandom(st, i, j)) && |SwapRandom(st, i, j).vRandom| == |st.vRandom|
  {
    hide InvWith;
    IndicesAreKnown(key, st);
    SwapKeeps(key, st, i, j, {}, 0);
  }

  lemma IndicesAreKnown(key: Key, st: State)
    requires Inv(key, st)
    ensures forall k :: 0 <= k < |st.vRandom| ==> st.vRandom[k] in st.mapInfo
  {
  }

  // ------------------------------------------------------------------- whole runs

  datatype Op =
    | DoAdd(addr: Address, source: NetAddr, nTimePenalty: int, nNow: int, routable: bool, lucky: bool)
    | DoGood(service: Service, nTime: int)
    | DoAttempt(service: Service, fCountFailure: bool, nTime: int)
    | DoConnected(service: Service, nTime: int)
    | DoSetServices(service: Service, nServices: set<nat>)
    | DoGetAddr(picks: seq<nat>)

  predicate Legal(st: State, op: Op) {
    match op
    case DoGood(_, nTime) => nTime > 0
    case DoAttempt(_, _, nTime) => nTime > 0
    case DoGetAddr(picks) => GoodPicks(st, picks)
    case _ => true
  }

  ghost function Apply(key: Key, st: State, op: Op): State
    requires Inv(key, st) && Legal(st, op)
  {
    hide InvWith;
    match op
    case DoAdd(addr, source, nTimePenalty, nNow, routable, lucky) => Add(key, st, addr, source, nTimePenalty, nNow, routable, lucky)
    case DoGood(service, nTime) => Good(key, st, service, nTime)
    case DoAttempt(service, fCountFailure, nTime) => Attempt(st, service, fCountFailure, nTime)
    case DoConnected(service, nTime) => Connected(st, service, nTime)
    case DoSetServices(service, nServices) => SetServices(st, service, nServices)
    case DoGetAddr(picks) => Shuffle(key, st, picks)
  }

  lemma ApplyKeeps(key: Key, st: State, op: Op)
    requires Inv(key, st) && Legal(st, op)
    ensures Inv(key, Apply(key, st, op))
  {
    match op
    case DoAdd(addr, source, nTimePenalty, nNow, routable, lucky) => AddKeeps(key, st, addr, source, nTimePenalty, nNow, routable, lucky);
    case DoGood(service, nTime) => GoodKeeps(key, st, service, nTime);
    case DoAttempt(service, fCountFailure, nTime) => AttemptKeeps(key, st, service, fCountFailure, nTime);
    case DoConnected(service, nTime) => ConnectedKeeps(key, st, service, nTime);
    case DoSetServices(service, nServices) => SetServicesKeeps(key, st, service, nServices);
    case DoGetAddr(picks) =>
  }

  /** A run from a fresh address manager: states[0] is empty, each next state is
      the effect of one operation. */
  ghost predicate IsRun(key: Key, states: seq<State>, ops: seq<Op>) {
    |states| == |ops| + 1 && states[0] == EMPTY && forall i :: 0 <= i < |ops| ==> IsStep(key, states[i], ops[i], states[i + 1])
  }

  ghost predicate IsStep(key: Key, st: State, op: Op, t: State) {
    Inv(key, st) ==> Legal(st, op) && t == Apply(key, st, op)
  }

  lemma {:induction false} EveryRunKeepsInv(key: Key, states: seq<State>, ops: seq<Op>, k: nat)
    requires IsRun(key, states, ops) && k <= |ops|
    ensures Inv(key, states[k])
  {
    hide Inv;
    hide Apply;
    hide Legal;
    if k == 0 {
      EmptyIsValid(key);
    } else {
      EveryRunKeepsInv(key, states, ops, k - 1);
      assert IsStep(key, states[k - 1], ops[k - 1], states[k]);
      ApplyKeeps(key, states[k - 1], ops[k - 1]);
    }
  }
}
