/**
 What each operation of the address manager does to the entries and the tables.
 Random positions are left aside; with them, `mapAddr`, `vRandom` and the counters
 are determined by the invariant.
 */
module AddrManEffects {
  import opened AddrMan
  import opened AddrManSteps
  import opened AddrManMoves
  import opened AddrManOps

  /** The entries without their random positions. */
  function Entries(m: map<Id, Info>): map<Id, Info> {
    map n | n in m :: m[n].(nRandomPos := 0)
  }

  function Book(st: State): map<Id, Info> {
    Entries(st.mapInfo)
  }

  /** Fields that only few operations touch. */
  predicate SameRest(st: State, t: State) {
    t.nIdCount == st.nIdCount && t.vvTried == st.vvTried && t.nLastGood == st.nLastGood
  }

  // ------------------------------------------------------------------------ single steps

  lemma EntriesUpdate(m: map<Id, Info>, n: Id, info: Info)
    ensures Entries(m[n := info]) == Entries(m)[n := info.(nRandomPos := 0)]
  {
  }

  lemma EntriesRemove(m: map<Id, Info>, n: Id)
    ensures Entries(m - {n}) == Entries(m) - {n}
  {
  }

  lemma SwapEffect(st: State, i: nat, j: nat)
    requires CanSwap(st, i, j)
    ensures var t := SwapRandom(st, i, j); Book(t) == Book(st) && t.vvNew == st.vvNew && SameRest(st, t)
  {
    if i != j {
      MovedSpares(st.mapInfo, st.vRandom[i], j);
      MovedSpares(Moved(st.mapInfo, st.vRandom[i], j), st.vRandom[j], i);
    }
  }

  lemma DeleteEffect(st: State, id: Id)
    requires CanDelete(st, id)
    ensures var t := Delete(st, id); Book(t) == Book(st) - {id} && t.vvNew == st.vvNew && SameRest(st, t)
  {
    hide SwapRandom;
    hide Entries;
    var i, j := st.mapInfo[id].nRandomPos, |st.vRandom| - 1;
    SwapEffect(st, i, j);
    EntriesRemove(SwapRandom(st, i, j).mapInfo, id);
  }

  /** The entries after a slot has been freed: its occupant has lost a reference, and
      is gone if that was the only one. */
  function Freed(e: map<Id, Info>, vvNew: map<Slot, Id>, slot: Slot): map<Id, Info> {
    if slot !in vvNew || vvNew[slot] !in e then e
    else
      var n := vvNew[slot];
      if e[n].nRefCount == 1 then e - {n} else e[n := e[n].(nRefCount := e[n].nRefCount - 1)]
  }

  lemma ClearEffect(st: State, slot: Slot)
    requires CanClear(st, slot)
    ensures var t := ClearNew(st, slot);
            Book(t) == Freed(Book(st), st.vvNew, slot) && t.vvNew == st.vvNew - {slot} && SameRest(st, t)
  {
    if slot in st.vvNew {
      var n, s := st.vvNew[slot], DropRef(st, slot);
      EntriesUpdate(st.mapInfo, n, st.mapInfo[n].(nRefCount := st.mapInfo[n].nRefCount - 1));
      if s.mapInfo[n].nRefCount == 0 {
        DeleteEffect(s, n);
        assert Book(s) - {n} == Book(st) - {n};
      }
    } else {
      assert st.vvNew - {slot} == st.vvNew;
    }
  }

  // --------------------------------------------------------------------------------- Add

  /** A slot takes a new entry if it is free, or its occupant is terrible or is also
      elsewhere. */
  predicate TakesNew(st: State, slot: Slot, nNow: int) {
    slot in st.vvNew && st.vvNew[slot] in st.mapInfo ==>
      IsTerrible(st.mapInfo[st.vvNew[slot]], nNow) || st.mapInfo[st.vvNew[slot]].nRefCount > 1
  }

  /** It takes a known one, which is elsewhere too, only for a terrible occupant. */
  predicate TakesKnown(st: State, slot: Slot, nNow: int) {
    slot in st.vvNew && st.vvNew[slot] in st.mapInfo ==> IsTerrible(st.mapInfo[st.vvNew[slot]], nNow)
  }

  lemma InsertEffect(key: Key, st: State, id: Id, source: NetAddr, nNow: int, limbo: set<Id>, extra: int)
    requires InvWith(key, st, limbo, extra) && limbo <= {id} && id in st.mapInfo && !st.mapInfo[id].fInTried
    ensures var t, slot := Insert(key, st, id, source, nNow, limbo, extra), NewSlot(key, st.mapInfo[id].addr.service, source);
            && SameRest(st, t)
            && if slot in st.vvNew && st.vvNew[slot] == id then t == st
               else if (if st.mapInfo[id].nRefCount == 0 then TakesNew(st, slot, nNow) else TakesKnown(st, slot, nNow)) then
                 && Book(t) == Freed(Book(st), st.vvNew, slot)[id := Book(st)[id].(nRefCount := Book(st)[id].nRefCount + 1)]
                 && t.vvNew == st.vvNew[slot := id]
               else Book(t) == (if st.mapInfo[id].nRefCount == 0 then Book(st) - {id} else Book(st)) && t.vvNew == st.vvNew
  {
    var slot := NewSlot(key, st.mapInfo[id].addr.service, source);
    hide NewSlot;
    OccupantIsKnown(key, st, slot, limbo, extra);
    hide InvWith;
    hide IsTerrible;
    if slot in st.vvNew && st.vvNew[slot] == id {
    } else if slot !in st.vvNew || Overwrites(st, slot, id, nNow) {
      ClearNewKeeps(key, st, slot, limbo, extra);
      ClearNewSpares(key, st, slot);
      ClearEffect(st, slot);
      InsertedRef(st, slot, id);
    } else if st.mapInfo[id].nRefCount == 0 {
      ZeroRefsInLimbo(key, st, id, limbo, extra);
      LimboCanBeDeleted(key, st, id, limbo, extra);
      DeleteEffect(st, id);
    }
  }

  lemma OccupantIsKnown(key: Key, st: State, slot: Slot, limbo: set<Id>, extra: int)
    requires InvWith(key, st, limbo, extra)
    ensures slot in st.vvNew ==> st.vvNew[slot] in st.mapInfo
  {
  }

  lemma InsertedRef(st: State, slot: Slot, id: Id)
    requires CanClear(st, slot) && id in st.mapInfo && (slot in st.vvNew ==> st.vvNew[slot] != id)
    ensures id in ClearNew(st, slot).mapInfo
    ensures var t := AddRef(ClearNew(st, slot), slot, id);
            && Book(t) == Freed(Book(st), st.vvNew, slot)[id := Book(st)[id].(nRefCount := Book(st)[id].nRefCount + 1)]
            && t.vvNew == st.vvNew[slot := id]
  {
    var c := ClearNew(st, slot);
    ClearEffect(st, slot);
    hide ClearNew;
    hide CanClear;
    assert id in Book(c) && Book(c)[id] == Book(st)[id];
    EntriesUpdate(c.mapInfo, id, c.mapInfo[id].(nRefCount := c.mapInfo[id].nRefCount + 1));
  }

  /** An unknown address: it gets a fresh id, one reference and exactly the slot that
      belongs to its source, or, if that slot does not take it, nothing happens. */
  lemma AddUnknownEffect(key: Key, st: State, addr: Address, source: NetAddr, nTimePenalty: int, nNow: int, lucky: bool)
    requires Inv(key, st) && addr.service.ip !in st.mapAddr
    ensures var t, id, slot := Add(key, st, addr, source, nTimePenalty, nNow, true, lucky), st.nIdCount, NewSlot(key, addr.service, source);
            && id !in st.mapInfo && t.nIdCount == id + 1 && t.vvTried == st.vvTried && t.nLastGood == st.nLastGood
            && if TakesNew(st, slot, nNow) then
                 var nTime := if addr.nTime < nTimePenalty then 0 else addr.nTime - nTimePenalty;
                 && Book(t) == Freed(Book(st), st.vvNew, slot)[id := Info(addr.(nTime := nTime), source, 0, 0, 0, 0, 1, false, 0)]
                 && t.vvNew == st.vvNew[slot := id] && Refs(t.vvNew, id) == {slot}
                 && addr.service.ip in t.mapAddr && t.mapAddr[addr.service.ip] == id
               else Book(t) == Book(st) && t.vvNew == st.vvNew && addr.service.ip !in t.mapAddr
  {
    hide NewSlot;
    hide Created;
    hide Insert;
    hide IsTerrible;
    hide InvWith;
    hide Entries;
    hide Freed;
    var id, slot := st.nIdCount, NewSlot(key, addr.service, source);
    var s := Created(st, addr, source, nTimePenalty);
    var t := Add(key, st, addr, source, nTimePenalty, nNow, true, lucky);
    IdIsFresh(key, st);
    CreatedKeeps(key, st, addr, source, nTimePenalty);
    CreatedEffect(st, addr, source, nTimePenalty);
    AddIsInsert(key, st, addr, source, nTimePenalty, nNow, lucky);
    InsertEffect(key, s, id, source, nNow, {id}, 1);
    AddKeeps(key, st, addr, source, nTimePenalty, nNow, true, lucky);
    hide Add;
    OccupantIsKnown(key, st, slot, {}, 0);
    BookKeys(s);
    BookKeys(st);
    BookKeys(t);
    assert TakesNew(s, slot, nNow) <==> TakesNew(st, slot, nNow);
    if TakesNew(st, slot, nNow) {
      OtherFreed(Book(st), st.vvNew, slot, id, Book(s)[id]);
      NewRefs(key, st, slot);
      IsListed(key, t, id);
    } else {
      assert Book(s) - {id} == Book(st);
      NotListed(key, st, t, addr.service.ip);
    }
  }

  lemma AddIsInsert(key: Key, st: State, addr: Address, source: NetAddr, nTimePenalty: int, nNow: int, lucky: bool)
    requires Inv(key, st) && addr.service.ip !in st.mapAddr
    ensures InvWith(key, Created(st, addr, source, nTimePenalty), {st.nIdCount}, 1)
    ensures var s := Created(st, addr, source, nTimePenalty);
            && st.nIdCount in s.mapInfo && !s.mapInfo[st.nIdCount].fInTried
            && Add(key, st, addr, source, nTimePenalty, nNow, true, lucky) == Insert(key, s, st.nIdCount, source, nNow, {st.nIdCount}, 1)
  {
    hide Created;
    hide Insert;
    hide InvWith;
    CreatedKeeps(key, st, addr, source, nTimePenalty);
  }

  lemma BookKeys(st: State)
    ensures forall n :: n in st.mapInfo <==> n in Book(st)
    ensures forall n :: n in st.mapInfo ==> Book(st)[n] == st.mapInfo[n].(nRandomPos := 0)
  {
  }

  lemma IdIsFresh(key: Key, st: State)
    requires Inv(key, st)
    ensures st.nIdCount !in st.mapInfo && forall s :: s in st.vvNew ==> st.vvNew[s] != st.nIdCount
  {
  }

  lemma CreatedEffect(st: State, addr: Address, source: NetAddr, nTimePenalty: int)
    ensures var s := Created(st, addr, source, nTimePenalty);
            && Book(s) == Book(st)[st.nIdCount := Info(addr.(nTime := if addr.nTime < nTimePenalty then 0 else addr.nTime - nTimePenalty), source, 0, 0, 0, 0, 0, false, 0)]
            && s.vvNew == st.vvNew && s.vvTried == st.vvTried && s.nIdCount == st.nIdCount + 1 && s.nLastGood == st.nLastGood
            && st.nIdCount in s.mapInfo && s.mapInfo[st.nIdCount].addr.service == addr.service
            && forall n :: n in st.mapInfo && n != st.nIdCount ==> n in s.mapInfo && s.mapInfo[n] == st.mapInfo[n]
  {
    var a := addr.(nTime := Max0(addr.nTime - nTimePenalty));
    EntriesUpdate(st.mapInfo, st.nIdCount, Info(a, source, 0, 0, 0, 0, 0, false, |st.vRandom|));
  }

  lemma NewRefs(key: Key, st: State, slot: Slot)
    requires Inv(key, st)
    ensures Refs(st.vvNew[slot := st.nIdCount], st.nIdCount) == {slot}
  {
    IdIsFresh(key, st);
  }

  lemma IsListed(key: Key, t: State, id: Id)
    requires Inv(key, t) && id in Book(t)
    ensures var ip := Book(t)[id].addr.service.ip; ip in t.mapAddr && t.mapAddr[ip] == id
  {
    assert Listed(id, t.mapInfo[id], t.mapAddr, t.vRandom);
  }

  /** The same entries know the same addresses. */
  lemma NotListed(key: Key, st: State, t: State, ip: NetAddr)
    requires Inv(key, st) && Inv(key, t) && Book(t) == Book(st) && ip !in st.mapAddr
    ensures ip !in t.mapAddr
  {
    if ip in t.mapAddr {
      var n := t.mapAddr[ip];
      assert n in Book(t) && Book(t)[n].addr.service.ip == ip;
      IsListed(key, st, n);
    }
  }

  /** The time that a known entry has after another announcement of its address. */
  function NewTime(was: int, announced: int, nTimePenalty: int, nNow: int): int {
    var interval := if nNow - announced < 86400 then 3600 else 86400;
    if announced == 0 || (was != 0 && was >= announced - interval - nTimePenalty) then was
    else if announced < nTimePenalty then 0
    else announced - nTimePenalty
  }

  /** Whether a known entry, with this time then, gets another reference. */
  predicate GetsReference(st: State, id: Id, slot: Slot, announced: int, nTime: int, nNow: int, lucky: bool)
    requires id in st.mapInfo
  {
    && announced != 0 && (nTime == 0 || announced > nTime)
    && !st.mapInfo[id].fInTried && st.mapInfo[id].nRefCount < NEW_BUCKETS_PER_ADDRESS && lucky
    && !(slot in st.vvNew && st.vvNew[slot] == id) && TakesKnown(st, slot, nNow)
  }

  /** A known address: its time and services are brought up to date, and it gets the
      slot that belongs to the new source if all tests pass. */
  lemma AddKnownEffect(key: Key, st: State, addr: Address, source: NetAddr, nTimePenalty: int, nNow: int, lucky: bool)
    requires Inv(key, st) && addr.service.ip in st.mapAddr
    ensures st.mapAddr[addr.service.ip] in st.mapInfo
    ensures var t, id := Add(key, st, addr, source, nTimePenalty, nNow, true, lucky), st.mapAddr[addr.service.ip];
            var was, slot := Book(st)[id], NewSlot(key, st.mapInfo[id].addr.service, source);
            var nTime := NewTime(was.addr.nTime, addr.nTime, nTimePenalty, nNow);
            var info := was.(addr := was.addr.(nTime := nTime, nServices := was.addr.nServices + addr.nServices));
            && SameRest(st, t) && addr.service.ip in t.mapAddr && t.mapAddr[addr.service.ip] == id
            && if GetsReference(st, id, slot, addr.nTime, nTime, nNow, lucky) then
                 && Book(t) == Freed(Book(st), st.vvNew, slot)[id := info.(nRefCount := was.nRefCount + 1)]
                 && t.vvNew == st.vvNew[slot := id]
               else Book(t) == Book(st)[id := info] && t.vvNew == st.vvNew
  {
    hide NewSlot;
    hide IsTerrible;
    hide Insert;
    hide Entries;
    hide Freed;
    hide InvWith;
    hide Refreshed;
    hide SetInfo;
    hide Add;
    AddIsRefresh(key, st, addr, source, nTimePenalty, nNow, lucky);
    var id := st.mapAddr[addr.service.ip];
    var t := Add(key, st, addr, source, nTimePenalty, nNow, true, lucky);
    var info := Refreshed(st.mapInfo[id], addr, nTimePenalty, nNow);
    var s, slot := SetInfo(st, id, info), NewSlot(key, st.mapInfo[id].addr.service, source);
    SetEffect(st, id, info);
    KnownCount(key, st, id);
    OccupantIsKnown(key, st, slot, {}, 0);
    BookKeys(st);
    BookKeys(s);
    BookKeys(t);
    TimeIsNew(st.mapInfo[id], addr, nTimePenalty, nNow);
    if WantsRef(info, addr, lucky) {
      InsertEffect(key, s, id, source, nNow, {}, 0);
      OtherFreed(Book(st), st.vvNew, slot, id, info.(nRandomPos := 0));
    }
    AddKeeps(key, st, addr, source, nTimePenalty, nNow, true, lucky);
    IsListed(key, t, id);
  }

  lemma SetEffect(st: State, id: Id, info: Info)
    requires id in st.mapInfo
    ensures var s := SetInfo(st, id, info);
            && Book(s) == Book(st)[id := info.(nRandomPos := 0)] && s.vvNew == st.vvNew && SameRest(st, s)
            && s.mapAddr == st.mapAddr && s.vRandom == st.vRandom && s.mapInfo[id] == info
            && forall n :: n in st.mapInfo && n != id ==> n in s.mapInfo && s.mapInfo[n] == st.mapInfo[n]
  {
    EntriesUpdate(st.mapInfo, id, info);
  }

  lemma AddIsRefresh(key: Key, st: State, addr: Address, source: NetAddr, nTimePenalty: int, nNow: int, lucky: bool)
    requires Inv(key, st) && addr.service.ip in st.mapAddr
    ensures st.mapAddr[addr.service.ip] in st.mapInfo
    ensures var id := st.mapAddr[addr.service.ip];
            var info := Refreshed(st.mapInfo[id], addr, nTimePenalty, nNow);
            && st.mapInfo[id].addr.service.ip == addr.service.ip
            && InvWith(key, SetInfo(st, id, info), {}, 0)
            && Add(key, st, addr, source, nTimePenalty, nNow, true, lucky)
            == if WantsRef(info, addr, lucky) then Insert(key, SetInfo(st, id, info), id, source, nNow, {}, 0) else SetInfo(st, id, info)
  {
    hide Insert;
    RefreshKeeps(key, st, st.mapAddr[addr.service.ip], addr, nTimePenalty, nNow);
  }

  lemma KnownCount(key: Key, st: State, id: Id)
    requires Inv(key, st) && id in st.mapInfo
    ensures st.mapInfo[id].fInTried || 1 <= st.mapInfo[id].nRefCount <= NEW_BUCKETS_PER_ADDRESS
  {
    assert RefsInRange(id, st.mapInfo[id], {});
  }

  lemma TimeIsNew(was: Info, addr: Address, nTimePenalty: int, nNow: int)
    ensures Refreshed(was, addr, nTimePenalty, nNow)
         == was.(addr := was.addr.(nTime := NewTime(was.addr.nTime, addr.nTime, nTimePenalty, nNow), nServices := was.addr.nServices + addr.nServices))
  {
  }

  /** Freeing another entry's slot commutes with a change of this one. */
  lemma OtherFreed(e: map<Id, Info>, vvNew: map<Slot, Id>, slot: Slot, id: Id, x: Info)
    ensures !(slot in vvNew && vvNew[slot] == id) ==> Freed(e[id := x], vvNew, slot) == Freed(e, vvNew, slot)[id := x]
  {
  }

  /** An address that is not routable is ignored. */
  lemma AddUnroutableEffect(key: Key, st: State, addr: Address, source: NetAddr, nTimePenalty: int, nNow: int, lucky: bool)
    requires Inv(key, st)
    ensures Add(key, st, addr, source, nTimePenalty, nNow, false, lucky) == st
  {
  }

  // -------------------------------------------------------------------------------- Good

  /** The "new" slots of all entries but one. */
  function WithoutId(vvNew: map<Slot, Id>, id: Id): map<Slot, Id> {
    map s | s in vvNew && vvNew[s] != id :: vvNew[s]
  }

  lemma LeaveNewEffect(st: State, id: Id)
    requires id in st.mapInfo
    ensures var t := LeaveNew(st, id);
            Book(t) == Book(st)[id := Book(st)[id].(nRefCount := 0)] && t.vvNew == WithoutId(st.vvNew, id) && SameRest(st, t)
  {
    EntriesUpdate(st.mapInfo, id, st.mapInfo[id].(nRefCount := 0));
  }

  lemma EnterTriedEffect(st: State, slot: Slot, id: Id)
    requires id in st.mapInfo
    ensures var t := EnterTried(st, slot, id);
            && Book(t) == Book(st)[id := Book(st)[id].(fInTried := true)] && t.vvNew == st.vvNew
            && t.vvTried == st.vvTried[slot := id] && t.nIdCount == st.nIdCount && t.nLastGood == st.nLastGood
  {
    EntriesUpdate(st.mapInfo, id, st.mapInfo[id].(fInTried := true));
  }

  /** The entry in a tried slot goes back to "new", to the slot of its own source. */
  lemma MakeRoomEffect(key: Key, st: State, slot: Slot, id: Id)
    requires InvWith(key, st, {id}, 0) && slot in st.vvTried
    ensures st.vvTried[slot] in st.mapInfo && st.vvTried[slot] != id
    ensures var t, n := MakeRoom(key, st, slot, id), st.vvTried[slot];
            var back := NewSlot(key, st.mapInfo[n].addr.service, st.mapInfo[n].source);
            && Book(t) == Freed(Book(st), st.vvNew, back)[n := Book(st)[n].(nRefCount := 1, fInTried := false)]
            && t.vvNew == st.vvNew[back := n] && t.vvTried == st.vvTried - {slot}
            && t.nIdCount == st.nIdCount && t.nLastGood == st.nLastGood && (back in st.vvNew ==> st.vvNew[back] != n)
  {
    hide InvWith;
    hide ClearNew;
    hide CanClear;
    hide NewSlot;
    hide Entries;
    hide Freed;
    LeaveTriedKeeps(key, st, slot, {id});
    var n, s := st.vvTried[slot], LeaveTried(st, slot);
    var back := NewSlot(key, s.mapInfo[n].addr.service, s.mapInfo[n].source);
    var limbo := {id} + {n};
    BookKeys(st);
    EntriesUpdate(st.mapInfo, n, st.mapInfo[n].(fInTried := false));
    ClearNewKeeps(key, s, back, limbo, 0);
    NoRefs(key, s, n, limbo, 0);
    assert back !in Refs(s.vvNew, n);
    InsertedRef(s, back, n);
    ClearEffect(s, back);
    BookKeys(s);
    OtherFreed(Book(st), st.vvNew, back, n, Book(s)[n]);
  }

  lemma MakeTriedEffect(key: Key, st: State, id: Id)
    requires Inv(key, st) && id in st.mapInfo && !st.mapInfo[id].fInTried
    ensures var t, slot, vvNew := MakeTried(key, st, id), TriedSlot(key, st.mapInfo[id].addr.service), WithoutId(st.vvNew, id);
            var info := Book(st)[id].(nRefCount := 0, fInTried := true);
            && t.vvTried == st.vvTried[slot := id] && t.nIdCount == st.nIdCount && t.nLastGood == st.nLastGood
            && if slot !in st.vvTried then Book(t) == Book(st)[id := info] && t.vvNew == vvNew
               else
                 var n := st.vvTried[slot];
                 && n in st.mapInfo && n != id
                 && var back := NewSlot(key, st.mapInfo[n].addr.service, st.mapInfo[n].source);
                    && Book(t) == Freed(Book(st), vvNew, back)[n := Book(st)[n].(nRefCount := 1, fInTried := false)][id := info]
                    && t.vvNew == vvNew[back := n]
  {
    hide InvWith;
    hide MakeRoom;
    hide LeaveNew;
    hide EnterTried;
    hide NewSlot;
    hide TriedSlot;
    hide Entries;
    hide Freed;
    hide WithoutId;
    LeaveNewKeeps(key, st, id);
    LeaveNewEffect(st, id);
    var s, slot := LeaveNew(st, id), TriedSlot(key, st.mapInfo[id].addr.service);
    BookKeys(st);
    BookKeys(s);
    RoomSparesId(key, s, slot, id);
    var r := MakeRoom(key, s, slot, id);
    BookKeys(r);
    EnterTriedEffect(r, slot, id);
    if slot in st.vvTried {
      MakeRoomEffect(key, s, slot, id);
      var n := st.vvTried[slot];
      var back := NewSlot(key, st.mapInfo[n].addr.service, st.mapInfo[n].source);
      NotHeld(st.vvNew, id, back);
      OtherFreed(Book(st), s.vvNew, back, id, Book(s)[id]);
      Overwritten(Freed(Book(st), s.vvNew, back), id, n, Book(s)[id], Book(st)[n].(nRefCount := 1, fInTried := false), Book(st)[id].(nRefCount := 0, fInTried := true));
    } else {
      NoRoomNeeded(key, s, slot, id);
    }
  }

  lemma Overwritten(e: map<Id, Info>, id: Id, n: Id, x: Info, y: Info, z: Info)
    ensures e[id := x][n := y][id := z] == e[n := y][id := z]
  {
  }

  lemma NotHeld(vvNew: map<Slot, Id>, id: Id, s: Slot)
    ensures s in WithoutId(vvNew, id) ==> WithoutId(vvNew, id)[s] != id
  {
  }

  lemma NoRoomNeeded(key: Key, st: State, slot: Slot, id: Id)
    requires InvWith(key, st, {id}, 0) && slot !in st.vvTried
    ensures MakeRoom(key, st, slot, id) == st
  {
  }

  /** A known address that was reached: its statistics are set, and it is in "tried",
      at its own slot and nowhere else.  An entry that had this slot is back in "new",
      where whoever had its slot loses a reference.  Nothing else changes. */
  lemma GoodEffect(key: Key, st: State, addr: Service, nTime: int)
    requires Inv(key, st) && nTime > 0
    ensures var t := Good(key, st, addr, nTime);
            && t.nLastGood == nTime && t.nIdCount == st.nIdCount
            && if !Knows(st, addr) then t == st.(nLastGood := nTime)
               else
                 var id := st.mapAddr[addr.ip];
                 var slot, vvNew := TriedSlot(key, addr), WithoutId(st.vvNew, id);
                 var info := Book(st)[id].(nLastSuccess := nTime, nLastTry := nTime, nAttempts := 0, nRefCount := 0, fInTried := true);
                 if st.mapInfo[id].fInTried then Book(t) == Book(st)[id := info] && t.vvNew == st.vvNew && t.vvTried == st.vvTried
                 else
                   && t.vvTried == st.vvTried[slot := id]
                   && if slot !in st.vvTried then Book(t) == Book(st)[id := info] && t.vvNew == vvNew
                      else
                        var n := st.vvTried[slot];
                        && n in st.mapInfo && n != id
                        && var back := NewSlot(key, st.mapInfo[n].addr.service, st.mapInfo[n].source);
                           && Book(t) == Freed(Book(st), vvNew, back)[n := Book(st)[n].(nRefCount := 1, fInTried := false)][id := info]
                           && t.vvNew == vvNew[back := n]
  {
    hide InvWith;
    hide MakeTried;
    hide NewSlot;
    hide TriedSlot;
    hide Entries;
    hide Freed;
    hide WithoutId;
    if Knows(st, addr) {
      var id := st.mapAddr[addr.ip];
      var s := st.(nLastGood := nTime);
      var info := st.mapInfo[id].(nLastSuccess := nTime, nLastTry := nTime, nAttempts := 0);
      LastGoodIsFree(key, st, nTime);
      SetInfoKeeps(key, s, id, info);
      SetEffect(s, id, info);
      var t := SetInfo(s, id, info);
      BookKeys(st);
      BookKeys(t);
      if info.fInTried {
        TriedCount(key, st, id);
      } else {
        BucketIsFound(key, t, id);
        MakeTriedEffect(key, t, id);
        var slot := TriedSlot(key, addr);
        if slot in st.vvTried {
          var n := st.vvTried[slot];
          var back := NewSlot(key, st.mapInfo[n].addr.service, st.mapInfo[n].source);
          NotHeld(st.vvNew, id, back);
          OtherFreed(Book(st), WithoutId(st.vvNew, id), back, id, Book(t)[id]);
          Overwritten(Freed(Book(st), WithoutId(st.vvNew, id), back), id, n, Book(t)[id], Book(st)[n].(nRefCount := 1, fInTried := false), Book(t)[id].(nRefCount := 0, fInTried := true));
        }
      }
    }
  }

  lemma LastGoodIsFree(key: Key, st: State, nTime: int)
    requires Inv(key, st)
    ensures Inv(key, st.(nLastGood := nTime))
  {
  }

  lemma TriedCount(key: Key, st: State, id: Id)
    requires Inv(key, st) && id in st.mapInfo && st.mapInfo[id].fInTried
    ensures st.mapInfo[id].nRefCount == 0
  {
    TriedHasNoRefs(key, st.mapInfo, st.vvNew, {}, id);
  }

  // ----------------------------------------------------------------------- small updates

  /** Only this entry changes, and in it only what the statistics are about. */
  ghost predicate OnlyEntry(st: State, t: State, id: Id) {
    t == st.(mapInfo := t.mapInfo) && t.mapInfo.Keys == st.mapInfo.Keys && forall n :: n in st.mapInfo && n != id ==> t.mapInfo[n] == st.mapInfo[n]
  }

  /** An attempt is counted once between two successes of any peer. */
  lemma AttemptEffect(st: State, addr: Service, fCountFailure: bool, nTime: int)
    ensures var t := Attempt(st, addr, fCountFailure, nTime);
            if !Knows(st, addr) then t == st
            else
              var id := st.mapAddr[addr.ip];
              var was, now := st.mapInfo[id], t.mapInfo[id];
              && OnlyEntry(st, t, id) && now.nLastTry == nTime
              && (if fCountFailure && was.nLastCountAttempt < st.nLastGood
                  then now.nAttempts == was.nAttempts + 1 && now.nLastCountAttempt == nTime
                  else now.nAttempts == was.nAttempts && now.nLastCountAttempt == was.nLastCountAttempt)
              && now == was.(nLastTry := now.nLastTry, nAttempts := now.nAttempts, nLastCountAttempt := now.nLastCountAttempt)
  {
  }

  /** The time of a connected peer is at most twenty minutes behind. */
  lemma ConnectedEffect(st: State, addr: Service, nTime: int)
    ensures var t := Connected(st, addr, nTime);
            if !Knows(st, addr) then t == st
            else
              var id := st.mapAddr[addr.ip];
              var was, now := st.mapInfo[id], t.mapInfo[id];
              && OnlyEntry(st, t, id) && now == was.(addr := was.addr.(nTime := now.addr.nTime))
              && nTime - now.addr.nTime <= 1200
              && (now.addr.nTime == was.addr.nTime || (now.addr.nTime == nTime && nTime - was.addr.nTime > 1200))
  {
  }

  lemma SetServicesEffect(st: State, addr: Service, nServices: set<nat>)
    ensures var t := SetServices(st, addr, nServices);
            if !Knows(st, addr) then t == st
            else
              var id := st.mapAddr[addr.ip];
              var was, now := st.mapInfo[id], t.mapInfo[id];
              OnlyEntry(st, t, id) && now.addr.nServices == nServices && now == was.(addr := was.addr.(nServices := now.addr.nServices))
  {
  }

  /** Sampling addresses changes nothing but the random order. */
  lemma {:induction false} ShuffleEffect(key: Key, st: State, picks: seq<nat>)
    requires Inv(key, st) && GoodPicks(st, picks)
    ensures var t := Shuffle(key, st, picks);
            Book(t) == Book(st) && t.vvNew == st.vvNew && SameRest(st, t) && multiset(t.vRandom) == multiset(st.vRandom)
    decreases |picks|
  {
    hide InvWith;
    hide Entries;
    hide SwapRandom;
    if picks != [] {
      var n := |picks| - 1;
      ShuffleEffect(key, st, picks[..n]);
      var s := Shuffle(key, st, picks[..n]);
      SwapIsSafe(key, s, n, picks[n]);
      SwapEffect(s, n, picks[n]);
      SwapPermutes(s, n, picks[n]);
    }
  }

  lemma SwapPermutes(st: State, i: nat, j: nat)
    requires CanSwap(st, i, j)
    ensures multiset(SwapRandom(st, i, j).vRandom) == multiset(st.vRandom)
  {
  }

  /** IsTerrible in words: not tried in the last minute, and from the future, too old,
      never reached in three attempts, or not reached for a week in ten. */
  lemma TerribleIff(info: Info, nNow: int)
    ensures IsTerrible(info, nNow) <==>
            && (info.nLastTry == 0 || nNow - info.nLastTry > 60)
            && (|| info.addr.nTime - nNow > 600 || info.addr.nTime == 0 || nNow - info.addr.nTime > 2592000
                || (info.nLastSuccess == 0 && info.nAttempts >= 3) || (nNow - info.nLastSuccess > 604800 && info.nAttempts >= 10))
  {
  }
}
