/**
 Moving entries between the "new" and "tried" tables: references are dropped and
 added, entries evicted and deleted, and the invariant holds again at the end.
 */
module AddrManMoves {
  import opened AddrMan
  import opened AddrManSteps

  // ------------------------------------------------------ changing one entry's info

  /** The two infos are found under the same address and random position. */
  predicate SamePlace(a: Info, b: Info) {
    a.addr.service == b.addr.service && a.nRandomPos == b.nRandomPos
  }

  lemma IndexedUpdate(nIdCount: nat, m: map<Id, Info>, mapAddr: map<NetAddr, Id>, vRandom: seq<Id>, n: Id, info: Info)
    requires Indexed(nIdCount, m, mapAddr, vRandom) && n in m && SamePlace(info, m[n])
    ensures Indexed(nIdCount, m[n := info], mapAddr, vRandom)
  {
    assert Listed(n, m[n], mapAddr, vRandom);
  }

  lemma StatsUpdate(m: map<Id, Info>, n: Id, info: Info)
    requires Stats(m) && GoodStats(info)
    ensures Stats(m[n := info])
  {
  }

  lemma IdsUpdate(m: map<Id, Info>, n: Id, info: Info)
    requires n in m
    ensures NewIds(m[n := info]) == if info.fInTried then NewIds(m) - {n} else NewIds(m) + {n}
    ensures TriedIds(m[n := info]) == if info.fInTried then TriedIds(m) + {n} else TriedIds(m) - {n}
  {
  }

  lemma TriedTableUpdate(key: Key, m: map<Id, Info>, n: Id, info: Info, vvTried: map<Slot, Id>)
    requires TriedTable(key, m, vvTried) && n in m && SameFace(info, m[n])
    ensures TriedTable(key, m[n := info], vvTried)
  {
    TriedTableFrame(key, m, m[n := info], vvTried);
  }

  // --------------------------------------------------------------- dropping a reference

  lemma DropRefNewTable(key: Key, m: map<Id, Info>, id: Id, info: Info, vvNew: map<Slot, Id>, slot: Slot)
    requires NewTable(key, m, vvNew) && id in m && SameFace(info, m[id])
    ensures NewTable(key, m[id := info], vvNew - {slot})
  {
    NewTableFrame(key, m, m[id := info], vvNew);
  }

  lemma RefsDrop(vvNew: map<Slot, Id>, slot: Slot, n: Id)
    ensures Refs(vvNew - {slot}, n) == Refs(vvNew, n) - {slot}
  {
  }

  lemma DropRefCounts(m: map<Id, Info>, vvNew: map<Slot, Id>, slot: Slot, info: Info, limbo: set<Id>, limbo': set<Id>)
    requires RefCounts(m, vvNew, limbo) && slot in vvNew && vvNew[slot] in m && !m[vvNew[slot]].fInTried
    requires info == m[vvNew[slot]].(nRefCount := m[vvNew[slot]].nRefCount - 1)
    requires limbo' == if info.nRefCount == 0 then limbo + {vvNew[slot]} else limbo
    ensures vvNew[slot] !in limbo && m[vvNew[slot]].nRefCount > 0
    ensures RefCounts(m[vvNew[slot] := info], vvNew - {slot}, limbo')
  {
    var id := vvNew[slot];
    assert slot in Refs(vvNew, id);
    assert RefsInRange(id, m[id], limbo);
    forall n | n in m ensures var x := m[id := info][n]; x.nRefCount == |Refs(vvNew - {slot}, n)| && RefsInRange(n, x, limbo') {
      RefsDrop(vvNew, slot, n);
      assert RefsInRange(n, m[n], limbo);
      if n != id {
        assert slot !in Refs(vvNew, n);
      }
    }
  }

  lemma DropRefCounters(st: State, t: State, id: Id, info: Info, limbo: set<Id>, limbo': set<Id>, extra: int, extra': int)
    requires Counters(st, limbo, extra) && id in st.mapInfo && id !in limbo && !info.fInTried && !st.mapInfo[id].fInTried
    requires t.mapInfo == st.mapInfo[id := info] && t.nNew == st.nNew && t.nTried == st.nTried
    requires (limbo' == limbo && extra' == extra) || (limbo' == limbo + {id} && extra' == extra + 1)
    ensures Counters(t, limbo', extra')
  {
    IdsUpdate(st.mapInfo, id, info);
    var ids := NewIds(st.mapInfo);
    assert ids + {id} == ids;
    assert TriedIds(st.mapInfo) - {id} == TriedIds(st.mapInfo);
    assert ids - (limbo + {id}) == (ids - limbo) - {id};
    assert |(ids - limbo) - {id}| == |ids - limbo| - 1;
  }

  /** Dropping the last reference of an entry puts it in limbo. */
  lemma DropRefKeeps(key: Key, st: State, slot: Slot, limbo: set<Id>, extra: int)
    requires InvWith(key, st, limbo, extra) && slot in st.vvNew
    ensures st.vvNew[slot] in st.mapInfo && st.vvNew[slot] !in limbo && st.mapInfo[st.vvNew[slot]].nRefCount > 0
    ensures st.mapInfo[st.vvNew[slot]].nRefCount == 1 ==> InvWith(key, DropRef(st, slot), limbo + {st.vvNew[slot]}, extra + 1)
    ensures st.mapInfo[st.vvNew[slot]].nRefCount != 1 ==> InvWith(key, DropRef(st, slot), limbo, extra)
  {
    var id := st.vvNew[slot];
    var info := st.mapInfo[id].(nRefCount := st.mapInfo[id].nRefCount - 1);
    var limbo' := if info.nRefCount == 0 then limbo + {id} else limbo;
    DropRefCounts(st.mapInfo, st.vvNew, slot, info, limbo, limbo');
    DropRefNewTable(key, st.mapInfo, id, info, st.vvNew, slot);
    TriedTableUpdate(key, st.mapInfo, id, info, st.vvTried);
    IndexedUpdate(st.nIdCount, st.mapInfo, st.mapAddr, st.vRandom, id, info);
    StatsUpdate(st.mapInfo, id, info);
    DropRefCounters(st, DropRef(st, slot), id, info, limbo, limbo', extra, if info.nRefCount == 0 then extra + 1 else extra);
  }

  /** ClearNew frees the slot, its asserts hold, and only the slot's old entry can go. */
  lemma ClearNewKeeps(key: Key, st: State, slot: Slot, limbo: set<Id>, extra: int)
    requires InvWith(key, st, limbo, extra)
    ensures CanClear(st, slot) && InvWith(key, ClearNew(st, slot), limbo, extra)
  {
    if slot in st.vvNew {
      var id := st.vvNew[slot];
      DropRefKeeps(key, st, slot, limbo, extra);
      if st.mapInfo[id].nRefCount == 1 {
        DeleteDropped(key, DropRef(st, slot), id, limbo, extra);
      }
    }
  }

  lemma DeleteDropped(key: Key, s: State, id: Id, limbo: set<Id>, extra: int)
    requires InvWith(key, s, limbo + {id}, extra + 1) && id !in limbo
    ensures CanDelete(s, id) && InvWith(key, Delete(s, id), limbo, extra)
  {
    assert (limbo + {id}) - {id} == limbo;
    DeleteKeeps(key, s, id, limbo + {id}, extra + 1);
  }

  lemma ClearNewSpares(key: Key, st: State, slot: Slot)
    requires CanClear(st, slot)
    ensures slot !in ClearNew(st, slot).vvNew && ClearNew(st, slot).vvTried == st.vvTried
    ensures if slot in st.vvNew then OthersLive(st.mapInfo, ClearNew(st, slot).mapInfo, st.vvNew[slot]) else ClearNew(st, slot) == st
  {
    if slot in st.vvNew {
      var id, s := st.vvNew[slot], DropRef(st, slot);
      if s.mapInfo[id].nRefCount == 0 {
        DeleteSpares(s, id);
      }
    }
  }

  // ---------------------------------------------------------------- adding a reference

  lemma AddRefNewTable(key: Key, m: map<Id, Info>, id: Id, info: Info, vvNew: map<Slot, Id>, slot: Slot)
    requires NewTable(key, m, vvNew) && id in m && SameFace(info, m[id]) && !info.fInTried && NewHome(key, info.addr.service, slot)
    ensures NewTable(key, m[id := info], vvNew[slot := id])
  {
    NewTableFrame(key, m, m[id := info], vvNew);
  }

  lemma RefsAdd(vvNew: map<Slot, Id>, slot: Slot, id: Id, n: Id)
    requires slot !in vvNew
    ensures Refs(vvNew[slot := id], n) == if n == id then Refs(vvNew, n) + {slot} else Refs(vvNew, n)
    ensures slot !in Refs(vvNew, n)
  {
  }

  lemma AddRefCounts(m: map<Id, Info>, vvNew: map<Slot, Id>, slot: Slot, id: Id, info: Info, limbo: set<Id>)
    requires RefCounts(m, vvNew, limbo) && slot !in vvNew && id in m && !m[id].fInTried && m[id].nRefCount < NEW_BUCKETS_PER_ADDRESS
    requires info == m[id].(nRefCount := m[id].nRefCount + 1)
    ensures RefCounts(m[id := info], vvNew[slot := id], limbo - {id})
  {
    assert RefsInRange(id, m[id], limbo);
    forall n | n in m
      ensures var x := m[id := info][n]; x.nRefCount == |Refs(vvNew[slot := id], n)| && RefsInRange(n, x, limbo - {id})
    {
      RefsAdd(vvNew, slot, id, n);
      assert RefsInRange(n, m[n], limbo);
    }
  }

  lemma AddRefCounters(st: State, t: State, id: Id, info: Info, limbo: set<Id>, extra: int)
    requires Counters(st, limbo, extra) && id in st.mapInfo && !info.fInTried && !st.mapInfo[id].fInTried
    requires t.mapInfo == st.mapInfo[id := info] && t.nNew == st.nNew && t.nTried == st.nTried
    ensures Counters(t, limbo - {id}, if id in limbo then extra - 1 else extra)
  {
    IdsUpdate(st.mapInfo, id, info);
    var ids := NewIds(st.mapInfo);
    assert ids + {id} == ids;
    assert TriedIds(st.mapInfo) - {id} == TriedIds(st.mapInfo);
    if id in limbo {
      assert ids - (limbo - {id}) == (ids - limbo) + {id};
      assert |(ids - limbo) + {id}| == |ids - limbo| + 1;
    } else {
      assert limbo - {id} == limbo;
    }
  }

  /** Entering an untried entry into a free slot of its own takes it out of limbo. */
  lemma AddRefKeeps(key: Key, st: State, slot: Slot, id: Id, limbo: set<Id>, extra: int)
    requires InvWith(key, st, limbo, extra) && slot !in st.vvNew
    requires id in st.mapInfo && !st.mapInfo[id].fInTried && st.mapInfo[id].nRefCount < NEW_BUCKETS_PER_ADDRESS
    requires NewHome(key, st.mapInfo[id].addr.service, slot)
    ensures InvWith(key, AddRef(st, slot, id), limbo - {id}, if id in limbo then extra - 1 else extra)
  {
    var t := AddRef(st, slot, id);
    AddRefNewTable(key, st.mapInfo, id, t.mapInfo[id], st.vvNew, slot);
    AddRefKeepsRest(key, st, slot, id, limbo, extra, t.mapInfo[id], t);
  }

  lemma AddRefKeepsRest(key: Key, st: State, slot: Slot, id: Id, limbo: set<Id>, extra: int, info: Info, t: State)
    requires InvWith(key, st, limbo, extra) && slot !in st.vvNew
    requires id in st.mapInfo && !st.mapInfo[id].fInTried && st.mapInfo[id].nRefCount < NEW_BUCKETS_PER_ADDRESS
    requires info == st.mapInfo[id].(nRefCount := st.mapInfo[id].nRefCount + 1)
    requires t == st.(vvNew := st.vvNew[slot := id], mapInfo := st.mapInfo[id := info])
    requires NewTable(key, t.mapInfo, t.vvNew)
    ensures InvWith(key, t, limbo - {id}, if id in limbo then extra - 1 else extra)
  {
    AddRefCounts(st.mapInfo, st.vvNew, slot, id, info, limbo);
    TriedTableUpdate(key, st.mapInfo, id, info, st.vvTried);
    IndexedUpdate(st.nIdCount, st.mapInfo, st.mapAddr, st.vRandom, id, info);
    StatsUpdate(st.mapInfo, id, info);
    AddRefCounters(st, t, id, info, limbo, extra);
  }

  // ---------------------------------------------------------------------- leaving "new"

  lemma LeaveNewTable(key: Key, m: map<Id, Info>, id: Id, info: Info, vvNew: map<Slot, Id>, vvNew': map<Slot, Id>)
    requires NewTable(key, m, vvNew) && vvNew' == map s | s in vvNew && vvNew[s] != id :: vvNew[s]
    ensures NewTable(key, m[id := info], vvNew')
  {
  }

  lemma LeaveNewCounts(m: map<Id, Info>, id: Id, info: Info, vvNew: map<Slot, Id>, vvNew': map<Slot, Id>)
    requires RefCounts(m, vvNew, {}) && id in m && !m[id].fInTried && info == m[id].(nRefCount := 0)
    requires vvNew' == map s | s in vvNew && vvNew[s] != id :: vvNew[s]
    ensures RefCounts(m[id := info], vvNew', {id})
  {
    forall n | n in m
      ensures var x := m[id := info][n]; x.nRefCount == |Refs(vvNew', n)| && RefsInRange(n, x, {id})
    {
      assert Refs(vvNew', n) == if n == id then {} else Refs(vvNew, n);
      assert RefsInRange(n, m[n], {});
    }
  }

  lemma LeaveNewKeeps(key: Key, st: State, id: Id)
    requires Inv(key, st) && id in st.mapInfo && !st.mapInfo[id].fInTried
    ensures InvWith(key, LeaveNew(st, id), {id}, 0)
  {
    var info, t := st.mapInfo[id].(nRefCount := 0), LeaveNew(st, id);
    LeaveNewTable(key, st.mapInfo, id, info, st.vvNew, t.vvNew);
    LeaveNewCounts(st.mapInfo, id, info, st.vvNew, t.vvNew);
    TriedTableUpdate(key, st.mapInfo, id, info, st.vvTried);
    IndexedUpdate(st.nIdCount, st.mapInfo, st.mapAddr, st.vRandom, id, info);
    StatsUpdate(st.mapInfo, id, info);
    LeaveNewCounters(st, t, id, info);
  }

  lemma LeaveNewCounters(st: State, t: State, id: Id, info: Info)
    requires Counters(st, {}, 0) && id in st.mapInfo && !info.fInTried && !st.mapInfo[id].fInTried
    requires t.mapInfo == st.mapInfo[id := info] && t.nNew == st.nNew - 1 && t.nTried == st.nTried
    ensures Counters(t, {id}, 0)
  {
    IdsUpdate(st.mapInfo, id, info);
    var ids := NewIds(st.mapInfo);
    assert ids + {id} == ids && ids - {} == ids;
    assert TriedIds(st.mapInfo) - {id} == TriedIds(st.mapInfo);
    assert |ids - {id}| == |ids| - 1;
  }

  // -------------------------------------------------------------- leaving and entering "tried"

  lemma TriedHasNoRefs(key: Key, m: map<Id, Info>, vvNew: map<Slot, Id>, limbo: set<Id>, n: Id)
    requires NewTable(key, m, vvNew) && RefCounts(m, vvNew, limbo) && n in m && m[n].fInTried
    ensures m[n].nRefCount == 0 && n !in limbo && Refs(vvNew, n) == {}
  {
    assert RefsInRange(n, m[n], limbo);
    assert Refs(vvNew, n) == {};
  }

  lemma FlipCounts(m: map<Id, Info>, id: Id, info: Info, vvNew: map<Slot, Id>, limbo: set<Id>, limbo': set<Id>)
    requires RefCounts(m, vvNew, limbo) && id in m && info.nRefCount == m[id].nRefCount == 0
    requires limbo' == if info.fInTried then limbo - {id} else limbo + {id}
    ensures RefCounts(m[id := info], vvNew, limbo')
  {
    forall n | n in m ensures RefsInRange(n, m[id := info][n], limbo') {
      assert RefsInRange(n, m[n], limbo);
    }
  }

  lemma FlipNewTable(key: Key, m: map<Id, Info>, id: Id, info: Info, vvNew: map<Slot, Id>)
    requires NewTable(key, m, vvNew) && id in m && Refs(vvNew, id) == {}
    ensures NewTable(key, m[id := info], vvNew)
  {
    assert forall s :: s in vvNew && vvNew[s] == id ==> s in Refs(vvNew, id);
    NewTableFrame(key, m, m[id := info], vvNew);
  }

  lemma LeaveTriedTable(key: Key, m: map<Id, Info>, vvTried: map<Slot, Id>, slot: Slot, info: Info)
    requires TriedTable(key, m, vvTried) && slot in vvTried && !info.fInTried
    ensures vvTried[slot] in m && TriedTable(key, m[vvTried[slot] := info], vvTried - {slot})
  {
    var id := vvTried[slot];
    forall n | n in m && n != id && m[n].fInTried ensures InTriedSlot(key, n, m[n].addr.service, vvTried - {slot}) {
      assert InTriedSlot(key, n, m[n].addr.service, vvTried);
    }
  }

  lemma LeaveTriedCounters(st: State, t: State, id: Id, info: Info, limbo: set<Id>)
    requires Counters(st, limbo, 0) && id in st.mapInfo && st.mapInfo[id].fInTried && !info.fInTried && id !in limbo
    requires t.mapInfo == st.mapInfo[id := info] && t.nNew == st.nNew && t.nTried == st.nTried - 1
    ensures Counters(t, limbo + {id}, 0)
  {
    IdsUpdate(st.mapInfo, id, info);
    var ids, tried := NewIds(st.mapInfo), TriedIds(st.mapInfo);
    assert (ids + {id}) - (limbo + {id}) == ids - limbo;
    assert id in tried && |tried - {id}| == |tried| - 1;
  }

  lemma LeaveTriedKeeps(key: Key, st: State, slot: Slot, limbo: set<Id>)
    requires InvWith(key, st, limbo, 0) && slot in st.vvTried
    ensures st.vvTried[slot] in st.mapInfo && st.vvTried[slot] !in limbo
    ensures InvWith(key, LeaveTried(st, slot), limbo + {st.vvTried[slot]}, 0)
  {
    var id := st.vvTried[slot];
    var info := st.mapInfo[id].(fInTried := false);
    TriedHasNoRefs(key, st.mapInfo, st.vvNew, limbo, id);
    FlipCounts(st.mapInfo, id, info, st.vvNew, limbo, limbo + {id});
    FlipNewTable(key, st.mapInfo, id, info, st.vvNew);
    LeaveTriedTable(key, st.mapInfo, st.vvTried, slot, info);
    IndexedUpdate(st.nIdCount, st.mapInfo, st.mapAddr, st.vRandom, id, info);
    StatsUpdate(st.mapInfo, id, info);
    LeaveTriedCounters(st, LeaveTried(st, slot), id, info, limbo);
  }

  lemma EnterTriedTable(key: Key, m: map<Id, Info>, vvTried: map<Slot, Id>, slot: Slot, id: Id, info: Info)
    requires TriedTable(key, m, vvTried) && slot !in vvTried && id in m && !m[id].fInTried
    requires info.fInTried && slot == TriedSlot(key, info.addr.service)
    ensures TriedTable(key, m[id := info], vvTried[slot := id])
  {
    forall n | n in m && n != id && m[n].fInTried ensures InTriedSlot(key, n, m[n].addr.service, vvTried[slot := id]) {
      assert InTriedSlot(key, n, m[n].addr.service, vvTried);
    }
  }

  lemma EnterTriedCounters(st: State, t: State, id: Id, info: Info)
    requires Counters(st, {id}, 0) && id in st.mapInfo && !st.mapInfo[id].fInTried && info.fInTried
    requires t.mapInfo == st.mapInfo[id := info] && t.nNew == st.nNew && t.nTried == st.nTried + 1
    ensures Counters(t, {}, 0)
  {
    IdsUpdate(st.mapInfo, id, info);
    var ids, tried := NewIds(st.mapInfo), TriedIds(st.mapInfo);
    assert (ids - {id}) - {} == ids - {id};
    assert id !in tried && |tried + {id}| == |tried| + 1;
  }

  lemma EnterTriedKeeps(key: Key, st: State, slot: Slot, id: Id)
    requires InvWith(key, st, {id}, 0) && id in st.mapInfo && st.mapInfo[id].nLastSuccess != 0
    requires slot == TriedSlot(key, st.mapInfo[id].addr.service) && slot !in st.vvTried
    ensures Inv(key, EnterTried(st, slot, id))
  {
    var info := st.mapInfo[id].(fInTried := true);
    NoRefs(key, st, id, {id}, 0);
    FlipCounts(st.mapInfo, id, info, st.vvNew, {id}, {id} - {id});
    assert {id} - {id} == {};
    FlipNewTable(key, st.mapInfo, id, info, st.vvNew);
    EnterTriedTable(key, st.mapInfo, st.vvTried, slot, id, info);
    IndexedUpdate(st.nIdCount, st.mapInfo, st.mapAddr, st.vRandom, id, info);
    assert GoodStats(st.mapInfo[id]);
    StatsUpdate(st.mapInfo, id, info);
    EnterTriedCounters(st, EnterTried(st, slot, id), id, info);
  }
}
