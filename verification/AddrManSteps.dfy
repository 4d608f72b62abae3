/**
 Every internal step of the address manager keeps its invariant, with the entries
 that are between tables named explicitly.
 */
module AddrManSteps {
  import opened AddrMan

  lemma EmptyIsValid(key: Key)
    ensures Inv(key, EMPTY)
  {
    assert NewIds(EMPTY.mapInfo) == {} && TriedIds(EMPTY.mapInfo) == {};
  }

  // ----------------------------------------------------------------- frame lemmas

  /** Two infos that agree on everything the tables depend on. */
  predicate SameFace(a: Info, b: Info) {
    a.addr.service == b.addr.service && a.fInTried == b.fInTried
  }

  /** m and m' agree on all tried entries. */
  ghost predicate SameTried(m: map<Id, Info>, m': map<Id, Info>) {
    && (forall n :: n in m && m[n].fInTried ==> n in m' && SameFace(m'[n], m[n]))
    && (forall n :: n in m' && m'[n].fInTried ==> n in m && m[n].fInTried)
  }

  lemma NewTableFrame(key: Key, m: map<Id, Info>, m': map<Id, Info>, vvNew: map<Slot, Id>)
    requires NewTable(key, m, vvNew)
    requires forall s :: s in vvNew ==> vvNew[s] in m' && SameFace(m'[vvNew[s]], m[vvNew[s]])
    ensures NewTable(key, m', vvNew)
  {
  }

  lemma TriedTableFrame(key: Key, m: map<Id, Info>, m': map<Id, Info>, vvTried: map<Slot, Id>)
    requires TriedTable(key, m, vvTried) && SameTried(m, m')
    ensures TriedTable(key, m', vvTried)
    ensures |TriedIds(m')| == |TriedIds(m)|
  {
    assert TriedIds(m') == TriedIds(m);
  }

  /** Entries of m keep their face and reference count. */
  ghost predicate SameEntries(m: map<Id, Info>, m': map<Id, Info>) {
    && m.Keys == m'.Keys
    && forall n :: n in m ==> SameFace(m'[n], m[n]) && m'[n].nRefCount == m[n].nRefCount
  }

  lemma RefCountsFrame(m: map<Id, Info>, m': map<Id, Info>, vvNew: map<Slot, Id>, limbo: set<Id>)
    requires RefCounts(m, vvNew, limbo) && SameEntries(m, m')
    ensures RefCounts(m', vvNew, limbo)
  {
    forall n | n in m' ensures m'[n].nRefCount == |Refs(vvNew, n)| && RefsInRange(n, m'[n], limbo) {
      assert RefsInRange(n, m[n], limbo);
    }
  }

  lemma CountersFrame(st: State, t: State, limbo: set<Id>, extra: int)
    requires Counters(st, limbo, extra) && SameEntries(st.mapInfo, t.mapInfo) && t.nNew == st.nNew && t.nTried == st.nTried
    ensures Counters(t, limbo, extra)
  {
    assert NewIds(t.mapInfo) == NewIds(st.mapInfo) && TriedIds(t.mapInfo) == TriedIds(st.mapInfo);
  }

  lemma TablesFrame(key: Key, st: State, m': map<Id, Info>)
    requires NewTable(key, st.mapInfo, st.vvNew) && TriedTable(key, st.mapInfo, st.vvTried) && SameEntries(st.mapInfo, m')
    ensures NewTable(key, m', st.vvNew) && TriedTable(key, m', st.vvTried)
  {
    NewTableFrame(key, st.mapInfo, m', st.vvNew);
    TriedTableFrame(key, st.mapInfo, m', st.vvTried);
  }

  /** Changing statistics and random positions keeps everything about the tables. */
  lemma FieldsKeep(key: Key, st: State, t: State, limbo: set<Id>, extra: int)
    requires InvWith(key, st, limbo, extra) && Indexed(t.nIdCount, t.mapInfo, t.mapAddr, t.vRandom) && Stats(t.mapInfo)
    requires SameEntries(st.mapInfo, t.mapInfo)
    requires t.vvNew == st.vvNew && t.vvTried == st.vvTried && t.nNew == st.nNew && t.nTried == st.nTried
    ensures InvWith(key, t, limbo, extra)
  {
    TablesFrame(key, st, t.mapInfo);
    RefCountsFrame(st.mapInfo, t.mapInfo, st.vvNew, limbo);
    CountersFrame(st, t, limbo, extra);
  }

  // ---------------------------------------------------------------------- Create

  lemma CreateIndexed(st: State, addr: Address, source: NetAddr)
    requires Indexed(st.nIdCount, st.mapInfo, st.mapAddr, st.vRandom) && addr.service.ip !in st.mapAddr
    ensures var t := Create(st, addr, source); Indexed(t.nIdCount, t.mapInfo, t.mapAddr, t.vRandom)
    ensures st.nIdCount !in st.mapInfo
  {
    var t := Create(st, addr, source);
    assert t.vRandom[|st.vRandom|] == st.nIdCount;
    forall n | n in st.mapInfo ensures Listed(n, st.mapInfo[n], t.mapAddr, t.vRandom) {
      assert Listed(n, st.mapInfo[n], st.mapAddr, st.vRandom);
    }
  }

  lemma CreateTables(key: Key, m: map<Id, Info>, id: Id, info: Info, vvNew: map<Slot, Id>, vvTried: map<Slot, Id>)
    requires NewTable(key, m, vvNew) && TriedTable(key, m, vvTried) && id !in m && !info.fInTried
    ensures NewTable(key, m[id := info], vvNew) && TriedTable(key, m[id := info], vvTried)
  {
    NewTableFrame(key, m, m[id := info], vvNew);
    TriedTableFrame(key, m, m[id := info], vvTried);
  }

  lemma CreateRefs(key: Key, m: map<Id, Info>, id: Id, info: Info, vvNew: map<Slot, Id>)
    requires NewTable(key, m, vvNew) && RefCounts(m, vvNew, {}) && id !in m && !info.fInTried && info.nRefCount == 0
    ensures RefCounts(m[id := info], vvNew, {id})
  {
    assert Refs(vvNew, id) == {};
    forall n | n in m ensures RefsInRange(n, m[n], {id}) {
      assert RefsInRange(n, m[n], {});
    }
  }

  lemma CreateCounters(st: State, t: State, id: Id, info: Info)
    requires Counters(st, {}, 0) && id !in st.mapInfo && !info.fInTried
    requires t.mapInfo == st.mapInfo[id := info] && t.nNew == st.nNew && t.nTried == st.nTried
    ensures Counters(t, {id}, 0)
  {
    assert NewIds(t.mapInfo) - {id} == NewIds(st.mapInfo) - {};
    assert TriedIds(t.mapInfo) == TriedIds(st.mapInfo);
  }

  lemma CreateKeeps(key: Key, st: State, addr: Address, source: NetAddr)
    requires Inv(key, st) && addr.service.ip !in st.mapAddr
    ensures InvWith(key, Create(st, addr, source), {st.nIdCount}, 0)
  {
    var t, id := Create(st, addr, source), st.nIdCount;
    CreateIndexed(st, addr, source);
    CreateTables(key, st.mapInfo, id, t.mapInfo[id], st.vvNew, st.vvTried);
    CreateRefs(key, st.mapInfo, id, t.mapInfo[id], st.vvNew);
    CreateCounters(st, t, id, t.mapInfo[id]);
  }

  // ------------------------------------------------------------------ SwapRandom

  lemma SwapIndexed(st: State, i: nat, j: nat)
    requires Indexed(st.nIdCount, st.mapInfo, st.mapAddr, st.vRandom) && CanSwap(st, i, j)
    ensures var t := SwapRandom(st, i, j); Indexed(t.nIdCount, t.mapInfo, t.mapAddr, t.vRandom)
  {
    if i != j {
      var t := SwapRandom(st, i, j);
      assert st.vRandom[i] != st.vRandom[j];
      forall n | n in t.mapInfo ensures n < t.nIdCount && Listed(n, t.mapInfo[n], t.mapAddr, t.vRandom) {
        assert Listed(n, st.mapInfo[n], st.mapAddr, st.vRandom);
      }
    }
  }

  /** Moving an entry changes its random position and nothing else. */
  lemma MovedKeepsEntries(m: map<Id, Info>, n: Id, pos: nat)
    requires n in m
    ensures SameEntries(m, Moved(m, n, pos)) && (Stats(m) ==> Stats(Moved(m, n, pos)))
  {
  }

  lemma SwapKeepsEntries(m: map<Id, Info>, a: Id, b: Id, i: nat, j: nat)
    requires a in m && b in m
    ensures SameEntries(m, Moved(Moved(m, a, j), b, i)) && (Stats(m) ==> Stats(Moved(Moved(m, a, j), b, i)))
  {
    MovedKeepsEntries(m, a, j);
    MovedKeepsEntries(Moved(m, a, j), b, i);
  }

  lemma SwapKeeps(key: Key, st: State, i: nat, j: nat, limbo: set<Id>, extra: int)
    requires InvWith(key, st, limbo, extra) && CanSwap(st, i, j)
    ensures InvWith(key, SwapRandom(st, i, j), limbo, extra)
  {
    if i != j {
      SwapIndexed(st, i, j);
      SwapKeepsEntries(st.mapInfo, st.vRandom[i], st.vRandom[j], i, j);
      FieldsKeep(key, st, SwapRandom(st, i, j), limbo, extra);
    }
  }

  // ---------------------------------------------------------------------- Delete

  lemma DropLastIndexed(nIdCount: nat, m: map<Id, Info>, mapAddr: map<NetAddr, Id>, vRandom: seq<Id>)
    requires Indexed(nIdCount, m, mapAddr, vRandom) && |vRandom| > 0
    ensures var id := vRandom[|vRandom| - 1];
            id in m && Indexed(nIdCount, m - {id}, mapAddr - {m[id].addr.service.ip}, vRandom[..|vRandom| - 1])
  {
    var id, r := vRandom[|vRandom| - 1], vRandom[..|vRandom| - 1];
    var a := mapAddr - {m[id].addr.service.ip};
    forall n | n in m - {id} ensures n < nIdCount && Listed(n, m[n], a, r) {
      assert Listed(n, m[n], mapAddr, vRandom);
    }
  }

  lemma RemoveTables(key: Key, m: map<Id, Info>, id: Id, vvNew: map<Slot, Id>, vvTried: map<Slot, Id>)
    requires NewTable(key, m, vvNew) && TriedTable(key, m, vvTried) && id in m && !m[id].fInTried && Refs(vvNew, id) == {}
    ensures NewTable(key, m - {id}, vvNew) && TriedTable(key, m - {id}, vvTried)
  {
    assert forall s :: s in vvNew && vvNew[s] == id ==> s in Refs(vvNew, id);
    NewTableFrame(key, m, m - {id}, vvNew);
    TriedTableFrame(key, m, m - {id}, vvTried);
  }

  lemma RemoveRefs(m: map<Id, Info>, id: Id, vvNew: map<Slot, Id>, limbo: set<Id>)
    requires RefCounts(m, vvNew, limbo)
    ensures RefCounts(m - {id}, vvNew, limbo - {id})
  {
    forall n | n in m - {id} ensures RefsInRange(n, m[n], limbo - {id}) {
      assert RefsInRange(n, m[n], limbo);
    }
  }

  lemma RemoveCounters(st: State, t: State, id: Id, limbo: set<Id>, extra: int)
    requires Counters(st, limbo, extra) && id in limbo && !st.mapInfo[id].fInTried
    requires t.mapInfo == st.mapInfo - {id} && t.nTried == st.nTried && t.nNew == st.nNew - 1
    ensures Counters(t, limbo - {id}, extra - 1)
  {
    IdsAfterRemove(st.mapInfo, id);
    assert (NewIds(st.mapInfo) - {id}) - (limbo - {id}) == NewIds(st.mapInfo) - limbo;
  }

  lemma IdsAfterRemove(m: map<Id, Info>, id: Id)
    requires id in m && !m[id].fInTried
    ensures NewIds(m - {id}) == NewIds(m) - {id} && TriedIds(m - {id}) == TriedIds(m)
  {
  }

  /** What Delete does after the swap. */
  function DropLast(s: State): State
    requires |s.vRandom| > 0 && s.vRandom[|s.vRandom| - 1] in s.mapInfo
  {
    var id := s.vRandom[|s.vRandom| - 1];
    s.(vRandom := s.vRandom[..|s.vRandom| - 1], mapAddr := s.mapAddr - {s.mapInfo[id].addr.service.ip},
       mapInfo := s.mapInfo - {id}, nNew := s.nNew - 1)
  }

  lemma DropLastKeeps(key: Key, st: State, id: Id, limbo: set<Id>, extra: int)
    requires InvWith(key, st, limbo, extra) && id in limbo
    requires |st.vRandom| > 0 && st.vRandom[|st.vRandom| - 1] == id && id in st.mapInfo
    ensures InvWith(key, DropLast(st), limbo - {id}, extra - 1)
  {
    NoRefs(key, st, id, limbo, extra);
    DropLastIndexed(st.nIdCount, st.mapInfo, st.mapAddr, st.vRandom);
    RemoveTables(key, st.mapInfo, id, st.vvNew, st.vvTried);
    RemoveRefs(st.mapInfo, id, st.vvNew, limbo);
    RemoveCounters(st, DropLast(st), id, limbo, extra);
  }

  lemma NoRefs(key: Key, st: State, id: Id, limbo: set<Id>, extra: int)
    requires InvWith(key, st, limbo, extra) && id in limbo
    ensures id in st.mapInfo && !st.mapInfo[id].fInTried && st.mapInfo[id].nRefCount == 0 && Refs(st.vvNew, id) == {}
  {
    assert RefsInRange(id, st.mapInfo[id], limbo);
  }

  lemma DeleteIsSwapThenDrop(st: State, id: Id)
    requires Indexed(st.nIdCount, st.mapInfo, st.mapAddr, st.vRandom) && CanDelete(st, id)
    ensures var s := SwapRandom(st, st.mapInfo[id].nRandomPos, |st.vRandom| - 1);
            |s.vRandom| > 0 && s.vRandom[|s.vRandom| - 1] == id && id in s.mapInfo && Delete(st, id) == DropLast(s)
  {
    assert Listed(id, st.mapInfo[id], st.mapAddr, st.vRandom);
  }

  lemma LimboCanBeDeleted(key: Key, st: State, id: Id, limbo: set<Id>, extra: int)
    requires InvWith(key, st, limbo, extra) && id in limbo
    ensures CanDelete(st, id)
  {
    NoRefs(key, st, id, limbo, extra);
    assert Listed(id, st.mapInfo[id], st.mapAddr, st.vRandom);
  }

  /** An entry in limbo can be deleted, and all asserts of Delete hold. */
  lemma DeleteKeeps(key: Key, st: State, id: Id, limbo: set<Id>, extra: int)
    requires InvWith(key, st, limbo, extra) && id in limbo
    ensures CanDelete(st, id) && InvWith(key, Delete(st, id), limbo - {id}, extra - 1)
  {
    LimboCanBeDeleted(key, st, id, limbo, extra);
    var s := SwapToLast(key, st, id, limbo, extra);
    DropLastKeeps(key, s, id, limbo, extra);
  }

  lemma SwapToLast(key: Key, st: State, id: Id, limbo: set<Id>, extra: int) returns (s: State)
    requires InvWith(key, st, limbo, extra) && CanDelete(st, id)
    ensures InvWith(key, s, limbo, extra)
    ensures |s.vRandom| > 0 && s.vRandom[|s.vRandom| - 1] == id && id in s.mapInfo && Delete(st, id) == DropLast(s)
  {
    DeleteIsSwapThenDrop(st, id);
    SwapKeeps(key, st, st.mapInfo[id].nRandomPos, |st.vRandom| - 1, limbo, extra);
    s := SwapRandom(st, st.mapInfo[id].nRandomPos, |st.vRandom| - 1);
  }

  /** The entries other than id live on, unchanged but for their random position. */
  ghost predicate OthersLive(m: map<Id, Info>, m': map<Id, Info>, id: Id) {
    && m.Keys - {id} <= m'.Keys <= m.Keys
    && forall n :: n in m && n != id ==> m'[n] == m[n].(nRandomPos := m'[n].nRandomPos)
  }

  lemma DeleteSpares(st: State, id: Id)
    requires CanDelete(st, id)
    ensures OthersLive(st.mapInfo, Delete(st, id).mapInfo, id) && Delete(st, id).vvNew == st.vvNew
    ensures Delete(st, id).vvTried == st.vvTried && id !in Delete(st, id).mapInfo
  {
    var i, j := st.mapInfo[id].nRandomPos, |st.vRandom| - 1;
    if i != j {
      var a, b := st.vRandom[i], st.vRandom[j];
      MovedSpares(st.mapInfo, a, j);
      MovedSpares(Moved(st.mapInfo, a, j), b, i);
    }
  }

  lemma MovedSpares(m: map<Id, Info>, n: Id, pos: nat)
    requires n in m
    ensures Moved(m, n, pos).Keys == m.Keys
    ensures forall k :: k in m ==> Moved(m, n, pos)[k] == m[k].(nRandomPos := Moved(m, n, pos)[k].nRandomPos)
  {
  }
}
