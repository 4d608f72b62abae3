/**
 The address manager as a value: five cross-linked indexes and two counters, and
 what each internal operation of CAddrMan does to them.  The keyed hashes that
 choose buckets are arbitrary functions.
 */
module AddrMan {

  const TRIED_BUCKET_COUNT: nat := 256
  const NEW_BUCKET_COUNT: nat := 1024
  const BUCKET_SIZE: nat := 64
  const NEW_BUCKETS_PER_ADDRESS: nat := 8

  type NetAddr = nat
  datatype Service = Service(ip: NetAddr, port: nat)

  /** CAddress. */
  datatype Address = Address(service: Service, nTime: int, nServices: set<nat>)

  /** CAddrInfo. */
  datatype Info = Info(addr: Address, source: NetAddr, nLastTry: int, nLastCountAttempt: int,
                       nLastSuccess: int, nAttempts: int, nRefCount: int, fInTried: bool, nRandomPos: int)

  /** The secret key, as the hash functions it selects. */
  datatype Key = Key(newHash: (Service, NetAddr) -> nat, triedHash: Service -> nat, positionHash: (Service, bool, nat) -> nat)

  type Id = nat
  datatype Slot = Slot(bucket: nat, pos: nat)

  /** The remainder, by repeated subtraction. */
  function Mod(n: nat, m: nat): (r: nat)
    requires m > 0
    ensures r < m
  {
    if n < m then n else Mod(n - m, m)
  }

  function NewSlot(key: Key, service: Service, source: NetAddr): Slot {
    SlotIn(key, service, Mod(key.newHash(service, source), NEW_BUCKET_COUNT))
  }

  /** The only position in a "new" bucket where an address can be. */
  function SlotIn(key: Key, service: Service, bucket: nat): Slot {
    Slot(bucket, Mod(key.positionHash(service, true, bucket), BUCKET_SIZE))
  }

  function TriedSlot(key: Key, service: Service): Slot {
    var bucket := Mod(key.triedHash(service), TRIED_BUCKET_COUNT);
    Slot(bucket, Mod(key.positionHash(service, false, bucket), BUCKET_SIZE))
  }

  /** A slot that is not a key of vvNew or vvTried holds -1. */
  datatype State = State(nIdCount: nat, mapInfo: map<Id, Info>, mapAddr: map<NetAddr, Id>, vRandom: seq<Id>,
                         vvTried: map<Slot, Id>, nTried: int, vvNew: map<Slot, Id>, nNew: int, nLastGood: int)

  const EMPTY := State(0, map[], map[], [], map[], 0, map[], 0, 1)

  // --------------------------------------------------------------- the operations

  function IsTerrible(info: Info, nNow: int): bool {
    if info.nLastTry != 0 && info.nLastTry >= nNow - 60 then false
    else if info.addr.nTime > nNow + 10 * 60 then true
    else if info.addr.nTime == 0 || nNow - info.addr.nTime > 30 * 24 * 60 * 60 then true
    else if info.nLastSuccess == 0 && info.nAttempts >= 3 then true
    else nNow - info.nLastSuccess > 7 * 24 * 60 * 60 && info.nAttempts >= 10
  }

  function Create(st: State, addr: Address, source: NetAddr): State {
    var id := st.nIdCount;
    st.(nIdCount := id + 1,
        mapInfo := st.mapInfo[id := Info(addr, source, 0, 0, 0, 0, 0, false, |st.vRandom|)],
        mapAddr := st.mapAddr[addr.service.ip := id],
        vRandom := st.vRandom + [id])
  }

  /** What SwapRandom asserts. */
  predicate CanSwap(st: State, i: nat, j: nat) {
    i < |st.vRandom| && j < |st.vRandom| && st.vRandom[i] in st.mapInfo && st.vRandom[j] in st.mapInfo
  }

  function SwapRandom(st: State, i: nat, j: nat): State
    requires CanSwap(st, i, j)
  {
    if i == j then st
    else
      var a, b := st.vRandom[i], st.vRandom[j];
      st.(mapInfo := Moved(Moved(st.mapInfo, a, j), b, i), vRandom := st.vRandom[i := b][j := a])
  }

  function Moved(m: map<Id, Info>, n: Id, pos: nat): map<Id, Info>
    requires n in m
  {
    m[n := m[n].(nRandomPos := pos)]
  }

  /** What Delete asserts. */
  predicate CanDelete(st: State, id: Id) {
    && id in st.mapInfo && !st.mapInfo[id].fInTried && st.mapInfo[id].nRefCount == 0
    && 0 <= st.mapInfo[id].nRandomPos && |st.vRandom| > 0 && CanSwap(st, st.mapInfo[id].nRandomPos, |st.vRandom| - 1)
  }

  function Delete(st: State, id: Id): State
    requires CanDelete(st, id)
  {
    var s := SwapRandom(st, st.mapInfo[id].nRandomPos, |st.vRandom| - 1);
    s.(vRandom := s.vRandom[..|s.vRandom| - 1],
       mapAddr := s.mapAddr - {st.mapInfo[id].addr.service.ip},
       mapInfo := s.mapInfo - {id},
       nNew := s.nNew - 1)
  }

  /** One reference less, without the deletion that may follow. */
  function DropRef(st: State, slot: Slot): State
    requires slot in st.vvNew && st.vvNew[slot] in st.mapInfo
  {
    var id := st.vvNew[slot];
    st.(vvNew := st.vvNew - {slot},
        mapInfo := st.mapInfo[id := st.mapInfo[id].(nRefCount := st.mapInfo[id].nRefCount - 1)])
  }

  predicate CanClear(st: State, slot: Slot) {
    slot in st.vvNew ==>
      && st.vvNew[slot] in st.mapInfo && st.mapInfo[st.vvNew[slot]].nRefCount > 0
      && (st.mapInfo[st.vvNew[slot]].nRefCount == 1 ==> CanDelete(DropRef(st, slot), st.vvNew[slot]))
  }

  function ClearNew(st: State, slot: Slot): State
    requires CanClear(st, slot)
  {
    if slot !in st.vvNew then st
    else
      var id, s := st.vvNew[slot], DropRef(st, slot);
      if s.mapInfo[id].nRefCount == 0 then Delete(s, id) else s
  }

  /** Enter an id into a free "new" slot. */
  function AddRef(st: State, slot: Slot, id: Id): State
    requires id in st.mapInfo
  {
    st.(vvNew := st.vvNew[slot := id],
        mapInfo := st.mapInfo[id := st.mapInfo[id].(nRefCount := st.mapInfo[id].nRefCount + 1)])
  }

  /** The first part of MakeTried: the entry leaves all its "new" slots. */
  function LeaveNew(st: State, id: Id): State
    requires id in st.mapInfo
  {
    st.(vvNew := map s | s in st.vvNew && st.vvNew[s] != id :: st.vvNew[s],
        mapInfo := st.mapInfo[id := st.mapInfo[id].(nRefCount := 0)],
        nNew := st.nNew - 1)
  }

  /** The eviction in MakeTried, up to the point where space is made in "new". */
  function LeaveTried(st: State, slot: Slot): State
    requires slot in st.vvTried && st.vvTried[slot] in st.mapInfo
  {
    var id := st.vvTried[slot];
    st.(mapInfo := st.mapInfo[id := st.mapInfo[id].(fInTried := false)], vvTried := st.vvTried - {slot}, nTried := st.nTried - 1)
  }

  function EnterTried(st: State, slot: Slot, id: Id): State
    requires id in st.mapInfo
  {
    st.(vvTried := st.vvTried[slot := id], nTried := st.nTried + 1, mapInfo := st.mapInfo[id := st.mapInfo[id].(fInTried := true)])
  }

  // ---------------------------------------------------------------- the invariant

  function Refs(vvNew: map<Slot, Id>, id: Id): set<Slot> {
    set s | s in vvNew && vvNew[s] == id
  }

  function NewIds(m: map<Id, Info>): set<Id> {
    set n | n in m && !m[n].fInTried
  }

  function TriedIds(m: map<Id, Info>): set<Id> {
    set n | n in m && m[n].fInTried
  }

  /** mapInfo, mapAddr and vRandom are mutual inverses. */
  ghost predicate Indexed(nIdCount: nat, m: map<Id, Info>, mapAddr: map<NetAddr, Id>, vRandom: seq<Id>) {
    && (forall n :: n in m ==> n < nIdCount && Listed(n, m[n], mapAddr, vRandom))
    && (forall a :: a in mapAddr ==> mapAddr[a] in m && m[mapAddr[a]].addr.service.ip == a)
    && (forall k :: 0 <= k < |vRandom| ==> vRandom[k] in m && m[vRandom[k]].nRandomPos == k)
  }

  predicate Listed(n: Id, info: Info, mapAddr: map<NetAddr, Id>, vRandom: seq<Id>) {
    && info.addr.service.ip in mapAddr && mapAddr[info.addr.service.ip] == n
    && 0 <= info.nRandomPos < |vRandom| && vRandom[info.nRandomPos] == n
  }

  /** Every "new" slot holds an untried entry, at that entry's own position. */
  ghost predicate NewTable(key: Key, m: map<Id, Info>, vvNew: map<Slot, Id>) {
    forall s :: s in vvNew ==> vvNew[s] in m && !m[vvNew[s]].fInTried && NewHome(key, m[vvNew[s]].addr.service, s)
  }

  predicate NewHome(key: Key, service: Service, s: Slot) {
    s.bucket < NEW_BUCKET_COUNT && s == SlotIn(key, service, s.bucket)
  }

  /** The tried entries and the "tried" slots correspond one to one. */
  ghost predicate TriedTable(key: Key, m: map<Id, Info>, vvTried: map<Slot, Id>) {
    && (forall s :: s in vvTried ==>
          vvTried[s] in m && m[vvTried[s]].fInTried && s == TriedSlot(key, m[vvTried[s]].addr.service))
    && (forall n :: n in m && m[n].fInTried ==> InTriedSlot(key, n, m[n].addr.service, vvTried))
  }

  predicate InTriedSlot(key: Key, n: Id, service: Service, vvTried: map<Slot, Id>) {
    TriedSlot(key, service) in vvTried && vvTried[TriedSlot(key, service)] == n
  }

  /** Reference counts are exact; entries in limbo have none, other untried ones 1 to 8. */
  ghost predicate RefCounts(m: map<Id, Info>, vvNew: map<Slot, Id>, limbo: set<Id>) {
    forall n :: n in m ==> m[n].nRefCount == |Refs(vvNew, n)| && RefsInRange(n, m[n], limbo)
  }

  predicate RefsInRange(n: Id, info: Info, limbo: set<Id>) {
    if n in limbo then !info.fInTried && info.nRefCount == 0
    else !info.fInTried ==> 1 <= info.nRefCount <= NEW_BUCKETS_PER_ADDRESS
  }

  ghost predicate Stats(m: map<Id, Info>) {
    forall n :: n in m ==> GoodStats(m[n])
  }

  predicate GoodStats(info: Info) {
    0 <= info.nLastTry && 0 <= info.nLastSuccess && (info.fInTried ==> info.nLastSuccess != 0)
  }

  /** The counters, of which `extra` counts entries in limbo. */
  ghost predicate Counters(st: State, limbo: set<Id>, extra: int) {
    && st.nTried == |TriedIds(st.mapInfo)|
    && limbo <= st.mapInfo.Keys
    && st.nNew == |NewIds(st.mapInfo) - limbo| + extra
  }

  /** The invariant while the entries in `limbo` are on their way between tables. */
  ghost predicate InvWith(key: Key, st: State, limbo: set<Id>, extra: int) {
    && Indexed(st.nIdCount, st.mapInfo, st.mapAddr, st.vRandom)
    && NewTable(key, st.mapInfo, st.vvNew)
    && TriedTable(key, st.mapInfo, st.vvTried)
    && RefCounts(st.mapInfo, st.vvNew, limbo)
    && Stats(st.mapInfo)
    && Counters(st, limbo, extra)
  }

  /** The invariant between operations. */
  ghost predicate Inv(key: Key, st: State) {
    InvWith(key, st, {}, 0)
  }
}
