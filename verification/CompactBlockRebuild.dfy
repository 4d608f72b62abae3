/**
 A partially downloaded block: initialised from a compact block and the mempool,
 then filled with the missing transactions.
 */
module CompactBlockRebuild {
  import opened Wrappers
  import opened CompactBlocks
  import opened CompactBlockScan

  // ------------------------------------------------------------------------- the block

  datatype ReadStatus = READ_STATUS_OK | READ_STATUS_INVALID | READ_STATUS_FAILED | READ_STATUS_CHECKBLOCK_FAILED

  /** What CheckBlock says about a block. */
  datatype CheckResult = Passed | CorruptionPossible | Failed

  predicate WellFormed(cb: CompactBlock) {
    && !cb.headerIsNull && 0 < BlockTxCount(cb) <= MAX_BLOCK_BASE_SIZE / MIN_TRANSACTION_BASE_SIZE
    && AllPrefilledOk(cb, |cb.prefilledtxn|)
  }

  /** The slots the short IDs belong to, in order. */
  function IDSlots(cb: CompactBlock): seq<nat>
    requires AllPrefilledOk(cb, |cb.prefilledtxn|)
  {
    FreeSlots(Placed(cb, |cb.prefilledtxn|), 0)
  }

  class PartiallyDownloadedBlock {
    var headerIsNull: bool
    var txn_available: Slots
    var prefilled_count: nat
    var mempool_count: nat

    constructor ()
      ensures headerIsNull && txn_available == []
    {
      headerIsNull, txn_available, prefilled_count, mempool_count := true, [], 0, 0;
    }

    /** Accepts exactly the well-formed compact blocks without a short ID twice and
        without an overfull bucket, and fills the slots its short IDs lead to.  It is
        not called where it would not return. */
    method InitData(cb: CompactBlock, pool: Pool, GetShortID: nat -> nat, overfull: nat -> bool)
      returns (status: ReadStatus, ghost m: map<nat, nat>, ghost scanned: nat)
      requires headerIsNull && txn_available == [] && !(WellFormed(cb) && NeverReturns(cb))
      modifies this
      ensures status == READ_STATUS_INVALID <==> !WellFormed(cb)
      ensures status == READ_STATUS_OK <==> WellFormed(cb) && Distinct(cb.shorttxids) && forall i :: 0 <= i < |cb.shorttxids| ==> !overfull(i)
      ensures status != READ_STATUS_CHECKBLOCK_FAILED
      ensures status == READ_STATUS_OK ==> !headerIsNull && Initialized(cb, pool, GetShortID, txn_available, m, scanned)
    {
      hide AllPrefilledOk;
      hide Maps;
      hide Distinct;
      hide HitsAt;
      m, scanned := map[], 0;
      if cb.headerIsNull || (cb.shorttxids == [] && cb.prefilledtxn == []) {
        return READ_STATUS_INVALID, m, 0;
      }
      if |cb.shorttxids| + |cb.prefilledtxn| > MAX_BLOCK_BASE_SIZE / MIN_TRANSACTION_BASE_SIZE {
        return READ_STATUS_INVALID, m, 0;
      }
      headerIsNull := cb.headerIsNull;
      var ok, slots := PlacePrefilled(cb);
      if !ok {
        return READ_STATUS_INVALID, m, 0;
      }
      prefilled_count := |cb.prefilledtxn|;
      OneSlotPerShortID(cb, |cb.prefilledtxn|);
      var shorttxids;
      ok, shorttxids := AssignSlots(cb.shorttxids, slots, overfull);
      if !ok {
        return READ_STATUS_FAILED, m, 0;
      }
      m := shorttxids;
      SlotsExist(m, cb.shorttxids, IDSlots(cb), |slots|);
      var count, upTo;
      slots, count, upTo := ScanPool(shorttxids, slots, pool, GetShortID);
      txn_available, mempool_count, scanned := slots, count, upTo;
      status := READ_STATUS_OK;
    }

    /** Puts the missing transactions into the empty slots in order. */
    method FillBlock(vtx_missing: seq<Tx>, CheckBlock: seq<Tx> -> CheckResult) returns (status: ReadStatus, vtx: seq<Tx>)
      requires !headerIsNull
      ensures status == READ_STATUS_INVALID <==> |vtx_missing| != |FreeSlots(txn_available, 0)|
      ensures status != READ_STATUS_INVALID ==> IsFilled(txn_available, vtx_missing, vtx)
      ensures status == READ_STATUS_OK <==> |vtx_missing| == |FreeSlots(txn_available, 0)| && CheckBlock(vtx) == Passed
    {
      var ok;
      ok, vtx := FillSlots(txn_available, vtx_missing);
      if !ok {
        return READ_STATUS_INVALID, vtx;
      }
      match CheckBlock(vtx) {
        case Passed => return READ_STATUS_OK, vtx;
        case CorruptionPossible => return READ_STATUS_FAILED, vtx;
        case Failed => return READ_STATUS_CHECKBLOCK_FAILED, vtx;
      }
    }
  }

  /** The slots after InitData: m leads from each short ID to its slot, as 16 bits
      give it, and every slot holds what the scanned pool entries that lead to it make
      of the prefilled one. */
  ghost predicate Initialized(cb: CompactBlock, pool: Pool, GetShortID: nat -> nat, slots: Slots, m: map<nat, nat>, scanned: nat) {
    && AllPrefilledOk(cb, |cb.prefilledtxn|) && |slots| == BlockTxCount(cb) && scanned <= |pool|
    && |IDSlots(cb)| == |cb.shorttxids| && Maps(m, cb.shorttxids, Wrapped(IDSlots(cb)), |cb.shorttxids|)
    && (forall p: nat :: p < |slots| ==> slots[p] == After(Placed(cb, |cb.prefilledtxn|)[p], HitsAt(pool, GetShortID, m, p, scanned)))
    && (scanned == |pool| || forall s :: s in m ==> HitsAt(pool, GetShortID, m, m[s], scanned).One?)
  }

  lemma SlotsExist(m: map<nat, nat>, ids: seq<nat>, free: seq<nat>, n: nat)
    requires |ids| == |free| && Maps(m, ids, Wrapped(free), |ids|) && forall j :: 0 <= j < |free| ==> free[j] < n
    ensures InRange(m, n)
  {
    forall s | s in m ensures m[s] < n {
      var j :| 0 <= j < |ids| && ids[j] == s;
      assert m[ids[j]] == Wrapped(free)[j] <= free[j];
    }
  }

  // --------------------------------------------------------------------------- filling

  /** vtx is the slots with the missing transactions in the empty ones, in order. */
  ghost predicate IsFilled(slots: Slots, missing: seq<Tx>, vtx: seq<Tx>) {
    var free := FreeSlots(slots, 0);
    && |vtx| == |slots| && |missing| == |free|
    && (forall p :: 0 <= p < |slots| && slots[p].Some? ==> vtx[p] == slots[p].value)
    && (forall j :: 0 <= j < |free| ==> vtx[free[j]] == missing[j])
  }

  method FillSlots(slots: Slots, missing: seq<Tx>) returns (ok: bool, vtx: seq<Tx>)
    ensures ok <==> |missing| == |FreeSlots(slots, 0)|
    ensures ok ==> IsFilled(slots, missing, vtx)
  {
    hide FreeSlots;
    hide FillInv;
    ghost var free := FreeSlots(slots, 0);
    vtx := [];
    var offset := 0;
    FillStart(slots, missing);
    for i := 0 to |slots|
      invariant 0 <= offset <= |missing| && |vtx| == i && FillInv(slots, missing, vtx, i, offset)
    {
      if slots[i].None? {
        FillMissing(slots, missing, vtx, i, offset);
        if |missing| <= offset {
          return false, vtx;
        }
        vtx := vtx + [missing[offset]];
        offset := offset + 1;
      } else {
        FillPresent(slots, missing, vtx, i, offset);
        vtx := vtx + [slots[i].value];
      }
    }
    FillDone(slots, missing, vtx, offset);
    ok := |missing| == offset;
  }

  /** The first i slots are filled, with `offset` of the missing transactions. */
  ghost predicate FillInv(slots: Slots, missing: seq<Tx>, vtx: seq<Tx>, i: nat, offset: nat) {
    var free := FreeSlots(slots, 0);
    && i <= |slots| && |vtx| == i && offset <= |missing| && offset <= |free| && free == free[..offset] + FreeSlots(slots, i)
    && (forall p :: 0 <= p < i && slots[p].Some? ==> vtx[p] == slots[p].value)
    && (forall j :: 0 <= j < offset ==> free[j] < i && vtx[free[j]] == missing[j])
  }

  lemma FillStart(slots: Slots, missing: seq<Tx>)
    ensures FillInv(slots, missing, [], 0, 0)
  {
    var free := FreeSlots(slots, 0);
    assert free == free[..0] + free;
  }

  lemma FillMissing(slots: Slots, missing: seq<Tx>, vtx: seq<Tx>, i: nat, offset: nat)
    requires FillInv(slots, missing, vtx, i, offset) && i < |slots| && slots[i].None?
    ensures offset < |FreeSlots(slots, 0)|
    ensures offset < |missing| ==> FillInv(slots, missing, vtx + [missing[offset]], i + 1, offset + 1)
  {
    hide FreeSlots;
    var free := FreeSlots(slots, 0);
    FirstFree(slots, i);
    assert free[offset] == i;
    assert free[..offset + 1] == free[..offset] + [i];
  }

  lemma FillPresent(slots: Slots, missing: seq<Tx>, vtx: seq<Tx>, i: nat, offset: nat)
    requires FillInv(slots, missing, vtx, i, offset) && i < |slots| && slots[i].Some?
    ensures FillInv(slots, missing, vtx + [slots[i].value], i + 1, offset)
  {
    hide FreeSlots;
    NotFree(slots, i);
  }

  lemma FillDone(slots: Slots, missing: seq<Tx>, vtx: seq<Tx>, offset: nat)
    requires FillInv(slots, missing, vtx, |slots|, offset)
    ensures offset == |FreeSlots(slots, 0)| && (offset == |missing| ==> IsFilled(slots, missing, vtx))
  {
    NoneLeft(slots);
  }

  lemma NotFree(slots: Slots, p: nat)
    requires p < |slots| && slots[p].Some?
    ensures FreeSlots(slots, p) == FreeSlots(slots, p + 1)
  {
  }

  lemma NoneLeft(slots: Slots)
    ensures FreeSlots(slots, |slots|) == []
  {
  }

  // ---------------------------------------------------------------------- reconstruction

  /** The compact block describes the transaction list vtx. */
  ghost predicate Describes(cb: CompactBlock, vtx: seq<Tx>, GetShortID: nat -> nat) {
    && AllPrefilledOk(cb, |cb.prefilledtxn|) && |vtx| == BlockTxCount(cb) && |IDSlots(cb)| == |cb.shorttxids|
    && (forall p :: 0 <= p < |vtx| && Placed(cb, |cb.prefilledtxn|)[p].Some? ==> Placed(cb, |cb.prefilledtxn|)[p].value == vtx[p])
    && (forall j :: 0 <= j < |cb.shorttxids| ==> cb.shorttxids[j] == GetShortID(vtx[IDSlots(cb)[j]].hash))
  }

  /** No pool transaction shares its short ID with a different one of the block. */
  ghost predicate NoClash(vtx: seq<Tx>, pool: Pool, GetShortID: nat -> nat) {
    forall i, p :: 0 <= i < |pool| && 0 <= p < |vtx| && GetShortID(pool[i].0) == GetShortID(vtx[p].hash) ==> pool[i].1 == vtx[p]
  }

  /** Then, as long as positions fit 16 bits, every slot that InitData fills holds the
      block's own transaction. */
  lemma SlotsAreRight(cb: CompactBlock, vtx: seq<Tx>, pool: Pool, GetShortID: nat -> nat, slots: Slots, m: map<nat, nat>, scanned: nat, p: nat)
    requires Describes(cb, vtx, GetShortID) && NoClash(vtx, pool, GetShortID) && Initialized(cb, pool, GetShortID, slots, m, scanned)
    requires BlockTxCount(cb) <= UINT16_MAX + 1 && p < |slots| && slots[p].Some?
    ensures slots[p].value == vtx[p]
  {
    hide AllPrefilledOk;
    hide Placed;
    hide FreeSlots;
    hide HitsAt;
    hide Maps;
    hide Leads;
    hide Wrapped;
    if HitsAt(pool, GetShortID, m, p, scanned).One? {
      HitIsInPool(pool, GetShortID, m, p, scanned);
      var i :| 0 <= i < scanned && pool[i].1 == HitsAt(pool, GetShortID, m, p, scanned).tx && Leads(m, GetShortID(pool[i].0), p);
      var j := LedBy(m, cb.shorttxids, Wrapped(IDSlots(cb)), GetShortID(pool[i].0), p);
      assert IDSlots(cb)[j] == p;
    }
  }

  lemma LedBy(m: map<nat, nat>, ids: seq<nat>, targets: seq<nat>, s: nat, p: nat) returns (j: nat)
    requires |ids| == |targets| && Maps(m, ids, targets, |ids|) && Leads(m, s, p)
    ensures j < |ids| && ids[j] == s && targets[j] == p
  {
    j :| 0 <= j < |ids| && ids[j] == s;
  }

  /** With the missing transactions filled in, the block is complete, and it is right
      exactly if no slot held anything else. */
  lemma FilledIsTheBlock(slots: Slots, missing: seq<Tx>, filled: seq<Tx>, vtx: seq<Tx>)
    requires IsFilled(slots, missing, filled) && |vtx| == |slots|
    requires forall j :: 0 <= j < |missing| ==> missing[j] == vtx[FreeSlots(slots, 0)[j]]
    ensures filled == vtx <==> HoldsOnly(slots, vtx)
  {
    var free := FreeSlots(slots, 0);
    forall p | 0 <= p < |slots| && slots[p].None? ensures filled[p] == vtx[p] {
      FreeSlotsAreAll(slots, 0, p);
      var j :| 0 <= j < |free| && free[j] == p;
    }
  }

  /** Whatever a slot holds is the block's transaction at that place. */
  ghost predicate HoldsOnly(slots: Slots, vtx: seq<Tx>) {
    |slots| == |vtx| && forall p :: 0 <= p < |slots| && slots[p].Some? ==> slots[p].value == vtx[p]
  }

  /** What a peer is asked for and sends: the transactions of the empty slots. */
  function Requested(slots: Slots, vtx: seq<Tx>): (missing: seq<Tx>)
    requires |slots| == |vtx|
    ensures |missing| == |FreeSlots(slots, 0)|
    ensures forall j :: 0 <= j < |missing| ==> missing[j] == vtx[FreeSlots(slots, 0)[j]]
  {
    var free := FreeSlots(slots, 0);
    seq(|free|, j requires 0 <= j < |free| => vtx[free[j]])
  }

  function ShortIDs(vtx: seq<Tx>, GetShortID: nat -> nat): (ids: seq<nat>)
    requires vtx != []
  {
    seq<nat>(|vtx| - 1, i requires 0 <= i < |vtx| - 1 => GetShortID(vtx[i + 1].hash))
  }

  /** CBlockHeaderAndShortTxIDs: the coinbase whole, short IDs for the rest. */
  method MakeCompact(vtx: seq<Tx>, GetShortID: nat -> nat) returns (cb: CompactBlock)
    requires vtx != [] && !vtx[0].isNull
    ensures Describes(cb, vtx, GetShortID) && !cb.headerIsNull && BlockTxCount(cb) == |vtx|
    ensures cb.shorttxids == ShortIDs(vtx, GetShortID) && cb.prefilledtxn == [Prefilled(0, vtx[0])]
  {
    var shorttxids := seq(|vtx| - 1, _ => 0);
    for i := 1 to |vtx|
      invariant |shorttxids| == |vtx| - 1
      invariant forall j :: 0 <= j < i - 1 ==> shorttxids[j] == GetShortID(vtx[j + 1].hash)
    {
      shorttxids := shorttxids[i - 1 := GetShortID(vtx[i].hash)];
    }
    cb := CompactBlock(false, shorttxids, [Prefilled(0, vtx[0])]);
    CoinbaseFirst(cb, vtx);
  }

  lemma CoinbaseFirst(cb: CompactBlock, vtx: seq<Tx>)
    requires vtx != [] && !vtx[0].isNull && |cb.shorttxids| == |vtx| - 1 && cb.prefilledtxn == [Prefilled(0, vtx[0])]
    ensures AllPrefilledOk(cb, 1) && IDSlots(cb) == From(1, |vtx| - 1)
    ensures Placed(cb, 1)[0] == Some(vtx[0]) && forall p :: 0 < p < |vtx| ==> Placed(cb, 1)[p] == None
  {
    var pre := cb.prefilledtxn;
    assert LastIndex(pre, 0) == -1 && LastIndex(pre, 1) == 0;
    assert PrefilledOk(cb, 0);
    assert Placed(cb, 1) == Placed(cb, 0)[0 := Some(vtx[0])];
    NotFree(Placed(cb, 1), 0);
    CountUp(Placed(cb, 1), 1);
  }

  /** The n numbers from k on. */
  function From(k: nat, n: nat): (s: seq<nat>)
    ensures |s| == n && forall j :: 0 <= j < n ==> s[j] == k + j
    decreases n
  {
    if n == 0 then [] else [k] + From(k + 1, n - 1)
  }

  lemma {:induction false} CountUp(slots: Slots, from: nat)
    requires from <= |slots| && forall p :: from <= p < |slots| ==> slots[p] == None
    ensures FreeSlots(slots, from) == From(from, |slots| - from)
    decreases |slots| - from
  {
    if from < |slots| {
      CountUp(slots, from + 1);
    }
  }
}
