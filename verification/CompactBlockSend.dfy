/**
 A block sent compactly and put together again, in blocks of every size: positions
 are kept in 16 bits, so that from the 65537th transaction on they lead elsewhere.
 */
module CompactBlockSend {
  import opened Wrappers
  import opened CompactBlocks
  import opened CompactBlockScan
  import opened CompactBlockRebuild

  const WRAP: nat := 65536
  const MAX_TXS: nat := MAX_BLOCK_BASE_SIZE / MIN_TRANSACTION_BASE_SIZE

  /** The first k pool entries have the short ID of the block's q-th transaction. */
  ghost predicate InPool(vtx: seq<Tx>, pool: Pool, GetShortID: nat -> nat, q: nat, k: nat)
    requires q < |vtx| && k <= |pool|
  {
    exists i :: 0 <= i < k && GetShortID(pool[i].0) == GetShortID(vtx[q].hash)
  }

  /** No two pool entries have the same short ID. */
  ghost predicate OneEach(pool: Pool, GetShortID: nat -> nat) {
    forall i, j :: 0 <= i < j < |pool| ==> GetShortID(pool[i].0) != GetShortID(pool[j].0)
  }

  /** No transaction after the first 65536 is in the pool, unless the one 65536 places
      before it has a short ID and is in the pool too, so that the two cancel out. */
  ghost predicate NoneMisplaced(vtx: seq<Tx>, pool: Pool, GetShortID: nat -> nat) {
    NoneMisplacedBy(vtx, pool, GetShortID, |pool|)
  }

  ghost predicate NoneMisplacedBy(vtx: seq<Tx>, pool: Pool, GetShortID: nat -> nat, k: nat)
    requires k <= |pool|
  {
    forall q :: WRAP <= q < |vtx| && InPool(vtx, pool, GetShortID, q, k) ==> q > WRAP && InPool(vtx, pool, GetShortID, q - WRAP, k)
  }

  /** m as InitData builds it when only the coinbase is prefilled. */
  ghost predicate Targets(vtx: seq<Tx>, GetShortID: nat -> nat, m: map<nat, nat>) {
    && (forall q :: 0 < q < |vtx| ==> Leads(m, GetShortID(vtx[q].hash), q % WRAP))
    && (forall s :: s in m ==> exists q :: 0 < q < |vtx| && GetShortID(vtx[q].hash) == s)
  }

  lemma IDsAre(vtx: seq<Tx>, GetShortID: nat -> nat)
    requires vtx != []
    ensures |ShortIDs(vtx, GetShortID)| == |vtx| - 1
    ensures forall q :: 0 < q < |vtx| ==> GetShortID(vtx[q].hash) == ShortIDs(vtx, GetShortID)[q - 1]
  {
  }

  lemma MapsAreTargets(cb: CompactBlock, vtx: seq<Tx>, GetShortID: nat -> nat, m: map<nat, nat>)
    requires vtx != [] && !vtx[0].isNull && cb.shorttxids == ShortIDs(vtx, GetShortID) && cb.prefilledtxn == [Prefilled(0, vtx[0])]
    requires AllPrefilledOk(cb, 1) && |IDSlots(cb)| == |cb.shorttxids|
    requires Maps(m, cb.shorttxids, Wrapped(IDSlots(cb)), |cb.shorttxids|)
    ensures Targets(vtx, GetShortID, m)
  {
    hide FreeSlots;
    hide AllPrefilledOk;
    CoinbaseFirst(cb, vtx);
    var slots := Wrapped(IDSlots(cb));
    hide ShortIDs;
    IDsAre(vtx, GetShortID);
    forall q | 0 < q < |vtx| ensures Leads(m, GetShortID(vtx[q].hash), q % WRAP) {
      var j := q - 1;
      assert cb.shorttxids[j] == GetShortID(vtx[q].hash) && slots[j] == q % WRAP;
    }
    forall s | s in m ensures exists q :: 0 < q < |vtx| && GetShortID(vtx[q].hash) == s {
      IsMapped(m, cb.shorttxids, slots, |cb.shorttxids|, s);
      var j :| 0 <= j < |cb.shorttxids| && cb.shorttxids[j] == s;
      var q := j + 1;
      assert s == GetShortID(vtx[q].hash);
    }
  }

  /** Short IDs are different, that of the coinbase apart. */
  ghost predicate AllDiffer(vtx: seq<Tx>, GetShortID: nat -> nat) {
    && (forall p, q :: 0 < p < q < |vtx| ==> GetShortID(vtx[p].hash) != GetShortID(vtx[q].hash))
    && (forall q :: 0 < q < |vtx| ==> vtx[q] != vtx[0])
  }

  lemma WrapsTo(q: nat, p: nat)
    requires q <= MAX_TXS
    ensures q % WRAP == p <==> p < WRAP && (q == p || q == p + WRAP)
  {
  }

  /** The only short IDs that lead to a slot are its own and the one 65536 further on. */
  lemma LeadsTo(vtx: seq<Tx>, GetShortID: nat -> nat, m: map<nat, nat>, s: nat, p: nat)
    requires Targets(vtx, GetShortID, m) && |vtx| <= MAX_TXS && p < |vtx|
    ensures Leads(m, s, p) <==>
            p < WRAP && ((p > 0 && s == GetShortID(vtx[p].hash)) || (p + WRAP < |vtx| && s == GetShortID(vtx[p + WRAP].hash)))
  {
    if Leads(m, s, p) {
      LeadsOnlyTo(vtx, GetShortID, m, s, p);
    } else if p < WRAP {
      if p > 0 {
        TargetOf(vtx, GetShortID, m, p);
      }
      if p + WRAP < |vtx| {
        TargetOf(vtx, GetShortID, m, p + WRAP);
      }
    }
  }

  lemma TargetOf(vtx: seq<Tx>, GetShortID: nat -> nat, m: map<nat, nat>, q: nat)
    requires Targets(vtx, GetShortID, m) && |vtx| <= MAX_TXS && 0 < q < |vtx|
    ensures Leads(m, GetShortID(vtx[q].hash), if q < WRAP then q else q - WRAP)
  {
    WrapsTo(q, if q < WRAP then q else q - WRAP);
  }

  lemma LeadsOnlyTo(vtx: seq<Tx>, GetShortID: nat -> nat, m: map<nat, nat>, s: nat, p: nat)
    requires Targets(vtx, GetShortID, m) && |vtx| <= MAX_TXS && Leads(m, s, p)
    ensures p < WRAP && exists q :: (q == p || q == p + WRAP) && 0 < q < |vtx| && GetShortID(vtx[q].hash) == s
  {
    var q :| 0 < q < |vtx| && GetShortID(vtx[q].hash) == s;
    assert Leads(m, GetShortID(vtx[q].hash), q % WRAP);
    WrapsTo(q, p);
  }

  /** What the pool makes of slot p: its own transaction, the one 65536 places on, or,
      if it has both, nothing. */
  ghost function Expected(vtx: seq<Tx>, pool: Pool, GetShortID: nat -> nat, p: nat, k: nat): Found
    requires p < |vtx| && k <= |pool|
  {
    if p >= WRAP then Zero
    else
      var own := p > 0 && InPool(vtx, pool, GetShortID, p, k);
      var wrapped := p + WRAP < |vtx| && InPool(vtx, pool, GetShortID, p + WRAP, k);
      if own && wrapped then Many
      else if own then One(vtx[p])
      else if wrapped then One(vtx[p + WRAP])
      else Zero
  }

  lemma InPoolNext(vtx: seq<Tx>, pool: Pool, GetShortID: nat -> nat, q: nat, k: nat)
    requires q < |vtx| && k < |pool| && OneEach(pool, GetShortID)
    ensures InPool(vtx, pool, GetShortID, q, k + 1) <==>
            InPool(vtx, pool, GetShortID, q, k) || GetShortID(pool[k].0) == GetShortID(vtx[q].hash)
    ensures !(InPool(vtx, pool, GetShortID, q, k) && GetShortID(pool[k].0) == GetShortID(vtx[q].hash))
  {
  }

  lemma {:induction false} HitsAsExpected(vtx: seq<Tx>, pool: Pool, GetShortID: nat -> nat, m: map<nat, nat>, p: nat, k: nat)
    requires Targets(vtx, GetShortID, m) && |vtx| <= MAX_TXS && p < |vtx| && k <= |pool|
    requires AllDiffer(vtx, GetShortID) && OneEach(pool, GetShortID) && NoClash(vtx, pool, GetShortID)
    ensures HitsAt(pool, GetShortID, m, p, k) == Expected(vtx, pool, GetShortID, p, k)
  {
    hide Targets;
    hide OneEach;
    hide InPool;
    if k == 0 {
      NothingYet(vtx, pool, GetShortID);
    } else {
      var prev := k - 1;
      HitsAsExpected(vtx, pool, GetShortID, m, p, prev);
      LeadsTo(vtx, GetShortID, m, GetShortID(pool[prev].0), p);
      if p < WRAP {
        InPoolNext(vtx, pool, GetShortID, p, prev);
        if p + WRAP < |vtx| {
          InPoolNext(vtx, pool, GetShortID, p + WRAP, prev);
        }
      }
    }
  }

  lemma NothingYet(vtx: seq<Tx>, pool: Pool, GetShortID: nat -> nat)
    ensures forall q :: 0 <= q < |vtx| ==> !InPool(vtx, pool, GetShortID, q, 0)
  {
  }

  lemma NotWrapped(vtx: seq<Tx>, pool: Pool, GetShortID: nat -> nat, p: nat, k: nat)
    requires k <= |pool| && p < |vtx| && NoneMisplacedBy(vtx, pool, GetShortID, k)
    ensures Expected(vtx, pool, GetShortID, p, k).One? ==> Expected(vtx, pool, GetShortID, p, k).tx == vtx[p]
  {
    hide InPool;
    var q := p + WRAP;
    if q < |vtx| && InPool(vtx, pool, GetShortID, q, k) {
      assert q - WRAP == p;
    }
  }

  /** In terms of the k entries that were scanned. */
  lemma SlotsRightIff(vtx: seq<Tx>, pool: Pool, GetShortID: nat -> nat, placed: Slots, slots: Slots, k: nat)
    requires k <= |pool| && |placed| == |slots| == |vtx| && 0 < |vtx| <= MAX_TXS && AllDiffer(vtx, GetShortID)
    requires placed[0] == Some(vtx[0]) && forall p :: 0 < p < |vtx| ==> placed[p] == None
    requires forall p: nat :: p < |vtx| ==> slots[p] == After(placed[p], Expected(vtx, pool, GetShortID, p, k))
    ensures HoldsOnly(slots, vtx) <==> NoneMisplacedBy(vtx, pool, GetShortID, k)
  {
    hide InPool;
    if HoldsOnly(slots, vtx) {
      forall q | WRAP <= q < |vtx| && InPool(vtx, pool, GetShortID, q, k)
        ensures q > WRAP && InPool(vtx, pool, GetShortID, q - WRAP, k)
      {
        var p: nat := q - WRAP;
        assert p + WRAP == q;
        assert slots[p] == After(placed[p], Expected(vtx, pool, GetShortID, p, k));
        assert vtx[p] != vtx[q];
      }
    }
    if NoneMisplacedBy(vtx, pool, GetShortID, k) {
      forall p: nat | p < |slots| && slots[p].Some? ensures slots[p].value == vtx[p] {
        NotWrapped(vtx, pool, GetShortID, p, k);
      }
    }
  }

  /** The scan of a large block stops early only after it has overwritten the coinbase. */
  lemma StoppedEarly(vtx: seq<Tx>, pool: Pool, GetShortID: nat -> nat, m: map<nat, nat>, k: nat)
    requires 0 < |vtx| <= MAX_TXS && Targets(vtx, GetShortID, m) && k <= |pool|
    requires AllDiffer(vtx, GetShortID) && OneEach(pool, GetShortID) && NoClash(vtx, pool, GetShortID)
    requires forall s :: s in m ==> HitsAt(pool, GetShortID, m, m[s], k).One?
    ensures NoneMisplacedBy(vtx, pool, GetShortID, k) <==> NoneMisplaced(vtx, pool, GetShortID)
  {
    hide HitsAt;
    if |vtx| > WRAP {
      var q := WRAP;
      TargetOf(vtx, GetShortID, m, q);
      HitsAsExpected(vtx, pool, GetShortID, m, 0, k);
      assert InPool(vtx, pool, GetShortID, q, k) && InPool(vtx, pool, GetShortID, q, |pool|);
    }
  }

  /** The slots of a compactly sent block are right exactly if none is misplaced. */
  lemma RightIffNoneMisplaced(cb: CompactBlock, vtx: seq<Tx>, pool: Pool, GetShortID: nat -> nat, slots: Slots, m: map<nat, nat>, scanned: nat)
    requires 0 < |vtx| <= MAX_TXS && !vtx[0].isNull && cb.shorttxids == ShortIDs(vtx, GetShortID) && cb.prefilledtxn == [Prefilled(0, vtx[0])]
    requires Initialized(cb, pool, GetShortID, slots, m, scanned)
    requires AllDiffer(vtx, GetShortID) && OneEach(pool, GetShortID) && NoClash(vtx, pool, GetShortID)
    ensures HoldsOnly(slots, vtx) <==> NoneMisplaced(vtx, pool, GetShortID)
  {
    hide AllPrefilledOk;
    hide Placed;
    hide FreeSlots;
    hide InPool;
    hide HitsAt;
    hide OneEach;
    hide NoClash;
    hide Targets;
    CoinbaseFirst(cb, vtx);
    MapsAreTargets(cb, vtx, GetShortID, m);
    hide Maps;
    forall p: nat | p < |vtx| ensures slots[p] == After(Placed(cb, 1)[p], Expected(vtx, pool, GetShortID, p, scanned)) {
      HitsAsExpected(vtx, pool, GetShortID, m, p, scanned);
    }
    SlotsRightIff(vtx, pool, GetShortID, Placed(cb, 1), slots, scanned);
    if scanned < |pool| {
      StoppedEarly(vtx, pool, GetShortID, m, scanned);
    }
  }

  /** Every larger block comes out wrong for some pool: the one that holds just its
      65537th transaction. */
  lemma LargeIsMisplaced(vtx: seq<Tx>, GetShortID: nat -> nat)
    requires |vtx| > WRAP && AllDiffer(vtx, GetShortID) && GetShortID(vtx[WRAP].hash) != GetShortID(vtx[0].hash)
    ensures var pool: Pool := [(vtx[WRAP].hash, vtx[WRAP])];
            OneEach(pool, GetShortID) && NoClash(vtx, pool, GetShortID) && !NoneMisplaced(vtx, pool, GetShortID)
  {
    var pool: Pool := [(vtx[WRAP].hash, vtx[WRAP])];
    assert GetShortID(pool[0].0) == GetShortID(vtx[WRAP].hash);
    assert InPool(vtx, pool, GetShortID, WRAP, |pool|);
    forall i, p | 0 <= i < |pool| && 0 <= p < |vtx| && GetShortID(pool[i].0) == GetShortID(vtx[p].hash) ensures pool[i].1 == vtx[p] {
      assert p == WRAP;
    }
  }

  /** So 65536 transactions are the most for which no pool can do harm. */
  lemma RightForAllPoolsIffSmall(vtx: seq<Tx>, GetShortID: nat -> nat)
    requires AllDiffer(vtx, GetShortID) && forall q :: 0 < q < |vtx| ==> GetShortID(vtx[q].hash) != GetShortID(vtx[0].hash)
    ensures (forall pool: Pool :: OneEach(pool, GetShortID) && NoClash(vtx, pool, GetShortID) ==> NoneMisplaced(vtx, pool, GetShortID))
            <==> |vtx| <= WRAP
  {
    if |vtx| > WRAP {
      LargeIsMisplaced(vtx, GetShortID);
    }
  }

  /** Sending a block compactly and rebuilding it from any pool that shares no short
      ID with different transactions of the block: a block with at most 65536
      transactions comes out as it went in, a larger one exactly if none is misplaced. */
  method SendAndRebuild(vtx: seq<Tx>, pool: Pool, GetShortID: nat -> nat, overfull: nat -> bool, CheckBlock: seq<Tx> -> CheckResult)
    returns (status: ReadStatus, rebuilt: seq<Tx>)
    requires vtx != [] && !vtx[0].isNull && NoClash(vtx, pool, GetShortID)
    ensures status == READ_STATUS_INVALID <==> |vtx| > MAX_TXS
    ensures status == READ_STATUS_OK && |vtx| <= WRAP ==> rebuilt == vtx
    ensures status == READ_STATUS_OK && AllDiffer(vtx, GetShortID) && OneEach(pool, GetShortID) ==>
              (rebuilt == vtx <==> NoneMisplaced(vtx, pool, GetShortID))
    ensures |vtx| <= WRAP || (|vtx| <= MAX_TXS && AllDiffer(vtx, GetShortID) && OneEach(pool, GetShortID) && NoneMisplaced(vtx, pool, GetShortID)) ==>
              (status == READ_STATUS_OK <==>
                CheckBlock(vtx) == Passed && Distinct(ShortIDs(vtx, GetShortID)) && forall i :: 0 <= i < |vtx| - 1 ==> !overfull(i))
  {
    hide Initialized;
    hide NoClash;
    hide AllDiffer;
    hide OneEach;
    hide NoneMisplaced;
    hide Distinct;
    hide IsFilled;
    hide FreeSlots;
    hide HoldsOnly;
    var cb := MakeCompact(vtx, GetShortID);
    assert WellFormed(cb) <==> |vtx| <= MAX_TXS;
    hide Describes;
    hide WellFormed;
    hide ShortIDs;
    var partial := new PartiallyDownloadedBlock();
    rebuilt := [];
    ghost var m, scanned;
    status, m, scanned := partial.InitData(cb, pool, GetShortID, overfull);
    if status != READ_STATUS_OK {
      return;
    }
    ghost var slots := partial.txn_available;
    InitializedSize(cb, pool, GetShortID, slots, m, scanned);
    var missing := Requested(partial.txn_available, vtx);
    status, rebuilt := partial.FillBlock(missing, CheckBlock);
    FilledIsTheBlock(slots, missing, rebuilt, vtx);
    if |vtx| <= WRAP {
      AllAreRight(cb, vtx, pool, GetShortID, slots, m, scanned);
    }
    if AllDiffer(vtx, GetShortID) && OneEach(pool, GetShortID) {
      RightIffNoneMisplaced(cb, vtx, pool, GetShortID, slots, m, scanned);
    }
  }

  lemma InitializedSize(cb: CompactBlock, pool: Pool, GetShortID: nat -> nat, slots: Slots, m: map<nat, nat>, scanned: nat)
    requires Initialized(cb, pool, GetShortID, slots, m, scanned)
    ensures |slots| == BlockTxCount(cb)
  {
  }

  lemma AllAreRight(cb: CompactBlock, vtx: seq<Tx>, pool: Pool, GetShortID: nat -> nat, slots: Slots, m: map<nat, nat>, scanned: nat)
    requires Describes(cb, vtx, GetShortID) && NoClash(vtx, pool, GetShortID) && Initialized(cb, pool, GetShortID, slots, m, scanned)
    requires |vtx| <= WRAP
    ensures HoldsOnly(slots, vtx)
  {
    forall p | 0 <= p < |slots| && slots[p].Some? ensures slots[p].value == vtx[p] {
      SlotsAreRight(cb, vtx, pool, GetShortID, slots, m, scanned, p);
    }
  }
}
