/**
 Compact blocks (BIP 152): a block as short transaction IDs and a few whole
 transactions, and its reconstruction from the mempool.
 */
module CompactBlocks {
  import opened Wrappers

  const MAX_BLOCK_BASE_SIZE: nat := 1_000_000
  /** An empty transaction: version, two counts and a lock time. */
  const MIN_TRANSACTION_BASE_SIZE: nat := 10
  const UINT16_MAX: nat := 65535

  /** A transaction; `hash` is the one its short ID is made of. */
  datatype Tx = Tx(hash: nat, isNull: bool, body: nat)

  datatype Prefilled = Prefilled(index: nat, tx: Tx)

  datatype CompactBlock = CompactBlock(headerIsNull: bool, shorttxids: seq<nat>, prefilledtxn: seq<Prefilled>)

  type Slots = seq<Option<Tx>>

  function BlockTxCount(cb: CompactBlock): nat {
    |cb.shorttxids| + |cb.prefilledtxn|
  }

  // ---------------------------------------------------------------- prefilled transactions

  /** Where the n-th prefilled transaction goes: indexes are coded as distances. */
  function LastIndex(pre: seq<Prefilled>, n: nat): int
    requires n <= |pre|
  {
    if n == 0 then -1 else LastIndex(pre, n - 1) + pre[n - 1].index + 1
  }

  predicate PrefilledOk(cb: CompactBlock, i: nat)
    requires i < |cb.prefilledtxn|
  {
    var last := LastIndex(cb.prefilledtxn, i + 1);
    !cb.prefilledtxn[i].tx.isNull && last <= UINT16_MAX && last <= |cb.shorttxids| + i
  }

  predicate AllPrefilledOk(cb: CompactBlock, n: nat)
    requires n <= |cb.prefilledtxn|
  {
    forall i :: 0 <= i < n ==> PrefilledOk(cb, i)
  }

  /** The slots with the first n prefilled transactions in place. */
  function Placed(cb: CompactBlock, n: nat): (slots: Slots)
    requires n <= |cb.prefilledtxn| && AllPrefilledOk(cb, n)
    ensures |slots| == BlockTxCount(cb)
  {
    if n == 0 then seq(BlockTxCount(cb), _ => None)
    else
      LastIndexGrows(cb.prefilledtxn, n);
      assert PrefilledOk(cb, n - 1);
      Placed(cb, n - 1)[LastIndex(cb.prefilledtxn, n) := Some(cb.prefilledtxn[n - 1].tx)]
  }

  lemma {:induction false} LastIndexGrows(pre: seq<Prefilled>, n: nat)
    requires n <= |pre|
    ensures LastIndex(pre, n) >= n - 1
    ensures n > 0 ==> LastIndex(pre, n) > LastIndex(pre, n - 1)
  {
    if n > 0 {
      LastIndexGrows(pre, n - 1);
    }
  }

  /** Nothing has been placed behind the last index. */
  lemma {:induction false} FreeBehind(cb: CompactBlock, n: nat)
    requires n <= |cb.prefilledtxn| && AllPrefilledOk(cb, n)
    ensures forall p :: LastIndex(cb.prefilledtxn, n) < p < BlockTxCount(cb) && p >= 0 ==> Placed(cb, n)[p] == None
  {
    if n > 0 {
      LastIndexGrows(cb.prefilledtxn, n);
      FreeBehind(cb, n - 1);
    }
  }

  method PlacePrefilled(cb: CompactBlock) returns (ok: bool, slots: Slots)
    ensures ok <==> AllPrefilledOk(cb, |cb.prefilledtxn|)
    ensures ok ==> slots == Placed(cb, |cb.prefilledtxn|)
  {
    slots := seq(BlockTxCount(cb), _ => None);
    var lastprefilledindex := -1;
    for i := 0 to |cb.prefilledtxn|
      invariant AllPrefilledOk(cb, i) && slots == Placed(cb, i) && lastprefilledindex == LastIndex(cb.prefilledtxn, i)
    {
      LastIndexGrows(cb.prefilledtxn, i + 1);
      assert PrefilledOk(cb, i) ==> AllPrefilledOk(cb, i + 1);
      if cb.prefilledtxn[i].tx.isNull {
        assert !PrefilledOk(cb, i);
        return false, [];
      }
      lastprefilledindex := lastprefilledindex + cb.prefilledtxn[i].index + 1;
      if lastprefilledindex > UINT16_MAX {
        assert !PrefilledOk(cb, i);
        return false, [];
      }
      if lastprefilledindex > |cb.shorttxids| + i {
        assert !PrefilledOk(cb, i);
        return false, [];
      }
      slots := slots[lastprefilledindex := Some(cb.prefilledtxn[i].tx)];
    }
    ok := true;
  }

  // ----------------------------------------------------------------------------- free slots

  /** The empty slots from `from` on, in order. */
  function FreeSlots(slots: Slots, from: nat): (free: seq<nat>)
    requires from <= |slots|
    ensures forall j :: 0 <= j < |free| ==> from <= free[j] < |slots| && slots[free[j]] == None
    decreases |slots| - from
  {
    if from == |slots| then []
    else if slots[from] == None then [from] + FreeSlots(slots, from + 1)
    else FreeSlots(slots, from + 1)
  }

  lemma {:induction false} FreeSlotsAscend(slots: Slots, from: nat)
    requires from <= |slots|
    ensures Ascending(FreeSlots(slots, from))
    decreases |slots| - from
  {
    if from < |slots| {
      FreeSlotsAscend(slots, from + 1);
      ConsAscending(from, FreeSlots(slots, from + 1));
    }
  }

  ghost predicate Ascending(s: seq<nat>) {
    forall j, k :: 0 <= j < k < |s| ==> s[j] < s[k]
  }

  lemma ConsAscending(x: nat, s: seq<nat>)
    requires Ascending(s) && forall j :: 0 <= j < |s| ==> x < s[j]
    ensures Ascending([x] + s)
  {
  }

  /** All of them. */
  lemma {:induction false} FreeSlotsAreAll(slots: Slots, from: nat, p: nat)
    requires from <= p < |slots| && slots[p] == None
    ensures p in FreeSlots(slots, from)
    decreases |slots| - from
  {
    if from < p {
      FreeSlotsAreAll(slots, from + 1, p);
    }
  }

  lemma {:induction false} FillingTakesOne(slots: Slots, from: nat, p: nat, x: Option<Tx>)
    requires from <= p < |slots| && slots[p] == None && x.Some?
    ensures |FreeSlots(slots[p := x], from)| == |FreeSlots(slots, from)| - 1
    decreases |slots| - from
  {
    if from < p {
      FillingTakesOne(slots, from + 1, p, x);
    } else {
      SameBehind(slots, slots[p := x], p + 1);
    }
  }

  lemma {:induction false} SameBehind(s: Slots, t: Slots, from: nat)
    requires from <= |s| == |t| && forall p :: from <= p < |s| ==> s[p] == t[p]
    ensures FreeSlots(s, from) == FreeSlots(t, from)
    decreases |s| - from
  {
    if from < |s| {
      SameBehind(s, t, from + 1);
    }
  }

  lemma {:induction false} AllFree(slots: Slots, from: nat)
    requires from <= |slots| && forall p :: from <= p < |slots| ==> slots[p] == None
    ensures |FreeSlots(slots, from)| == |slots| - from
    decreases |slots| - from
  {
    if from < |slots| {
      AllFree(slots, from + 1);
      FirstFree(slots, from);
    }
  }

  /** There are as many free slots as short IDs. */
  lemma {:induction false} OneSlotPerShortID(cb: CompactBlock, n: nat)
    requires n <= |cb.prefilledtxn| && AllPrefilledOk(cb, n)
    ensures |FreeSlots(Placed(cb, n), 0)| == BlockTxCount(cb) - n
  {
    if n == 0 {
      AllFree(Placed(cb, 0), 0);
    } else {
      OneSlotPerShortID(cb, n - 1);
      FreeBehind(cb, n - 1);
      LastIndexGrows(cb.prefilledtxn, n);
      assert PrefilledOk(cb, n - 1);
      FillingTakesOne(Placed(cb, n - 1), 0, LastIndex(cb.prefilledtxn, n), Some(cb.prefilledtxn[n - 1].tx));
    }
  }

  ghost predicate Distinct(ids: seq<nat>) {
    forall i, j :: 0 <= i < j < |ids| ==> ids[i] != ids[j]
  }

  /** Each of the first n short IDs is mapped to its slot. */
  ghost predicate Maps(m: map<nat, nat>, ids: seq<nat>, free: seq<nat>, n: nat)
    requires n <= |ids| == |free|
  {
    && (forall j :: 0 <= j < n ==> ids[j] in m && m[ids[j]] == free[j])
    && (forall s :: s in m ==> exists j :: 0 <= j < n && ids[j] == s)
  }

  lemma MapsNext(m: map<nat, nat>, ids: seq<nat>, free: seq<nat>, n: nat)
    requires n < |ids| == |free| && Maps(m, ids, free, n) && ids[n] !in m
    ensures Maps(m[ids[n] := free[n]], ids, free, n + 1)
  {
  }

  /** Positions as a uint16_t keeps them. */
  function Wrapped(positions: seq<nat>): (w: seq<nat>)
    ensures |w| == |positions| && forall j :: 0 <= j < |w| ==> w[j] == positions[j] % 65536
  {
    seq(|positions|, j requires 0 <= j < |positions| => positions[j] % 65536)
  }

  /** Assigns the short IDs to the free slots in order; beyond 65535 the positions
      wrap around.  `overfull` is the test of the hash table's bucket sizes.  With
      65536 slots taken the search for the first free one would not end. */
  method AssignSlots(ids: seq<nat>, slots: Slots, overfull: nat -> bool) returns (ok: bool, m: map<nat, nat>)
    requires |FreeSlots(slots, 0)| == |ids| && (ids == [] || |slots| - |ids| <= UINT16_MAX)
    ensures ok <==> Distinct(ids) && forall i :: 0 <= i < |ids| ==> !overfull(i)
    ensures ok ==> |m| == |ids| && Maps(m, ids, Wrapped(FreeSlots(slots, 0)), |ids|)
  {
    hide FreeSlots;
    hide Maps;
    hide Distinct;
    hide AssignInv;
    hide Taken;
    ghost var free := FreeSlots(slots, 0);
    ghost var targets := Wrapped(free);
    hide Wrapped;
    m := map[];
    var index_offset := 0;
    NoneMapped(ids, targets);
    NoneTaken(slots);
    for i := 0 to |ids|
      invariant Taken(slots, free, i, i + index_offset)
      invariant AssignInv(m, ids, targets, i) && forall j :: 0 <= j < i ==> !overfull(j)
    {
      index_offset := SkipTaken(slots, free, i, index_offset);
      OneMoreTaken(slots, free, i, i + index_offset);
      AssignStep(m, ids, targets, i);
      m := m[ids[i] := (i + index_offset) % 65536];
      if overfull(i) {
        return false, m;
      }
    }
    AllAssigned(m, ids, targets);
    ok := |m| == |ids|;
  }

  /** The map stays as large as the list exactly while no short ID comes twice. */
  ghost predicate AssignInv(m: map<nat, nat>, ids: seq<nat>, free: seq<nat>, i: nat)
    requires i <= |ids| == |free|
  {
    && |m| <= i && (forall j :: 0 <= j < i ==> ids[j] in m)
    && if |m| == i then Distinct(ids[..i]) && Maps(m, ids, free, i) else !Distinct(ids[..i])
  }

  lemma AssignStep(m: map<nat, nat>, ids: seq<nat>, free: seq<nat>, i: nat)
    requires i < |ids| == |free| && AssignInv(m, ids, free, i)
    ensures AssignInv(m[ids[i] := free[i]], ids, free, i + 1)
  {
    hide Distinct;
    hide Maps;
    NextDistinct(ids, i);
    SizeAfter(m, ids[i], free[i]);
    if |m| == i {
      if ids[i] in m {
        IsMapped(m, ids, free, i, ids[i]);
      } else {
        MapsNext(m, ids, free, i);
      }
    }
  }

  lemma OneMoreTaken(slots: Slots, free: seq<nat>, i: nat, p: nat)
    requires p < |slots| && slots[p] == None && Taken(slots, free, i, p)
    ensures i < |free| && free[i] == p && Taken(slots, free, i + 1, p + 1)
  {
    FirstFree(slots, p);
    assert free[i] == free[i..][0];
    assert free[i + 1..] == free[i..][1..];
  }

  /** The slots from p on have the free ones from the i-th on. */
  ghost predicate Taken(slots: Slots, free: seq<nat>, i: nat, p: nat) {
    i <= |free| && p <= |slots| && free[i..] == FreeSlots(slots, p)
  }

  lemma NoneTaken(slots: Slots)
    ensures Taken(slots, FreeSlots(slots, 0), 0, 0)
  {
  }

  lemma AllAssigned(m: map<nat, nat>, ids: seq<nat>, free: seq<nat>)
    requires |ids| == |free| && AssignInv(m, ids, free, |ids|)
    ensures |m| == |ids| <==> Distinct(ids)
    ensures |m| == |ids| ==> Maps(m, ids, free, |ids|)
  {
    assert ids[..|ids|] == ids;
  }

  lemma NoneMapped(ids: seq<nat>, free: seq<nat>)
    requires |ids| == |free|
    ensures AssignInv(map[], ids, free, 0)
  {
  }

  lemma IsMapped(m: map<nat, nat>, ids: seq<nat>, free: seq<nat>, n: nat, s: nat)
    requires n <= |ids| == |free| && Maps(m, ids, free, n) && s in m
    ensures exists j :: 0 <= j < n && ids[j] == s
  {
  }

  lemma SizeAfter(m: map<nat, nat>, s: nat, p: nat)
    ensures |m[s := p]| == |m| + (if s in m then 0 else 1)
  {
    assert m[s := p].Keys == m.Keys + {s};
    if s !in m {
      assert |m.Keys + {s}| == |m.Keys| + 1;
    } else {
      assert m.Keys + {s} == m.Keys;
    }
  }

  lemma NextDistinct(ids: seq<nat>, i: nat)
    requires i < |ids|
    ensures Distinct(ids[..i + 1]) <==> Distinct(ids[..i]) && forall j :: 0 <= j < i ==> ids[j] != ids[i]
  {
    var t := ids[..i + 1];
    assert t[i] == ids[i];
    if Distinct(t) {
      assert forall j :: 0 <= j < i ==> t[j] == ids[j];
      assert forall j :: 0 <= j < i ==> ids[..i][j] == t[j];
    }
  }

  lemma FirstFree(slots: Slots, p: nat)
    requires p < |slots| && slots[p] == None
    ensures FreeSlots(slots, p) == [p] + FreeSlots(slots, p + 1)
  {
  }

  lemma {:induction false} NoMoreFree(slots: Slots, from: nat)
    requires from <= |slots|
    ensures |FreeSlots(slots, from)| <= |slots| - from
    decreases |slots| - from
  {
    if from < |slots| {
      NoMoreFree(slots, from + 1);
    }
  }

  /** The inner loop: it never leaves the array, since a free slot is left, and its
      16-bit counter does not wrap around, since it counts taken slots. */
  method SkipTaken(slots: Slots, ghost free: seq<nat>, i: nat, offset: nat) returns (index_offset: nat)
    requires Taken(slots, free, i, i + offset) && i < |free| && |slots| - |free| <= UINT16_MAX
    ensures offset <= index_offset && i + index_offset < |slots| && slots[i + index_offset] == None
    ensures Taken(slots, free, i, i + index_offset)
  {
    index_offset := offset;
    NoMoreFree(slots, i + offset);
    while slots[i + index_offset] != None
      invariant offset <= index_offset && i + index_offset < |slots|
      invariant FreeSlots(slots, i + index_offset) == FreeSlots(slots, i + offset)
      decreases |slots| - index_offset
    {
      NoMoreFree(slots, i + index_offset + 1);
      assert index_offset + 1 <= UINT16_MAX;
      index_offset := (index_offset + 1) % 65536;
    }
  }

  // ------------------------------------------------------- where the search does not end

  /** All slots that a 16-bit counter reaches are taken, and one more is looked for. */
  predicate NeverReturns(cb: CompactBlock) {
    |cb.prefilledtxn| > UINT16_MAX && cb.shorttxids != []
  }

  lemma {:induction false} IndexAtLeast(pre: seq<Prefilled>, k: nat, n: nat)
    requires k <= n <= |pre|
    ensures LastIndex(pre, n) - LastIndex(pre, k) >= n - k
  {
    if k < n {
      IndexAtLeast(pre, k, n - 1);
    }
  }

  lemma {:induction false} StaysPlaced(cb: CompactBlock, k: nat, n: nat)
    requires 0 < k <= n <= |cb.prefilledtxn| && AllPrefilledOk(cb, n)
    ensures var p := LastIndex(cb.prefilledtxn, k); 0 <= p < BlockTxCount(cb) && Placed(cb, n)[p].Some?
  {
    LastIndexGrows(cb.prefilledtxn, k);
    LastIndexGrows(cb.prefilledtxn, n);
    assert PrefilledOk(cb, k - 1);
    if k < n {
      StaysPlaced(cb, k, n - 1);
    }
  }

  /** The loop test is then true for every value of the counter. */
  lemma SearchDoesNotEnd(cb: CompactBlock, index_offset: nat)
    requires AllPrefilledOk(cb, |cb.prefilledtxn|) && NeverReturns(cb) && index_offset <= UINT16_MAX
    ensures index_offset < BlockTxCount(cb) && Placed(cb, |cb.prefilledtxn|)[0 + index_offset] != None
  {
    var pre, n, k := cb.prefilledtxn, |cb.prefilledtxn|, index_offset + 1;
    assert PrefilledOk(cb, n - 1);
    IndexAtLeast(pre, k, n);
    LastIndexGrows(pre, k);
    LastIndexGrows(pre, n);
    StaysPlaced(cb, k, n);
  }
}
