/**
 Matching the mempool against the short IDs of a compact block.
 */
module CompactBlockScan {
  import opened Sets
  import opened Wrappers
  import opened CompactBlocks

  /** vTxHashes: a hash and a transaction per entry. */
  type Pool = seq<(nat, Tx)>

  /** The pool transactions whose short ID leads to a given slot. */
  datatype Found = Zero | One(tx: Tx) | Many

  /** m leads from a short ID to a slot, not necessarily from one only. */
  predicate Leads(m: map<nat, nat>, s: nat, p: nat) {
    s in m && m[s] == p
  }

  function HitsAt(pool: Pool, GetShortID: nat -> nat, m: map<nat, nat>, p: nat, k: nat): Found
    requires k <= |pool|
  {
    if k == 0 then Zero
    else
      var before := HitsAt(pool, GetShortID, m, p, k - 1);
      if !Leads(m, GetShortID(pool[k - 1].0), p) then before
      else if before == Zero then One(pool[k - 1].1)
      else Many
  }

  /** What a slot holds then: a single hit goes in, a second takes it out again. */
  function After(slot: Option<Tx>, found: Found): Option<Tx> {
    match found
    case Zero => slot
    case One(tx) => Some(tx)
    case Many => None
  }

  /** A single hit really is in the pool. */
  lemma {:induction false} HitIsInPool(pool: Pool, GetShortID: nat -> nat, m: map<nat, nat>, p: nat, k: nat)
    requires k <= |pool| && HitsAt(pool, GetShortID, m, p, k).One?
    ensures exists i :: 0 <= i < k && pool[i].1 == HitsAt(pool, GetShortID, m, p, k).tx && Leads(m, GetShortID(pool[i].0), p)
  {
    if !Leads(m, GetShortID(pool[k - 1].0), p) {
      HitIsInPool(pool, GetShortID, m, p, k - 1);
    }
  }

  lemma {:induction false} NoHits(pool: Pool, GetShortID: nat -> nat, m: map<nat, nat>, p: nat, k: nat)
    requires k <= |pool| && p !in m.Values
    ensures HitsAt(pool, GetShortID, m, p, k) == Zero
  {
    if k > 0 {
      NoHits(pool, GetShortID, m, p, k - 1);
    }
  }

  ghost predicate InRange(m: map<nat, nat>, n: nat) {
    forall s :: s in m ==> m[s] < n
  }

  /** The slots with a single hit. */
  function Ones(pool: Pool, GetShortID: nat -> nat, m: map<nat, nat>, n: nat, k: nat): set<nat>
    requires k <= |pool|
  {
    set p: nat | p < n && HitsAt(pool, GetShortID, m, p, k).One?
  }

  ghost predicate SlotOk(m: map<nat, nat>, slots: Slots, r: Slots, have: seq<bool>, pool: Pool, GetShortID: nat -> nat, k: nat, p: nat)
    requires k <= |pool| && p < |slots| == |r| == |have|
  {
    var found := HitsAt(pool, GetShortID, m, p, k);
    r[p] == After(slots[p], found) && have[p] == !found.Zero?
  }

  ghost predicate ScanInv(m: map<nat, nat>, slots: Slots, r: Slots, have: seq<bool>, pool: Pool, GetShortID: nat -> nat, k: nat, count: int) {
    && InRange(m, |slots|) && |r| == |have| == |slots| && k <= |pool|
    && (forall p: nat :: p < |slots| ==> SlotOk(m, slots, r, have, pool, GetShortID, k, p))
    && count == |Ones(pool, GetShortID, m, |slots|, k)|
  }

  /** The pool entry at k does not match any short ID of the block. */
  lemma ScanMiss(m: map<nat, nat>, slots: Slots, r: Slots, have: seq<bool>, pool: Pool, GetShortID: nat -> nat, k: nat, count: int)
    requires ScanInv(m, slots, r, have, pool, GetShortID, k, count) && k < |pool| && GetShortID(pool[k].0) !in m
    ensures ScanInv(m, slots, r, have, pool, GetShortID, k + 1, count)
  {
    var next := k + 1;
    forall p: nat | p < |slots| ensures SlotOk(m, slots, r, have, pool, GetShortID, next, p) {
      assert SlotOk(m, slots, r, have, pool, GetShortID, k, p);
    }
    assert Ones(pool, GetShortID, m, |slots|, k + 1) == Ones(pool, GetShortID, m, |slots|, k);
  }

  /** It matches; x is what the slot holds then. */
  lemma ScanHit(m: map<nat, nat>, slots: Slots, r: Slots, have: seq<bool>, pool: Pool, GetShortID: nat -> nat, k: nat, count: int, x: Option<Tx>)
    requires ScanInv(m, slots, r, have, pool, GetShortID, k, count) && k < |pool| && GetShortID(pool[k].0) in m
    requires var p := m[GetShortID(pool[k].0)]; x == if have[p] then None else Some(pool[k].1)
    ensures var p := m[GetShortID(pool[k].0)];
            ScanInv(m, slots, r[p := x], have[p := true], pool, GetShortID, k + 1,
                    if !have[p] then count + 1 else if r[p].Some? then count - 1 else count)
  {
    var q := m[GetShortID(pool[k].0)];
    var r', have' := r[q := x], have[q := true];
    assert SlotOk(m, slots, r, have, pool, GetShortID, k, q);
    var next := k + 1;
    forall p: nat | p < |slots| ensures SlotOk(m, slots, r', have', pool, GetShortID, next, p) {
      assert SlotOk(m, slots, r, have, pool, GetShortID, k, p);
    }
    OnesAfter(m, |slots|, pool, GetShortID, k, q);
  }

  lemma OnesAfter(m: map<nat, nat>, n: nat, pool: Pool, GetShortID: nat -> nat, k: nat, q: nat)
    requires k < |pool| && Leads(m, GetShortID(pool[k].0), q) && q < n
    ensures var found := HitsAt(pool, GetShortID, m, q, k);
            |Ones(pool, GetShortID, m, n, k + 1)| == |Ones(pool, GetShortID, m, n, k)| + (match found case Zero => 1 case One(_) => -1 case Many => 0)
  {
    hide HitsAt;
    var next := k + 1;
    var before, after := Ones(pool, GetShortID, m, n, k), Ones(pool, GetShortID, m, n, next);
    forall p: nat | p < n && p != q ensures p in before <==> p in after {
      NextHit(pool, GetShortID, m, p, k);
    }
    NextHit(pool, GetShortID, m, q, k);
    assert before - {q} == after - {q};
    SizeWithout(before, q);
    SizeWithout(after, q);
  }

  lemma NextHit(pool: Pool, GetShortID: nat -> nat, m: map<nat, nat>, p: nat, k: nat)
    requires k < |pool|
    ensures var before, after := HitsAt(pool, GetShortID, m, p, k), HitsAt(pool, GetShortID, m, p, k + 1);
            after == if !Leads(m, GetShortID(pool[k].0), p) then before else if before == Zero then One(pool[k].1) else Many
  {
  }

  lemma SizeWithout(a: set<nat>, x: nat)
    ensures |a - {x}| == |a| - (if x in a then 1 else 0)
  {
    if x !in a {
      assert a - {x} == a;
    }
  }

  /** Every slot holds what the scanned part of the pool makes of it; the scan stops
      early only when every short ID leads to a slot with a single hit. */
  method ScanPool(m: map<nat, nat>, slots: Slots, pool: Pool, GetShortID: nat -> nat) returns (r: Slots, mempool_count: nat, scanned: nat)
    requires InRange(m, |slots|)
    ensures scanned <= |pool| && |r| == |slots|
    ensures forall p: nat :: p < |slots| ==> r[p] == After(slots[p], HitsAt(pool, GetShortID, m, p, scanned))
    ensures scanned == |pool| || forall s :: s in m ==> HitsAt(pool, GetShortID, m, m[s], scanned).One?
  {
    hide ScanInv;
    hide Ones;
    r := slots;
    var have := seq(|slots|, _ => false);
    var count := 0;
    ScanStart(m, slots, have, pool, GetShortID);
    scanned := 0;
    while scanned < |pool|
      invariant scanned <= |pool| && count >= 0 && ScanInv(m, slots, r, have, pool, GetShortID, scanned, count)
    {
      var shortid := GetShortID(pool[scanned].0);
      ScanFacts(m, slots, r, have, pool, GetShortID, scanned, count);
      if shortid in m {
        var p := m[shortid];
        ScanHit(m, slots, r, have, pool, GetShortID, scanned, count, if have[p] then None else Some(pool[scanned].1));
        if !have[p] {
          r := r[p := Some(pool[scanned].1)];
          have := have[p := true];
          count := count + 1;
        } else {
          if r[p].Some? {
            count := count - 1;
          }
          assert have[p := true] == have;
          r := r[p := None];
        }
      } else {
        ScanMiss(m, slots, r, have, pool, GetShortID, scanned, count);
      }
      scanned := scanned + 1;
      ScanFacts(m, slots, r, have, pool, GetShortID, scanned, count);
      if count == |m| {
        AllHit(m, |slots|, pool, GetShortID, scanned);
        break;
      }
    }
    ScanFacts(m, slots, r, have, pool, GetShortID, scanned, count);
    mempool_count := count;
  }

  lemma ScanStart(m: map<nat, nat>, slots: Slots, have: seq<bool>, pool: Pool, GetShortID: nat -> nat)
    requires InRange(m, |slots|) && |have| == |slots| && forall p :: 0 <= p < |have| ==> !have[p]
    ensures ScanInv(m, slots, slots, have, pool, GetShortID, 0, 0)
  {
    assert Ones(pool, GetShortID, m, |slots|, 0) == {};
  }

  lemma ScanFacts(m: map<nat, nat>, slots: Slots, r: Slots, have: seq<bool>, pool: Pool, GetShortID: nat -> nat, k: nat, count: int)
    requires ScanInv(m, slots, r, have, pool, GetShortID, k, count)
    ensures |r| == |have| == |slots| && InRange(m, |slots|) && k <= |pool| && count == |Ones(pool, GetShortID, m, |slots|, k)| >= 0
    ensures forall p: nat :: p < |slots| ==> r[p] == After(slots[p], HitsAt(pool, GetShortID, m, p, k))
  {
    forall p: nat | p < |slots| ensures r[p] == After(slots[p], HitsAt(pool, GetShortID, m, p, k)) {
      assert SlotOk(m, slots, r, have, pool, GetShortID, k, p);
    }
  }

  lemma {:induction false} FewValues(m: map<nat, nat>, keys: set<nat>, values: set<nat>)
    requires keys <= m.Keys && values == set s | s in keys :: m[s]
    ensures |values| <= |keys|
    decreases keys
  {
    if keys != {} {
      var s :| s in keys;
      var fewer := set t | t in keys - {s} :: m[t];
      FewValues(m, keys - {s}, fewer);
      assert values == fewer + {m[s]};
    }
  }

  /** As many single hits as short IDs: every short ID leads to one. */
  lemma AllHit(m: map<nat, nat>, n: nat, pool: Pool, GetShortID: nat -> nat, k: nat)
    requires k <= |pool| && |Ones(pool, GetShortID, m, n, k)| == |m|
    ensures forall s :: s in m ==> HitsAt(pool, GetShortID, m, m[s], k).One?
  {
    var ones, values := Ones(pool, GetShortID, m, n, k), set s | s in m.Keys :: m[s];
    forall p | p in ones ensures p in values {
      if p !in m.Values {
        NoHits(pool, GetShortID, m, p, k);
      }
    }
    FewValues(m, m.Keys, values);
    assert |m| == |m.Keys|;
    SubsetSize(ones, values);
    SubsetOfSameSize(ones, values);
    forall s | s in m ensures HitsAt(pool, GetShortID, m, m[s], k).One? {
      assert m[s] in ones;
    }
  }
}
