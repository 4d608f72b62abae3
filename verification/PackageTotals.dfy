/**
 The totals of packages while some of their transactions are in the block already:
 kept up to date incrementally, never too low, and exact as long as a record is not
 erased and made again.
 */
module PackageTotals {
  import opened Mempool

  /** CTxMemPoolModifiedEntry. */
  datatype Modified = Modified(nSizeWithAncestors: int, nModFeesWithAncestors: int, nSigOpCostWithAncestors: int)

  type ModifiedMap = map<Tx, Modified>

  /** The totals do not under-count the transactions in s. */
  ghost predicate Covers(pool: Pool, e: Modified, s: set<Tx>) {
    e.nSizeWithAncestors >= Sum(pool.size, s) && e.nSigOpCostWithAncestors >= Sum(pool.sigOpCost, s)
  }

  function CachedTotals(pool: Pool, t: Tx): Modified {
    Modified(pool.sizeWithAncestors(t), pool.modFeesWithAncestors(t), pool.sigOpCostWithAncestors(t))
  }

  /** update_for_parent_inclusion. */
  function Without(pool: Pool, e: Modified, t: Tx): Modified {
    Modified(e.nSizeWithAncestors - pool.size(t), e.nModFeesWithAncestors - pool.modFee(t), e.nSigOpCostWithAncestors - pool.sigOpCost(t))
  }

  lemma CachedCovers(pool: Pool, t: Tx, s: set<Tx>)
    requires ValidPool(pool) && t in pool.txs && s <= Package(pool, t)
    ensures Covers(pool, CachedTotals(pool, t), s)
  {
    TotalsOf(pool, t);
    SumMonotone(pool.size, s, Package(pool, t));
    SumMonotone(pool.sigOpCost, s, Package(pool, t));
  }

  lemma WithoutCovers(pool: Pool, e: Modified, t: Tx, s: set<Tx>)
    requires Covers(pool, e, s) && t in s
    ensures Covers(pool, Without(pool, e, t), s - {t})
  {
    SumTake(pool.size, s, t);
    SumTake(pool.sigOpCost, s, t);
  }

  ghost function TotalsOver(pool: Pool, s: set<Tx>): Modified {
    Modified(Sum(pool.size, s), Fees(pool.modFee, s), Sum(pool.sigOpCost, s))
  }

  /** What is recorded for d is exact: totals over what is not done of its package, or,
      without a record, nothing of it is done. */
  ghost predicate Exact(pool: Pool, m: ModifiedMap, d: Tx, done: set<Tx>) {
    if d in m then m[d] == TotalsOver(pool, Package(pool, d) - done) else Package(pool, d) !! done
  }

  /** All that was exact still is, and no record is lost. */
  ghost predicate Follows(pool: Pool, m: ModifiedMap, done: set<Tx>, m': ModifiedMap, done': set<Tx>, inBlock: set<Tx>) {
    && m.Keys - inBlock <= m'.Keys
    && forall d :: d in pool.txs && d !in inBlock && Exact(pool, m, d, done) ==> Exact(pool, m', d, done')
  }

  lemma FollowsOn(pool: Pool, m0: ModifiedMap, done0: set<Tx>, m1: ModifiedMap, done1: set<Tx>, m2: ModifiedMap, done2: set<Tx>, inBlock: set<Tx>)
    requires Follows(pool, m0, done0, m1, done1, inBlock) && Follows(pool, m1, done1, m2, done2, inBlock)
    ensures Follows(pool, m0, done0, m2, done2, inBlock)
  {
  }

  lemma WithoutIsExact(pool: Pool, t: Tx, s: set<Tx>)
    requires t in s
    ensures Without(pool, TotalsOver(pool, s), t) == TotalsOver(pool, s - {t})
  {
    SumTake(pool.size, s, t);
    SumTake(pool.sigOpCost, s, t);
    FeesTake(pool.modFee, s, t);
  }

  lemma CachedIsExact(pool: Pool, t: Tx)
    requires ValidPool(pool) && t in pool.txs
    ensures CachedTotals(pool, t) == TotalsOver(pool, Package(pool, t))
  {
    TotalsOf(pool, t);
  }

  lemma CoversLess(pool: Pool, e: Modified, s: set<Tx>, r: set<Tx>)
    requires Covers(pool, e, s) && r <= s
    ensures Covers(pool, e, r)
  {
    SumMonotone(pool.size, r, s);
    SumMonotone(pool.sigOpCost, r, s);
  }

  /** Every modified entry is for a transaction outside the block, and covers its
      package without the transactions in `done`. */
  ghost predicate ModifiedOk(pool: Pool, m: ModifiedMap, inBlock: set<Tx>, done: set<Tx>) {
    forall d :: d in m ==> d in pool.txs && d !in inBlock && Covers(pool, m[d], Package(pool, d) - done)
  }

  lemma ModifiedErased(pool: Pool, m: ModifiedMap, inBlock: set<Tx>, gone: set<Tx>)
    requires ModifiedOk(pool, m, inBlock, inBlock)
    ensures ModifiedOk(pool, m - gone, inBlock, inBlock) && ModifiedOk(pool, m - gone, inBlock + gone, inBlock)
  {
  }

  lemma NothingModified(pool: Pool, inBlock: set<Tx>, done: set<Tx>)
    ensures ModifiedOk(pool, map[], inBlock, done)
  {
  }

  /** After the inner loop of UpdatePackagesForAdded has been through `seen` for it. */
  ghost predicate HalfDone(pool: Pool, m: ModifiedMap, inBlock: set<Tx>, done: set<Tx>, it: Tx, seen: set<Tx>) {
    forall d :: d in m ==> d in pool.txs && d !in inBlock && Covers(pool, m[d], StillOut(pool, d, done, it, seen))
  }

  function StillOut(pool: Pool, d: Tx, done: set<Tx>, it: Tx, seen: set<Tx>): set<Tx> {
    if d in seen then Package(pool, d) - done - {it} else Package(pool, d) - done
  }

  /** One descendant in the inner loop of UpdatePackagesForAdded. */
  function UpdatedFor(pool: Pool, m: ModifiedMap, it: Tx, desc: Tx): ModifiedMap {
    m[desc := Without(pool, if desc in m then m[desc] else CachedTotals(pool, desc), it)]
  }

  lemma UpdateOne(pool: Pool, m: ModifiedMap, inBlock: set<Tx>, done: set<Tx>, it: Tx, seen: set<Tx>, desc: Tx)
    requires ValidPool(pool) && HalfDone(pool, m, inBlock, done, it, seen)
    requires desc in Descendants(pool, it) && desc !in inBlock && desc !in seen && it !in done
    ensures HalfDone(pool, UpdatedFor(pool, m, it, desc), inBlock, done, it, seen + {desc})
  {
    hide ValidPool;
    var s := Package(pool, desc) - done;
    if desc in m {
      WithoutCovers(pool, m[desc], it, s);
    } else {
      CachedCovers(pool, desc, s);
      WithoutCovers(pool, CachedTotals(pool, desc), it, s);
    }
  }

  /** The record of one descendant follows the inclusion of `it`. */
  lemma UpdateIsExact(pool: Pool, m: ModifiedMap, done: set<Tx>, it: Tx, desc: Tx)
    requires ValidPool(pool) && desc in Descendants(pool, it) && it !in done && Exact(pool, m, desc, done)
    ensures Exact(pool, UpdatedFor(pool, m, it, desc), desc, done + {it})
  {
    hide ValidPool;
    hide TotalsOver;
    var s := Package(pool, desc) - done;
    WithoutIsExact(pool, it, s);
    assert s - {it} == Package(pool, desc) - (done + {it});
    if desc !in m {
      CachedIsExact(pool, desc);
      assert s == Package(pool, desc);
    }
  }

  /** In the middle of the inner loop: descendants already seen have followed, the
      records of all others are as they were. */
  ghost predicate HalfFollowed(pool: Pool, m: ModifiedMap, m': ModifiedMap, inBlock: set<Tx>, done: set<Tx>, it: Tx, seen: set<Tx>) {
    && m.Keys <= m'.Keys
    && (forall d :: d in seen && d !in inBlock && Exact(pool, m, d, done) ==> Exact(pool, m', d, done + {it}))
    && (forall d :: d !in seen ==> (d in m <==> d in m') && (d in m ==> m'[d] == m[d]))
  }

  lemma HalfFollowedNext(pool: Pool, m: ModifiedMap, m': ModifiedMap, inBlock: set<Tx>, done: set<Tx>, it: Tx, seen: set<Tx>, desc: Tx)
    requires ValidPool(pool) && desc in Descendants(pool, it) && desc !in seen && it !in done && HalfFollowed(pool, m, m', inBlock, done, it, seen)
    ensures HalfFollowed(pool, m, UpdatedFor(pool, m', it, desc), inBlock, done, it, seen + {desc})
  {
    hide ValidPool;
    hide Exact;
    if Exact(pool, m, desc, done) {
      SameRecord(pool, m, m', desc, done);
      UpdateIsExact(pool, m', done, it, desc);
    }
    var m'' := UpdatedFor(pool, m', it, desc);
    var done' := done + {it};
    forall d | d in seen && d !in inBlock && Exact(pool, m, d, done) ensures Exact(pool, m'', d, done') {
      SameRecord(pool, m', m'', d, done');
    }
  }

  lemma SameRecord(pool: Pool, m: ModifiedMap, m': ModifiedMap, d: Tx, done: set<Tx>)
    requires (d in m <==> d in m') && (d in m ==> m'[d] == m[d])
    ensures Exact(pool, m, d, done) <==> Exact(pool, m', d, done)
  {
  }

  lemma AllFollowed(pool: Pool, m: ModifiedMap, m': ModifiedMap, inBlock: set<Tx>, done: set<Tx>, it: Tx, seen: set<Tx>)
    requires HalfFollowed(pool, m, m', inBlock, done, it, seen) && Descendants(pool, it) <= seen
    ensures Follows(pool, m, done, m', done + {it}, inBlock)
  {
    var done' := done + {it};
    forall d | d in pool.txs && d !in inBlock && Exact(pool, m, d, done) ensures Exact(pool, m', d, done') {
      if d !in seen {
        assert it !in Package(pool, d);
        assert Package(pool, d) - done' == Package(pool, d) - done;
      }
    }
  }

  method UpdateDescendants(pool: Pool, mIn: ModifiedMap, alreadyAdded: set<Tx>, it: Tx, ghost inBlock: set<Tx>, ghost done: set<Tx>)
    returns (m: ModifiedMap)
    requires ValidPool(pool) && Closed(pool, inBlock) && alreadyAdded <= inBlock && it in alreadyAdded && it !in done
    requires inBlock - alreadyAdded <= done && Closed(pool, inBlock - alreadyAdded) && ModifiedOk(pool, mIn, inBlock, done)
    ensures ModifiedOk(pool, m, inBlock, done + {it})
    ensures Follows(pool, mIn, done, m, done + {it}, inBlock)
  {
    hide ValidPool;
    hide HalfDone;
    hide HalfFollowed;
    hide Follows;
    hide ModifiedOk;
    hide Package;
    m := mIn;
    var descendants := Descendants(pool, it);
    ghost var seen := {};
    NoneDone(pool, m, inBlock, done, it);
    while descendants != {}
      invariant descendants == Descendants(pool, it) - seen && HalfDone(pool, m, inBlock, done, it, seen)
      invariant HalfFollowed(pool, mIn, m, inBlock, done, it, seen)
      decreases descendants
    {
      var desc :| desc in descendants;
      if desc !in alreadyAdded {
        NotYetAdded(pool, alreadyAdded, inBlock, it, desc);
        UpdateOne(pool, m, inBlock, done, it, seen, desc);
        HalfFollowedNext(pool, mIn, m, inBlock, done, it, seen, desc);
        m := UpdatedFor(pool, m, it, desc);
      } else {
        SkipOne(pool, mIn, m, inBlock, done, it, seen, desc);
      }
      seen := seen + {desc};
      descendants := descendants - {desc};
    }
    AllFollowed(pool, mIn, m, inBlock, done, it, seen);
    AllDone(pool, m, inBlock, done, it, seen);
  }

  /** A descendant that is not being added is not in the block: that was closed. */
  lemma NotYetAdded(pool: Pool, alreadyAdded: set<Tx>, inBlock: set<Tx>, it: Tx, desc: Tx)
    requires it in alreadyAdded && desc in Descendants(pool, it) && desc !in alreadyAdded && Closed(pool, inBlock - alreadyAdded)
    ensures desc !in inBlock
  {
  }

  lemma NoneDone(pool: Pool, m: ModifiedMap, inBlock: set<Tx>, done: set<Tx>, it: Tx)
    requires ModifiedOk(pool, m, inBlock, done)
    ensures HalfDone(pool, m, inBlock, done, it, {}) && HalfFollowed(pool, m, m, inBlock, done, it, {})
  {
  }

  lemma SkipOne(pool: Pool, m: ModifiedMap, m': ModifiedMap, inBlock: set<Tx>, done: set<Tx>, it: Tx, seen: set<Tx>, desc: Tx)
    requires HalfDone(pool, m', inBlock, done, it, seen) && HalfFollowed(pool, m, m', inBlock, done, it, seen) && desc in inBlock
    ensures HalfDone(pool, m', inBlock, done, it, seen + {desc}) && HalfFollowed(pool, m, m', inBlock, done, it, seen + {desc})
  {
    hide Covers;
    hide Exact;
  }

  lemma AllDone(pool: Pool, m: ModifiedMap, inBlock: set<Tx>, done: set<Tx>, it: Tx, seen: set<Tx>)
    requires HalfDone(pool, m, inBlock, done, it, seen) && Descendants(pool, it) <= seen
    ensures ModifiedOk(pool, m, inBlock, done + {it})
  {
    forall d | d in m ensures Covers(pool, m[d], Package(pool, d) - (done + {it})) {
      CoversLess(pool, m[d], StillOut(pool, d, done, it, seen), Package(pool, d) - (done + {it}));
    }
  }

  /** After transactions have entered the block, every entry of the modified set is
      again an upper bound for the part of its package that is not in the block, and
      what was exact is exact again. */
  method UpdatePackagesForAdded(pool: Pool, alreadyAdded: set<Tx>, mIn: ModifiedMap, ghost inBlock: set<Tx>) returns (m: ModifiedMap)
    requires ValidPool(pool) && Closed(pool, inBlock) && alreadyAdded <= inBlock && Closed(pool, inBlock - alreadyAdded)
    requires ModifiedOk(pool, mIn, inBlock, inBlock - alreadyAdded)
    ensures ModifiedOk(pool, m, inBlock, inBlock)
    ensures Follows(pool, mIn, inBlock - alreadyAdded, m, inBlock, inBlock)
  {
    hide ValidPool;
    hide Closed;
    hide Follows;
    m := mIn;
    var todo := alreadyAdded;
    ghost var done := inBlock - alreadyAdded;
    FollowsItself(pool, m, done, inBlock);
    while todo != {}
      invariant todo <= alreadyAdded && done == inBlock - todo
      invariant ModifiedOk(pool, m, inBlock, done) && Follows(pool, mIn, inBlock - alreadyAdded, m, done, inBlock)
      decreases todo
    {
      var it :| it in todo;
      ghost var before := m;
      m := UpdateDescendants(pool, m, alreadyAdded, it, inBlock, done);
      FollowsOn(pool, mIn, inBlock - alreadyAdded, before, done, m, done + {it}, inBlock);
      todo := todo - {it};
      assert done + {it} == inBlock - todo;
      done := done + {it};
    }
    assert done == inBlock;
  }

  lemma FollowsItself(pool: Pool, m: ModifiedMap, done: set<Tx>, inBlock: set<Tx>)
    ensures Follows(pool, m, done, m, done, inBlock)
  {
  }

  lemma FollowsErased(pool: Pool, m: ModifiedMap, before: set<Tx>, package: set<Tx>, m': ModifiedMap)
    requires Follows(pool, m - package, before, m', before + package, before + package)
    ensures Follows(pool, m, before, m', before + package, before + package)
  {
    var inBlock := before + package;
    forall d | d in pool.txs && d !in inBlock && Exact(pool, m, d, before) ensures Exact(pool, m', d, inBlock) {
      SameRecord(pool, m, m - package, d, before);
    }
  }

  lemma OneErased(m: ModifiedMap, t: Tx)
    requires t in m
    ensures |m - {t}| == |m| - 1
  {
    assert (m - {t}).Keys == m.Keys - {t};
    assert |m| == |m.Keys| && |m - {t}| == |(m - {t}).Keys|;
  }
}
