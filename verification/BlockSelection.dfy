/**
 Which transactions get into a block by package, and why others do not.
 */
module BlockSelection {
  import opened Mempool
  import opened PackageTotals
  import opened BlockOrder

  const MAX_BLOCK_SIGOPS_COST: nat := 80000

  // ------------------------------------------------------------------- reasons to refuse

  /** The limits, IsFinalTx at the next height, whether the block may have witness data
      or the transaction has none, and the relay fee for a size. */
  datatype Rules = Rules(maxWeight: nat, maxSize: nat, sizeAccounting: bool, isFinal: Tx -> bool, witnessAllowed: Tx -> bool,
                         minFee: int -> int)

  /** A block with these transactions has room for this package, all of it allowed. */
  ghost predicate Fits(pool: Pool, r: Rules, block: set<Tx>, package: set<Tx>) {
    && 4000 + Sum(pool.weight, block) + WITNESS_SCALE_FACTOR * Sum(pool.size, package) < r.maxWeight
    && 400 + Sum(pool.sigOpCost, block) + Sum(pool.sigOpCost, package) < MAX_BLOCK_SIGOPS_COST
    && (r.sizeAccounting ==> 1000 + Sum(pool.serializedSize, block) + Sum(pool.serializedSize, package) < r.maxSize)
    && forall t :: t in package ==> r.isFinal(t) && r.witnessAllowed(t)
  }

  /** When the block had its first n transactions, the rest of t's package did not fit. */
  ghost predicate Refused(pool: Pool, r: Rules, vtx: seq<Tx>, n: nat, t: Tx) {
    n <= |vtx| && !Fits(pool, r, Elements(vtx[..n]), Package(pool, t) - Elements(vtx[..n]))
  }

  ghost predicate AllRefused(pool: Pool, r: Rules, vtx: seq<Tx>, refused: map<Tx, nat>) {
    forall t :: t in refused ==> Refused(pool, r, vtx, refused[t], t)
  }

  lemma StillRefused(pool: Pool, r: Rules, vtx: seq<Tx>, vtx': seq<Tx>, refused: map<Tx, nat>)
    requires AllRefused(pool, r, vtx, refused) && vtx <= vtx'
    ensures AllRefused(pool, r, vtx', refused)
  {
    forall t | t in refused ensures Refused(pool, r, vtx', refused[t], t) {
      assert vtx'[..refused[t]] == vtx[..refused[t]];
    }
  }

  lemma OneMoreRefused(pool: Pool, r: Rules, vtx: seq<Tx>, refused: map<Tx, nat>, t: Tx)
    requires AllRefused(pool, r, vtx, refused) && !Fits(pool, r, Elements(vtx), Package(pool, t) - Elements(vtx))
    ensures AllRefused(pool, r, vtx, refused[t := |vtx|])
  {
    assert vtx[..|vtx|] == vtx;
  }

  /** Records are exact, except for what has been refused before: such a record is
      erased and may be made again from the totals in the pool. */
  ghost predicate AllExact(pool: Pool, m: ModifiedMap, inBlock: set<Tx>, refused: map<Tx, nat>) {
    forall d :: d in pool.txs && d !in inBlock && d !in refused ==> Exact(pool, m, d, inBlock)
  }

  /** What the walk over the pool has passed is in the block, still to be looked at, or
      refused. */
  ghost predicate Accounted(order: seq<Tx>, mi: nat, m: ModifiedMap, inBlock: set<Tx>, refused: map<Tx, nat>) {
    mi <= |order| && forall i :: 0 <= i < mi ==> order[i] in inBlock || order[i] in m || order[i] in refused
  }

  lemma ExactAfter(pool: Pool, m: ModifiedMap, before: set<Tx>, m': ModifiedMap, inBlock: set<Tx>, refused: map<Tx, nat>)
    requires AllExact(pool, m, before, refused) && Follows(pool, m, before, m', inBlock, inBlock) && before <= inBlock
    ensures AllExact(pool, m', inBlock, refused)
  {
  }

  lemma AccountedAfter(pool: Pool, order: seq<Tx>, mi: nat, m: ModifiedMap, before: set<Tx>, m': ModifiedMap, inBlock: set<Tx>, refused: map<Tx, nat>)
    requires Accounted(order, mi, m, before, refused) && Follows(pool, m, before, m', inBlock, inBlock) && before <= inBlock
    ensures Accounted(order, mi, m', inBlock, refused)
  {
  }

  lemma AccountedNext(order: seq<Tx>, mi: nat, m: ModifiedMap, inBlock: set<Tx>, refused: map<Tx, nat>)
    requires Accounted(order, mi, m, inBlock, refused) && mi < |order|
    requires order[mi] in inBlock || order[mi] in m || order[mi] in refused
    ensures Accounted(order, mi + 1, m, inBlock, refused)
  {
  }

  /** A refused transaction leaves the modified set, if it was there. */
  lemma RefusedRecord(pool: Pool, order: seq<Tx>, mi: nat, m: ModifiedMap, inBlock: set<Tx>, refused: map<Tx, nat>, refused': map<Tx, nat>, iter: Tx)
    requires AllExact(pool, m, inBlock, refused) && Accounted(order, mi, m, inBlock, refused)
    requires refused'.Keys == refused.Keys + {iter}
    ensures AllExact(pool, m, inBlock, refused') && AllExact(pool, m - {iter}, inBlock, refused')
    ensures Accounted(order, mi, m, inBlock, refused') && Accounted(order, mi, m - {iter}, inBlock, refused')
  {
    forall d | d in pool.txs && d !in inBlock && d !in refused' ensures Exact(pool, m - {iter}, d, inBlock) {
      SameRecord(pool, m, m - {iter}, d, inBlock);
    }
  }

  /** The totals of a transaction that has not been refused are exact. */
  lemma ExactEntry(pool: Pool, m: ModifiedMap, inBlock: set<Tx>, refused: map<Tx, nat>, t: Tx)
    requires ValidPool(pool) && AllExact(pool, m, inBlock, refused) && t in pool.txs && t !in inBlock && t !in refused
    ensures (if t in m then m[t] else CachedTotals(pool, t)) == TotalsOver(pool, Package(pool, t) - inBlock)
  {
    hide ValidPool;
    hide TotalsOver;
    assert Exact(pool, m, t, inBlock);
    if t !in m {
      CachedIsExact(pool, t);
      assert Package(pool, t) - inBlock == Package(pool, t);
    }
  }

  /** Nothing is refused at the start. */
  lemma ExactAtStart(pool: Pool, m: ModifiedMap, inBlock: set<Tx>)
    requires Follows(pool, map[], {}, m, inBlock, inBlock)
    ensures AllExact(pool, m, inBlock, map[])
  {
    forall d | d in pool.txs && d !in inBlock ensures Exact(pool, m, d, inBlock) {
      assert Exact(pool, map[], d, {});
    }
  }

  /** The state of the selection: between two attempts, when the walk over `order` has
      come to mi. */
  ghost predicate Choosing(pool: Pool, r: Rules, vtx: seq<Tx>, inBlock: set<Tx>, m: ModifiedMap, order: seq<Tx>, mi: nat, refused: map<Tx, nat>) {
    && ModifiedOk(pool, m, inBlock, inBlock) && AllRefused(pool, r, vtx, refused)
    && AllExact(pool, m, inBlock, refused) && Accounted(order, mi, m, inBlock, refused)
  }

  lemma NothingPassed(pool: Pool, r: Rules, vtx: seq<Tx>, inBlock: set<Tx>, m: ModifiedMap, order: seq<Tx>)
    requires Follows(pool, map[], {}, m, inBlock, inBlock) && ModifiedOk(pool, m, inBlock, inBlock)
    ensures Choosing(pool, r, vtx, inBlock, m, order, 0, map[])
  {
    ExactAtStart(pool, m, inBlock);
  }

  lemma PassedBy(pool: Pool, r: Rules, vtx: seq<Tx>, inBlock: set<Tx>, m: ModifiedMap, order: seq<Tx>, mi: nat, refused: map<Tx, nat>)
    requires Choosing(pool, r, vtx, inBlock, m, order, mi, refused) && mi < |order|
    requires order[mi] in inBlock || order[mi] in m || order[mi] in refused
    ensures Choosing(pool, r, vtx, inBlock, m, order, mi + 1, refused)
  {
    AccountedNext(order, mi, m, inBlock, refused);
  }

  lemma AfterAdding(pool: Pool, r: Rules, vtx0: seq<Tx>, before: set<Tx>, mIn: ModifiedMap, vtx: seq<Tx>, inBlock: set<Tx>, m: ModifiedMap,
                    order: seq<Tx>, mi: nat, refused: map<Tx, nat>, iter: Tx, fUsingModified: bool)
    requires Choosing(pool, r, vtx0, before, mIn, order, mi, refused)
    requires vtx0 <= vtx && before <= inBlock && iter in inBlock && ModifiedOk(pool, m, inBlock, inBlock) && Follows(pool, mIn, before, m, inBlock, inBlock)
    requires fUsingModified || (mi < |order| && order[mi] == iter)
    ensures Choosing(pool, r, vtx, inBlock, m, order, if fUsingModified then mi else mi + 1, refused)
  {
    hide ModifiedOk;
    hide AllRefused;
    hide AllExact;
    hide Accounted;
    hide Follows;
    StillRefused(pool, r, vtx0, vtx, refused);
    ExactAfter(pool, mIn, before, m, inBlock, refused);
    AccountedAfter(pool, order, mi, mIn, before, m, inBlock, refused);
    if !fUsingModified {
      AccountedNext(order, mi, m, inBlock, refused);
    }
  }

  lemma AfterRefusal(pool: Pool, r: Rules, vtx: seq<Tx>, inBlock: set<Tx>, mIn: ModifiedMap, order: seq<Tx>, mi: nat, refusedIn: map<Tx, nat>,
                     iter: Tx, fUsingModified: bool)
    requires Choosing(pool, r, vtx, inBlock, mIn, order, mi, refusedIn)
    requires iter in refusedIn || !Fits(pool, r, Elements(vtx), Package(pool, iter) - Elements(vtx))
    requires if fUsingModified then iter in mIn else mi < |order| && order[mi] == iter
    ensures fUsingModified ==> |mIn - {iter}| == |mIn| - 1
    ensures var refused := if iter in refusedIn then refusedIn else refusedIn[iter := |vtx|];
            Choosing(pool, r, vtx, inBlock, if fUsingModified then mIn - {iter} else mIn, order, if fUsingModified then mi else mi + 1, refused)
  {
    hide ModifiedOk;
    hide AllRefused;
    hide AllExact;
    hide Accounted;
    hide Fits;
    hide Package;
    hide Elements;
    var refused := if iter in refusedIn then refusedIn else refusedIn[iter := |vtx|];
    if iter !in refusedIn {
      OneMoreRefused(pool, r, vtx, refusedIn, iter);
    }
    RefusedRecord(pool, order, mi, mIn, inBlock, refusedIn, refused, iter);
    if fUsingModified {
      ModifiedErased(pool, mIn, inBlock, {iter});
      OneErased(mIn, iter);
    } else {
      AccountedNext(order, mi, mIn, inBlock, refused);
    }
  }

  /** The totals for the next attempt: they cover what is missing, exactly so unless
      the transaction has been refused before. */
  lemma Chosen(pool: Pool, r: Rules, vtx: seq<Tx>, inBlock: set<Tx>, m: ModifiedMap, order: seq<Tx>, mi: nat, refused: map<Tx, nat>, iter: Tx)
    requires ValidPool(pool) && Choosing(pool, r, vtx, inBlock, m, order, mi, refused)
    requires iter in m || (iter in pool.txs && iter !in inBlock)
    ensures iter in pool.txs && iter !in inBlock && ModifiedOk(pool, m, inBlock, inBlock)
    ensures var totals := if iter in m then m[iter] else CachedTotals(pool, iter);
            && Covers(pool, totals, Package(pool, iter) - inBlock)
            && (iter !in refused ==> totals == TotalsOver(pool, Package(pool, iter) - inBlock))
  {
    hide ValidPool;
    hide Covers;
    hide TotalsOver;
    hide AllExact;
    if iter !in m {
      CachedCovers(pool, iter, Package(pool, iter) - inBlock);
    }
    if iter !in refused {
      ExactEntry(pool, m, inBlock, refused, iter);
    }
  }

  lemma AllPassed(pool: Pool, r: Rules, vtx: seq<Tx>, inBlock: set<Tx>, m: ModifiedMap, order: seq<Tx>, refused: map<Tx, nat>)
    requires Choosing(pool, r, vtx, inBlock, m, order, |order|, refused) && m == map[]
    ensures AllRefused(pool, r, vtx, refused) && forall t :: t in order ==> t in inBlock || t in refused
  {
  }

  /** The rest of t's package pays less than is asked for its size. */
  ghost predicate FeeTooLow(pool: Pool, r: Rules, inBlock: set<Tx>, t: Tx) {
    var rest := Package(pool, t) - inBlock;
    Fees(pool.modFee, rest) < r.minFee(Sum(pool.size, rest))
  }

  lemma LowFee(pool: Pool, r: Rules, inBlock: set<Tx>, t: Tx, totals: Modified)
    requires totals.nModFeesWithAncestors < r.minFee(totals.nSizeWithAncestors)
    ensures totals == TotalsOver(pool, Package(pool, t) - inBlock) ==> FeeTooLow(pool, r, inBlock, t)
  {
  }

  lemma InPackage(pool: Pool, t: Tx)
    ensures t in Package(pool, t)
  {
  }
}
