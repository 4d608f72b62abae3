/**
 The block assembler: priority transactions first, then packages by fee rate, with
 ancestor totals kept up to date incrementally.  Scores and priorities are floating
 point and decide only what is tried when; here every order is allowed for.
 */
module BlockAssembler {
  import opened Mempool
  import opened PackageTotals
  import opened BlockOrder
  import opened BlockSelection
  import opened PriorityPhase

  class BlockAssembler {
    const pool: Pool
    const nBlockMaxWeight: nat
    const nBlockMaxSize: nat
    const fNeedSizeAccounting: bool
    /** IsFinalTx at the next height. */
    const isFinal: Tx -> bool
    /** The block may have witness data, or the transaction has none. */
    const witnessAllowed: Tx -> bool
    /** minRelayTxFee.GetFee. */
    const minFee: int -> int

    var vtx: seq<Tx>
    var inBlock: set<Tx>
    var nBlockWeight: nat
    var nBlockSize: nat
    var nBlockTx: nat
    var nBlockSigOpsCost: nat
    var lastFewTxs: nat
    var blockFinished: bool

    ghost function RulesOf(): Rules {
      Rules(nBlockMaxWeight, nBlockMaxSize, fNeedSizeAccounting, isFinal, witnessAllowed, minFee)
    }

    /** The block is a valid sequence and the running totals are exact. */
    ghost predicate Valid()
      reads this
    {
      && ValidPool(pool) && ValidOrder(pool, vtx) && inBlock == Elements(vtx) && nBlockTx == |vtx|
      && nBlockWeight == 4000 + Sum(pool.weight, inBlock)
      && nBlockSigOpsCost == 400 + Sum(pool.sigOpCost, inBlock)
      && (fNeedSizeAccounting ==> nBlockSize == 1000 + Sum(pool.serializedSize, inBlock))
      && (forall t :: t in inBlock ==> isFinal(t) && witnessAllowed(t))
    }

    ghost predicate WithinLimits()
      reads this
    {
      && nBlockWeight <= nBlockMaxWeight && nBlockSigOpsCost <= MAX_BLOCK_SIGOPS_COST
      && (fNeedSizeAccounting ==> nBlockSize <= nBlockMaxSize)
    }

    /** resetBlock. */
    constructor (poolIn: Pool, maxWeight: nat, maxSize: nat, sizeAccounting: bool,
                 isFinalIn: Tx -> bool, witnessAllowedIn: Tx -> bool, minFeeIn: int -> int)
      requires ValidPool(poolIn) && 4000 <= maxWeight && 1000 <= maxSize
      ensures Valid() && WithinLimits() && vtx == [] && pool == poolIn && nBlockMaxWeight == maxWeight && nBlockMaxSize == maxSize
      ensures fNeedSizeAccounting == sizeAccounting && isFinal == isFinalIn && witnessAllowed == witnessAllowedIn && minFee == minFeeIn
      ensures nBlockSize == 1000 && lastFewTxs == 0 && !blockFinished
    {
      pool, nBlockMaxWeight, nBlockMaxSize, fNeedSizeAccounting := poolIn, maxWeight, maxSize, sizeAccounting;
      isFinal, witnessAllowed, minFee := isFinalIn, witnessAllowedIn, minFeeIn;
      vtx, inBlock, nBlockTx := [], {}, 0;
      nBlockSize, nBlockWeight, nBlockSigOpsCost := 1000, 4000, 400;
      lastFewTxs, blockFinished := 0, false;
    }

    method AddToBlock(t: Tx, fSize: bool)
      requires Valid() && t in pool.txs && t !in inBlock && pool.ancestors(t) <= inBlock && (fNeedSizeAccounting ==> fSize)
      requires isFinal(t) && witnessAllowed(t)
      modifies this
      ensures Valid() && vtx == old(vtx) + [t] && inBlock == old(inBlock) + {t}
      ensures nBlockWeight == old(nBlockWeight) + pool.weight(t) && nBlockSigOpsCost == old(nBlockSigOpsCost) + pool.sigOpCost(t)
      ensures nBlockSize == old(nBlockSize) + (if fSize then pool.serializedSize(t) else 0)
      ensures lastFewTxs == old(lastFewTxs) && blockFinished == old(blockFinished)
    {
      hide ValidPool;
      hide ValidOrder;
      hide Sum;
      OrderAppend(pool, vtx, t);
      SumAdd(pool.weight, inBlock, t);
      SumAdd(pool.sigOpCost, inBlock, t);
      SumAdd(pool.serializedSize, inBlock, t);
      hide Elements;
      vtx := vtx + [t];
      if fSize {
        nBlockSize := nBlockSize + pool.serializedSize(t);
      }
      nBlockWeight := nBlockWeight + pool.weight(t);
      nBlockTx := nBlockTx + 1;
      nBlockSigOpsCost := nBlockSigOpsCost + pool.sigOpCost(t);
      inBlock := inBlock + {t};
    }

    predicate TestPackage(packageSize: int, packageSigOpsCost: int)
      reads this
    {
      nBlockWeight + WITNESS_SCALE_FACTOR * packageSize < nBlockMaxWeight && nBlockSigOpsCost + packageSigOpsCost < MAX_BLOCK_SIGOPS_COST
    }

    method TestPackageTransactions(package: set<Tx>) returns (ok: bool)
      ensures ok <==> && (fNeedSizeAccounting && package != {} ==> nBlockSize + Sum(pool.serializedSize, package) < nBlockMaxSize)
                      && forall t :: t in package ==> isFinal(t) && witnessAllowed(t)
    {
      var nPotentialBlockSize := nBlockSize;
      var rest := package;
      while rest != {}
        invariant rest <= package
        invariant forall t :: t in package && t !in rest ==> isFinal(t) && witnessAllowed(t)
        invariant fNeedSizeAccounting ==> nPotentialBlockSize + Sum(pool.serializedSize, rest) == nBlockSize + Sum(pool.serializedSize, package)
        invariant fNeedSizeAccounting && rest != package ==> nPotentialBlockSize < nBlockMaxSize
        decreases rest
      {
        var t :| t in rest;
        SumTake(pool.serializedSize, rest, t);
        if !isFinal(t) {
          return false;
        }
        if !witnessAllowed(t) {
          return false;
        }
        if fNeedSizeAccounting {
          var nTxSize := pool.serializedSize(t);
          if nPotentialBlockSize + nTxSize >= nBlockMaxSize {
            return false;
          }
          nPotentialBlockSize := nPotentialBlockSize + nTxSize;
        }
        rest := rest - {t};
      }
      ok := true;
    }

    method AppendSorted(package: set<Tx>, sorted: seq<Tx>)
      requires Valid() && package <= pool.txs && package !! inBlock && Closed(pool, inBlock + package)
      requires Elements(sorted) == package && SortedByCount(pool, sorted)
      requires forall t :: t in package ==> isFinal(t) && witnessAllowed(t)
      modifies this
      ensures Valid() && inBlock == old(inBlock) + package && vtx == old(vtx) + sorted
    {
      hide ValidPool;
      hide ValidOrder;
      hide SortedByCount;
      hide Closed;
      hide Sum;
      hide Elements;
      ghost var vtx0, in0 := vtx, inBlock;
      PrefixStart(in0, vtx0, sorted);
      for i := 0 to |sorted|
        invariant Valid() && vtx == vtx0 + sorted[..i] && inBlock == in0 + Elements(sorted[..i])
      {
        SortedPackageIsReady(pool, vtx0, package, sorted, i);
        NextOfPackage(in0, vtx0, sorted, i);
        AddToBlock(sorted[i], fNeedSizeAccounting);
      }
      assert sorted[..|sorted|] == sorted;
    }

    /** Appends a package in sorted order, and erases it from the modified set. */
    method AddPackage(package: set<Tx>, mIn: ModifiedMap) returns (m: ModifiedMap)
      requires Valid() && package <= pool.txs && package !! inBlock && Closed(pool, inBlock + package)
      requires forall t :: t in package ==> isFinal(t) && witnessAllowed(t)
      modifies this
      ensures Valid() && inBlock == old(inBlock) + package && old(vtx) <= vtx
      ensures nBlockWeight == old(nBlockWeight) + Sum(pool.weight, package)
      ensures nBlockSigOpsCost == old(nBlockSigOpsCost) + Sum(pool.sigOpCost, package)
      ensures fNeedSizeAccounting ==> nBlockSize == old(nBlockSize) + Sum(pool.serializedSize, package)
      ensures m == mIn - package
    {
      hide ValidPool;
      hide ValidOrder;
      hide SortedByCount;
      hide Closed;
      hide Sum;
      hide Elements;
      SumUnion(pool.weight, inBlock, package);
      SumUnion(pool.sigOpCost, inBlock, package);
      SumUnion(pool.serializedSize, inBlock, package);
      var sorted := SortForBlock(pool, package);
      AppendSorted(package, sorted);
      m := EraseAll(mIn, sorted);
    }

    // ------------------------------------------------------------------ packages by fee rate

    /** One attempt of AddPackageTxs, once a transaction has been chosen.  Its totals
        may over-count, so a package that passes the tests really fits. */
    method TryPackage(iter: Tx, totals: Modified, mIn: ModifiedMap) returns (added: bool, m: ModifiedMap)
      requires Valid() && WithinLimits() && iter in pool.txs && iter !in inBlock
      requires ModifiedOk(pool, mIn, inBlock, inBlock) && Covers(pool, totals, Package(pool, iter) - inBlock)
      modifies this
      ensures Valid() && WithinLimits() && old(vtx) <= vtx && ModifiedOk(pool, m, inBlock, inBlock)
      ensures added <==> && old(nBlockWeight) + WITNESS_SCALE_FACTOR * totals.nSizeWithAncestors < nBlockMaxWeight
                         && old(nBlockSigOpsCost) + totals.nSigOpCostWithAncestors < MAX_BLOCK_SIGOPS_COST
                         && (fNeedSizeAccounting ==> old(nBlockSize) + Sum(pool.serializedSize, Package(pool, iter) - old(inBlock)) < nBlockMaxSize)
                         && (forall t :: t in Package(pool, iter) && t !in old(inBlock) ==> isFinal(t) && witnessAllowed(t))
      ensures added ==> inBlock == old(inBlock) + Package(pool, iter) && Follows(pool, mIn, old(inBlock), m, inBlock, inBlock)
      ensures !added ==> m == mIn && vtx == old(vtx) && inBlock == old(inBlock)
      ensures !added ==> nBlockWeight == old(nBlockWeight) && nBlockSigOpsCost == old(nBlockSigOpsCost) && nBlockSize == old(nBlockSize)
    {
      hide ValidPool;
      hide ValidOrder;
      hide ModifiedOk;
      hide Closed;
      hide Follows;
      added, m := false, mIn;
      if !TestPackage(totals.nSizeWithAncestors, totals.nSigOpCostWithAncestors) {
        return;
      }
      var package := Package(pool, iter) - inBlock;
      var ok := TestPackageTransactions(package);
      if !ok {
        return;
      }
      OrderIsClosed(pool, vtx);
      PackageIsClosed(pool, inBlock, iter);
      AncestorsOf(pool, iter);
      assert inBlock + package == inBlock + Package(pool, iter);
      SumScaled(pool, package);
      ghost var before := inBlock;
      ModifiedErased(pool, mIn, inBlock, package);
      m := AddPackage(package, mIn);
      assert inBlock - package == before;
      m := UpdatePackagesForAdded(pool, package, m, inBlock);
      FollowsErased(pool, mIn, before, package, m);
      added := true;
    }

    /** A package that failed a test with exact totals really does not fit. */
    lemma DoesNotFit(iter: Tx, totals: Modified)
      requires Valid() && totals == TotalsOver(pool, Package(pool, iter) - inBlock)
      requires !(&& nBlockWeight + WITNESS_SCALE_FACTOR * totals.nSizeWithAncestors < nBlockMaxWeight
                 && nBlockSigOpsCost + totals.nSigOpCostWithAncestors < MAX_BLOCK_SIGOPS_COST
                 && (fNeedSizeAccounting ==> nBlockSize + Sum(pool.serializedSize, Package(pool, iter) - inBlock) < nBlockMaxSize)
                 && (forall t :: t in Package(pool, iter) && t !in inBlock ==> isFinal(t) && witnessAllowed(t)))
      ensures !Fits(pool, RulesOf(), Elements(vtx), Package(pool, iter) - Elements(vtx))
    {
      hide ValidPool;
      hide ValidOrder;
      hide Sum;
    }

    /** The block and the state of the selection, between two attempts. */
    ghost predicate Selecting(m: ModifiedMap, order: seq<Tx>, mi: nat, refused: map<Tx, nat>)
      reads this
    {
      Valid() && WithinLimits() && Choosing(pool, RulesOf(), vtx, inBlock, m, order, mi, refused)
    }

    /** Starts with all descendants of what is in the block. */
    method StartSelecting(ghost order: seq<Tx>) returns (m: ModifiedMap)
      requires Valid() && WithinLimits()
      ensures Selecting(m, order, 0, map[])
    {
      hide ValidPool;
      hide ValidOrder;
      hide ModifiedOk;
      hide Closed;
      hide Follows;
      OrderIsClosed(pool, vtx);
      EmptyIsClosed(pool, inBlock);
      NothingModified(pool, inBlock, inBlock - inBlock);
      m := UpdatePackagesForAdded(pool, inBlock, map[], inBlock);
      assert inBlock - inBlock == {};
      NothingPassed(pool, RulesOf(), vtx, inBlock, m, order);
    }

    /** Considers the chosen transaction: its fee, then whether its package can be
        added.  The account of what was refused, and when, is kept up. */
    method Consider(iter: Tx, fUsingModified: bool, mIn: ModifiedMap, ghost order: seq<Tx>, ghost mi: nat, ghost refusedIn: map<Tx, nat>)
      returns (tooLow: bool, added: bool, m: ModifiedMap, ghost refused: map<Tx, nat>)
      requires Selecting(mIn, order, mi, refusedIn)
      requires if fUsingModified then iter in mIn else iter !in mIn && iter in pool.txs && iter !in inBlock && mi < |order| && order[mi] == iter
      modifies this
      ensures old(vtx) <= vtx && refusedIn.Keys <= refused.Keys
      ensures tooLow ==> Selecting(m, order, mi, refused) && iter in pool.txs && iter !in inBlock
      ensures tooLow ==> iter in refused || FeeTooLow(pool, RulesOf(), inBlock, iter)
      ensures !tooLow ==> Selecting(m, order, if fUsingModified then mi else mi + 1, refused)
      ensures !tooLow && added ==> Left(pool.txs, inBlock) < Left(pool.txs, old(inBlock))
      ensures !tooLow && !added ==> inBlock == old(inBlock) && iter in refused && |m| == |mIn| - (if fUsingModified then 1 else 0)
    {
      hide Valid;
      hide WithinLimits;
      hide Choosing;
      hide ValidPool;
      hide Covers;
      hide ModifiedOk;
      hide Follows;
      hide AllRefused;
      hide Fits;
      hide TotalsOver;
      hide Package;
      hide FeeTooLow;
      hide Elements;
      hide Left;
      hide RulesOf;
      ghost var before, vtx0 := inBlock, vtx;
      tooLow, added, m, refused := false, false, mIn, refusedIn;
      var totals := if fUsingModified then mIn[iter] else CachedTotals(pool, iter);
      PoolIsValid();
      Chosen(pool, RulesOf(), vtx, inBlock, mIn, order, mi, refused, iter);
      if totals.nModFeesWithAncestors < minFee(totals.nSizeWithAncestors) {
        LowFeeHere(iter, totals);
        tooLow := true;
        return;
      }
      added, m := TryPackage(iter, totals, mIn);
      if added {
        InPackage(pool, iter);
        FewerLeft(pool.txs, before, inBlock, iter);
        AfterAdding(pool, RulesOf(), vtx0, before, mIn, vtx, inBlock, m, order, mi, refused, iter, fUsingModified);
      } else {
        if iter !in refused {
          DoesNotFit(iter, totals);
          refused := refused[iter := |vtx|];
        }
        AfterRefusal(pool, RulesOf(), vtx, inBlock, mIn, order, mi, refusedIn, iter, fUsingModified);
        if fUsingModified {
          m := mIn - {iter};
        }
      }
    }

    lemma LowFeeHere(iter: Tx, totals: Modified)
      requires totals.nModFeesWithAncestors < minFee(totals.nSizeWithAncestors)
      ensures totals == TotalsOver(pool, Package(pool, iter) - inBlock) ==> FeeTooLow(pool, RulesOf(), inBlock, iter)
    {
      LowFee(pool, RulesOf(), inBlock, iter, totals);
    }

    lemma PoolIsValid()
      requires Valid()
      ensures ValidPool(pool)
    {
    }

    lemma PassBy(m: ModifiedMap, order: seq<Tx>, mi: nat, refused: map<Tx, nat>)
      requires Selecting(m, order, mi, refused) && mi < |order|
      requires order[mi] in inBlock || order[mi] in m || order[mi] in refused
      ensures Selecting(m, order, mi + 1, refused)
    {
      hide Valid;
      hide WithinLimits;
      hide Choosing;
      PassedBy(pool, RulesOf(), vtx, inBlock, m, order, mi, refused);
    }

    lemma SelectionDone(m: ModifiedMap, order: seq<Tx>, mi: nat, refused: map<Tx, nat>)
      requires Selecting(m, order, mi, refused)
      ensures Valid() && WithinLimits() && AllRefused(pool, RulesOf(), vtx, refused)
      ensures mi == |order| && m == map[] ==> forall t :: t in order ==> t in inBlock || t in refused
    {
      hide Valid;
      hide WithinLimits;
      if mi == |order| && m == map[] {
        AllPassed(pool, RulesOf(), vtx, inBlock, m, order, refused);
      }
    }

    /** `order` is mapTx by ancestor score, which decides together with the scores of
        the modified entries what is tried next; any decision is allowed for.  Unless a
        fee is too low, everything in `order` is in the block or did not fit when it
        was first tried, counting exactly what was missing of its package. */
    method AddPackageTxs(order: seq<Tx>) returns (stopped: bool, ghost at: Tx, ghost refused: map<Tx, nat>)
      requires Valid() && WithinLimits() && forall t :: t in order ==> t in pool.txs
      modifies this
      ensures Valid() && WithinLimits() && old(vtx) <= vtx && AllRefused(pool, RulesOf(), vtx, refused)
      ensures !stopped ==> forall t :: t in order ==> t in inBlock || t in refused
      ensures stopped ==> at in pool.txs && at !in inBlock && (at in refused || FeeTooLow(pool, RulesOf(), inBlock, at))
    {
      hide Valid;
      hide WithinLimits;
      hide Selecting;
      hide AllRefused;
      hide FeeTooLow;
      hide RulesOf;
      hide Left;
      var m := StartSelecting(order);
      stopped, at, refused := false, 0, map[];
      var failedTx := {};
      var mi := 0;
      while mi < |order| || m != map[]
        invariant old(vtx) <= vtx && mi <= |order| && failedTx <= refused.Keys && Selecting(m, order, mi, refused)
        decreases Left(pool.txs, inBlock), |order| - mi + |m|
      {
        if mi < |order| && (order[mi] in m || order[mi] in inBlock || order[mi] in failedTx) {
          PassBy(m, order, mi, refused);
          mi := mi + 1;
          continue;
        }
        var iter: Tx;
        var fUsingModified := mi == |order|;
        if mi < |order| && m != map[] {
          fUsingModified := *;
        }
        ghost var passed := mi;
        if fUsingModified {
          iter :| iter in m.Keys;
        } else {
          iter := order[mi];
          mi := mi + 1;
        }
        var tooLow, added;
        tooLow, added, m, refused := Consider(iter, fUsingModified, m, order, passed, refused);
        if tooLow {
          SelectionDone(m, order, passed, refused);
          stopped, at := true, iter;
          return;
        }
        if !added && fUsingModified {
          failedTx := failedTx + {iter};
        }
      }
      SelectionDone(m, order, mi, refused);
    }

    // ------------------------------------------------------------------ priority transactions

    method TestForBlock(t: Tx) returns (ok: bool)
      modifies `blockFinished, `lastFewTxs
      ensures ok <==> && nBlockWeight + pool.weight(t) < nBlockMaxWeight && nBlockSize + pool.serializedSize(t) < nBlockMaxSize
                      && nBlockSigOpsCost + pool.sigOpCost(t) < MAX_BLOCK_SIGOPS_COST && isFinal(t)
      ensures ok ==> blockFinished == old(blockFinished) && lastFewTxs == old(lastFewTxs)
      ensures blockFinished && !old(blockFinished) ==>
                || nBlockWeight > nBlockMaxWeight - 400 || nBlockSize > nBlockMaxSize - 100
                || nBlockSigOpsCost > MAX_BLOCK_SIGOPS_COST - 8 || lastFewTxs > 50
    {
      ok := false;
      if nBlockWeight + pool.weight(t) >= nBlockMaxWeight {
        if nBlockWeight > nBlockMaxWeight - 400 || lastFewTxs > 50 {
          blockFinished := true;
        } else if nBlockWeight > nBlockMaxWeight - 4000 {
          lastFewTxs := lastFewTxs + 1;
        }
        return;
      }
      if nBlockSize + pool.serializedSize(t) >= nBlockMaxSize {
        if nBlockSize > nBlockMaxSize - 100 || lastFewTxs > 50 {
          blockFinished := true;
        } else if nBlockSize > nBlockMaxSize - 1000 {
          lastFewTxs := lastFewTxs + 1;
        }
        return;
      }
      if nBlockSigOpsCost + pool.sigOpCost(t) >= MAX_BLOCK_SIGOPS_COST {
        if nBlockSigOpsCost > MAX_BLOCK_SIGOPS_COST - 8 {
          blockFinished := true;
        }
        return;
      }
      if !isFinal(t) {
        return;
      }
      ok := true;
    }

    lemma DoesNotFitAlone(t: Tx)
      requires Valid() && nBlockSize == 1000 + Sum(pool.serializedSize, inBlock)
      requires !(&& nBlockWeight + pool.weight(t) < nBlockMaxWeight && nBlockSize + pool.serializedSize(t) < nBlockMaxSize
                 && nBlockSigOpsCost + pool.sigOpCost(t) < MAX_BLOCK_SIGOPS_COST && isFinal(t))
      ensures !FitsAlone(pool, RulesOf(), Elements(vtx), t)
    {
      hide ValidPool;
      hide ValidOrder;
      hide Sum;
    }

    /** `all` is the mempool in any order, `allowFree` whether a transaction's priority
        is high enough to go on after it.  A transaction is at any time in the queue
        (once), or waiting for a parent, or in the block, or dropped; so the assert that
        no queued transaction is in the block holds.  Unless the loop is stopped, every
        transaction is in the block, not allowed in it, without a parent in it, or did
        not fit when it was tried. */
    method AddPriorityTxs(all: seq<Tx>, nBlockPrioritySize: nat, allowFree: Tx -> bool) returns (stopped: bool, ghost refused: map<Tx, nat>)
      requires Valid() && WithinLimits() && NoDuplicates(all) && Elements(all) == pool.txs && inBlock == {} && nBlockSize == 1000
      modifies this
      ensures Valid() && WithinLimits() && old(vtx) <= vtx && AllRefusedAlone(pool, RulesOf(), vtx, refused)
      ensures stopped ==> || nBlockPrioritySize == 0 || blockFinished
                          || (vtx != [] && (nBlockSize >= nBlockPrioritySize || !allowFree(vtx[|vtx| - 1])))
      ensures !stopped ==> forall t :: t in pool.txs ==>
                t in inBlock || !witnessAllowed(t) || MissingParent(pool, inBlock, t) || t in refused
    {
      hide ValidPool;
      hide ValidOrder;
      hide Sum;
      hide Phase;
      hide Elements;
      hide MissingParent;
      hide AllRefusedAlone;
      hide FitsAlone;
      hide NoDuplicates;
      stopped, refused := true, map[];
      NoneRefusedAlone(pool, RulesOf(), vtx);
      if nBlockPrioritySize == 0 {
        return;
      }
      var vecPriority, waitPriMap := all, {};
      PhaseStart(pool, RulesOf(), vtx, all, inBlock);
      SumOfNone(pool.serializedSize, inBlock);
      while vecPriority != [] && !blockFinished
        invariant Valid() && WithinLimits() && old(vtx) <= vtx && nBlockSize == 1000 + Sum(pool.serializedSize, inBlock)
        invariant Phase(pool, RulesOf(), vtx, vecPriority, waitPriMap, inBlock, refused)
        decreases pool.txs - inBlock, |vecPriority|
      {
        var k :| 0 <= k < |vecPriority|;
        var iter := vecPriority[k];
        ghost var vec := vecPriority;
        PhasePop(pool, RulesOf(), vtx, vec, waitPriMap, inBlock, refused, k);
        vecPriority := vecPriority[..k] + vecPriority[k + 1..];
        assert iter !in inBlock;
        if !witnessAllowed(iter) {
          continue;
        }
        if MissingParent(pool, inBlock, iter) {
          waitPriMap := waitPriMap + {iter};
          continue;
        }
        var ok := TestForBlock(iter);
        if ok {
          OrderIsClosed(pool, vtx);
          NoneMissing(pool, inBlock, iter);
          ParentsSuffice(pool, inBlock, iter);
          ghost var before, vtx0 := inBlock, vtx;
          SumAdd(pool.serializedSize, inBlock, iter);
          AddToBlock(iter, true);
          assert iter in pool.txs - before && pool.txs - inBlock == pool.txs - before - {iter};
          StillRefusedAlone(pool, RulesOf(), vtx0, vtx, refused);
          if nBlockSize >= nBlockPrioritySize || !allowFree(iter) {
            return;
          }
          var children := set c | c in waitPriMap && iter in pool.parents(c);
          vecPriority := PushAll(vecPriority, children);
          PhaseAdd(pool, RulesOf(), vtx0, vec, waitPriMap, before, refused, k, vecPriority, children);
          waitPriMap := waitPriMap - children;
        } else {
          DoesNotFitAlone(iter);
          refused := refused[iter := |vtx|];
        }
      }
      stopped := blockFinished;
      PhaseEnd(pool, RulesOf(), vtx, vecPriority, waitPriMap, inBlock, refused);
    }
  }

  /** CreateNewBlock: the finished block has every transaction at most once, after
      all its ancestors, and is within all limits.  Unless a package pays too little,
      every transaction (`byScore` is the mempool by ancestor score) is in it, or the
      rest of its package was not allowed or had no room when it was tried. */
  method CreateNewBlock(pool: Pool, r: Rules, all: seq<Tx>, byScore: seq<Tx>, nBlockPrioritySize: nat, allowFree: Tx -> bool)
    returns (vtx: seq<Tx>, nBlockWeight: nat, nBlockSigOpsCost: nat, stopped: bool, ghost at: Tx, ghost refused: map<Tx, nat>)
    requires ValidPool(pool) && 4000 <= r.maxWeight && 1000 <= r.maxSize
    requires NoDuplicates(all) && Elements(all) == pool.txs && forall t :: t in byScore ==> t in pool.txs
    ensures ValidOrder(pool, vtx) && forall t :: t in vtx ==> r.isFinal(t) && r.witnessAllowed(t)
    ensures nBlockWeight == 4000 + Sum(pool.weight, Elements(vtx)) <= r.maxWeight
    ensures nBlockSigOpsCost == 400 + Sum(pool.sigOpCost, Elements(vtx)) <= MAX_BLOCK_SIGOPS_COST
    ensures r.sizeAccounting ==> 1000 + Sum(pool.serializedSize, Elements(vtx)) <= r.maxSize
    ensures AllRefused(pool, r, vtx, refused) && (!stopped ==> forall t :: t in byScore ==> t in vtx || t in refused)
    ensures stopped ==> at in pool.txs && at !in vtx && (at in refused || FeeTooLow(pool, r, Elements(vtx), at))
  {
    hide ValidPool;
    hide ValidOrder;
    var b := new BlockAssembler(pool, r.maxWeight, r.maxSize, r.sizeAccounting, r.isFinal, r.witnessAllowed, r.minFee);
    assert b.RulesOf() == r;
    var finished, _ := b.AddPriorityTxs(all, nBlockPrioritySize, allowFree);
    stopped, at, refused := b.AddPackageTxs(byScore);
    assert forall t :: t in b.vtx <==> t in b.inBlock;
    vtx, nBlockWeight, nBlockSigOpsCost := b.vtx, b.nBlockWeight, b.nBlockSigOpsCost;
  }

  /** Erases the transactions just added from the modified set. */
  method EraseAll(mIn: ModifiedMap, sorted: seq<Tx>) returns (m: ModifiedMap)
    ensures m == mIn - Elements(sorted)
  {
    m := mIn;
    for i := 0 to |sorted|
      invariant m == mIn - Elements(sorted[..i])
    {
      assert sorted[..i + 1] == sorted[..i] + [sorted[i]];
      ElementsAppend(sorted[..i], sorted[i]);
      m := m - {sorted[i]};
    }
    assert sorted[..|sorted|] == sorted;
  }
}
