/**
 The order of transactions in a block, and sorting a package into it.
 */
module BlockOrder {
  import opened Sets
  import opened Mempool

  // ----------------------------------------------------------------- the sorted package

  function Elements(s: seq<Tx>): set<Tx> {
    set t | t in s
  }

  lemma ElementsAppend(s: seq<Tx>, t: Tx)
    ensures Elements(s + [t]) == Elements(s) + {t}
  {
  }

  ghost predicate SortedByCount(pool: Pool, s: seq<Tx>) {
    forall i, j :: 0 <= i < j < |s| ==> s[i] != s[j] && pool.countWithAncestors(s[i]) <= pool.countWithAncestors(s[j])
  }

  /** SortForBlock: the package in order of ancestor count (ties in any order). */
  method SortForBlock(pool: Pool, package: set<Tx>) returns (sorted: seq<Tx>)
    ensures Elements(sorted) == package && SortedByCount(pool, sorted)
  {
    sorted := [];
    var rest := package;
    while rest != {}
      invariant rest <= package && Elements(sorted) == package - rest && SortedByCount(pool, sorted)
      invariant forall i, r :: 0 <= i < |sorted| && r in rest ==> pool.countWithAncestors(sorted[i]) <= pool.countWithAncestors(r)
      decreases rest
    {
      var t := LeastCount(pool, rest);
      assert t !in Elements(sorted);
      ElementsAppend(sorted, t);
      sorted := sorted + [t];
      rest := rest - {t};
    }
  }

  method LeastCount(pool: Pool, s: set<Tx>) returns (t: Tx)
    requires s != {}
    ensures t in s && forall r :: r in s ==> pool.countWithAncestors(t) <= pool.countWithAncestors(r)
  {
    t :| t in s;
    var rest := s - {t};
    while rest != {}
      invariant t in s && rest <= s
      invariant forall r :: r in s && r !in rest ==> pool.countWithAncestors(t) <= pool.countWithAncestors(r)
      decreases rest
    {
      var r :| r in rest;
      if pool.countWithAncestors(r) < pool.countWithAncestors(t) {
        t := r;
      }
      rest := rest - {r};
    }
  }

  // -------------------------------------------------------------------------- the block

  /** No transaction twice, and everything a transaction depends on stands before it. */
  ghost predicate ValidOrder(pool: Pool, vtx: seq<Tx>) {
    forall i :: 0 <= i < |vtx| ==> vtx[i] in pool.txs && pool.ancestors(vtx[i]) <= Elements(vtx[..i]) && vtx[i] !in vtx[..i]
  }

  /** In particular, a parent stands at a smaller index than its child. */
  lemma ParentsFirst(pool: Pool, vtx: seq<Tx>, i: nat, p: Tx)
    requires ValidPool(pool) && ValidOrder(pool, vtx) && i < |vtx| && p in pool.parents(vtx[i])
    ensures exists k :: 0 <= k < i && vtx[k] == p
  {
    hide ValidPool;
    AncestorsOf(pool, vtx[i]);
    assert p in Elements(vtx[..i]);
    var k :| 0 <= k < |vtx[..i]| && vtx[..i][k] == p;
    assert vtx[k] == p;
  }

  lemma OrderIsClosed(pool: Pool, vtx: seq<Tx>)
    requires ValidOrder(pool, vtx)
    ensures Closed(pool, Elements(vtx))
  {
    forall t | t in Elements(vtx) ensures t in pool.txs && pool.ancestors(t) <= Elements(vtx) {
      var i :| 0 <= i < |vtx| && vtx[i] == t;
      assert Elements(vtx[..i]) <= Elements(vtx);
    }
  }

  lemma OrderAppend(pool: Pool, vtx: seq<Tx>, t: Tx)
    requires ValidOrder(pool, vtx) && t in pool.txs && t !in vtx && pool.ancestors(t) <= Elements(vtx)
    ensures ValidOrder(pool, vtx + [t]) && Elements(vtx + [t]) == Elements(vtx) + {t}
  {
    var v := vtx + [t];
    forall i | 0 <= i < |v| ensures v[i] in pool.txs && pool.ancestors(v[i]) <= Elements(v[..i]) && v[i] !in v[..i] {
      if i < |vtx| {
        assert v[..i] == vtx[..i];
      } else {
        assert v[..i] == vtx;
      }
    }
  }

  /** When a sorted package is appended, each transaction finds its ancestors
      already in the block. */
  lemma SortedPackageIsReady(pool: Pool, vtx: seq<Tx>, package: set<Tx>, sorted: seq<Tx>, i: nat)
    requires ValidPool(pool) && package <= pool.txs && package !! Elements(vtx) && Closed(pool, Elements(vtx) + package)
    requires Elements(sorted) == package && SortedByCount(pool, sorted) && i < |sorted|
    ensures sorted[i] in pool.txs && pool.ancestors(sorted[i]) <= Elements(vtx) + Elements(sorted[..i])
    ensures sorted[i] !in vtx && sorted[i] !in sorted[..i]
  {
    hide ValidPool;
    var t := sorted[i];
    assert t in package;
    forall a | a in pool.ancestors(t) ensures a in Elements(vtx) + Elements(sorted[..i]) {
      if a !in Elements(vtx) {
        assert a in Elements(sorted);
        var k :| 0 <= k < |sorted| && sorted[k] == a;
        FewerAncestors(pool, a, t);
        assert k < i;
        assert sorted[..i][k] == a;
      }
    }
    assert t !in Elements(vtx);
  }

  lemma PrefixStart(inBlock: set<Tx>, vtx: seq<Tx>, sorted: seq<Tx>)
    ensures vtx + sorted[..0] == vtx && inBlock + Elements(sorted[..0]) == inBlock
  {
  }

  /** The next transaction of a package: what AddToBlock asks for. */
  lemma NextOfPackage(inBlock: set<Tx>, vtx: seq<Tx>, sorted: seq<Tx>, i: nat)
    requires i < |sorted| && sorted[i] !in vtx && sorted[i] !in sorted[..i] && inBlock == Elements(vtx)
    ensures sorted[i] !in inBlock + Elements(sorted[..i]) && sorted[i] in Elements(sorted)
    ensures vtx + sorted[..i] + [sorted[i]] == vtx + sorted[..i + 1]
    ensures inBlock + Elements(sorted[..i]) + {sorted[i]} == inBlock + Elements(sorted[..i + 1])
  {
    assert sorted[..i + 1] == sorted[..i] + [sorted[i]];
    ElementsAppend(sorted[..i], sorted[i]);
  }

  ghost predicate NoDuplicates(s: seq<Tx>) {
    forall i, j :: 0 <= i < j < |s| ==> s[i] != s[j]
  }

  lemma RemoveAt(s: seq<Tx>, k: nat)
    requires NoDuplicates(s) && k < |s|
    ensures var r := s[..k] + s[k + 1..]; NoDuplicates(r) && Elements(r) == Elements(s) - {s[k]}
  {
    var r := s[..k] + s[k + 1..];
    forall t ensures t in r <==> t in s && t != s[k] {
      if t in s && t != s[k] {
        var i :| 0 <= i < |s| && s[i] == t;
        assert r[if i < k then i else i - 1] == t;
      }
    }
  }

  lemma EmptyIsClosed(pool: Pool, s: set<Tx>)
    ensures Closed(pool, s - s)
  {
    assert s - s == {};
  }

  lemma InElements(vec: seq<Tx>, k: nat)
    requires k < |vec|
    ensures vec[k] in Elements(vec)
  {
  }

  /** How many transactions are not in the block. */
  function Left(txs: set<Tx>, inBlock: set<Tx>): nat {
    |txs - inBlock|
  }

  lemma FewerLeft(txs: set<Tx>, before: set<Tx>, inBlock: set<Tx>, t: Tx)
    requires before <= inBlock && t in txs && t !in before && t in inBlock
    ensures Left(txs, inBlock) < Left(txs, before)
  {
    assert t in txs - before && txs - inBlock <= txs - before - {t};
    SubsetSize(txs - inBlock, txs - before - {t});
  }
}
