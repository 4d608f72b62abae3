/**
 The mempool as the block assembler sees it: a finite DAG of transactions with
 sizes, weights, sigop costs and fees, and totals over sets of transactions.
 */
module Mempool {
  import opened Sets

  type Tx = nat

  /** parents are the direct in-pool dependencies, ancestors all of them; the
      entries cache totals over a transaction and its ancestors. */
  datatype Pool = Pool(txs: set<Tx>, parents: Tx -> set<Tx>, ancestors: Tx -> set<Tx>,
                       size: Tx -> nat, weight: Tx -> nat, sigOpCost: Tx -> nat, serializedSize: Tx -> nat,
                       modFee: Tx -> int, sizeWithAncestors: Tx -> nat, sigOpCostWithAncestors: Tx -> nat,
                       countWithAncestors: Tx -> nat, modFeesWithAncestors: Tx -> int)

  const WITNESS_SCALE_FACTOR: nat := 4

  /** A transaction with everything it depends on. */
  function Package(pool: Pool, t: Tx): set<Tx> {
    pool.ancestors(t) + {t}
  }

  /** The links form a DAG, the ancestors are the closure of the parents, the
      cached totals are exact, and a transaction weighs at most four times its size. */
  ghost predicate ValidPool(pool: Pool) {
    forall t :: t in pool.txs ==> ValidTx(pool, t)
  }

  ghost predicate ValidTx(pool: Pool, t: Tx) {
    && pool.ancestors(t) <= pool.txs && t !in pool.ancestors(t)
    && pool.parents(t) <= pool.ancestors(t)
    && (forall a :: a in pool.ancestors(t) ==> pool.ancestors(a) <= pool.ancestors(t))
    && (forall a :: a in pool.ancestors(t) ==> a in pool.parents(t) || exists p :: p in pool.parents(t) && a in pool.ancestors(p))
    && pool.weight(t) <= WITNESS_SCALE_FACTOR * pool.size(t)
    && pool.sizeWithAncestors(t) == Sum(pool.size, Package(pool, t))
    && pool.sigOpCostWithAncestors(t) == Sum(pool.sigOpCost, Package(pool, t))
    && pool.countWithAncestors(t) == |Package(pool, t)|
    && pool.modFeesWithAncestors(t) == Fees(pool.modFee, Package(pool, t))
  }

  /** The closure at one transaction. */
  lemma AncestorsOf(pool: Pool, t: Tx)
    requires ValidPool(pool) && t in pool.txs
    ensures pool.ancestors(t) <= pool.txs && t !in pool.ancestors(t) && pool.parents(t) <= pool.ancestors(t)
    ensures forall a :: a in pool.ancestors(t) ==> pool.ancestors(a) <= pool.ancestors(t)
  {
    assert ValidTx(pool, t);
  }

  lemma TotalsOf(pool: Pool, t: Tx)
    requires ValidPool(pool) && t in pool.txs
    ensures pool.weight(t) <= WITNESS_SCALE_FACTOR * pool.size(t)
    ensures pool.sizeWithAncestors(t) == Sum(pool.size, Package(pool, t))
    ensures pool.sigOpCostWithAncestors(t) == Sum(pool.sigOpCost, Package(pool, t))
    ensures pool.countWithAncestors(t) == |Package(pool, t)|
    ensures pool.modFeesWithAncestors(t) == Fees(pool.modFee, Package(pool, t))
  {
    assert ValidTx(pool, t);
  }

  /** If all parents are in a closed set, so are all ancestors. */
  lemma ParentsSuffice(pool: Pool, s: set<Tx>, t: Tx)
    requires ValidPool(pool) && t in pool.txs && Closed(pool, s) && pool.parents(t) <= s
    ensures pool.ancestors(t) <= s
  {
    assert ValidTx(pool, t);
    forall a | a in pool.ancestors(t) ensures a in s {
      if a !in pool.parents(t) {
        var p :| p in pool.parents(t) && a in pool.ancestors(p);
        assert pool.ancestors(p) <= s;
      }
    }
  }

  function Descendants(pool: Pool, t: Tx): set<Tx> {
    set d | d in pool.txs && t in Package(pool, d)
  }

  /** Everything a transaction in s depends on is in s too. */
  ghost predicate Closed(pool: Pool, s: set<Tx>) {
    s <= pool.txs && forall t :: t in s ==> pool.ancestors(t) <= s
  }

  lemma PackageIsClosed(pool: Pool, s: set<Tx>, t: Tx)
    requires ValidPool(pool) && Closed(pool, s) && t in pool.txs
    ensures Closed(pool, s + Package(pool, t))
  {
    hide ValidPool;
    AncestorsOf(pool, t);
  }

  // ---------------------------------------------------------------------- totals

  ghost function Sum(f: Tx -> nat, s: set<Tx>): nat {
    if s == {} then 0
    else
      var x :| x in s;
      f(x) + Sum(f, s - {x})
  }

  lemma {:induction false} SumTake(f: Tx -> nat, s: set<Tx>, x: Tx)
    requires x in s
    ensures Sum(f, s) == f(x) + Sum(f, s - {x})
  {
    var y :| y in s && Sum(f, s) == f(y) + Sum(f, s - {y});
    if x != y {
      SumTake(f, s - {y}, x);
      SumTake(f, s - {x}, y);
      assert s - {y} - {x} == s - {x} - {y};
    }
  }

  /** Fees may have been lowered below zero by hand. */
  ghost function Fees(f: Tx -> int, s: set<Tx>): int {
    if s == {} then 0
    else
      var x :| x in s;
      f(x) + Fees(f, s - {x})
  }

  lemma {:induction false} FeesTake(f: Tx -> int, s: set<Tx>, x: Tx)
    requires x in s
    ensures Fees(f, s) == f(x) + Fees(f, s - {x})
  {
    var y :| y in s && Fees(f, s) == f(y) + Fees(f, s - {y});
    if x != y {
      FeesTake(f, s - {y}, x);
      FeesTake(f, s - {x}, y);
      assert s - {y} - {x} == s - {x} - {y};
    }
  }

  lemma SumAdd(f: Tx -> nat, s: set<Tx>, x: Tx)
    requires x !in s
    ensures Sum(f, s + {x}) == Sum(f, s) + f(x)
  {
    SumTake(f, s + {x}, x);
    assert s + {x} - {x} == s;
  }

  lemma {:induction false} SumMonotone(f: Tx -> nat, s: set<Tx>, t: set<Tx>)
    requires s <= t
    ensures Sum(f, s) <= Sum(f, t)
  {
    if t - s == {} {
      forall x | x in t ensures x in s {
        assert x !in t - s;
      }
      assert s == t;
    } else {
      var x :| x in t - s;
      SumTake(f, t, x);
      SumMonotone(f, s, t - {x});
    }
  }

  lemma {:induction false} SumUnion(f: Tx -> nat, s: set<Tx>, t: set<Tx>)
    requires s !! t
    ensures Sum(f, s + t) == Sum(f, s) + Sum(f, t)
  {
    if t == {} {
      assert s + t == s;
    } else {
      var x :| x in t;
      SumTake(f, t, x);
      SumTake(f, s + t, x);
      assert s + t - {x} == s + (t - {x});
      SumUnion(f, s, t - {x});
    }
  }

  lemma {:induction false} SumScaled(pool: Pool, s: set<Tx>)
    requires ValidPool(pool) && s <= pool.txs
    ensures Sum(pool.weight, s) <= WITNESS_SCALE_FACTOR * Sum(pool.size, s)
  {
    hide ValidPool;
    if s != {} {
      var x :| x in s;
      TotalsOf(pool, x);
      SumTake(pool.weight, s, x);
      SumTake(pool.size, s, x);
      SumScaled(pool, s - {x});
    }
  }

  /** An ancestor has fewer ancestors. */
  lemma FewerAncestors(pool: Pool, a: Tx, t: Tx)
    requires ValidPool(pool) && t in pool.txs && a in pool.ancestors(t)
    ensures pool.countWithAncestors(a) < pool.countWithAncestors(t)
  {
    hide ValidPool;
    AncestorsOf(pool, t);
    TotalsOf(pool, t);
    TotalsOf(pool, a);
    assert Package(pool, a) <= pool.ancestors(t);
    SubsetSize(Package(pool, a), pool.ancestors(t));
  }
}
