/**
 Which transactions get into a block by priority, and why others do not.
 */
module PriorityPhase {
  import opened Mempool
  import opened BlockOrder
  import opened BlockSelection

  /** Every transaction is in the queue (once), or waiting, or in the block, or none. */
  ghost predicate Queue(pool: Pool, vec: seq<Tx>, wait: set<Tx>, inBlock: set<Tx>) {
    && NoDuplicates(vec) && wait <= pool.txs && Elements(vec) <= pool.txs
    && Elements(vec) !! wait && Elements(vec) !! inBlock && wait !! inBlock
  }

  /** Taking a transaction out; it may then wait, or enter the block. */
  lemma QueuePop(pool: Pool, vec: seq<Tx>, wait: set<Tx>, inBlock: set<Tx>, k: nat)
    requires Queue(pool, vec, wait, inBlock) && k < |vec|
    ensures vec[k] in pool.txs && vec[k] !in inBlock
    ensures var rest := vec[..k] + vec[k + 1..];
            Queue(pool, rest, wait, inBlock) && Queue(pool, rest, wait + {vec[k]}, inBlock) && Queue(pool, rest, wait, inBlock + {vec[k]})
  {
    RemoveAt(vec, k);
    assert vec[k] in Elements(vec);
  }

  method PushAll(vec: seq<Tx>, children: set<Tx>) returns (r: seq<Tx>)
    requires NoDuplicates(vec) && Elements(vec) !! children
    ensures NoDuplicates(r) && Elements(r) == Elements(vec) + children
  {
    r := vec;
    var rest := children;
    while rest != {}
      invariant rest <= children && NoDuplicates(r) && Elements(r) == Elements(vec) + (children - rest)
      decreases rest
    {
      var c :| c in rest;
      assert c !in Elements(r);
      ElementsAppend(r, c);
      r := r + [c];
      rest := rest - {c};
    }
  }

  // -------------------------------------------------------------- reasons, one by one

  ghost predicate FitsAlone(pool: Pool, r: Rules, block: set<Tx>, t: Tx) {
    && 4000 + Sum(pool.weight, block) + pool.weight(t) < r.maxWeight
    && 1000 + Sum(pool.serializedSize, block) + pool.serializedSize(t) < r.maxSize
    && 400 + Sum(pool.sigOpCost, block) + pool.sigOpCost(t) < MAX_BLOCK_SIGOPS_COST && r.isFinal(t)
  }

  ghost predicate RefusedAlone(pool: Pool, r: Rules, vtx: seq<Tx>, n: nat, t: Tx) {
    n <= |vtx| && !FitsAlone(pool, r, Elements(vtx[..n]), t)
  }

  ghost predicate AllRefusedAlone(pool: Pool, r: Rules, vtx: seq<Tx>, refused: map<Tx, nat>) {
    forall t :: t in refused ==> RefusedAlone(pool, r, vtx, refused[t], t)
  }

  lemma NoneRefusedAlone(pool: Pool, r: Rules, vtx: seq<Tx>)
    ensures AllRefusedAlone(pool, r, vtx, map[])
  {
  }

  lemma StillRefusedAlone(pool: Pool, r: Rules, vtx: seq<Tx>, vtx': seq<Tx>, refused: map<Tx, nat>)
    requires AllRefusedAlone(pool, r, vtx, refused) && vtx <= vtx'
    ensures AllRefusedAlone(pool, r, vtx', refused)
  {
    forall t | t in refused ensures RefusedAlone(pool, r, vtx', refused[t], t) {
      assert vtx'[..refused[t]] == vtx[..refused[t]];
    }
  }

  lemma OneMoreRefusedAlone(pool: Pool, r: Rules, vtx: seq<Tx>, refused: map<Tx, nat>, t: Tx)
    requires AllRefusedAlone(pool, r, vtx, refused) && !FitsAlone(pool, r, Elements(vtx), t)
    ensures AllRefusedAlone(pool, r, vtx, refused[t := |vtx|])
  {
    assert vtx[..|vtx|] == vtx;
  }

  lemma SumOfNone(f: Tx -> nat, s: set<Tx>)
    requires s == {}
    ensures Sum(f, s) == 0
  {
  }

  /** isStillDependent. */
  predicate MissingParent(pool: Pool, inBlock: set<Tx>, t: Tx) {
    exists p :: p in pool.parents(t) && p !in inBlock
  }

  lemma NoneMissing(pool: Pool, inBlock: set<Tx>, t: Tx)
    requires !MissingParent(pool, inBlock, t)
    ensures pool.parents(t) <= inBlock
  {
  }

  /** Where every transaction is during the priority phase. */
  ghost predicate Located(pool: Pool, r: Rules, vec: set<Tx>, wait: set<Tx>, inBlock: set<Tx>, refused: map<Tx, nat>) {
    && (forall t :: t in pool.txs ==> t in inBlock || t in vec || t in wait || !r.witnessAllowed(t) || t in refused)
    && (forall t :: t in wait ==> MissingParent(pool, inBlock, t))
  }

  /** The state of the priority phase. */
  ghost predicate Phase(pool: Pool, r: Rules, vtx: seq<Tx>, vec: seq<Tx>, wait: set<Tx>, inBlock: set<Tx>, refused: map<Tx, nat>) {
    Queue(pool, vec, wait, inBlock) && Located(pool, r, Elements(vec), wait, inBlock, refused) && AllRefusedAlone(pool, r, vtx, refused)
  }

  lemma PhaseStart(pool: Pool, r: Rules, vtx: seq<Tx>, all: seq<Tx>, inBlock: set<Tx>)
    requires NoDuplicates(all) && Elements(all) == pool.txs && inBlock == {}
    ensures Phase(pool, r, vtx, all, {}, inBlock, map[])
  {
  }

  /** Taking a transaction out, if it is not to enter the block: it is not allowed, waits
      or is refused. */
  lemma PhasePop(pool: Pool, r: Rules, vtx: seq<Tx>, vec: seq<Tx>, wait: set<Tx>, inBlock: set<Tx>, refused: map<Tx, nat>, k: nat)
    requires k < |vec| && Phase(pool, r, vtx, vec, wait, inBlock, refused)
    ensures vec[k] in pool.txs && vec[k] !in inBlock && AllRefusedAlone(pool, r, vtx, refused)
    ensures var rest, t := vec[..k] + vec[k + 1..], vec[k];
            && NoDuplicates(rest) && Elements(rest) !! wait
            && (!r.witnessAllowed(t) ==> Phase(pool, r, vtx, rest, wait, inBlock, refused))
            && (MissingParent(pool, inBlock, t) ==> Phase(pool, r, vtx, rest, wait + {t}, inBlock, refused))
            && (!FitsAlone(pool, r, Elements(vtx), t) ==> Phase(pool, r, vtx, rest, wait, inBlock, refused[t := |vtx|]))
  {
    hide AllRefusedAlone;
    hide FitsAlone;
    var t := vec[k];
    QueuePop(pool, vec, wait, inBlock, k);
    RemoveAt(vec, k);
    if !FitsAlone(pool, r, Elements(vtx), t) {
      OneMoreRefusedAlone(pool, r, vtx, refused, t);
    }
  }

  /** It enters the block: those that waited for it are queued again. */
  lemma PhaseAdd(pool: Pool, r: Rules, vtx: seq<Tx>, vec: seq<Tx>, wait: set<Tx>, inBlock: set<Tx>, refused: map<Tx, nat>, k: nat, vec': seq<Tx>, children: set<Tx>)
    requires k < |vec| && Phase(pool, r, vtx, vec, wait, inBlock, refused)
    requires children == set c | c in wait && vec[k] in pool.parents(c)
    requires NoDuplicates(vec') && Elements(vec') == Elements(vec[..k] + vec[k + 1..]) + children
    ensures Phase(pool, r, vtx + [vec[k]], vec', wait - children, inBlock + {vec[k]}, refused)
  {
    hide AllRefusedAlone;
    hide Elements;
    hide NoDuplicates;
    var t := vec[k];
    RemoveAt(vec, k);
    StillRefusedAlone(pool, r, vtx, vtx + [t], refused);
    InElements(vec, k);
    forall x | x in wait - children ensures MissingParent(pool, inBlock + {t}, x) {
      var p :| p in pool.parents(x) && p !in inBlock;
      assert p !in inBlock + {t};
    }
  }

  lemma PhaseEnd(pool: Pool, r: Rules, vtx: seq<Tx>, vec: seq<Tx>, wait: set<Tx>, inBlock: set<Tx>, refused: map<Tx, nat>)
    requires Phase(pool, r, vtx, vec, wait, inBlock, refused)
    ensures AllRefusedAlone(pool, r, vtx, refused)
    ensures vec == [] ==> forall t :: t in pool.txs ==> t in inBlock || !r.witnessAllowed(t) || MissingParent(pool, inBlock, t) || t in refused
  {
  }
}
