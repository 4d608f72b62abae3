/**
 The block index: a tree of blocks linked to their predecessors, with a skip pointer
 per block that lets GetAncestor take long steps.  Blocks are numbered in the order in
 which they were added; -1 is the null pointer.
 */
module BlockTree {

  type Ptr = int
  const NULL: Ptr := -1

  datatype Block = Block(pprev: Ptr, pskip: Ptr, nHeight: nat)

  /** Turn the lowest 1 bit into a 0. */
  function InvertLowestOne(n: nat): (r: nat)
    ensures n > 0 ==> r < n
  {
    if n == 0 then 0 else if n % 2 == 1 then n - 1 else 2 * InvertLowestOne(n / 2)
  }

  /** Bit k of a number. */
  predicate Bit(n: nat, k: nat) {
    if k == 0 then n % 2 == 1 else Bit(n / 2, k - 1)
  }

  /** Bitwise and of natural numbers. */
  function And(x: nat, y: nat): nat {
    if x == 0 || y == 0 then 0
    else 2 * And(x / 2, y / 2) + (if x % 2 == 1 && y % 2 == 1 then 1 else 0)
  }

  lemma {:induction false} AndIsBitwise(x: nat, y: nat, k: nat)
    ensures Bit(And(x, y), k) <==> Bit(x, k) && Bit(y, k)
    decreases k
  {
    if x == 0 || y == 0 {
      NoBits(k);
    } else if k > 0 {
      assert And(x, y) / 2 == And(x / 2, y / 2);
      AndIsBitwise(x / 2, y / 2, k - 1);
    }
  }

  lemma {:induction false} NoBits(k: nat)
    ensures !Bit(0, k)
  {
    if k > 0 {
      NoBits(k - 1);
    }
  }

  lemma {:induction false} AndSelf(n: nat)
    ensures And(n, n) == n
  {
    if n > 0 {
      AndSelf(n / 2);
    }
  }

  /** The recursion computes n & (n - 1). */
  lemma {:induction false} InvertIsAnd(n: nat)
    requires n > 0
    ensures InvertLowestOne(n) == And(n, n - 1)
  {
    if n % 2 == 1 {
      assert (n - 1) / 2 == n / 2 && (n - 1) % 2 == 0;
      AndSelf(n / 2);
    } else {
      assert (n - 1) / 2 == n / 2 - 1 && n % 2 == 0;
      InvertIsAnd(n / 2);
    }
  }

  function GetSkipHeight(height: int): (h: nat)
    ensures height > 0 ==> h < height
  {
    if height < 2 then 0
    else if height % 2 == 1 then InvertLowestOne(InvertLowestOne(height - 1)) + 1
    else InvertLowestOne(height)
  }

  predicate IsBlock(nodes: seq<Block>, p: Ptr) {
    0 <= p < |nodes|
  }

  /** Links go to earlier blocks and heights count them. */
  ghost predicate Linked(nodes: seq<Block>) {
    forall p :: 0 <= p < |nodes| ==> LinkOk(nodes, p)
  }

  predicate LinkOk(nodes: seq<Block>, p: Ptr)
    requires IsBlock(nodes, p)
  {
    if nodes[p].pprev == NULL then nodes[p].nHeight == 0
    else 0 <= nodes[p].pprev < p && nodes[p].nHeight == nodes[nodes[p].pprev].nHeight + 1
  }

  /** The plain walk over pprev. */
  ghost function Ancestor(nodes: seq<Block>, p: Ptr, height: nat): (q: Ptr)
    requires Linked(nodes) && IsBlock(nodes, p) && height <= nodes[p].nHeight
    ensures IsBlock(nodes, q) && nodes[q].nHeight == height && q <= p
    decreases p
  {
    assert LinkOk(nodes, p);
    if nodes[p].nHeight == height then p else Ancestor(nodes, nodes[p].pprev, height)
  }

  lemma {:induction false} AncestorOfAncestor(nodes: seq<Block>, p: Ptr, mid: nat, height: nat)
    requires Linked(nodes) && IsBlock(nodes, p) && height <= mid <= nodes[p].nHeight
    ensures Ancestor(nodes, Ancestor(nodes, p, mid), height) == Ancestor(nodes, p, height)
    decreases p
  {
    assert LinkOk(nodes, p);
    if nodes[p].nHeight != mid {
      AncestorOfAncestor(nodes, nodes[p].pprev, mid, height);
    }
  }

  /** Every skip pointer leads to the ancestor at the skip height. */
  ghost predicate SkipsOk(nodes: seq<Block>)
    requires Linked(nodes)
  {
    forall p :: 0 <= p < |nodes| ==> SkipOk(nodes, p)
  }

  ghost predicate SkipOk(nodes: seq<Block>, p: Ptr)
    requires Linked(nodes) && IsBlock(nodes, p)
  {
    if nodes[p].pprev == NULL then nodes[p].pskip == NULL
    else nodes[p].pskip == Ancestor(nodes, p, GetSkipHeight(nodes[p].nHeight))
  }

  ghost predicate ValidTree(nodes: seq<Block>) {
    Linked(nodes) && SkipsOk(nodes)
  }

  /** GetAncestor, by skip pointers: the same block as the plain walk, or null if
      there is no such height. */
  method GetAncestor(nodes: seq<Block>, p: Ptr, height: int) returns (q: Ptr)
    requires ValidTree(nodes) && IsBlock(nodes, p)
    ensures height > nodes[p].nHeight || height < 0 ==> q == NULL
    ensures 0 <= height <= nodes[p].nHeight ==> q == Ancestor(nodes, p, height)
  {
    if height > nodes[p].nHeight || height < 0 {
      return NULL;
    }
    var pindexWalk, heightWalk := p, nodes[p].nHeight;
    while heightWalk > height
      invariant IsBlock(nodes, pindexWalk) && nodes[pindexWalk].nHeight == heightWalk && height <= heightWalk
      invariant Ancestor(nodes, pindexWalk, height) == Ancestor(nodes, p, height)
    {
      assert LinkOk(nodes, pindexWalk) && SkipOk(nodes, pindexWalk);
      var heightSkip := GetSkipHeight(heightWalk);
      var heightSkipPrev := GetSkipHeight(heightWalk - 1);
      if nodes[pindexWalk].pskip != NULL &&
         (heightSkip == height || (heightSkip > height && !(heightSkipPrev < heightSkip - 2 && heightSkipPrev >= height))) {
        AncestorOfAncestor(nodes, pindexWalk, heightSkip, height);
        pindexWalk := nodes[pindexWalk].pskip;
        heightWalk := heightSkip;
      } else {
        assert nodes[pindexWalk].pprev != NULL;
        pindexWalk := nodes[pindexWalk].pprev;
        heightWalk := heightWalk - 1;
      }
    }
    q := pindexWalk;
  }

  // ---------------------------------------------------------------- growing the tree

  lemma {:induction false} AncestorFrame(nodes: seq<Block>, b: Block, p: Ptr, height: nat)
    requires Linked(nodes) && Linked(nodes + [b]) && IsBlock(nodes, p) && height <= nodes[p].nHeight
    ensures Ancestor(nodes + [b], p, height) == Ancestor(nodes, p, height)
    decreases p
  {
    assert LinkOk(nodes, p);
    if nodes[p].nHeight != height {
      AncestorFrame(nodes, b, nodes[p].pprev, height);
    }
  }

  class CBlockTree {
    var nodes: seq<Block>

    ghost predicate Valid()
      reads this
    {
      ValidTree(nodes)
    }

    constructor ()
      ensures Valid() && nodes == []
    {
      nodes := [];
    }

    /** A new block on top of pprev (null for a genesis block), with BuildSkip. */
    method AddBlock(pprev: Ptr) returns (p: Ptr)
      requires Valid() && (pprev == NULL || IsBlock(nodes, pprev))
      modifies this
      ensures Valid() && p == |old(nodes)| && old(nodes) < nodes && |nodes| == p + 1
      ensures nodes[p].pprev == pprev
    {
      p := |nodes|;
      var nHeight := if pprev == NULL then 0 else nodes[pprev].nHeight + 1;
      var pskip := NULL;
      if pprev != NULL {
        pskip := GetAncestor(nodes, pprev, GetSkipHeight(nHeight));
      }
      var b := Block(pprev, pskip, nHeight);
      ghost var was := nodes;
      nodes := nodes + [b];
      forall q | 0 <= q < |nodes| ensures LinkOk(nodes, q) {
        assert q < p ==> LinkOk(was, q);
      }
      forall q | 0 <= q < |nodes| ensures SkipOk(nodes, q) {
        if q < p {
          assert SkipOk(was, q) && LinkOk(was, q);
          AncestorFrame(was, b, q, GetSkipHeight(nodes[q].nHeight));
        } else if pprev != NULL {
          AncestorFrame(was, b, pprev, GetSkipHeight(nHeight));
        }
      }
    }
  }
}
