/**
 The active chain: a vector indexed by height over the block tree.
 */
module ActiveChain {
  import opened Radix
  import opened BlockTree

  /** vChain is the path from a genesis block to its last entry. */
  ghost predicate IsPath(nodes: seq<Block>, vChain: seq<Ptr>)
    requires Linked(nodes)
  {
    vChain != [] ==>
      var tip := vChain[|vChain| - 1];
      && IsBlock(nodes, tip) && nodes[tip].nHeight == |vChain| - 1
      && forall h :: 0 <= h < |vChain| ==> vChain[h] == Ancestor(nodes, tip, h)
  }

  /** A block on the path has its own ancestors on the path. */
  lemma PathBelow(nodes: seq<Block>, vChain: seq<Ptr>, p: Ptr, h: nat)
    requires Linked(nodes) && IsPath(nodes, vChain) && IsBlock(nodes, p) && h <= nodes[p].nHeight < |vChain|
    requires vChain[nodes[p].nHeight] == p
    ensures vChain[h] == Ancestor(nodes, p, h)
  {
    AncestorOfAncestor(nodes, vChain[|vChain| - 1], nodes[p].nHeight, h);
  }

  function At(vChain: seq<Ptr>, nHeight: int): Ptr {
    if nHeight < 0 || nHeight >= |vChain| then NULL else vChain[nHeight]
  }

  function Contains(nodes: seq<Block>, vChain: seq<Ptr>, p: Ptr): bool
    requires IsBlock(nodes, p)
  {
    At(vChain, nodes[p].nHeight) == p
  }

  /** p is q or one of its ancestors. */
  ghost predicate IsAncestor(nodes: seq<Block>, p: Ptr, q: Ptr)
    requires Linked(nodes) && IsBlock(nodes, q)
  {
    IsBlock(nodes, p) && nodes[p].nHeight <= nodes[q].nHeight && Ancestor(nodes, q, nodes[p].nHeight) == p
  }

  class CChain {
    var vChain: seq<Ptr>

    constructor ()
      ensures vChain == []
    {
      vChain := [];
    }

    /** SetTip stops at the first height that is already right; the whole path is
        right afterwards all the same. */
    method SetTip(nodes: seq<Block>, pindex: Ptr)
      requires ValidTree(nodes) && IsPath(nodes, vChain) && (pindex == NULL || IsBlock(nodes, pindex))
      modifies this
      ensures IsPath(nodes, vChain)
      ensures if pindex == NULL then vChain == [] else |vChain| == nodes[pindex].nHeight + 1 && vChain[|vChain| - 1] == pindex
    {
      hide SkipsOk;
      if pindex == NULL {
        vChain := [];
        return;
      }
      ghost var was := vChain;
      var n := nodes[pindex].nHeight + 1;
      vChain := if n <= |vChain| then vChain[..n] else vChain + seq(n - |vChain|, _ => NULL);
      ghost var resized := vChain;
      var p := pindex;
      while p != NULL && vChain[nodes[p].nHeight] != p
        invariant p != NULL ==> IsBlock(nodes, p) && IsAncestor(nodes, p, pindex)
        invariant |vChain| == n
        invariant forall h :: 0 <= h < n && (p == NULL || h > nodes[p].nHeight) ==> vChain[h] == Ancestor(nodes, pindex, h)
        invariant p != NULL ==> forall h :: 0 <= h <= nodes[p].nHeight ==> vChain[h] == resized[h]
        decreases p
      {
        assert LinkOk(nodes, p);
        var h := nodes[p].nHeight;
        vChain := vChain[h := p];
        if nodes[p].pprev != NULL {
          AncestorOfAncestor(nodes, pindex, h, h - 1);
        }
        p := nodes[p].pprev;
      }
      if p != NULL {
        forall h | 0 <= h <= nodes[p].nHeight ensures vChain[h] == Ancestor(nodes, pindex, h) {
          PathBelow(nodes, was, p, h);
          AncestorOfAncestor(nodes, pindex, nodes[p].nHeight, h);
        }
      }
    }

    /** FindFork: the highest block that the chain and the branch of pindex share. */
    method FindFork(nodes: seq<Block>, pindex: Ptr) returns (fork: Ptr)
      requires ValidTree(nodes) && IsPath(nodes, vChain) && (pindex == NULL || IsBlock(nodes, pindex))
      ensures pindex == NULL ==> fork == NULL
      ensures pindex != NULL && fork != NULL ==> IsAncestor(nodes, fork, pindex) && Contains(nodes, vChain, fork)
      ensures pindex != NULL ==> forall c :: IsBlock(nodes, c) && IsAncestor(nodes, c, pindex) && Contains(nodes, vChain, c) ==>
                fork != NULL && nodes[c].nHeight <= nodes[fork].nHeight
    {
      hide SkipsOk;
      if pindex == NULL {
        return NULL;
      }
      fork := pindex;
      if nodes[fork].nHeight > |vChain| - 1 {
        fork := GetAncestor(nodes, fork, |vChain| - 1);
      }
      while fork != NULL && !Contains(nodes, vChain, fork)
        invariant fork != NULL ==> IsBlock(nodes, fork) && IsAncestor(nodes, fork, pindex)
        invariant forall c :: IsBlock(nodes, c) && IsAncestor(nodes, c, pindex) && Contains(nodes, vChain, c) ==>
                    fork != NULL && nodes[c].nHeight <= nodes[fork].nHeight
        decreases fork
      {
        assert LinkOk(nodes, fork);
        if nodes[fork].pprev != NULL {
          AncestorOfAncestor(nodes, pindex, nodes[fork].nHeight, nodes[fork].nHeight - 1);
        }
        fork := nodes[fork].pprev;
      }
    }

    /** The chain's index if it has the block, the skip list otherwise. */
    method StepBack(nodes: seq<Block>, pindex: Ptr, nHeight: nat) returns (p: Ptr)
      requires ValidTree(nodes) && IsPath(nodes, vChain) && IsBlock(nodes, pindex) && nHeight <= nodes[pindex].nHeight
      ensures p == Ancestor(nodes, pindex, nHeight)
    {
      hide SkipsOk;
      if Contains(nodes, vChain, pindex) {
        PathBelow(nodes, vChain, pindex, nHeight);
        p := At(vChain, nHeight);
      } else {
        p := GetAncestor(nodes, pindex, nHeight);
      }
    }

    /** GetLocator: ancestors of the start block (the tip by default), at the heights
        of LocatorHeights, whichever way they are looked up. */
    method GetLocator(nodes: seq<Block>, start: Ptr) returns (vHave: seq<Ptr>)
      requires ValidTree(nodes) && IsPath(nodes, vChain) && (start == NULL || IsBlock(nodes, start))
      ensures var p := if start == NULL then At(vChain, |vChain| - 1) else start;
              if p == NULL then vHave == []
              else IsBlock(nodes, p) && LocatorOf(nodes, p, vHave, LocatorHeights(nodes[p].nHeight, 1, 1))
    {
      hide SkipsOk;
      hide LocatorSoFar;
      hide LocatorOf;
      vHave := [];
      var nStep := 1;
      var pindex := if start == NULL then At(vChain, |vChain| - 1) else start;
      if pindex == NULL {
        return;
      }
      ghost var p := pindex;
      LocatorStart(nodes, p);
      while pindex != NULL
        invariant IsBlock(nodes, pindex) && IsAncestor(nodes, pindex, p) && nStep >= 1
        invariant LocatorSoFar(nodes, p, vHave, nodes[pindex].nHeight, nStep)
        decreases nodes[pindex].nHeight
      {
        var h := nodes[pindex].nHeight;
        LocatorAppend(nodes, p, vHave, h, nStep);
        vHave := vHave + [pindex];
        if h == 0 {
          break;
        }
        var nHeight: nat := if h > nStep then h - nStep else 0;
        AncestorOfAncestor(nodes, p, h, nHeight);
        pindex := StepBack(nodes, pindex, nHeight);
        if |vHave| > 10 {
          nStep := nStep * 2;
        }
      }
    }
  }

  /** The entries so far are right, and what is left are the heights from h on. */
  ghost predicate LocatorSoFar(nodes: seq<Block>, p: Ptr, vHave: seq<Ptr>, h: nat, nStep: nat)
    requires Linked(nodes) && IsBlock(nodes, p)
  {
    var heights := LocatorHeights(nodes[p].nHeight, 1, 1);
    && nStep >= 1 && |vHave| < |heights|
    && (forall i :: 0 <= i < |vHave| ==> heights[i] <= nodes[p].nHeight && vHave[i] == Ancestor(nodes, p, heights[i]))
    && heights[|vHave|..] == LocatorHeights(h, nStep, |vHave| + 1)
  }

  lemma LocatorStart(nodes: seq<Block>, p: Ptr)
    requires Linked(nodes) && IsBlock(nodes, p)
    ensures LocatorSoFar(nodes, p, [], nodes[p].nHeight, 1)
  {
  }

  lemma LocatorAppend(nodes: seq<Block>, p: Ptr, vHave: seq<Ptr>, h: nat, nStep: nat)
    requires Linked(nodes) && IsBlock(nodes, p) && h <= nodes[p].nHeight && LocatorSoFar(nodes, p, vHave, h, nStep)
    ensures var v := vHave + [Ancestor(nodes, p, h)];
            if h == 0 then LocatorOf(nodes, p, v, LocatorHeights(nodes[p].nHeight, 1, 1))
            else LocatorSoFar(nodes, p, v, if h > nStep then h - nStep else 0, if |v| > 10 then nStep * 2 else nStep)
  {
    hide Linked;
    hide Ancestor;
    var heights := LocatorHeights(nodes[p].nHeight, 1, 1);
    assert heights[|vHave|] == heights[|vHave|..][0] == h;
    assert heights[|vHave| + 1..] == heights[|vHave|..][1..];
  }

  /** The heights of a locator from height h on: h itself, then back by the step,
      which doubles from the tenth entry on, down to genesis. */
  function LocatorHeights(h: nat, nStep: nat, count: nat): (r: seq<nat>)
    requires nStep >= 1
    ensures |r| > 0 && r[0] == h && r[|r| - 1] == 0
    decreases h
  {
    if h == 0 then [0]
    else [h] + LocatorHeights(if h > nStep then h - nStep else 0, if count > 10 then nStep * 2 else nStep, count + 1)
  }

  ghost predicate Decreasing(r: seq<nat>) {
    forall i, j :: 0 <= i < j < |r| ==> r[i] > r[j]
  }

  /** They strictly decrease. */
  lemma {:induction false} LocatorHeightsDecrease(h: nat, nStep: nat, count: nat)
    requires nStep >= 1
    ensures Decreasing(LocatorHeights(h, nStep, count))
    decreases h
  {
    if h > 0 {
      var h', s' := if h > nStep then h - nStep else 0, if count > 10 then nStep * 2 else nStep;
      LocatorHeightsDecrease(h', s', count + 1);
      ConsDecreasing(h, LocatorHeights(h', s', count + 1));
    }
  }

  /** With a doubling step, every entry but genesis is back by s, 2s, 4s and so on. */
  lemma {:induction false} DoublingSteps(h: nat, s: nat, count: nat, i: nat)
    requires s >= 1 && count > 10 && i < |LocatorHeights(h, s, count)| - 1
    ensures LocatorHeights(h, s, count)[i] == h - s * (Pow(2, i) - 1)
    decreases i
  {
    if i > 0 {
      var h' := if h > s then h - s else 0;
      DoublingSteps(h', s * 2, count + 1, i - 1);
      var p: int := Pow(2, i - 1);
      assert s * 2 * (p - 1) + s == s * (2 * p - 1);
    }
  }

  lemma {:induction false} SingleSteps(h: nat, count: nat, i: nat)
    requires 1 <= count <= 11 && i < |LocatorHeights(h, 1, count)| - 1
    ensures var k := 11 - count; LocatorHeights(h, 1, count)[i] == if i <= k then h - i else h - k - (Pow(2, i - k) - 1)
    decreases i
  {
    if count == 11 {
      DoublingSteps(h, 1, count, i);
    } else if i > 0 {
      SingleSteps(if h > 1 then h - 1 else 0, count + 1, i - 1);
    }
  }

  /** The locator of a block at height h: the ten blocks before it, then exponentially
      larger steps back; so it has about ten entries more than h has bits. */
  lemma LocatorSteps(h: nat, i: nat)
    requires i < |LocatorHeights(h, 1, 1)| - 1
    ensures LocatorHeights(h, 1, 1)[i] == if i <= 10 then h - i else h - 9 - Pow(2, i - 10)
    ensures i > 10 ==> Pow(2, i - 10) < h
  {
    SingleSteps(h, 1, i);
  }

  lemma ConsDecreasing(h: nat, r: seq<nat>)
    requires Decreasing(r) && |r| > 0 && h > r[0]
    ensures Decreasing([h] + r)
  {
  }

  ghost predicate LocatorOf(nodes: seq<Block>, p: Ptr, vHave: seq<Ptr>, heights: seq<nat>)
    requires Linked(nodes) && IsBlock(nodes, p)
  {
    |vHave| == |heights| && forall i :: 0 <= i < |vHave| ==> heights[i] <= nodes[p].nHeight && vHave[i] == Ancestor(nodes, p, heights[i])
  }
}
