/**
 The shape of the Merkle tree over n transactions and the hash of each of its
 nodes.  The hash function is a parameter and nothing is assumed about it.  Where a
 theorem needs two particular hashes to differ, it says "or this is a collision",
 and the colliding pairs are computed from the theorem's own input.
 */
module MerkleTree {

  type Hash = nat
  const ZERO: Hash := 0
  type Hasher = (Hash, Hash) -> Hash

  /** Two pairs of hashes. */
  datatype Pairs = Pairs(a: Hash, b: Hash, c: Hash, d: Hash)

  const NO_CLASH := Pairs(ZERO, ZERO, ZERO, ZERO)

  /** The pairs are different and have the same hash. */
  predicate Collides(h: Hasher, p: Pairs) {
    (p.a, p.b) != (p.c, p.d) && h(p.a, p.b) == h(p.c, p.d)
  }

  function Pow2(k: nat): (p: nat)
    ensures p >= 1
  {
    if k == 0 then 1 else 2 * Pow2(k - 1)
  }

  /** The number of nodes at a height, as the source computes it. */
  function CalcTreeWidth(n: nat, height: nat): nat {
    (n + Pow2(height) - 1) / Pow2(height)
  }

  /** The same number, halving (and rounding up) from level to level. */
  function Width(n: nat, height: nat): nat {
    if height == 0 then n else (Width(n, height - 1) + 1) / 2
  }

  /** The first leaf below a node. */
  function First(height: nat, pos: nat): nat {
    if height == 0 then pos else First(height - 1, pos * 2)
  }

  /** One past the last leaf below a node. */
  function Last(n: nat, height: nat, pos: nat): nat {
    if First(height, pos + 1) < n then First(height, pos + 1) else n
  }

  lemma CeilDiv(n: nat, p: nat, pos: nat)
    requires p >= 1
    ensures pos < (n + p - 1) / p <==> pos * p < n
  {
    var q, r := (n + p - 1) / p, (n + p - 1) % p;
    assert n + p - 1 == q * p + r;
    if pos < q {
      assert (pos + 1) * p <= q * p by { MulMono(pos + 1, q, p); }
      assert (pos + 1) * p == pos * p + p;
    } else {
      assert q * p <= pos * p by { MulMono(q, pos, p); }
    }
  }

  lemma MulMono(a: nat, b: nat, c: nat)
    requires a <= b
    ensures a * c <= b * c
  {
  }

  /** The first leaf is the position shifted left by the height. */
  lemma {:induction false} FirstIsShift(height: nat, pos: nat)
    ensures First(height, pos) == pos * Pow2(height)
  {
    if height > 0 {
      FirstIsShift(height - 1, pos * 2);
      var p := Pow2(height - 1);
      assert pos * (2 * p) == (pos * 2) * p;
    }
  }

  /** A node exists exactly when it has a first leaf. */
  lemma {:induction false} NodeExists(n: nat, height: nat, pos: nat)
    ensures pos < Width(n, height) <==> First(height, pos) < n
  {
    if height > 0 {
      NodeExists(n, height - 1, pos * 2);
    }
  }

  lemma WidthIsShift(n: nat, height: nat)
    ensures Width(n, height) == CalcTreeWidth(n, height)
  {
    var w, w' := Width(n, height), CalcTreeWidth(n, height);
    if w < w' {
      CeilDiv(n, Pow2(height), w);
      NodeExists(n, height, w);
      FirstIsShift(height, w);
    } else if w' < w {
      CeilDiv(n, Pow2(height), w');
      NodeExists(n, height, w');
      FirstIsShift(height, w');
    }
  }

  lemma {:induction false} FirstGrows(height: nat, pos: nat)
    ensures First(height, pos) < First(height, pos + 1)
  {
    if height > 0 {
      FirstGrows(height - 1, pos * 2);
      FirstGrows(height - 1, pos * 2 + 1);
      assert (pos + 1) * 2 == pos * 2 + 1 + 1;
    }
  }

  /** Everything about descending from a node to its children. */
  lemma Descend(n: nat, height: nat, pos: nat)
    requires height > 0 && First(height, pos) < n
    ensures First(height - 1, pos * 2) == First(height, pos) < n
    ensures pos * 2 + 1 < Width(n, height - 1) <==> First(height - 1, pos * 2 + 1) < n
    ensures First(height - 1, pos * 2 + 1) < n ==>
              Last(n, height - 1, pos * 2) == First(height - 1, pos * 2 + 1) && Last(n, height - 1, pos * 2 + 1) == Last(n, height, pos)
    ensures !(First(height - 1, pos * 2 + 1) < n) ==> Last(n, height - 1, pos * 2) == n == Last(n, height, pos)
    ensures First(height, pos) < First(height - 1, pos * 2 + 1)
  {
    NodeExists(n, height - 1, pos * 2 + 1);
    FirstGrows(height - 1, pos * 2);
    FirstGrows(height - 1, pos * 2 + 1);
    assert (pos + 1) * 2 == pos * 2 + 1 + 1;
  }

  lemma FirstBelowLast(n: nat, height: nat, pos: nat)
    requires First(height, pos) < n
    ensures First(height, pos) < Last(n, height, pos) <= n
  {
    FirstGrows(height, pos);
  }

  // ----------------------------------------------------------------- node hashes

  function CalcHash(h: Hasher, height: nat, pos: nat, vTxid: seq<Hash>): Hash
    requires First(height, pos) < |vTxid|
  {
    if height == 0 then vTxid[pos]
    else
      Descend(|vTxid|, height, pos);
      var left := CalcHash(h, height - 1, pos * 2, vTxid);
      var right := if pos * 2 + 1 < Width(|vTxid|, height - 1) then CalcHash(h, height - 1, pos * 2 + 1, vTxid) else left;
      h(left, right)
  }

  /** The height of the tree: the first height of width one. */
  ghost predicate IsTop(n: nat, height: nat) {
    Width(n, height) <= 1 && forall k :: 0 <= k < height ==> Width(n, k) > 1
  }

  lemma {:induction false} WidthShrinks(n: nat, height: nat)
    ensures Width(n, height) <= 1 || Width(n, height) + height <= n
  {
    if height > 0 {
      WidthShrinks(n, height - 1);
    }
  }

  method CalcHeight(n: nat) returns (nHeight: nat)
    ensures IsTop(n, nHeight)
  {
    nHeight := 0;
    WidthIsShift(n, 0);
    while CalcTreeWidth(n, nHeight) > 1
      invariant forall k :: 0 <= k < nHeight ==> Width(n, k) > 1
      invariant CalcTreeWidth(n, nHeight) == Width(n, nHeight)
      decreases n - nHeight
    {
      WidthShrinks(n, nHeight);
      WidthIsShift(n, nHeight + 1);
      nHeight := nHeight + 1;
    }
  }

  lemma TopIsUnique(n: nat, a: nat, b: nat)
    requires IsTop(n, a) && IsTop(n, b)
    ensures a == b
  {
  }

  function Height(n: nat): nat {
    HeightFrom(n, 0)
  }

  function HeightFrom(n: nat, k: nat): (height: nat)
    requires forall j :: 0 <= j < k ==> Width(n, j) > 1
    ensures IsTop(n, height)
    decreases n - k
  {
    WidthShrinks(n, k);
    if Width(n, k) > 1 then HeightFrom(n, k + 1) else k
  }

  /** The root covers all leaves. */
  lemma RootCovers(n: nat)
    requires n > 0
    ensures First(Height(n), 0) == 0 && Last(n, Height(n), 0) == n
  {
    FirstIsShift(Height(n), 0);
    NodeExists(n, Height(n), 1);
  }

  function MerkleRoot(h: Hasher, vTxid: seq<Hash>): Hash
    requires vTxid != []
  {
    RootCovers(|vTxid|);
    CalcHash(h, Height(|vTxid|), 0, vTxid)
  }

  // ------------------------------------------- the same tree, level by level

  /** One level up: neighbours are hashed together, a last one left over with itself. */
  function PairUp(h: Hasher, level: seq<Hash>): seq<Hash> {
    if level == [] then []
    else if |level| == 1 then [h(level[0], level[0])]
    else [h(level[0], level[1])] + PairUp(h, level[2..])
  }

  lemma {:induction false} PairUpAt(h: Hasher, level: seq<Hash>, i: nat)
    ensures |PairUp(h, level)| == (|level| + 1) / 2
    ensures 2 * i < |level| ==>
              PairUp(h, level)[i] == h(level[2 * i], if 2 * i + 1 < |level| then level[2 * i + 1] else level[2 * i])
    decreases |level|
  {
    if |level| > 1 {
      PairUpAt(h, level[2..], if i > 0 then i - 1 else 0);
    }
  }

  function Level(h: Hasher, vTxid: seq<Hash>, height: nat): seq<Hash> {
    if height == 0 then vTxid else PairUp(h, Level(h, vTxid, height - 1))
  }

  /** The recursive node hash is the entry of the level-by-level construction. */
  lemma {:induction false} CalcHashIsLevel(h: Hasher, vTxid: seq<Hash>, height: nat, pos: nat)
    requires First(height, pos) < |vTxid|
    ensures |Level(h, vTxid, height)| == Width(|vTxid|, height)
    ensures pos < |Level(h, vTxid, height)| && CalcHash(h, height, pos, vTxid) == Level(h, vTxid, height)[pos]
  {
    NodeExists(|vTxid|, height, pos);
    if height > 0 {
      Descend(|vTxid|, height, pos);
      CalcHashIsLevel(h, vTxid, height - 1, pos * 2);
      if pos * 2 + 1 < Width(|vTxid|, height - 1) {
        CalcHashIsLevel(h, vTxid, height - 1, pos * 2 + 1);
      }
      PairUpAt(h, Level(h, vTxid, height - 1), pos);
    }
  }

  /** The root is the single hash left when levels are paired up to the top. */
  lemma MerkleRootIsTopLevel(h: Hasher, vTxid: seq<Hash>)
    requires vTxid != []
    ensures Level(h, vTxid, Height(|vTxid|)) == [MerkleRoot(h, vTxid)]
  {
    RootCovers(|vTxid|);
    CalcHashIsLevel(h, vTxid, Height(|vTxid|), 0);
  }
}
