/**
 The tree behind the (height, pos) arithmetic: encoder, decoder and node hash as
 functions of an explicit tree, which the ones of `PartialMerkle` follow.
 */
module MerkleShape {
  import opened MerkleTree
  import opened PartialMerkle

  datatype Shape = Leaf(i: nat) | One(child: Shape) | Two(left: Shape, right: Shape)

  function ShapeOf(n: nat, height: nat, pos: nat): Shape {
    if height == 0 then Leaf(pos)
    else if pos * 2 + 1 < Width(n, height - 1) then Two(ShapeOf(n, height - 1, pos * 2), ShapeOf(n, height - 1, pos * 2 + 1))
    else One(ShapeOf(n, height - 1, pos * 2))
  }

  function Txid(vTxid: seq<Hash>, i: nat): Hash {
    if i < |vTxid| then vTxid[i] else ZERO
  }

  function Marked(vMatch: seq<bool>, i: nat): bool {
    i < |vMatch| && vMatch[i]
  }

  function HashOn(h: Hasher, t: Shape, vTxid: seq<Hash>): Hash {
    match t
    case Leaf(i) => Txid(vTxid, i)
    case One(child) => var x := HashOn(h, child, vTxid); h(x, x)
    case Two(left, right) => h(HashOn(h, left, vTxid), HashOn(h, right, vTxid))
  }

  predicate AnyMarked(t: Shape, vMatch: seq<bool>) {
    match t
    case Leaf(i) => Marked(vMatch, i)
    case One(child) => AnyMarked(child, vMatch)
    case Two(left, right) => AnyMarked(left, vMatch) || AnyMarked(right, vMatch)
  }

  function EncodeOn(h: Hasher, t: Shape, vTxid: seq<Hash>, vMatch: seq<bool>): Code {
    if t.Leaf? || !AnyMarked(t, vMatch) then Code([AnyMarked(t, vMatch)], [HashOn(h, t, vTxid)])
    else if t.Two? then Append(DESCENDS, Append(EncodeOn(h, t.left, vTxid, vMatch), EncodeOn(h, t.right, vTxid, vMatch)))
    else Append(DESCENDS, EncodeOn(h, t.child, vTxid, vMatch))
  }

  function ExtractOn(h: Hasher, bits: seq<bool>, hashes: seq<Hash>, t: Shape, c: Cursor): (Hash, Cursor)
    decreases t
  {
    if c.nBits >= |bits| then (ZERO, c.(bad := true))
    else
      var fParentOfMatch := bits[c.nBits];
      var c1 := c.(nBits := c.nBits + 1);
      if t.Leaf? || !fParentOfMatch then
        if c1.nHash >= |hashes| then (ZERO, c1.(bad := true))
        else
          var hash := hashes[c1.nHash];
          var c2 := c1.(nHash := c1.nHash + 1);
          (hash, if t.Leaf? && fParentOfMatch then c2.(match_ := c2.match_ + [hash], index := c2.index + [t.i]) else c2)
      else if t.Two? then
        var (left, c2) := ExtractOn(h, bits, hashes, t.left, c1);
        var (right, c3) := ExtractOn(h, bits, hashes, t.right, c2);
        (h(left, right), if right == left then c3.(bad := true) else c3)
      else
        var (left, c2) := ExtractOn(h, bits, hashes, t.child, c1);
        (h(left, left), c2)
  }

  // ------------------------------------------------- the (height, pos) versions follow

  lemma {:induction false} ExtractFollows(h: Hasher, n: nat, bits: seq<bool>, hashes: seq<Hash>, height: nat, pos: nat, c: Cursor)
    ensures Extract(h, n, bits, hashes, height, pos, c) == ExtractOn(h, bits, hashes, ShapeOf(n, height, pos), c)
    decreases height
  {
    if c.nBits < |bits| && height > 0 && bits[c.nBits] {
      var c1 := c.(nBits := c.nBits + 1);
      ExtractFollows(h, n, bits, hashes, height - 1, pos * 2, c1);
      if pos * 2 + 1 < Width(n, height - 1) {
        var (_, c2) := Extract(h, n, bits, hashes, height - 1, pos * 2, c1);
        ExtractFollows(h, n, bits, hashes, height - 1, pos * 2 + 1, c2);
      }
    }
  }

  lemma {:induction false} CalcHashFollows(h: Hasher, height: nat, pos: nat, vTxid: seq<Hash>)
    requires First(height, pos) < |vTxid|
    ensures CalcHash(h, height, pos, vTxid) == HashOn(h, ShapeOf(|vTxid|, height, pos), vTxid)
  {
    if height > 0 {
      Descend(|vTxid|, height, pos);
      CalcHashFollows(h, height - 1, pos * 2, vTxid);
      if pos * 2 + 1 < Width(|vTxid|, height - 1) {
        CalcHashFollows(h, height - 1, pos * 2 + 1, vTxid);
      }
    }
  }

  lemma {:induction false} MarksFollow(height: nat, pos: nat, vMatch: seq<bool>)
    requires First(height, pos) < Last(|vMatch|, height, pos) <= |vMatch|
    ensures AnyMatch(vMatch, First(height, pos), Last(|vMatch|, height, pos)) <==> AnyMarked(ShapeOf(|vMatch|, height, pos), vMatch)
  {
    var n := |vMatch|;
    if height > 0 {
      Descend(n, height, pos);
      FirstBelowLast(n, height - 1, pos * 2);
      MarksFollow(height - 1, pos * 2, vMatch);
      if pos * 2 + 1 < Width(n, height - 1) {
        FirstBelowLast(n, height - 1, pos * 2 + 1);
        MarksFollow(height - 1, pos * 2 + 1, vMatch);
        AnyMatchSplits(vMatch, First(height, pos), First(height - 1, pos * 2 + 1), Last(n, height, pos));
      }
    }
  }

  lemma AnyMatchSplits(vMatch: seq<bool>, lo: nat, mid: nat, hi: nat)
    requires lo <= mid <= hi <= |vMatch|
    ensures AnyMatch(vMatch, lo, hi) <==> AnyMatch(vMatch, lo, mid) || AnyMatch(vMatch, mid, hi)
  {
  }

  lemma {:induction false} EncodeFollows(h: Hasher, height: nat, pos: nat, vTxid: seq<Hash>, vMatch: seq<bool>)
    requires |vMatch| == |vTxid| && First(height, pos) < |vTxid|
    ensures Encode(h, height, pos, vTxid, vMatch) == EncodeOn(h, ShapeOf(|vTxid|, height, pos), vTxid, vMatch)
  {
    FirstBelowLast(|vTxid|, height, pos);
    MarksFollow(height, pos, vMatch);
    CalcHashFollows(h, height, pos, vTxid);
    if height > 0 {
      Descend(|vTxid|, height, pos);
      EncodeFollows(h, height - 1, pos * 2, vTxid, vMatch);
      if pos * 2 + 1 < Width(|vTxid|, height - 1) {
        EncodeFollows(h, height - 1, pos * 2 + 1, vTxid, vMatch);
      }
    }
  }

  // --------------------------------------------------------------------- the leaves

  /** The leaves are lo, lo+1, ..., hi-1, in order. */
  ghost predicate Spans(t: Shape, lo: nat, hi: nat) {
    match t
    case Leaf(i) => lo == i && hi == i + 1
    case One(child) => Spans(child, lo, hi)
    case Two(left, right) => exists mid: nat :: lo < mid < hi && Spans(left, lo, mid) && Spans(right, mid, hi)
  }

  function Levels(t: Shape): nat {
    match t
    case Leaf(_) => 0
    case One(child) => 1 + Levels(child)
    case Two(left, right) => 1 + (if Levels(left) > Levels(right) then Levels(left) else Levels(right))
  }

  lemma {:induction false} ShapeSpans(n: nat, height: nat, pos: nat)
    requires First(height, pos) < n
    ensures Spans(ShapeOf(n, height, pos), First(height, pos), Last(n, height, pos))
    ensures Levels(ShapeOf(n, height, pos)) == height
  {
    if height > 0 {
      Descend(n, height, pos);
      ShapeSpans(n, height - 1, pos * 2);
      if pos * 2 + 1 < Width(n, height - 1) {
        ShapeSpans(n, height - 1, pos * 2 + 1);
        FirstBelowLast(n, height - 1, pos * 2 + 1);
      }
    }
  }

  /** The whole tree of n transactions. */
  function TreeOf(n: nat): Shape {
    ShapeOf(n, Height(n), 0)
  }

  lemma TreeSpans(n: nat)
    requires n > 0
    ensures Spans(TreeOf(n), 0, n) && Levels(TreeOf(n)) == Height(n)
  {
    RootCovers(n);
    ShapeSpans(n, Height(n), 0);
  }

  function FirstLeaf(t: Shape): nat {
    match t
    case Leaf(i) => i
    case One(child) => FirstLeaf(child)
    case Two(left, _) => FirstLeaf(left)
  }

  /** Every path is k steps long. */
  predicate Even(t: Shape, k: nat) {
    match t
    case Leaf(_) => k == 0
    case One(child) => k > 0 && Even(child, k - 1)
    case Two(left, right) => k > 0 && Even(left, k - 1) && Even(right, k - 1)
  }

  lemma {:induction false} ShapeIsEven(n: nat, height: nat, pos: nat)
    ensures Even(ShapeOf(n, height, pos), height)
  {
    if height > 0 {
      ShapeIsEven(n, height - 1, pos * 2);
      ShapeIsEven(n, height - 1, pos * 2 + 1);
    }
  }

  function LeftHash(h: Hasher, t: Shape, vTxid: seq<Hash>): Hash
    requires !t.Leaf?
  {
    if t.One? then HashOn(h, t.child, vTxid) else HashOn(h, t.left, vTxid)
  }

  function RightHash(h: Hasher, t: Shape, vTxid: seq<Hash>): Hash
    requires !t.Leaf?
  {
    if t.One? then HashOn(h, t.child, vTxid) else HashOn(h, t.right, vTxid)
  }

  function LeftChild(t: Shape): Shape
    requires !t.Leaf?
  {
    if t.One? then t.child else t.left
  }

  /** Going down on the left in two trees of the same hash, the first two nodes
      whose left children have different hashes. */
  function LeftClash(h: Hasher, t: Shape, u: Shape, vTxid: seq<Hash>): Pairs {
    if t.Leaf? || u.Leaf? then NO_CLASH
    else if LeftHash(h, t, vTxid) != LeftHash(h, u, vTxid) then
      Pairs(LeftHash(h, t, vTxid), RightHash(h, t, vTxid), LeftHash(h, u, vTxid), RightHash(h, u, vTxid))
    else LeftClash(h, LeftChild(t), LeftChild(u), vTxid)
  }

  /** Two trees of equal hash and equal depth have the same first transaction, or
      this is a collision. */
  lemma {:induction false} SameHashSameFirstLeaf(h: Hasher, t: Shape, u: Shape, k: nat, vTxid: seq<Hash>)
    requires Even(t, k) && Even(u, k) && HashOn(h, t, vTxid) == HashOn(h, u, vTxid)
    ensures Txid(vTxid, FirstLeaf(t)) == Txid(vTxid, FirstLeaf(u)) || Collides(h, LeftClash(h, t, u, vTxid))
  {
    if k > 0 && LeftHash(h, t, vTxid) == LeftHash(h, u, vTxid) {
      SameHashSameFirstLeaf(h, LeftChild(t), LeftChild(u), k - 1, vTxid);
    }
  }
}
