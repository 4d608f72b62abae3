/**
 What a partial Merkle tree proves to its reader, and that the writer's output
 proves it.
 */
module MerkleTheorems {
  import opened MerkleTree
  import opened PartialMerkle
  import opened MerkleShape

  // ----------------------------------------------------------------- authenticity

  /** From c to c': only new matches are appended, with indices strictly
      increasing and within [lo, hi), and a problem is never forgotten. */
  ghost predicate Extends(c: Cursor, c': Cursor, lo: nat, hi: nat) {
    && |c.match_| == |c.index| && |c'.match_| == |c'.index|
    && c.match_ <= c'.match_ && c.index <= c'.index
    && (c.bad ==> c'.bad)
    && (forall k :: |c.index| <= k < |c'.index| ==> lo <= c'.index[k] < hi)
    && (forall j, k :: |c.index| <= j < k < |c'.index| ==> c'.index[j] < c'.index[k])
  }

  lemma ExtendsTransitive(a: Cursor, b: Cursor, c: Cursor, lo: nat, mid: nat, hi: nat)
    requires Extends(a, b, lo, mid) && Extends(b, c, mid, hi) && lo <= mid <= hi
    ensures Extends(a, c, lo, hi)
  {
    assert forall k :: 0 <= k < |b.index| ==> c.index[k] == b.index[k];
  }

  /** Whatever the input, the decoder reports indices of leaves below the node, in order. */
  lemma {:induction false} ReportsInOrder(h: Hasher, bits: seq<bool>, hashes: seq<Hash>, t: Shape, c: Cursor, lo: nat, hi: nat)
    requires Spans(t, lo, hi) && |c.match_| == |c.index|
    ensures Extends(c, ExtractOn(h, bits, hashes, t, c).1, lo, hi)
    decreases t
  {
    if c.nBits < |bits| && bits[c.nBits] {
      var c1 := c.(nBits := c.nBits + 1);
      match t
      case Leaf(_) =>
      case One(child) => ReportsInOrder(h, bits, hashes, child, c1, lo, hi);
      case Two(left, right) =>
        var mid: nat :| lo < mid < hi && Spans(left, lo, mid) && Spans(right, mid, hi);
        ReportsInOrder(h, bits, hashes, left, c1, lo, mid);
        var c2 := ExtractOn(h, bits, hashes, left, c1).1;
        ReportsInOrder(h, bits, hashes, right, c2, mid, hi);
        ExtendsTransitive(c1, c2, ExtractOn(h, bits, hashes, right, c2).1, lo, mid, hi);
    }
  }

  /** The matches reported from c to c' are transactions of the list, at the
      reported positions. */
  ghost predicate Honest(c: Cursor, c': Cursor, vTxid: seq<Hash>) {
    forall k :: |c.match_| <= k < |c'.match_| && k < |c'.index| ==> c'.match_[k] == Txid(vTxid, c'.index[k])
  }

  lemma HonestTransitive(a: Cursor, b: Cursor, c: Cursor, vTxid: seq<Hash>)
    requires |a.match_| == |a.index| && |b.match_| == |b.index|
    requires Honest(a, b, vTxid) && Honest(b, c, vTxid) && b.match_ <= c.match_ && b.index <= c.index
    ensures Honest(a, c, vTxid)
  {
    assert forall k :: 0 <= k < |b.index| ==> c.index[k] == b.index[k] && c.match_[k] == b.match_[k];
  }

  /** Where the decoder's hashes and the true ones first part on the way down: two
      different pairs of children under the same hash. */
  function Forgery(h: Hasher, bits: seq<bool>, hashes: seq<Hash>, t: Shape, c: Cursor, vTxid: seq<Hash>): Pairs
    decreases t
  {
    if t.Leaf? || c.nBits >= |bits| || !bits[c.nBits] then NO_CLASH
    else
      var c1 := c.(nBits := c.nBits + 1);
      match t
      case One(child) =>
        var x, y := ExtractOn(h, bits, hashes, child, c1).0, HashOn(h, child, vTxid);
        if x != y then Pairs(x, x, y, y) else Forgery(h, bits, hashes, child, c1, vTxid)
      case Two(left, right) =>
        var (x, c2) := ExtractOn(h, bits, hashes, left, c1);
        var x' := ExtractOn(h, bits, hashes, right, c2).0;
        var y, y' := HashOn(h, left, vTxid), HashOn(h, right, vTxid);
        if x != y || x' != y' then Pairs(x, x', y, y')
        else
          var inLeft := Forgery(h, bits, hashes, left, c1, vTxid);
          if Collides(h, inLeft) then inLeft else Forgery(h, bits, hashes, right, c2, vTxid)
  }

  /** A node with the true hash reports true transactions, or this is a collision. */
  lemma {:induction false} ReportsHonestly(h: Hasher, bits: seq<bool>, hashes: seq<Hash>, t: Shape, c: Cursor, vTxid: seq<Hash>, lo: nat, hi: nat)
    requires Spans(t, lo, hi) && |c.match_| == |c.index|
    requires var (hash, c') := ExtractOn(h, bits, hashes, t, c); !c'.bad && hash == HashOn(h, t, vTxid)
    ensures Honest(c, ExtractOn(h, bits, hashes, t, c).1, vTxid) || Collides(h, Forgery(h, bits, hashes, t, c, vTxid))
    decreases t
  {
    if bits[c.nBits] {
      var c1 := c.(nBits := c.nBits + 1);
      match t
      case Leaf(_) =>
      case One(child) =>
        var x, y := ExtractOn(h, bits, hashes, child, c1).0, HashOn(h, child, vTxid);
        if x == y {
          ReportsHonestly(h, bits, hashes, child, c1, vTxid, lo, hi);
        }
      case Two(left, right) =>
        var mid: nat :| lo < mid < hi && Spans(left, lo, mid) && Spans(right, mid, hi);
        var (x, c2) := ExtractOn(h, bits, hashes, left, c1);
        var (x', c3) := ExtractOn(h, bits, hashes, right, c2);
        var y, y' := HashOn(h, left, vTxid), HashOn(h, right, vTxid);
        ReportsInOrder(h, bits, hashes, left, c1, lo, mid);
        ReportsInOrder(h, bits, hashes, right, c2, mid, hi);
        if x == y && x' == y' {
          ReportsHonestly(h, bits, hashes, left, c1, vTxid, lo, mid);
          ReportsHonestly(h, bits, hashes, right, c2, vTxid, mid, hi);
          if Honest(c1, c2, vTxid) && Honest(c2, c3, vTxid) {
            HonestTransitive(c1, c2, c3, vTxid);
          }
        }
    }
  }

  /** Merkle-proof authenticity.  Let bits and hashes be anything at all.  If the
      decoder returns a non-zero root and that is the Merkle root of a list of as
      many transactions as the proof claims, then every reported hash is the list's
      transaction at the reported index, and the indices are strictly increasing --
      or the proof itself contains a collision, and Forgery finds it. */
  lemma Authenticity(h: Hasher, bits: seq<bool>, hashes: seq<Hash>, vTxid: seq<Hash>)
    requires vTxid != []
    requires var (root, _) := ExtractResult(h, |vTxid|, bits, hashes, [], false);
             root != ZERO && root == MerkleRoot(h, vTxid)
    ensures var (_, c) := ExtractResult(h, |vTxid|, bits, hashes, [], false);
            && |c.match_| == |c.index|
            && (forall k :: 0 <= k < |c.index| ==> c.index[k] < |vTxid|)
            && (forall j, k :: 0 <= j < k < |c.index| ==> c.index[j] < c.index[k])
            && ((forall k :: 0 <= k < |c.match_| ==> c.match_[k] == vTxid[c.index[k]])
                || Collides(h, Forgery(h, bits, hashes, TreeOf(|vTxid|), Cursor(0, 0, [], [], false), vTxid)))
  {
    var n := |vTxid|;
    RootCovers(n);
    TreeSpans(n);
    var start := Cursor(0, 0, [], [], false);
    ExtractFollows(h, n, bits, hashes, Height(n), 0, start);
    CalcHashFollows(h, Height(n), 0, vTxid);
    ReportsInOrder(h, bits, hashes, TreeOf(n), start, 0, n);
    ReportsHonestly(h, bits, hashes, TreeOf(n), start, vTxid, 0, n);
  }

  // ----------------------------------------------------------------- completeness

  /** The marked leaves of a tree, in order, and their transactions. */
  function IndicesOn(t: Shape, vMatch: seq<bool>): seq<nat> {
    match t
    case Leaf(i) => if Marked(vMatch, i) then [i] else []
    case One(child) => IndicesOn(child, vMatch)
    case Two(left, right) => IndicesOn(left, vMatch) + IndicesOn(right, vMatch)
  }

  function TxidsOn(t: Shape, vTxid: seq<Hash>, vMatch: seq<bool>): seq<Hash> {
    match t
    case Leaf(i) => if Marked(vMatch, i) then [Txid(vTxid, i)] else []
    case One(child) => TxidsOn(child, vTxid, vMatch)
    case Two(left, right) => TxidsOn(left, vTxid, vMatch) + TxidsOn(right, vTxid, vMatch)
  }

  lemma {:induction false} NothingMarked(t: Shape, vTxid: seq<Hash>, vMatch: seq<bool>)
    ensures AnyMarked(t, vMatch) <==> IndicesOn(t, vMatch) != []
    ensures AnyMarked(t, vMatch) <==> TxidsOn(t, vTxid, vMatch) != []
  {
    match t
    case Leaf(_) =>
    case One(child) => NothingMarked(child, vTxid, vMatch);
    case Two(left, right) =>
      NothingMarked(left, vTxid, vMatch);
      NothingMarked(right, vTxid, vMatch);
  }

  /** No node has two children of the same hash, which the decoder refuses. */
  predicate NoTwins(h: Hasher, t: Shape, vTxid: seq<Hash>) {
    match t
    case Leaf(_) => true
    case One(child) => NoTwins(h, child, vTxid)
    case Two(left, right) =>
      HashOn(h, left, vTxid) != HashOn(h, right, vTxid) && NoTwins(h, left, vTxid) && NoTwins(h, right, vTxid)
  }

  ghost predicate Distinct(vTxid: seq<Hash>) {
    forall i, j :: 0 <= i < j < |vTxid| ==> vTxid[i] != vTxid[j]
  }

  lemma {:induction false} FirstLeafIsLo(t: Shape, lo: nat, hi: nat)
    requires Spans(t, lo, hi)
    ensures FirstLeaf(t) == lo < hi
  {
    match t
    case Leaf(_) =>
    case One(child) => FirstLeafIsLo(child, lo, hi);
    case Two(left, right) =>
      var mid: nat :| lo < mid < hi && Spans(left, lo, mid) && Spans(right, mid, hi);
      FirstLeafIsLo(left, lo, mid);
  }

  /** Where a tree has twins, two different pairs of children under the same hash. */
  function TwinClash(h: Hasher, t: Shape, vTxid: seq<Hash>): Pairs {
    match t
    case Leaf(_) => NO_CLASH
    case One(child) => TwinClash(h, child, vTxid)
    case Two(left, right) =>
      if HashOn(h, left, vTxid) == HashOn(h, right, vTxid) then LeftClash(h, left, right, vTxid)
      else
        var inLeft := TwinClash(h, left, vTxid);
        if Collides(h, inLeft) then inLeft else TwinClash(h, right, vTxid)
  }

  /** Distinct transactions have no twins, or this is a collision. */
  lemma {:induction false} DistinctHaveNoTwins(h: Hasher, t: Shape, k: nat, vTxid: seq<Hash>, lo: nat, hi: nat)
    requires Distinct(vTxid) && Spans(t, lo, hi) && hi <= |vTxid| && Even(t, k)
    ensures NoTwins(h, t, vTxid) || Collides(h, TwinClash(h, t, vTxid))
    decreases t
  {
    match t
    case Leaf(_) =>
    case One(child) => DistinctHaveNoTwins(h, child, k - 1, vTxid, lo, hi);
    case Two(left, right) =>
      var mid: nat :| lo < mid < hi && Spans(left, lo, mid) && Spans(right, mid, hi);
      DistinctHaveNoTwins(h, left, k - 1, vTxid, lo, mid);
      DistinctHaveNoTwins(h, right, k - 1, vTxid, mid, hi);
      if HashOn(h, left, vTxid) == HashOn(h, right, vTxid) {
        SameHashSameFirstLeaf(h, left, right, k - 1, vTxid);
        FirstLeafIsLo(left, lo, mid);
        FirstLeafIsLo(right, mid, hi);
      }
  }

  /** The code stands in the input at the cursor. */
  ghost predicate StandsAt(code: Code, bits: seq<bool>, hashes: seq<Hash>, nBits: nat, nHash: nat) {
    && nBits + |code.bits| <= |bits| && nHash + |code.hashes| <= |hashes|
    && (forall k :: 0 <= k < |code.bits| ==> code.bits[k] == bits[nBits + k])
    && (forall k :: 0 <= k < |code.hashes| ==> code.hashes[k] == hashes[nHash + k])
  }

  lemma StandsSplit(a: Code, b: Code, bits: seq<bool>, hashes: seq<Hash>, nBits: nat, nHash: nat)
    requires StandsAt(Append(a, b), bits, hashes, nBits, nHash)
    ensures StandsAt(a, bits, hashes, nBits, nHash)
    ensures StandsAt(b, bits, hashes, nBits + |a.bits|, nHash + |a.hashes|)
  {
    var ab := Append(a, b);
    forall k | 0 <= k < |a.bits| ensures a.bits[k] == bits[nBits + k] {
      assert ab.bits[k] == a.bits[k];
    }
    forall k | 0 <= k < |a.hashes| ensures a.hashes[k] == hashes[nHash + k] {
      assert ab.hashes[k] == a.hashes[k];
    }
    forall k | 0 <= k < |b.bits| ensures b.bits[k] == bits[nBits + |a.bits| + k] {
      assert ab.bits[|a.bits| + k] == b.bits[k];
    }
    forall k | 0 <= k < |b.hashes| ensures b.hashes[k] == hashes[nHash + |a.hashes| + k] {
      assert ab.hashes[|a.hashes| + k] == b.hashes[k];
    }
  }

  /** The cursor after decoding a code that reports these matches. */
  function After(c: Cursor, code: Code, txids: seq<Hash>, index: seq<nat>): Cursor {
    Cursor(c.nBits + |code.bits|, c.nHash + |code.hashes|, c.match_ + txids, c.index + index, c.bad)
  }

  lemma AfterTwice(c: Cursor, a: Code, b: Code, x: seq<Hash>, y: seq<Hash>, i: seq<nat>, j: seq<nat>)
    ensures After(After(c, a, x, i), b, y, j) == After(c, Append(a, b), x + y, i + j)
  {
    assert c.match_ + x + y == c.match_ + (x + y);
    assert c.index + i + j == c.index + (i + j);
  }

  /** What decoding what the encoder wrote for t should give. */
  ghost predicate Decodes(h: Hasher, t: Shape, vTxid: seq<Hash>, vMatch: seq<bool>, bits: seq<bool>, hashes: seq<Hash>, c: Cursor) {
    ExtractOn(h, bits, hashes, t, c)
    == (HashOn(h, t, vTxid), After(c, EncodeOn(h, t, vTxid, vMatch), TxidsOn(t, vTxid, vMatch), IndicesOn(t, vMatch)))
  }

  lemma DecodesStopped(h: Hasher, t: Shape, vTxid: seq<Hash>, vMatch: seq<bool>, bits: seq<bool>, hashes: seq<Hash>, c: Cursor)
    requires t.Leaf? || !AnyMarked(t, vMatch)
    requires StandsAt(EncodeOn(h, t, vTxid, vMatch), bits, hashes, c.nBits, c.nHash)
    ensures Decodes(h, t, vTxid, vMatch, bits, hashes, c)
  {
    var code := EncodeOn(h, t, vTxid, vMatch);
    NothingMarked(t, vTxid, vMatch);
    assert bits[c.nBits + 0] == code.bits[0] && hashes[c.nHash + 0] == code.hashes[0];
    assert c.match_ + [] == c.match_ && c.index + [] == c.index;
  }

  lemma DecodesTwo(h: Hasher, t: Shape, vTxid: seq<Hash>, vMatch: seq<bool>, bits: seq<bool>, hashes: seq<Hash>, c: Cursor)
    requires t.Two? && AnyMarked(t, vMatch) && c.nBits < |bits| && bits[c.nBits] && HashOn(h, t.left, vTxid) != HashOn(h, t.right, vTxid)
    requires Decodes(h, t.left, vTxid, vMatch, bits, hashes, c.(nBits := c.nBits + 1))
    requires Decodes(h, t.right, vTxid, vMatch, bits, hashes, ExtractOn(h, bits, hashes, t.left, c.(nBits := c.nBits + 1)).1)
    ensures Decodes(h, t, vTxid, vMatch, bits, hashes, c)
  {
    AfterTwice(c.(nBits := c.nBits + 1), EncodeOn(h, t.left, vTxid, vMatch), EncodeOn(h, t.right, vTxid, vMatch),
               TxidsOn(t.left, vTxid, vMatch), TxidsOn(t.right, vTxid, vMatch), IndicesOn(t.left, vMatch), IndicesOn(t.right, vMatch));
  }

  /** Decoding what the encoder wrote gives the node's hash and its marked leaves. */
  lemma {:induction false} DecodesEncoded(h: Hasher, t: Shape, vTxid: seq<Hash>, vMatch: seq<bool>, bits: seq<bool>, hashes: seq<Hash>, c: Cursor)
    requires NoTwins(h, t, vTxid)
    requires StandsAt(EncodeOn(h, t, vTxid, vMatch), bits, hashes, c.nBits, c.nHash)
    ensures Decodes(h, t, vTxid, vMatch, bits, hashes, c)
    decreases t
  {
    if t.Leaf? || !AnyMarked(t, vMatch) {
      DecodesStopped(h, t, vTxid, vMatch, bits, hashes, c);
    } else {
      FirstBit(h, t, vTxid, vMatch, bits, hashes, c);
      if t.One? {
        DecodesOne(h, t, vTxid, vMatch, bits, hashes, c);
      } else {
        TwoStand(h, t, vTxid, vMatch, bits, hashes, c.nBits, c.nHash);
        DecodesBoth(h, t, vTxid, vMatch, bits, hashes, c.(nBits := c.nBits + 1));
        DecodesTwo(h, t, vTxid, vMatch, bits, hashes, c);
      }
    }
  }

  lemma TwoStand(h: Hasher, t: Shape, vTxid: seq<Hash>, vMatch: seq<bool>, bits: seq<bool>, hashes: seq<Hash>, nBits: nat, nHash: nat)
    requires t.Two? && AnyMarked(t, vMatch) && StandsAt(EncodeOn(h, t, vTxid, vMatch), bits, hashes, nBits, nHash)
    ensures var left := EncodeOn(h, t.left, vTxid, vMatch);
            && StandsAt(left, bits, hashes, nBits + 1, nHash)
            && StandsAt(EncodeOn(h, t.right, vTxid, vMatch), bits, hashes, nBits + 1 + |left.bits|, nHash + |left.hashes|)
  {
    var left, right := EncodeOn(h, t.left, vTxid, vMatch), EncodeOn(h, t.right, vTxid, vMatch);
    StandsSplit(DESCENDS, Append(left, right), bits, hashes, nBits, nHash);
    StandsSplit(left, right, bits, hashes, nBits + 1, nHash);
  }

  lemma DecodesOne(h: Hasher, t: Shape, vTxid: seq<Hash>, vMatch: seq<bool>, bits: seq<bool>, hashes: seq<Hash>, c: Cursor)
    requires t.One? && AnyMarked(t, vMatch) && NoTwins(h, t, vTxid) && c.nBits < |bits| && bits[c.nBits]
    requires StandsAt(EncodeOn(h, t, vTxid, vMatch), bits, hashes, c.nBits, c.nHash)
    ensures Decodes(h, t, vTxid, vMatch, bits, hashes, c)
    decreases t, 0
  {
    StandsSplit(DESCENDS, EncodeOn(h, t.child, vTxid, vMatch), bits, hashes, c.nBits, c.nHash);
    DecodesEncoded(h, t.child, vTxid, vMatch, bits, hashes, c.(nBits := c.nBits + 1));
  }

  lemma DecodesBoth(h: Hasher, t: Shape, vTxid: seq<Hash>, vMatch: seq<bool>, bits: seq<bool>, hashes: seq<Hash>, c: Cursor)
    requires t.Two? && NoTwins(h, t, vTxid)
    requires var left := EncodeOn(h, t.left, vTxid, vMatch);
             && StandsAt(left, bits, hashes, c.nBits, c.nHash)
             && StandsAt(EncodeOn(h, t.right, vTxid, vMatch), bits, hashes, c.nBits + |left.bits|, c.nHash + |left.hashes|)
    ensures Decodes(h, t.left, vTxid, vMatch, bits, hashes, c)
    ensures Decodes(h, t.right, vTxid, vMatch, bits, hashes, ExtractOn(h, bits, hashes, t.left, c).1)
    decreases t, 0
  {
    DecodesEncoded(h, t.left, vTxid, vMatch, bits, hashes, c);
    var c2 := After(c, EncodeOn(h, t.left, vTxid, vMatch), TxidsOn(t.left, vTxid, vMatch), IndicesOn(t.left, vMatch));
    DecodesEncoded(h, t.right, vTxid, vMatch, bits, hashes, c2);
  }

  lemma FirstBit(h: Hasher, t: Shape, vTxid: seq<Hash>, vMatch: seq<bool>, bits: seq<bool>, hashes: seq<Hash>, c: Cursor)
    requires !t.Leaf? && AnyMarked(t, vMatch)
    requires StandsAt(EncodeOn(h, t, vTxid, vMatch), bits, hashes, c.nBits, c.nHash)
    ensures c.nBits < |bits| && bits[c.nBits]
  {
    var code := EncodeOn(h, t, vTxid, vMatch);
    assert code.bits[0] && code.bits[0] == bits[c.nBits + 0];
  }

  // -------------------------------------------------------------------- size bounds

  /** At most one hash per leaf; one flag bit or more per hash. */
  lemma {:induction false} OneHashPerLeaf(h: Hasher, t: Shape, vTxid: seq<Hash>, vMatch: seq<bool>, lo: nat, hi: nat)
    requires Spans(t, lo, hi)
    ensures var code := EncodeOn(h, t, vTxid, vMatch); 1 <= |code.hashes| <= hi - lo && |code.hashes| <= |code.bits|
    decreases t
  {
    FirstLeafIsLo(t, lo, hi);
    if !t.Leaf? && AnyMarked(t, vMatch) {
      if t.One? {
        OneHashPerLeaf(h, t.child, vTxid, vMatch, lo, hi);
      } else {
        var mid: nat :| lo < mid < hi && Spans(t.left, lo, mid) && Spans(t.right, mid, hi);
        OneHashPerLeaf(h, t.left, vTxid, vMatch, lo, mid);
        OneHashPerLeaf(h, t.right, vTxid, vMatch, mid, hi);
      }
    }
  }

  /** At most 1 + matches * depth hashes. */
  lemma {:induction false} FewHashesPerMatch(h: Hasher, t: Shape, vTxid: seq<Hash>, vMatch: seq<bool>)
    ensures |EncodeOn(h, t, vTxid, vMatch).hashes| <= 1 + |IndicesOn(t, vMatch)| * Levels(t)
  {
    NothingMarked(t, vTxid, vMatch);
    if t.Leaf? || !AnyMarked(t, vMatch) {
      NotNegative(|IndicesOn(t, vMatch)|, Levels(t));
    } else if t.One? {
      FewHashesPerMatch(h, t.child, vTxid, vMatch);
      BoundAdds(|IndicesOn(t, vMatch)|, 0, Levels(t.child), 0, Levels(t.child));
    } else {
      FewHashesPerMatch(h, t.left, vTxid, vMatch);
      FewHashesPerMatch(h, t.right, vTxid, vMatch);
      BoundAdds(|IndicesOn(t.left, vMatch)|, |IndicesOn(t.right, vMatch)|, Levels(t.left), Levels(t.right), Levels(t) - 1);
    }
  }

  lemma NotNegative(a: nat, b: nat)
    ensures 0 <= a * b
  {
  }

  lemma BoundAdds(a: nat, b: nat, x: nat, y: nat, z: nat)
    requires x <= z && y <= z && a + b >= 1
    ensures (1 + a * x) + (1 + b * y) <= 1 + (a + b) * (z + 1)
  {
    MulMono(x, z, a);
    MulMono(y, z, b);
    assert (a + b) * (z + 1) == z * a + z * b + (a + b);
  }

  // ------------------------------------------------------------------ on whole lists

  /** The marked positions of a list, in order. */
  function MarkedIndices(vMatch: seq<bool>, lo: nat, hi: nat): seq<nat>
    requires lo <= hi <= |vMatch|
    decreases hi - lo
  {
    if lo == hi then [] else (if vMatch[lo] then [lo] else []) + MarkedIndices(vMatch, lo + 1, hi)
  }

  lemma {:induction false} MarkedSplit(vMatch: seq<bool>, lo: nat, mid: nat, hi: nat)
    requires lo <= mid <= hi <= |vMatch|
    ensures MarkedIndices(vMatch, lo, hi) == MarkedIndices(vMatch, lo, mid) + MarkedIndices(vMatch, mid, hi)
    decreases mid - lo
  {
    if lo < mid {
      MarkedSplit(vMatch, lo + 1, mid, hi);
    }
  }

  lemma {:induction false} IndicesFollow(t: Shape, vMatch: seq<bool>, lo: nat, hi: nat)
    requires Spans(t, lo, hi) && hi <= |vMatch|
    ensures lo < hi && IndicesOn(t, vMatch) == MarkedIndices(vMatch, lo, hi)
    decreases t
  {
    FirstLeafIsLo(t, lo, hi);
    match t
    case Leaf(_) => assert MarkedIndices(vMatch, hi, hi) == [];
    case One(child) => IndicesFollow(child, vMatch, lo, hi);
    case Two(left, right) =>
      var mid: nat :| lo < mid < hi && Spans(left, lo, mid) && Spans(right, mid, hi);
      IndicesFollow(left, vMatch, lo, mid);
      IndicesFollow(right, vMatch, mid, hi);
      MarkedSplit(vMatch, lo, mid, hi);
  }

  function MarkedTxids(vTxid: seq<Hash>, vMatch: seq<bool>, lo: nat, hi: nat): seq<Hash>
    requires lo <= hi <= |vMatch| == |vTxid|
    decreases hi - lo
  {
    if lo == hi then [] else (if vMatch[lo] then [vTxid[lo]] else []) + MarkedTxids(vTxid, vMatch, lo + 1, hi)
  }

  lemma {:induction false} MarkedTxidsSplit(vTxid: seq<Hash>, vMatch: seq<bool>, lo: nat, mid: nat, hi: nat)
    requires lo <= mid <= hi <= |vMatch| == |vTxid|
    ensures MarkedTxids(vTxid, vMatch, lo, hi) == MarkedTxids(vTxid, vMatch, lo, mid) + MarkedTxids(vTxid, vMatch, mid, hi)
    decreases mid - lo
  {
    if lo < mid {
      MarkedTxidsSplit(vTxid, vMatch, lo + 1, mid, hi);
    }
  }

  lemma {:induction false} TxidsFollow(t: Shape, vTxid: seq<Hash>, vMatch: seq<bool>, lo: nat, hi: nat)
    requires Spans(t, lo, hi) && hi <= |vMatch| == |vTxid|
    ensures lo < hi && TxidsOn(t, vTxid, vMatch) == MarkedTxids(vTxid, vMatch, lo, hi)
    decreases t
  {
    FirstLeafIsLo(t, lo, hi);
    match t
    case Leaf(_) => assert MarkedTxids(vTxid, vMatch, hi, hi) == [];
    case One(child) => TxidsFollow(child, vTxid, vMatch, lo, hi);
    case Two(left, right) =>
      var mid: nat :| lo < mid < hi && Spans(left, lo, mid) && Spans(right, mid, hi);
      TxidsFollow(left, vTxid, vMatch, lo, mid);
      TxidsFollow(right, vTxid, vMatch, mid, hi);
      MarkedTxidsSplit(vTxid, vMatch, lo, mid, hi);
  }

  /** ix are exactly the marked positions in [lo, hi), in increasing order, and tx
      the transactions there. */
  ghost predicate AreMarked(vTxid: seq<Hash>, vMatch: seq<bool>, lo: nat, hi: nat, ix: seq<nat>, tx: seq<Hash>)
    requires lo <= hi <= |vMatch| == |vTxid|
  {
    && |ix| == |tx|
    && (forall k :: 0 <= k < |ix| ==> lo <= ix[k] < hi && vMatch[ix[k]] && tx[k] == vTxid[ix[k]])
    && (forall j, k :: 0 <= j < k < |ix| ==> ix[j] < ix[k])
    && (forall i :: lo <= i < hi && vMatch[i] ==> i in ix)
  }

  /** So are the reference lists. */
  lemma {:induction false} MarkedIsExact(vTxid: seq<Hash>, vMatch: seq<bool>, lo: nat, hi: nat)
    requires lo <= hi <= |vMatch| == |vTxid|
    ensures AreMarked(vTxid, vMatch, lo, hi, MarkedIndices(vMatch, lo, hi), MarkedTxids(vTxid, vMatch, lo, hi))
    decreases hi - lo
  {
    if lo < hi {
      MarkedIsExact(vTxid, vMatch, lo + 1, hi);
      MoreMarks(vTxid, vMatch, lo, hi, MarkedIndices(vMatch, lo + 1, hi), MarkedTxids(vTxid, vMatch, lo + 1, hi));
      hide AreMarked;
    }
  }

  lemma MoreMarks(vTxid: seq<Hash>, vMatch: seq<bool>, lo: nat, hi: nat, ix: seq<nat>, tx: seq<Hash>)
    requires lo < hi <= |vMatch| == |vTxid| && AreMarked(vTxid, vMatch, lo + 1, hi, ix, tx)
    ensures AreMarked(vTxid, vMatch, lo, hi, (if vMatch[lo] then [lo] else []) + ix, (if vMatch[lo] then [vTxid[lo]] else []) + tx)
  {
    if vMatch[lo] {
      ConsMarks(vTxid, vMatch, lo, hi, ix, tx);
    } else {
      assert [] + ix == ix && [] + tx == tx;
    }
  }

  lemma ConsMarks(vTxid: seq<Hash>, vMatch: seq<bool>, lo: nat, hi: nat, ix: seq<nat>, tx: seq<Hash>)
    requires lo < hi <= |vMatch| == |vTxid| && AreMarked(vTxid, vMatch, lo + 1, hi, ix, tx) && vMatch[lo]
    ensures AreMarked(vTxid, vMatch, lo, hi, [lo] + ix, [vTxid[lo]] + tx)
  {
    var ix', tx' := [lo] + ix, [vTxid[lo]] + tx;
    forall k | 0 <= k < |ix'| ensures lo <= ix'[k] < hi && vMatch[ix'[k]] && tx'[k] == vTxid[ix'[k]] {
      assert k > 0 ==> ix'[k] == ix[k - 1] && tx'[k] == tx[k - 1];
    }
    forall j, k | 0 <= j < k < |ix'| ensures ix'[j] < ix'[k] {
      assert ix'[k] == ix[k - 1] && (j > 0 ==> ix'[j] == ix[j - 1]);
    }
    forall i | lo <= i < hi && vMatch[i] ensures i in ix' {
      assert i > lo ==> i in ix;
    }
  }

  /** The documented bounds on the number of stored hashes. */
  lemma StoredHashesAreBounded(h: Hasher, vTxid: seq<Hash>, vMatch: seq<bool>)
    requires vTxid != [] && |vMatch| == |vTxid|
    ensures First(Height(|vTxid|), 0) == 0
    ensures var code := Encode(h, Height(|vTxid|), 0, vTxid, vMatch);
            && |code.hashes| <= |vTxid| && |code.hashes| <= |code.bits|
            && |code.hashes| <= 1 + |MarkedIndices(vMatch, 0, |vTxid|)| * Height(|vTxid|)
  {
    var n := |vTxid|;
    RootCovers(n);
    TreeSpans(n);
    EncodeFollows(h, Height(n), 0, vTxid, vMatch);
    OneHashPerLeaf(h, TreeOf(n), vTxid, vMatch, 0, n);
    FewHashesPerMatch(h, TreeOf(n), vTxid, vMatch);
    IndicesFollow(TreeOf(n), vMatch, 0, n);
  }

  /** Merkle-proof completeness.  For any list of distinct transactions within the
      size limit and any mask: encoding, packing the bits into bytes, unpacking
      them and extracting gives the true root and exactly the marked transactions
      with their positions, in order -- or the list's own tree contains a collision,
      and TwinClash finds it. */
  lemma Completeness(h: Hasher, vTxid: seq<Hash>, vMatch: seq<bool>)
    requires 0 < |vTxid| <= MAX_BLOCK_BASE_SIZE / 60 && |vMatch| == |vTxid| && Distinct(vTxid)
    ensures First(Height(|vTxid|), 0) == 0
    ensures var code := Encode(h, Height(|vTxid|), 0, vTxid, vMatch);
            var (root, c) := ExtractResult(h, |vTxid|, Padded(code.bits), code.hashes, [], false);
            Collides(h, TwinClash(h, TreeOf(|vTxid|), vTxid)) ||
              (root == MerkleRoot(h, vTxid) && !c.bad && c.nHash == |code.hashes|
               && c.index == MarkedIndices(vMatch, 0, |vTxid|) && c.match_ == MarkedTxids(vTxid, vMatch, 0, |vTxid|))
  {
    var n := |vTxid|;
    RootCovers(n);
    StoredHashesAreBounded(h, vTxid, vMatch);
    ExtractsEncoded(h, vTxid, vMatch);
  }

  lemma ExtractsEncoded(h: Hasher, vTxid: seq<Hash>, vMatch: seq<bool>)
    requires vTxid != [] && |vMatch| == |vTxid| && Distinct(vTxid) && First(Height(|vTxid|), 0) == 0
    ensures Collides(h, TwinClash(h, TreeOf(|vTxid|), vTxid)) ||
            var code := Encode(h, Height(|vTxid|), 0, vTxid, vMatch);
            Extract(h, |vTxid|, Padded(code.bits), code.hashes, Height(|vTxid|), 0, Cursor(0, 0, [], [], false))
            == (MerkleRoot(h, vTxid), Cursor(|code.bits|, |code.hashes|, MarkedTxids(vTxid, vMatch, 0, |vTxid|),
                                             MarkedIndices(vMatch, 0, |vTxid|), false))
  {
    var n, t := |vTxid|, TreeOf(|vTxid|);
    TreeSpans(n);
    var code := Encode(h, Height(n), 0, vTxid, vMatch);
    EncodeFollows(h, Height(n), 0, vTxid, vMatch);
    CalcHashFollows(h, Height(n), 0, vTxid);
    ExtractFollows(h, n, Padded(code.bits), code.hashes, Height(n), 0, Cursor(0, 0, [], [], false));
    if !Collides(h, TwinClash(h, t, vTxid)) {
      DecodesTree(h, t, vTxid, vMatch, code);
    }
    IndicesFollow(t, vMatch, 0, n);
    TxidsFollow(t, vTxid, vMatch, 0, n);
  }

  lemma DecodesTree(h: Hasher, t: Shape, vTxid: seq<Hash>, vMatch: seq<bool>, code: Code)
    requires vTxid != [] && Distinct(vTxid) && !Collides(h, TwinClash(h, t, vTxid))
    requires t == TreeOf(|vTxid|) && code == EncodeOn(h, t, vTxid, vMatch)
    ensures ExtractOn(h, Padded(code.bits), code.hashes, t, Cursor(0, 0, [], [], false))
         == (HashOn(h, t, vTxid), Cursor(|code.bits|, |code.hashes|, TxidsOn(t, vTxid, vMatch), IndicesOn(t, vMatch), false))
  {
    hide ExtractOn;
    hide EncodeOn;
    hide HashOn;
    hide TwinClash;
    hide NoTwins;
    hide TxidsOn;
    hide IndicesOn;
    hide ShapeOf;
    hide Spans;
    hide Distinct;
    var n := |vTxid|;
    TreeSpans(n);
    ShapeIsEven(n, Height(n), 0);
    DistinctHaveNoTwins(h, t, Height(n), vTxid, 0, n);
    DecodesEncoded(h, t, vTxid, vMatch, Padded(code.bits), code.hashes, Cursor(0, 0, [], [], false));
    var txids, index := TxidsOn(t, vTxid, vMatch), IndicesOn(t, vMatch);
    assert [] + txids == txids && [] + index == index;
  }
}
