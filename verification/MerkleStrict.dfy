/**
 An accepted partial Merkle tree has nothing to spare: all of it is used, and with
 anything added to it, it is refused.
 */
module MerkleStrict {
  import opened MerkleTree
  import opened PartialMerkle

  /** The decoder moves forward within its input, and a problem stays a problem. */
  lemma {:induction false} ExtractMoves(h: Hasher, n: nat, bits: seq<bool>, hashes: seq<Hash>, height: nat, pos: nat, c: Cursor)
    requires c.nBits <= |bits| && c.nHash <= |hashes|
    ensures var c' := Extract(h, n, bits, hashes, height, pos, c).1;
            c.nBits <= c'.nBits <= |bits| && c.nHash <= c'.nHash <= |hashes| && (c.bad ==> c'.bad)
    decreases height
  {
    if c.nBits < |bits| && height > 0 && bits[c.nBits] {
      var c1 := c.(nBits := c.nBits + 1);
      ExtractMoves(h, n, bits, hashes, height - 1, pos * 2, c1);
      var c2 := Extract(h, n, bits, hashes, height - 1, pos * 2, c1).1;
      ExtractMoves(h, n, bits, hashes, height - 1, pos * 2 + 1, c2);
    }
  }

  /** A non-zero root has used every hash, and every bit but the padding of a byte. */
  lemma UsesEverything(h: Hasher, n: nat, bits: seq<bool>, hashes: seq<Hash>, index: seq<nat>, bad: bool)
    requires ExtractResult(h, n, bits, hashes, index, bad).0 != ZERO
    ensures var c := ExtractResult(h, n, bits, hashes, index, bad).1;
            !bad && !c.bad && c.nHash == |hashes| && c.nBits <= |bits| < c.nBits + 8 && 0 < n <= MAX_BLOCK_BASE_SIZE / 60
  {
    ExtractMoves(h, n, bits, hashes, Height(n), 0, Cursor(0, 0, [], index, bad));
  }

  /** What follows the part that is used makes no difference to the traversal. */
  lemma {:induction false} ExtractIgnoresRest(h: Hasher, n: nat, bits: seq<bool>, hashes: seq<Hash>, moreBits: seq<bool>, moreHashes: seq<Hash>, height: nat, pos: nat, c: Cursor)
    requires c.nBits <= |bits| && c.nHash <= |hashes| && !Extract(h, n, bits, hashes, height, pos, c).1.bad
    ensures Extract(h, n, bits + moreBits, hashes + moreHashes, height, pos, c) == Extract(h, n, bits, hashes, height, pos, c)
    decreases height
  {
    if height > 0 && bits[c.nBits] {
      var c1 := c.(nBits := c.nBits + 1);
      var c2 := Extract(h, n, bits, hashes, height - 1, pos * 2, c1).1;
      ExtractMoves(h, n, bits, hashes, height - 1, pos * 2, c1);
      ExtractMoves(h, n, bits, hashes, height - 1, pos * 2 + 1, c2);
      if pos * 2 + 1 < Width(n, height - 1) {
        ExtractIgnoresRest(h, n, bits, hashes, moreBits, moreHashes, height - 1, pos * 2 + 1, c2);
      }
      ExtractIgnoresRest(h, n, bits, hashes, moreBits, moreHashes, height - 1, pos * 2, c1);
    }
  }

  /** So nothing can be added to an accepted proof: not a hash, and not as many bits as
      make another byte. */
  lemma NothingCanBeAdded(h: Hasher, n: nat, bits: seq<bool>, hashes: seq<Hash>, index: seq<nat>, moreBits: seq<bool>, moreHashes: seq<Hash>)
    requires ExtractResult(h, n, bits, hashes, index, false).0 != ZERO
    requires moreHashes != [] || |moreBits| >= 8
    ensures ExtractResult(h, n, bits + moreBits, hashes + moreHashes, index, false).0 == ZERO
  {
    UsesEverything(h, n, bits, hashes, index, false);
    ExtractIgnoresRest(h, n, bits, hashes, moreBits, moreHashes, Height(n), 0, Cursor(0, 0, [], index, false));
  }
}
