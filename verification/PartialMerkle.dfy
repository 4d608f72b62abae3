/**
 Partial Merkle trees: the depth-first encoding of a marked subset of the
 transactions, its decoder, and the bit packing of the wire format ("Partial
 Merkle branch format" of BIP 37).
 */
module PartialMerkle {
  import opened MerkleTree

  const MAX_BLOCK_BASE_SIZE: nat := 1_000_000

  // ------------------------------------------------------------------- the encoder

  predicate AnyMatch(vMatch: seq<bool>, lo: nat, hi: nat)
    requires hi <= |vMatch|
  {
    exists p :: lo <= p < hi && vMatch[p]
  }

  datatype Code = Code(bits: seq<bool>, hashes: seq<Hash>)

  function Append(a: Code, b: Code): Code {
    Code(a.bits + b.bits, a.hashes + b.hashes)
  }

  lemma AppendAssociates(a: Code, b: Code, c: Code)
    ensures Append(Append(a, b), c) == Append(a, Append(b, c))
  {
    assert a.bits + b.bits + c.bits == a.bits + (b.bits + c.bits);
    assert a.hashes + b.hashes + c.hashes == a.hashes + (b.hashes + c.hashes);
  }

  const DESCENDS := Code([true], [])

  function Encode(h: Hasher, height: nat, pos: nat, vTxid: seq<Hash>, vMatch: seq<bool>): Code
    requires |vMatch| == |vTxid| && First(height, pos) < |vTxid|
  {
    FirstBelowLast(|vTxid|, height, pos);
    var fParentOfMatch := AnyMatch(vMatch, First(height, pos), Last(|vTxid|, height, pos));
    if height == 0 || !fParentOfMatch then
      Code([fParentOfMatch], [CalcHash(h, height, pos, vTxid)])
    else
      Descend(|vTxid|, height, pos);
      var left := Encode(h, height - 1, pos * 2, vTxid, vMatch);
      if pos * 2 + 1 < Width(|vTxid|, height - 1) then
        var right := Encode(h, height - 1, pos * 2 + 1, vTxid, vMatch);
        Append(DESCENDS, Append(left, right))
      else
        Append(DESCENDS, left)
  }

  // ------------------------------------------------------------------- the decoder

  /** The decoder's running state: how much of the input it has used, what it has
      found, and whether something was wrong. */
  datatype Cursor = Cursor(nBits: nat, nHash: nat, match_: seq<Hash>, index: seq<nat>, bad: bool)

  function Extract(h: Hasher, n: nat, bits: seq<bool>, hashes: seq<Hash>, height: nat, pos: nat, c: Cursor): (Hash, Cursor)
    decreases height
  {
    if c.nBits >= |bits| then (ZERO, c.(bad := true))
    else
      var fParentOfMatch := bits[c.nBits];
      var c1 := c.(nBits := c.nBits + 1);
      if height == 0 || !fParentOfMatch then
        if c1.nHash >= |hashes| then (ZERO, c1.(bad := true))
        else
          var hash := hashes[c1.nHash];
          var c2 := c1.(nHash := c1.nHash + 1);
          (hash, if height == 0 && fParentOfMatch then c2.(match_ := c2.match_ + [hash], index := c2.index + [pos]) else c2)
      else
        var (left, c2) := Extract(h, n, bits, hashes, height - 1, pos * 2, c1);
        if pos * 2 + 1 < Width(n, height - 1) then
          var (right, c3) := Extract(h, n, bits, hashes, height - 1, pos * 2 + 1, c2);
          (h(left, right), if right == left then c3.(bad := true) else c3)
        else
          (h(left, left), c2)
  }

  /** What ExtractMatches returns, with the index list and fBad it leaves behind. */
  function ExtractResult(h: Hasher, n: nat, bits: seq<bool>, hashes: seq<Hash>, index: seq<nat>, bad: bool): (Hash, Cursor) {
    var start := Cursor(0, 0, [], index, bad);
    if n == 0 || n > MAX_BLOCK_BASE_SIZE / 60 || |hashes| > n || |bits| < |hashes| then (ZERO, start)
    else
      var (root, c) := Extract(h, n, bits, hashes, Height(n), 0, start);
      if c.bad || (c.nBits + 7) / 8 != (|bits| + 7) / 8 || c.nHash != |hashes| then (ZERO, c) else (root, c)
  }

  // ------------------------------------------------------------------ the bit packing

  function Bit(b: bv8, i: nat): bool
    requires i < 8
  {
    b & ((1 as bv8) << i) != 0
  }

  lemma SetBit(b: bv8, i: nat, j: nat)
    requires i < 8 && j < 8
    ensures Bit(b | ((1 as bv8) << i), j) <==> i == j || Bit(b, j)
  {
  }

  method PackBits(vBits: seq<bool>) returns (vBytes: seq<bv8>)
    ensures |vBytes| == (|vBits| + 7) / 8
    ensures forall p :: 0 <= p < 8 * |vBytes| ==> (Bit(vBytes[p / 8], p % 8) <==> p < |vBits| && vBits[p])
  {
    vBytes := seq((|vBits| + 7) / 8, _ => 0);
    for p := 0 to |vBits|
      invariant |vBytes| == (|vBits| + 7) / 8
      invariant forall q :: 0 <= q < 8 * |vBytes| ==> (Bit(vBytes[q / 8], q % 8) <==> q < p && vBits[q])
    {
      ghost var before := vBytes;
      if vBits[p] {
        vBytes := vBytes[p / 8 := vBytes[p / 8] | ((1 as bv8) << (p % 8))];
      }
      forall q | 0 <= q < 8 * |vBytes| ensures Bit(vBytes[q / 8], q % 8) <==> q < p + 1 && vBits[q] {
        if q / 8 == p / 8 {
          SetBit(before[p / 8], p % 8, q % 8);
        }
      }
    }
  }

  method UnpackBits(vBytes: seq<bv8>) returns (vBits: seq<bool>)
    ensures |vBits| == 8 * |vBytes|
    ensures forall p :: 0 <= p < |vBits| ==> (vBits[p] <==> Bit(vBytes[p / 8], p % 8))
  {
    vBits := seq(8 * |vBytes|, _ => false);
    for p := 0 to |vBits|
      invariant |vBits| == 8 * |vBytes|
      invariant forall q :: 0 <= q < p ==> (vBits[q] <==> Bit(vBytes[q / 8], q % 8))
    {
      vBits := vBits[p := Bit(vBytes[p / 8], p % 8)];
    }
  }

  /** What is read back after packing: the bits, padded to whole bytes. */
  function Padded(bits: seq<bool>): (r: seq<bool>)
    ensures |r| == (|bits| + 7) / 8 * 8 && bits <= r
  {
    bits + seq((|bits| + 7) / 8 * 8 - |bits|, _ => false)
  }

  /** Writing and reading the flag bits gives them back with padding. */
  method BitsRoundTrip(vBits: seq<bool>) returns (vBytes: seq<bv8>, back: seq<bool>)
    ensures |vBytes| == (|vBits| + 7) / 8
    ensures back == Padded(vBits)
  {
    vBytes := PackBits(vBits);
    back := UnpackBits(vBytes);
  }

  /** The scan over the leaves below a node. */
  method ParentOfMatch(n: nat, height: nat, pos: nat, vMatch: seq<bool>) returns (found: bool)
    requires |vMatch| == n && First(height, pos) < n
    ensures found <==> AnyMatch(vMatch, First(height, pos), Last(n, height, pos))
  {
    FirstBelowLast(n, height, pos);
    found := false;
    var p := First(height, pos);
    while p < First(height, pos + 1) && p < n
      invariant First(height, pos) <= p <= Last(n, height, pos)
      invariant found <==> AnyMatch(vMatch, First(height, pos), p)
      decreases n - p
    {
      found := found || vMatch[p];
      p := p + 1;
    }
  }

  // ------------------------------------------------------------------------ the class

  class CPartialMerkleTree {
    const h: Hasher
    var nTransactions: nat
    var vBits: seq<bool>
    var vHash: seq<Hash>
    var fBad: bool

    constructor Build(hasher: Hasher, vTxid: seq<Hash>, vMatchIn: seq<bool>)
      requires vTxid != [] && |vMatchIn| == |vTxid|
      ensures nTransactions == |vTxid| && !fBad && h == hasher
      ensures First(Height(|vTxid|), 0) == 0
      ensures Code(vBits, vHash) == Encode(hasher, Height(|vTxid|), 0, vTxid, vMatchIn)
    {
      h, nTransactions, fBad, vBits, vHash := hasher, |vTxid|, false, [], [];
      new;
      var nHeight := CalcHeight(nTransactions);
      TopIsUnique(nTransactions, nHeight, Height(nTransactions));
      RootCovers(nTransactions);
      TraverseAndBuild(nHeight, 0, vTxid, vMatchIn);
    }

    /** What deserialization leaves: arbitrary contents, fBad reset. */
    constructor Read(hasher: Hasher, n: nat, hashes: seq<Hash>, vBytes: seq<bv8>)
      ensures nTransactions == n && vHash == hashes && !fBad && h == hasher
      ensures |vBits| == 8 * |vBytes| && forall p :: 0 <= p < |vBits| ==> (vBits[p] <==> Bit(vBytes[p / 8], p % 8))
    {
      h, nTransactions, vHash, fBad, vBits := hasher, n, hashes, false, [];
      new;
      vBits := UnpackBits(vBytes);
    }

    method TraverseAndBuild(height: nat, pos: nat, vTxid: seq<Hash>, vMatchIn: seq<bool>)
      requires |vMatchIn| == |vTxid| == nTransactions && First(height, pos) < nTransactions
      modifies `vBits, `vHash
      ensures Code(vBits, vHash) == Append(old(Code(vBits, vHash)), Encode(h, height, pos, vTxid, vMatchIn))
      decreases height
    {
      FirstBelowLast(nTransactions, height, pos);
      var fParentOfMatch := ParentOfMatch(nTransactions, height, pos, vMatchIn);
      vBits := vBits + [fParentOfMatch];
      if height == 0 || !fParentOfMatch {
        vHash := vHash + [CalcHash(h, height, pos, vTxid)];
      } else {
        Descend(nTransactions, height, pos);
        ghost var start := old(Code(vBits, vHash));
        assert Code(vBits, vHash) == Append(start, DESCENDS);
        TraverseAndBuild(height - 1, pos * 2, vTxid, vMatchIn);
        ghost var left := Encode(h, height - 1, pos * 2, vTxid, vMatchIn);
        AppendAssociates(start, DESCENDS, left);
        WidthIsShift(nTransactions, height - 1);
        if pos * 2 + 1 < CalcTreeWidth(nTransactions, height - 1) {
          TraverseAndBuild(height - 1, pos * 2 + 1, vTxid, vMatchIn);
          ghost var right := Encode(h, height - 1, pos * 2 + 1, vTxid, vMatchIn);
          AppendAssociates(start, Append(DESCENDS, left), right);
          AppendAssociates(DESCENDS, left, right);
        }
      }
    }

    method TraverseAndExtract(height: nat, pos: nat, nBitsUsed: nat, nHashUsed: nat, vMatch: seq<Hash>, vnIndex: seq<nat>)
      returns (hash: Hash, nBits: nat, nHash: nat, vMatch': seq<Hash>, vnIndex': seq<nat>)
      modifies `fBad
      ensures (hash, Cursor(nBits, nHash, vMatch', vnIndex', fBad))
           == Extract(h, nTransactions, vBits, vHash, height, pos, Cursor(nBitsUsed, nHashUsed, vMatch, vnIndex, old(fBad)))
      decreases height
    {
      nBits, nHash, vMatch', vnIndex' := nBitsUsed, nHashUsed, vMatch, vnIndex;
      if nBits >= |vBits| {
        fBad := true;
        hash := ZERO;
        return;
      }
      var fParentOfMatch := vBits[nBits];
      nBits := nBits + 1;
      if height == 0 || !fParentOfMatch {
        if nHash >= |vHash| {
          fBad := true;
          hash := ZERO;
          return;
        }
        hash := vHash[nHash];
        nHash := nHash + 1;
        if height == 0 && fParentOfMatch {
          vMatch', vnIndex' := vMatch' + [hash], vnIndex' + [pos];
        }
      } else {
        var left, right;
        left, nBits, nHash, vMatch', vnIndex' := TraverseAndExtract(height - 1, pos * 2, nBits, nHash, vMatch', vnIndex');
        WidthIsShift(nTransactions, height - 1);
        if pos * 2 + 1 < CalcTreeWidth(nTransactions, height - 1) {
          right, nBits, nHash, vMatch', vnIndex' := TraverseAndExtract(height - 1, pos * 2 + 1, nBits, nHash, vMatch', vnIndex');
          if right == left {
            fBad := true;
          }
        } else {
          right := left;
        }
        hash := h(left, right);
      }
    }

    method ExtractMatches(vnIndex: seq<nat>) returns (root: Hash, vMatch: seq<Hash>, vnIndex': seq<nat>)
      modifies `fBad
      ensures var (r, c) := ExtractResult(h, nTransactions, vBits, vHash, vnIndex, old(fBad));
              root == r && vMatch == c.match_ && vnIndex' == c.index && fBad == c.bad
    {
      vMatch, vnIndex' := [], vnIndex;
      if nTransactions == 0 || nTransactions > MAX_BLOCK_BASE_SIZE / 60 || |vHash| > nTransactions || |vBits| < |vHash| {
        return ZERO, vMatch, vnIndex';
      }
      var nHeight := CalcHeight(nTransactions);
      TopIsUnique(nTransactions, nHeight, Height(nTransactions));
      var nBitsUsed, nHashUsed;
      root, nBitsUsed, nHashUsed, vMatch, vnIndex' := TraverseAndExtract(nHeight, 0, 0, 0, vMatch, vnIndex');
      if fBad || (nBitsUsed + 7) / 8 != (|vBits| + 7) / 8 || nHashUsed != |vHash| {
        root := ZERO;
      }
    }
  }
}
