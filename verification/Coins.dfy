/**
 The unspent outputs of one transaction, and the entry that a cache keeps for it.
 */
module Coins {
  import opened Radix

  type Txid = nat
  type BlockHash = nat
  const NULL_HASH: BlockHash := 0

  datatype TxOut = TxOut(nValue: int, scriptPubKey: seq<Byte>)
  const NULL_OUT := TxOut(-1, [])

  datatype Coins = Coins(fCoinBase: bool, vout: seq<TxOut>, nHeight: int, nVersion: int)
  const CLEARED := Coins(false, [], 0, 0)

  predicate IsNull(out: TxOut) {
    out.nValue == -1
  }

  /** Whether every output is spent. */
  predicate IsPruned(c: Coins) {
    forall i :: 0 <= i < |c.vout| ==> IsNull(c.vout[i])
  }

  predicate IsAvailable(c: Coins, nPos: nat) {
    nPos < |c.vout| && !IsNull(c.vout[nPos])
  }

  /** No spent output at the end of vout. */
  predicate IsClean(c: Coins) {
    |c.vout| > 0 ==> !IsNull(c.vout[|c.vout| - 1])
  }

  function Trimmed(vout: seq<TxOut>): seq<TxOut> {
    if |vout| > 0 && IsNull(vout[|vout| - 1]) then Trimmed(vout[..|vout| - 1]) else vout
  }

  function Cleaned(c: Coins): Coins {
    c.(vout := Trimmed(c.vout))
  }

  /** Cleanup drops spent outputs from the end and nothing else: what is left is a
      prefix, every unspent output is in it, and a cleaned value is pruned exactly
      when its vout is empty. */
  lemma {:induction false} CleanedKeepsOutputs(c: Coins)
    ensures IsClean(Cleaned(c)) && Cleaned(c).vout <= c.vout
    ensures forall i: nat :: IsAvailable(c, i) <==> IsAvailable(Cleaned(c), i)
    ensures IsPruned(c) <==> Cleaned(c).vout == []
    decreases |c.vout|
  {
    if |c.vout| > 0 && IsNull(c.vout[|c.vout| - 1]) {
      var shorter := c.(vout := c.vout[..|c.vout| - 1]);
      CleanedKeepsOutputs(shorter);
      assert forall i: nat :: IsAvailable(c, i) <==> IsAvailable(shorter, i);
      assert IsPruned(c) <==> IsPruned(shorter) by {
        if IsPruned(shorter) {
          forall i | 0 <= i < |c.vout| ensures IsNull(c.vout[i]) {
            if i < |c.vout| - 1 {
              assert shorter.vout[i] == c.vout[i];
            }
          }
        }
      }
    }
  }

  /** The loop of CCoins::Cleanup. */
  method Cleanup(c: Coins) returns (r: Coins)
    ensures r == Cleaned(c)
  {
    var vout := c.vout;
    while |vout| > 0 && IsNull(vout[|vout| - 1])
      invariant Trimmed(vout) == Trimmed(c.vout)
      decreases |vout|
    {
      vout := vout[..|vout| - 1];
    }
    r := c.(vout := vout);
  }

  /** CCoins::Spend: one available output goes, all others stay. */
  method Spend(c: Coins, nPos: nat) returns (ok: bool, r: Coins)
    ensures ok <==> IsAvailable(c, nPos)
    ensures ok ==> IsClean(r) && forall i: nat :: IsAvailable(r, i) <==> IsAvailable(c, i) && i != nPos
    ensures ok ==> forall i: nat :: IsAvailable(r, i) ==> i < |c.vout| && r.vout[i] == c.vout[i]
    ensures !ok ==> r == c
  {
    if nPos >= |c.vout| || IsNull(c.vout[nPos]) {
      return false, c;
    }
    var spent := c.(vout := c.vout[nPos := NULL_OUT]);
    r := Cleanup(spent);
    CleanedKeepsOutputs(spent);
    ok := true;
  }

  /** A cache entry with its DIRTY and FRESH flags. */
  datatype Entry = Entry(coins: Coins, isDirty: bool, isFresh: bool)
}
