/**
 The best block along runs of cache operations, at every level of the stack.
 */
module CoinsBest {
  import opened Wrappers
  import opened Coins
  import opened CoinsCache
  import opened CoinsRuns

  /** One best block per level, top first. */
  type Bests = seq<BlockHash>

  function PlainBest(b: Bests, op: Op): Bests {
    match op
    case SetBestTo(hash) => if |b| > 0 then b[0 := hash] else b
    case FlushAt(d) => if d + 1 < |b| then b[d + 1 := b[d]] else b
    case Push => if |b| > 0 then [b[0]] + b else b
    case Discard => if |b| > 0 then b[1..] else b
    case _ => b
  }

  ghost predicate BestAgree(v: View, b: Bests) {
    |b| == Depth(v) + 1 && forall d :: 0 <= d < |b| ==> BestBlock(Sub(v, d)) == b[d]
  }

  /** A flush does not hand down null to a cache that knows more than the one below
      it, and the best block is not set to null. */
  predicate KeepsBest(v: View, op: Op)
    requires Legal(v, op)
  {
    match op
    case SetBestTo(hash) => hash != NULL_HASH || BestBlock(v.base) == NULL_HASH
    case FlushAt(d) => SubIsCache(v, d); HandsDown(Sub(v, d))
    case _ => true
  }

  predicate HandsDown(v: View)
    requires v.Cache?
  {
    v.base.Db? || v.hashBlock != NULL_HASH || BestBlock(v.base.base) == BestBlock(v.base)
  }

  // --------------------------------------------------------------- changing a level

  /** Every level has the same best block. */
  ghost predicate SameBests(v: View, w: View) {
    Depth(v) == Depth(w) && forall k :: 0 <= k <= Depth(v) ==> BestBlock(Sub(v, k)) == BestBlock(Sub(w, k))
  }

  lemma SameBestsAgree(v: View, w: View, b: Bests)
    requires BestAgree(v, b) && SameBests(w, v)
    ensures BestAgree(w, b)
  {
    forall d | 0 <= d < |b| ensures BestBlock(Sub(w, d)) == b[d] {
      assert BestBlock(Sub(w, d)) == BestBlock(Sub(v, d));
    }
  }

  /** A new top on levels with the same best blocks. */
  lemma NewTop(v: View, w: View)
    requires v.Cache? && w.Cache? && SameBests(w.base, v.base) && w.hashBlock == v.hashBlock
    ensures SameBests(w, v)
  {
    assert BestBlock(Sub(w.base, 0)) == BestBlock(Sub(v.base, 0));
    forall k | 0 <= k <= Depth(v) ensures BestBlock(Sub(w, k)) == BestBlock(Sub(v, k)) {
      if k > 0 {
        assert BestBlock(Sub(w.base, k - 1)) == BestBlock(Sub(v.base, k - 1));
      }
    }
  }

  lemma {:induction false} ReplaceBests(v: View, d: nat, w: View)
    requires d <= Depth(v) && SameBests(w, Sub(v, d))
    ensures SameBests(Replace(v, d, w), v)
  {
    if d > 0 {
      ReplaceBests(v.base, d - 1, w);
      NewTop(v, Replace(v, d, w));
    }
  }

  lemma {:induction false} FetchBests(v: View, txid: Txid)
    ensures SameBests(Fetch(v, txid), v)
  {
    if v.Cache? && txid !in v.entries {
      FetchBests(v.base, txid);
      NewTop(v, Fetch(v, txid));
    }
  }

  lemma {:induction false} GetBestBests(v: View)
    ensures SameBests(GetBest(v), v)
  {
    if v.Cache? && v.hashBlock == NULL_HASH {
      GetBestBests(v.base);
      var w := GetBest(v);
      assert BestBlock(Sub(w.base, 0)) == BestBlock(Sub(v.base, 0));
      forall k | 0 <= k <= Depth(v) ensures BestBlock(Sub(w, k)) == BestBlock(Sub(v, k)) {
        if k > 0 {
          assert BestBlock(Sub(w.base, k - 1)) == BestBlock(Sub(v.base, k - 1));
        }
      }
    }
  }

  // ------------------------------------------------------------------------ a flush

  /** Replacing level d by w, of which only its base has another best block. */
  lemma {:induction false} ReplaceBelow(v: View, d: nat, w: View, b: Bests)
    requires d < Depth(v) && BestAgree(v, b) && w.Cache? && Depth(w) == Depth(v) - d && BestBlock(w) == b[d] == BestBlock(w.base)
    requires forall k :: 2 <= k <= Depth(w) ==> BestBlock(Sub(w, k)) == b[d + k]
    ensures BestAgree(Replace(v, d, w), b[d + 1 := b[d]])
    decreases d
  {
    var r, b' := Replace(v, d, w), b[d + 1 := b[d]];
    if d == 0 {
      forall k | 0 <= k < |b'| ensures BestBlock(Sub(w, k)) == b'[k] {
        if k == 1 {
          assert Sub(w, 1) == w.base;
        } else if k >= 2 {
          assert BestBlock(Sub(w, k)) == b[0 + k];
        }
      }
    } else {
      assert BestAgree(v.base, b[1..]) by {
        forall k | 0 <= k < |b| - 1 ensures BestBlock(Sub(v.base, k)) == b[1..][k] {
          assert BestBlock(Sub(v, k + 1)) == b[k + 1];
        }
      }
      forall k | 2 <= k <= Depth(w) ensures BestBlock(Sub(w, k)) == b[1..][d - 1 + k] {
        assert BestBlock(Sub(w, k)) == b[d + k];
      }
      ReplaceBelow(v.base, d - 1, w, b[1..]);
      assert b[1..][d := b[1..][d - 1]] == b'[1..];
      assert BestBlock(Sub(v, 0)) == b[0] && BestBlock(Sub(v, 1)) == b[1];
      assert BestBlock(Sub(r.base, 0)) == b'[1..][0];
      forall k | 0 <= k < |b'| ensures BestBlock(Sub(r, k)) == b'[k] {
        if k > 0 {
          assert BestBlock(Sub(r.base, k - 1)) == b'[1..][k - 1];
        }
      }
    }
  }

  lemma FlushBests(v: View, b: Bests, d: nat)
    requires BestAgree(v, b) && Legal(v, FlushAt(d))
    ensures BestAgree(Apply(v, FlushAt(d)), PlainBest(b, FlushAt(d))) <==> KeepsBest(v, FlushAt(d))
  {
    SubIsCache(v, d);
    var u := Sub(v, d);
    var w := Flush(u);
    FlushBestBlock(u);
    assert BestBlock(u) == b[d];
    if HandsDown(u) {
      forall k | 2 <= k <= Depth(w) ensures BestBlock(Sub(w, k)) == b[d + k] {
        assert Sub(w, k) == Sub(w.base.base, k - 2) == Sub(u.base.base, k - 2) == Sub(u, k);
        SubSub(v, d, k);
        assert BestBlock(Sub(v, d + k)) == b[d + k];
      }
      ReplaceBelow(v, d, w, b);
    } else {
      ReplacedAt(v, d, w);
      assert BestBlock(Sub(Replace(v, d, w), d)) != b[d];
    }
  }

  lemma {:induction false} ReplacedAt(v: View, d: nat, w: View)
    requires d <= Depth(v) && Depth(w) == Depth(v) - d
    ensures Depth(Replace(v, d, w)) == Depth(v) && Sub(Replace(v, d, w), d) == w
  {
    if d > 0 {
      ReplacedAt(v.base, d - 1, w);
    }
  }

  // ------------------------------------------------------------------------ any run

  lemma SetBests(v: View, b: Bests, hash: BlockHash)
    requires BestAgree(v, b) && v.Cache?
    ensures BestAgree(SetBest(v, hash), b[0 := hash]) <==> hash != NULL_HASH || BestBlock(v.base) == NULL_HASH
  {
    var w, b' := SetBest(v, hash), b[0 := hash];
    assert Sub(w, 0) == w;
    forall k | 0 < k < |b'| ensures BestBlock(Sub(w, k)) == b'[k] {
      assert BestBlock(Sub(v, k)) == b[k];
    }
  }

  /** Every operation does to the best blocks what it does to the plain list, exactly
      if it keeps the best block. */
  lemma BestStepAgrees(v: View, b: Bests, op: Op)
    requires BestAgree(v, b) && Legal(v, op)
    ensures BestAgree(Apply(v, op), PlainBest(b, op)) <==> KeepsBest(v, op)
  {
    match op
    case FetchAt(d, txid) =>
      FetchBests(Sub(v, d), txid);
      ReplaceBests(v, d, Fetch(Sub(v, d), txid));
      SameBestsAgree(v, Apply(v, op), b);
    case BestAt(d) =>
      GetBestBests(Sub(v, d));
      ReplaceBests(v, d, GetBest(Sub(v, d)));
      SameBestsAgree(v, Apply(v, op), b);
    case SetBestTo(hash) => SetBests(v, b, hash);
    case UncacheAt(d, txid) =>
      SubIsCache(v, d);
      NewTop(Sub(v, d), Uncache(Sub(v, d), txid));
      ReplaceBests(v, d, Uncache(Sub(v, d), txid));
      SameBestsAgree(v, Apply(v, op), b);
    case FlushAt(d) => FlushBests(v, b, d);
    case Modify(txid) =>
      FetchBests(v.base, txid);
      NewTop(v, BeginModify(v, txid));
      SameBestsAgree(v, Apply(v, op), b);
    case ModifyNew(txid, coinbase) =>
      NewTop(v, BeginNew(v, txid, coinbase));
      SameBestsAgree(v, Apply(v, op), b);
    case End(txid, coins) =>
      NewTop(v, EndModify(v, coins));
      SameBestsAgree(v, Apply(v, op), b);
    case Push => PushBests(v, b);
    case Discard => DiscardBests(v, b);
  }

  lemma PushBests(v: View, b: Bests)
    requires BestAgree(v, b)
    ensures BestAgree(Cache(v, map[], NULL_HASH, None), [b[0]] + b)
  {
    var w := Cache(v, map[], NULL_HASH, None);
    forall k | 0 <= k < |b| + 1 ensures BestBlock(Sub(w, k)) == ([b[0]] + b)[k] {
      var d := if k == 0 then 0 else k - 1;
      assert BestBlock(Sub(v, d)) == b[d];
    }
  }

  lemma DiscardBests(v: View, b: Bests)
    requires BestAgree(v, b) && v.Cache?
    ensures BestAgree(v.base, b[1..])
  {
    forall k | 0 <= k < |b| - 1 ensures BestBlock(Sub(v.base, k)) == b[1..][k] {
      assert BestBlock(Sub(v, k + 1)) == b[k + 1];
    }
  }

  ghost predicate AllKeepBest(v: View, ops: seq<Op>)
    requires LegalRun(v, ops)
    decreases |ops|
  {
    ops == [] || (KeepsBest(v, ops[0]) && AllKeepBest(Apply(v, ops[0]), ops[1..]))
  }

  function PlainBests(b: Bests, ops: seq<Op>): Bests
    decreases |ops|
  {
    if ops == [] then b else PlainBests(PlainBest(b, ops[0]), ops[1..])
  }

  /** After any run of such operations GetBestBlock agrees at every level. */
  lemma {:induction false} BestRunAgrees(v: View, b: Bests, ops: seq<Op>)
    requires BestAgree(v, b) && LegalRun(v, ops) && AllKeepBest(v, ops)
    ensures BestAgree(Run(v, ops), PlainBests(b, ops))
    decreases |ops|
  {
    if ops != [] {
      BestStepAgrees(v, b, ops[0]);
      BestRunAgrees(Apply(v, ops[0]), PlainBest(b, ops[0]), ops[1..]);
    }
  }
}
