/**
 Any run of cache operations, at any depth of a stack of caches, against the
 simplest possible description: one plain map per level.
 */
module CoinsRuns {
  import opened Wrappers
  import opened Coins
  import opened CoinsCache

  /** Depth 0 is the top cache.  Coins and best block are set through the top cache
      only; everything else may happen at any level. */
  datatype Op =
    | FetchAt(depth: nat, txid: Txid)             // GetCoins, AccessCoins, HaveCoins
    | BestAt(depth: nat)                          // GetBestBlock
    | SetBestTo(hash: BlockHash)                  // SetBestBlock
    | UncacheAt(depth: nat, txid: Txid)
    | FlushAt(depth: nat)
    | Modify(txid: Txid)                          // a CCoinsModifier is handed out
    | ModifyNew(txid: Txid, coinbase: bool)
    | End(txid: Txid, coins: Coins)               // it is destroyed, with these coins in the entry
    | Push                                        // a new cache on top
    | Discard                                     // the top cache is destroyed unflushed

  function Depth(v: View): nat {
    if v.Db? then 0 else 1 + Depth(v.base)
  }

  function Sub(v: View, d: nat): View
    requires d <= Depth(v)
  {
    if d == 0 then v else Sub(v.base, d - 1)
  }

  function Replace(v: View, d: nat, w: View): View
    requires d <= Depth(v)
  {
    if d == 0 then w else v.(base := Replace(v.base, d - 1, w))
  }

  /** What the callers have to respect. */
  predicate Legal(v: View, op: Op) {
    match op
    case FetchAt(d, _) => d <= Depth(v)
    case BestAt(d) => d <= Depth(v)
    case SetBestTo(_) => v.Cache?
    case UncacheAt(d, _) => d < Depth(v)
    case FlushAt(d) => d < Depth(v) && (d == 0 ==> Settled(v))
    case Modify(_) => v.Cache? && Settled(v)
    case ModifyNew(txid, coinbase) => v.Cache? && Settled(v) && (coinbase || Look(v.base, txid) == None)
    case End(txid, _) => v.Cache? && v.modifier == Some(txid) && txid in v.entries
    case Push => Settled(v)
    case Discard => v.Cache? && Settled(v)
  }

  lemma {:induction false} SubIsCache(v: View, d: nat)
    requires d < Depth(v)
    ensures Sub(v, d).Cache? && Sub(v, d + 1) == Sub(v, d).base && Depth(Sub(v, d)) == Depth(v) - d
  {
    if d > 0 {
      SubIsCache(v.base, d - 1);
    }
  }

  function Apply(v: View, op: Op): View
    requires Legal(v, op)
  {
    match op
    case FetchAt(d, txid) => Replace(v, d, Fetch(Sub(v, d), txid))
    case BestAt(d) => Replace(v, d, GetBest(Sub(v, d)))
    case SetBestTo(hash) => SetBest(v, hash)
    case UncacheAt(d, txid) => SubIsCache(v, d); Replace(v, d, Uncache(Sub(v, d), txid))
    case FlushAt(d) => SubIsCache(v, d); Replace(v, d, Flush(Sub(v, d)))
    case Modify(txid) => BeginModify(v, txid)
    case ModifyNew(txid, coinbase) => BeginNew(v, txid, coinbase)
    case End(_, coins) => EndModify(v, coins)
    case Push => Cache(v, map[], NULL_HASH, None)
    case Discard => v.base
  }

  // ------------------------------------------------------------- the reference

  /** One plain map per level, top first; only unspent coins are in it. */
  type Plain = seq<map<Txid, Coins>>

  function Put(m: map<Txid, Coins>, txid: Txid, c: Coins): map<Txid, Coins> {
    if IsPruned(c) then m - {txid} else m[txid := Cleaned(c)]
  }

  function PlainApply(p: Plain, op: Op): Plain {
    match op
    case FlushAt(d) => if d + 1 < |p| then p[d + 1 := p[d]] else p
    case ModifyNew(txid, _) => if |p| > 0 then p[0 := p[0] - {txid}] else p
    case End(txid, coins) => if |p| > 0 then p[0 := Put(p[0], txid, coins)] else p
    case Push => if |p| > 0 then [p[0]] + p else p
    case Discard => if |p| > 0 then p[1..] else p
    case _ => p
  }

  ghost predicate Agree(v: View, p: Plain) {
    && |p| == Depth(v) + 1
    && forall d, t :: 0 <= d < |p| ==> Look(Sub(v, d), t) == Get(p[d], t)
  }

  // ------------------------------------------------ changing a level in the middle

  /** Every level of w shows what the same level of v shows. */
  ghost predicate SameLevels(v: View, w: View) {
    Depth(v) == Depth(w) && forall k :: 0 <= k <= Depth(v) ==> SameCoins(Sub(v, k), Sub(w, k))
  }

  lemma {:induction false} SubInv(v: View, d: nat)
    requires Inv(v) && d <= Depth(v)
    ensures Inv(Sub(v, d)) && (0 < d ==> Settled(Sub(v, d)))
    ensures Depth(Sub(v, d)) == Depth(v) - d
  {
    if d > 0 {
      SubInv(v.base, d - 1);
    }
  }

  /** A level may be replaced by anything valid that shows the same coins. */
  lemma {:induction false} ReplaceKeeps(v: View, d: nat, w: View)
    requires Inv(v) && d <= Depth(v) && Inv(w)
    requires SameCoins(w, Sub(v, d)) && Depth(w) == Depth(v) - d && (0 < d ==> Settled(w))
    ensures Inv(Replace(v, d, w)) && SameCoins(Replace(v, d, w), v) && Depth(Replace(v, d, w)) == Depth(v)
    ensures 0 < d ==> (Settled(Replace(v, d, w)) <==> Settled(v))
  {
    if d > 0 {
      ReplaceKeeps(v.base, d - 1, w);
      var base' := Replace(v.base, d - 1, w);
      assert Settled(base');
      assert EntriesOk(v.entries, base', v.modifier);
    }
  }

  lemma {:induction false} ReplaceLevels(v: View, d: nat, w: View, k: nat)
    requires Inv(v) && d <= Depth(v) && Inv(w) && k <= Depth(v)
    requires SameCoins(w, Sub(v, d)) && Depth(w) == Depth(v) - d && (0 < d ==> Settled(w))
    ensures Depth(Replace(v, d, w)) == Depth(v)
    ensures k < d ==> SameCoins(Sub(Replace(v, d, w), k), Sub(v, k))
    ensures d <= k ==> Sub(Replace(v, d, w), k) == Sub(w, k - d)
  {
    ReplaceKeeps(v, d, w);
    if d > 0 && k > 0 {
      ReplaceLevels(v.base, d - 1, w, k - 1);
    }
  }

  lemma {:induction false} SubSub(v: View, d: nat, k: nat)
    requires d + k <= Depth(v)
    ensures Depth(Sub(v, d)) == Depth(v) - d && Sub(Sub(v, d), k) == Sub(v, d + k)
  {
    if d > 0 {
      SubSub(v.base, d - 1, k);
    }
  }

  /** The same, for every level of the stack. */
  lemma ReplaceSameLevels(v: View, d: nat, w: View)
    requires Inv(v) && d <= Depth(v) && Inv(w) && SameLevels(w, Sub(v, d))
    requires Depth(w) == Depth(v) - d && (0 < d ==> Settled(w))
    ensures Inv(Replace(v, d, w)) && SameLevels(Replace(v, d, w), v)
  {
    assert Sub(w, 0) == w && Sub(Sub(v, d), 0) == Sub(v, d);
    ReplaceKeeps(v, d, w);
    forall k | 0 <= k <= Depth(v) ensures SameCoins(Sub(Replace(v, d, w), k), Sub(v, k)) {
      ReplaceLevels(v, d, w, k);
      if d <= k {
        SubSub(v, d, k - d);
      }
    }
  }

  lemma {:induction false} FetchLevels(v: View, txid: Txid)
    requires Inv(v)
    ensures SameLevels(Fetch(v, txid), v)
  {
    FetchKeeps(v, txid);
    if v.Cache? && txid !in v.entries {
      FetchLevels(v.base, txid);
      var w := Fetch(v, txid);
      forall k | 0 < k <= Depth(v) ensures SameCoins(Sub(w, k), Sub(v, k)) {
        assert Sub(w, k) == Sub(w.base, k - 1) && Sub(v, k) == Sub(v.base, k - 1);
      }
    }
  }

  lemma {:induction false} GetBestLevels(v: View)
    requires Inv(v)
    ensures SameLevels(GetBest(v), v)
  {
    GetBestKeeps(v);
    if v.Cache? && v.hashBlock == NULL_HASH {
      GetBestLevels(v.base);
      var w := GetBest(v);
      forall k | 0 < k <= Depth(v) ensures SameCoins(Sub(w, k), Sub(v, k)) {
        assert Sub(w, k) == Sub(w.base, k - 1) && Sub(v, k) == Sub(v.base, k - 1);
      }
    }
  }

  /** Changing entries and modifier of the top cache leaves the levels below alone. */
  lemma LowerLevels(v: View, w: View)
    requires v.Cache? && w.Cache? && SameLevels(w.base, v.base)
    ensures Depth(v) == Depth(w)
    ensures forall k :: 0 < k <= Depth(v) ==> SameCoins(Sub(w, k), Sub(v, k))
  {
    forall k | 0 < k <= Depth(v) ensures SameCoins(Sub(w, k), Sub(v, k)) {
      assert Sub(w, k) == Sub(w.base, k - 1) && Sub(v, k) == Sub(v.base, k - 1);
    }
  }

  // ---------------------------------------------------------------- one operation

  lemma SameLevelsAgree(v: View, w: View, p: Plain)
    requires Agree(v, p) && SameLevels(w, v)
    ensures Agree(w, p)
  {
    forall d, t | 0 <= d < |p| ensures Look(Sub(w, d), t) == Get(p[d], t) {
      assert SameCoins(Sub(w, d), Sub(v, d));
    }
  }

  lemma FlushAgrees(v: View, p: Plain, d: nat)
    requires Inv(v) && Agree(v, p) && Legal(v, FlushAt(d))
    ensures Inv(Apply(v, FlushAt(d))) && Agree(Apply(v, FlushAt(d)), PlainApply(p, FlushAt(d)))
  {
    SubInv(v, d);
    SubIsCache(v, d);
    var u := Sub(v, d);
    FlushKeeps(u);
    var w := Flush(u);
    assert Depth(w) == Depth(u);
    ReplaceKeeps(v, d, w);
    var v', p' := Replace(v, d, w), PlainApply(p, FlushAt(d));
    forall k, t | 0 <= k < |p| ensures Look(Sub(v', k), t) == Get(p'[k], t) {
      ReplaceLevels(v, d, w, k);
      assert Look(Sub(v, k), t) == Get(p[k], t) && Look(u, t) == Get(p[d], t);
      if k > d + 1 {
        assert Sub(w, k - d) == Sub(w.base.base, k - d - 2) == Sub(u.base.base, k - d - 2) == Sub(u, k - d);
        SubSub(v, d, k - d);
      } else if k == d + 1 {
        assert Sub(w, 1) == w.base;
      }
    }
  }

  /** Writing through the top cache. */
  lemma WriteAgrees(v: View, w: View, p: Plain, txid: Txid, m: map<Txid, Coins>)
    requires Agree(v, p) && v.Cache? && w.Cache? && w.base == v.base
    requires Written(v, w, txid, Get(m, txid)) && forall t :: t != txid ==> Get(m, t) == Get(p[0], t)
    ensures Agree(w, p[0 := m])
  {
    LowerLevels(v, w);
    forall k, t | 0 <= k < |p| ensures Look(Sub(w, k), t) == Get(p[0 := m][k], t) {
      assert Look(Sub(v, k), t) == Get(p[k], t);
      if k > 0 {
        assert SameCoins(Sub(w, k), Sub(v, k));
      }
    }
  }

  lemma ModifyAgrees(v: View, p: Plain, txid: Txid)
    requires Inv(v) && Agree(v, p) && Legal(v, Modify(txid))
    ensures Inv(BeginModify(v, txid)) && Agree(BeginModify(v, txid), p)
  {
    BeginModifyKeeps(v, txid);
    FetchLevels(v.base, txid);
    LowerLevels(v, BeginModify(v, txid));
    SameLevelsAgree(v, BeginModify(v, txid), p);
  }

  lemma PushAgrees(v: View, p: Plain)
    requires Inv(v) && Agree(v, p) && Settled(v)
    ensures Inv(Apply(v, Push)) && Agree(Apply(v, Push), [p[0]] + p)
  {
    var w := Apply(v, Push);
    forall k, t | 0 <= k < |p| + 1 ensures Look(Sub(w, k), t) == Get(([p[0]] + p)[k], t) {
      var d := if k == 0 then 0 else k - 1;
      assert Look(Sub(v, d), t) == Get(p[d], t);
    }
  }

  lemma DiscardAgrees(v: View, p: Plain)
    requires Inv(v) && Agree(v, p) && v.Cache?
    ensures Inv(v.base) && Agree(v.base, p[1..])
  {
    forall k, t | 0 <= k < |p| - 1 ensures Look(Sub(v.base, k), t) == Get(p[1..][k], t) {
      assert Look(Sub(v, k + 1), t) == Get(p[k + 1], t);
    }
  }

  /** Every legal operation keeps the flags' promises, at every level, and does to
      the lookups what it does to the plain maps. */
  lemma StepAgrees(v: View, p: Plain, op: Op)
    requires Inv(v) && Agree(v, p) && Legal(v, op)
    ensures Inv(Apply(v, op)) && Agree(Apply(v, op), PlainApply(p, op))
  {
    match op
    case FetchAt(d, txid) =>
      SubInv(v, d);
      FetchKeeps(Sub(v, d), txid);
      FetchLevels(Sub(v, d), txid);
      ReplaceSameLevels(v, d, Fetch(Sub(v, d), txid));
      SameLevelsAgree(v, Apply(v, op), p);
    case BestAt(d) =>
      SubInv(v, d);
      GetBestKeeps(Sub(v, d));
      GetBestLevels(Sub(v, d));
      ReplaceSameLevels(v, d, GetBest(Sub(v, d)));
      SameLevelsAgree(v, Apply(v, op), p);
    case SetBestTo(hash) =>
      LowerLevels(v, SetBest(v, hash));
      SameLevelsAgree(v, SetBest(v, hash), p);
    case UncacheAt(d, txid) =>
      SubInv(v, d);
      SubIsCache(v, d);
      UncacheKeeps(Sub(v, d), txid);
      LowerLevels(Sub(v, d), Uncache(Sub(v, d), txid));
      ReplaceSameLevels(v, d, Uncache(Sub(v, d), txid));
      SameLevelsAgree(v, Apply(v, op), p);
    case FlushAt(d) => FlushAgrees(v, p, d);
    case Modify(txid) => ModifyAgrees(v, p, txid);
    case ModifyNew(txid, coinbase) =>
      BeginNewKeeps(v, txid, coinbase);
      WriteTop(v, p);
      WriteAgrees(v, Apply(v, op), p, txid, p[0] - {txid});
    case End(txid, coins) =>
      EndModifyKeeps(v, coins);
      CleanedKeepsOutputs(coins);
      CleanedKeepsOutputs(Cleaned(coins));
      WriteTop(v, p);
      WriteAgrees(v, Apply(v, op), p, txid, Put(p[0], txid, coins));
    case Push => PushAgrees(v, p);
    case Discard => DiscardAgrees(v, p);
  }

  lemma WriteTop(v: View, p: Plain)
    requires Agree(v, p)
    ensures forall t :: Look(v, t) == Get(p[0], t)
  {
    assert forall t :: Look(Sub(v, 0), t) == Get(p[0], t);
  }

  // ------------------------------------------------------------------ whole runs

  ghost predicate LegalRun(v: View, ops: seq<Op>)
    decreases |ops|
  {
    ops == [] || (Legal(v, ops[0]) && LegalRun(Apply(v, ops[0]), ops[1..]))
  }

  ghost function Run(v: View, ops: seq<Op>): View
    requires LegalRun(v, ops)
    decreases |ops|
  {
    if ops == [] then v else Run(Apply(v, ops[0]), ops[1..])
  }

  function PlainRun(p: Plain, ops: seq<Op>): Plain
    decreases |ops|
  {
    if ops == [] then p else PlainRun(PlainApply(p, ops[0]), ops[1..])
  }

  lemma {:induction false} RunAgrees(v: View, p: Plain, ops: seq<Op>)
    requires Inv(v) && Agree(v, p) && LegalRun(v, ops)
    ensures Inv(Run(v, ops)) && Agree(Run(v, ops), PlainRun(p, ops))
    decreases |ops|
  {
    if ops != [] {
      StepAgrees(v, p, ops[0]);
      RunAgrees(Apply(v, ops[0]), PlainApply(p, ops[0]), ops[1..]);
    }
  }

  /** From any database, after any legal run, GetCoins at every level of the stack
      gives what that level's plain map gives, up to pruned = absent. */
  lemma LookupsAgreeWithPlainMaps(db: map<Txid, Coins>, best: BlockHash, ops: seq<Op>, d: nat, txid: Txid)
    requires DbOk(db) && LegalRun(Db(db, best), ops) && d <= Depth(Run(Db(db, best), ops))
    ensures var v, p := Run(Db(db, best), ops), PlainRun([db], ops);
            && |p| == Depth(v) + 1
            && Get(p[d], txid) == (match Raw(Sub(v, d), txid) case None => None case Some(c) => Unspent(c))
  {
    var v0 := Db(db, best);
    assert Sub(v0, 0) == v0;
    RunAgrees(v0, [db], ops);
    var v, p := Run(v0, ops), PlainRun([db], ops);
    assert Look(Sub(v, d), txid) == Get(p[d], txid);
    SubInv(v, d);
    RawAgreesWithLook(Sub(v, d), txid);
  }
}
