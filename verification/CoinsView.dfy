/**
 The coin views as objects: a chain of caches, each filling itself from the one
 below, over a database.  Every method does to the chain what the operation of the
 same name in `CoinsCache` does to its value.
 */
module CoinsView {
  import opened Wrappers
  import opened Coins
  import CC = CoinsCache

  /** CCoinsViewCache; with a null base it plays CCoinsViewDB. */
  class CCoinsView {
    const base: CCoinsView?
    var db: map<Txid, Coins>
    var cacheCoins: map<Txid, Entry>
    var hashBlock: BlockHash
    var modifier: Option<Txid>
    ghost const Repr: set<object>

    /** The chain below is finite and does not come back to this object. */
    ghost predicate Valid()
      decreases Repr
    {
      && this in Repr
      && (base != null ==> base in Repr && base.Repr < Repr && this !in base.Repr && base.Valid())
    }

    ghost function Value(): CC.View
      requires Valid()
      reads Repr
      decreases Repr
    {
      if base == null then CC.Db(db, hashBlock)
      else CC.Cache(base.Value(), cacheCoins, hashBlock, modifier)
    }

    constructor Database(coins: map<Txid, Coins>, best: BlockHash)
      ensures Valid() && fresh(Repr) && Value() == CC.Db(coins, best)
    {
      base, db, cacheCoins, hashBlock, modifier := null, coins, map[], best, None;
      Repr := {this};
    }

    constructor Over(baseIn: CCoinsView)
      requires baseIn.Valid()
      ensures Valid() && Repr == {this} + baseIn.Repr
      ensures Value() == CC.Cache(baseIn.Value(), map[], NULL_HASH, None)
    {
      base, db, cacheCoins, hashBlock, modifier := baseIn, map[], map[], NULL_HASH, None;
      Repr := {this} + baseIn.Repr;
    }

    method GetCoins(txid: Txid) returns (found: Option<Coins>)
      requires Valid()
      modifies Repr
      ensures Value() == CC.Fetch(old(Value()), txid)
      ensures found == CC.Raw(old(Value()), txid)
      decreases Repr
    {
      if base == null {
        return if txid in db then Some(db[txid]) else None;
      }
      if txid in cacheCoins {
        return Some(cacheCoins[txid].coins);
      }
      found := base.GetCoins(txid);
      if found.Some? {
        cacheCoins := cacheCoins[txid := Entry(found.value, false, IsPruned(found.value))];
      }
    }

    method HaveCoins(txid: Txid) returns (have: bool)
      requires Valid()
      modifies Repr
      ensures Value() == CC.Fetch(old(Value()), txid)
      ensures have <==> CC.Raw(old(Value()), txid).Some? && CC.Raw(old(Value()), txid).value.vout != []
      ensures old(CC.Inv(Value()) && CC.Settled(Value())) ==> (have <==> CC.Look(old(Value()), txid).Some?)
    {
      if CC.Inv(Value()) && CC.Settled(Value()) {
        CC.HaveCoinsIsExact(Value(), txid);
      }
      var found := GetCoins(txid);
      have := found.Some? && found.value.vout != [];
    }

    method GetBestBlock() returns (best: BlockHash)
      requires Valid()
      modifies Repr
      ensures Value() == CC.GetBest(old(Value()))
      ensures best == CC.BestBlock(old(Value()))
      decreases Repr
    {
      if base != null && hashBlock == NULL_HASH {
        hashBlock := base.GetBestBlock();
      }
      best := hashBlock;
    }

    method SetBestBlock(hashBlockIn: BlockHash)
      requires Valid() && base != null
      modifies this
      ensures Value() == CC.SetBest(old(Value()), hashBlockIn)
    {
      hashBlock := hashBlockIn;
    }

    method ModifyCoins(txid: Txid)
      requires Valid() && base != null && modifier == None
      modifies Repr
      ensures Value() == CC.BeginModify(old(Value()), txid)
    {
      if txid !in cacheCoins {
        var found := base.GetCoins(txid);
        cacheCoins := cacheCoins[txid := match found
                                         case None => Entry(CLEARED, false, true)
                                         case Some(c) => Entry(c, false, IsPruned(c))];
      }
      cacheCoins := cacheCoins[txid := cacheCoins[txid].(isDirty := true)];
      modifier := Some(txid);
    }

    method ModifyNewCoins(txid: Txid, coinbase: bool)
      requires Valid() && base != null && modifier == None
      modifies this
      ensures Value() == CC.BeginNew(old(Value()), txid, coinbase)
    {
      var e := if txid in cacheCoins then cacheCoins[txid] else Entry(CLEARED, false, false);
      e := e.(coins := CLEARED);
      if !coinbase {
        e := e.(isDirty := false, isFresh := true);
      }
      e := e.(isDirty := true);
      cacheCoins := cacheCoins[txid := e];
      modifier := Some(txid);
    }

    /** The destructor of the modifier, which finds `coins` in the entry. */
    method EndModify(coins: Coins)
      requires Valid() && base != null && modifier.Some? && modifier.value in cacheCoins
      modifies this
      ensures Value() == CC.EndModify(old(Value()), coins)
    {
      var txid := modifier.value;
      modifier := None;
      var cleaned := Cleanup(coins);
      var e := cacheCoins[txid].(coins := cleaned);
      if e.isFresh && IsPruned(e.coins) {
        cacheCoins := cacheCoins - {txid};
      } else {
        cacheCoins := cacheCoins[txid := e];
      }
    }

    method Uncache(txid: Txid)
      requires Valid() && base != null
      modifies this
      ensures Value() == CC.Uncache(old(Value()), txid)
    {
      if txid in cacheCoins && !cacheCoins[txid].isDirty && !cacheCoins[txid].isFresh {
        cacheCoins := cacheCoins - {txid};
      }
    }

    /** Writes a child's entries, in whatever order its map yields them. */
    method BatchWrite(mapCoins: map<Txid, Entry>, hashBlockIn: BlockHash)
      requires Valid() && modifier == None
      modifies this
      ensures Value() == CC.BatchWrite(old(Value()), mapCoins, hashBlockIn)
    {
      var todo := mapCoins.Keys;
      ghost var us := cacheCoins;
      ghost var stored := db;
      while todo != {}
        invariant todo <= mapCoins.Keys
        invariant hashBlock == old(hashBlock) && modifier == None
        invariant if base == null then cacheCoins == us else db == stored
        invariant base != null ==> forall t ::
                    CC.Get(cacheCoins, t) == if t in todo then CC.Get(us, t) else CC.Merged(us, mapCoins, t)
        invariant base == null ==> forall t ::
                    CC.Get(db, t) == if t in todo then CC.Get(stored, t) else CC.Stored(stored, mapCoins, t)
        decreases todo
      {
        var txid :| txid in todo;
        if mapCoins[txid].isDirty {
          if base != null {
            assert CC.Get(cacheCoins, txid) == CC.Get(us, txid);
            WriteOne(txid, mapCoins[txid]);
          } else if IsPruned(mapCoins[txid].coins) {
            db := db - {txid};
          } else {
            db := db[txid := mapCoins[txid].coins];
          }
        }
        todo := todo - {txid};
      }
      if base != null {
        SameMap(cacheCoins, CC.Merge(us, mapCoins));
        hashBlock := hashBlockIn;
      } else {
        SameMap(db, CC.Store(stored, mapCoins));
        if hashBlockIn != NULL_HASH {
          hashBlock := hashBlockIn;
        }
      }
    }

    /** One dirty entry of the child, written into this cache. */
    method WriteOne(txid: Txid, child: Entry)
      requires child.isDirty
      modifies `cacheCoins
      ensures CC.Get(cacheCoins, txid) == CC.MergeOne(CC.Get(old(cacheCoins), txid), child)
      ensures forall t :: t != txid ==> CC.Get(cacheCoins, t) == CC.Get(old(cacheCoins), t)
    {
      if txid !in cacheCoins {
        if !(child.isFresh && IsPruned(child.coins)) {
          var entry := Entry(child.coins, true, false);
          if child.isFresh {
            entry := entry.(isFresh := true);
          }
          cacheCoins := cacheCoins[txid := entry];
        }
      } else if cacheCoins[txid].isFresh && IsPruned(child.coins) {
        cacheCoins := cacheCoins - {txid};
      } else {
        cacheCoins := cacheCoins[txid := cacheCoins[txid].(coins := child.coins, isDirty := true)];
      }
    }

    method Flush()
      requires Valid() && base != null && base.modifier == None
      modifies Repr
      ensures Value() == CC.Flush(old(Value()))
    {
      base.BatchWrite(cacheCoins, hashBlock);
      cacheCoins := map[];
    }
  }

  lemma SameMap<V>(a: map<Txid, V>, b: map<Txid, V>)
    requires forall t :: CC.Get(a, t) == CC.Get(b, t)
    ensures a == b
  {
    forall t ensures t in a <==> t in b
             ensures t in a && t in b ==> a[t] == b[t]
    {
      assert CC.Get(a, t) == CC.Get(b, t);
    }
  }
}
