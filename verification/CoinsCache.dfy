/**
 A stack of coin caches over a database, as a value: what a lookup returns, and
 what each operation of CCoinsViewCache does to the stack.
 */
module CoinsCache {
  import opened Wrappers
  import opened Coins

  datatype View =
    | Db(coins: map<Txid, Coins>, best: BlockHash)
    | Cache(base: View, entries: map<Txid, Entry>, hashBlock: BlockHash, modifier: Option<Txid>)

  function Get<V>(m: map<Txid, V>, txid: Txid): Option<V> {
    if txid in m then Some(m[txid]) else None
  }

  /** What GetCoins reports: possibly a pruned entry. */
  function Raw(v: View, txid: Txid): Option<Coins> {
    match v
    case Db(coins, _) => Get(coins, txid)
    case Cache(base, entries, _, _) => if txid in entries then Some(entries[txid].coins) else Raw(base, txid)
  }

  /** The unspent coins a view stands for: a pruned entry means the same as none. */
  function Look(v: View, txid: Txid): Option<Coins> {
    match v
    case Db(coins, _) => Get(coins, txid)
    case Cache(base, entries, _, _) => if txid in entries then Unspent(entries[txid].coins) else Look(base, txid)
  }

  function Unspent(c: Coins): Option<Coins> {
    if IsPruned(c) then None else Some(c)
  }

  function BestBlock(v: View): BlockHash {
    match v
    case Db(_, best) => best
    case Cache(base, _, hashBlock, _) => if hashBlock == NULL_HASH then BestBlock(base) else hashBlock
  }

  // ------------------------------------------------------------ the operations

  /** FetchCoins and GetCoins: a miss is filled in at every cache on the way. */
  function Fetch(v: View, txid: Txid): View {
    match v
    case Db(_, _) => v
    case Cache(base, entries, _, _) =>
      if txid in entries then v
      else
        match Raw(base, txid)
        case None => v.(base := Fetch(base, txid))
        case Some(c) => v.(base := Fetch(base, txid), entries := entries[txid := Entry(c, false, IsPruned(c))])
  }

  function GetBest(v: View): View {
    match v
    case Db(_, _) => v
    case Cache(base, _, hashBlock, _) =>
      if hashBlock == NULL_HASH then v.(base := GetBest(base), hashBlock := BestBlock(base)) else v
  }

  function SetBest(v: View, hash: BlockHash): View
    requires v.Cache?
  {
    v.(hashBlock := hash)
  }

  /** The entry that ModifyCoins works on when the cache has none. */
  function FromBase(found: Option<Coins>): Entry {
    match found
    case None => Entry(CLEARED, false, true)
    case Some(c) => Entry(c, false, IsPruned(c))
  }

  /** ModifyCoins, up to handing out the modifier. */
  function BeginModify(v: View, txid: Txid): View
    requires v.Cache?
  {
    if txid in v.entries then
      v.(entries := v.entries[txid := v.entries[txid].(isDirty := true)], modifier := Some(txid))
    else
      v.(base := Fetch(v.base, txid),
         entries := v.entries[txid := FromBase(Raw(v.base, txid)).(isDirty := true)],
         modifier := Some(txid))
  }

  /** ModifyNewCoins: the base is not consulted; unless for a coinbase, the flags
      are overwritten. */
  function BeginNew(v: View, txid: Txid, coinbase: bool): View
    requires v.Cache?
  {
    var isFresh := if coinbase then txid in v.entries && v.entries[txid].isFresh else true;
    v.(entries := v.entries[txid := Entry(CLEARED, true, isFresh)], modifier := Some(txid))
  }

  /** ~CCoinsModifier, after the holder has left `coins` in the entry. */
  function EndModify(v: View, coins: Coins): View
    requires v.Cache? && v.modifier.Some? && v.modifier.value in v.entries
  {
    var txid := v.modifier.value;
    var e := v.entries[txid].(coins := Cleaned(coins));
    v.(entries := if e.isFresh && IsPruned(e.coins) then v.entries - {txid} else v.entries[txid := e], modifier := None)
  }

  function Uncache(v: View, txid: Txid): View
    requires v.Cache?
  {
    if txid in v.entries && !v.entries[txid].isDirty && !v.entries[txid].isFresh
    then v.(entries := v.entries - {txid}) else v
  }

  /** What a child's entry does to the parent cache's entry for the same txid. */
  function MergeOne(us: Option<Entry>, child: Entry): Option<Entry> {
    if !child.isDirty then us
    else
      match us
      case None =>
        if child.isFresh && IsPruned(child.coins) then None else Some(Entry(child.coins, true, child.isFresh))
      case Some(e) =>
        if e.isFresh && IsPruned(child.coins) then None else Some(Entry(child.coins, true, e.isFresh))
  }

  function Merged(us: map<Txid, Entry>, child: map<Txid, Entry>, txid: Txid): Option<Entry> {
    if txid in child then MergeOne(Get(us, txid), child[txid]) else Get(us, txid)
  }

  function Merge(us: map<Txid, Entry>, child: map<Txid, Entry>): map<Txid, Entry> {
    map t | t in us.Keys + child.Keys && Merged(us, child, t).Some? :: Merged(us, child, t).value
  }

  function Stored(db: map<Txid, Coins>, child: map<Txid, Entry>, txid: Txid): Option<Coins> {
    if txid in child && child[txid].isDirty then
      if IsPruned(child[txid].coins) then None else Some(child[txid].coins)
    else Get(db, txid)
  }

  function Store(db: map<Txid, Coins>, child: map<Txid, Entry>): map<Txid, Coins> {
    map t | t in db.Keys + child.Keys && Stored(db, child, t).Some? :: Stored(db, child, t).value
  }

  function BatchWrite(v: View, child: map<Txid, Entry>, hashBlock: BlockHash): View {
    match v
    case Db(coins, best) => Db(Store(coins, child), if hashBlock == NULL_HASH then best else hashBlock)
    case Cache(_, entries, _, _) => v.(entries := Merge(entries, child), hashBlock := hashBlock)
  }

  function Flush(v: View): View
    requires v.Cache?
  {
    v.(base := BatchWrite(v.base, v.entries, v.hashBlock), entries := map[])
  }

  // ------------------------------------------------------------- the invariant

  /** What the flags promise about one entry, given what the view below shows. */
  predicate EntryOk(e: Entry, below: Option<Coins>) {
    && (!e.isDirty ==> Unspent(e.coins) == below)
    && (e.isFresh ==> below == None)
  }

  ghost predicate DbOk(coins: map<Txid, Coins>) {
    forall t :: t in coins ==> !IsPruned(coins[t]) && IsClean(coins[t])
  }

  ghost predicate EntriesOk(entries: map<Txid, Entry>, base: View, modifier: Option<Txid>) {
    && (forall t :: t in entries ==> EntryOk(entries[t], Look(base, t)))
    && (forall t :: t in entries && modifier != Some(t) ==> IsClean(entries[t].coins))
  }

  ghost predicate Inv(v: View) {
    match v
    case Db(coins, _) => DbOk(coins)
    case Cache(base, entries, _, modifier) =>
      && Inv(base)
      && Settled(base)
      && EntriesOk(entries, base, modifier)
      && (modifier.Some? ==> modifier.value in entries && entries[modifier.value].isDirty)
  }

  /** No modification is under way. */
  predicate Settled(v: View) {
    v.Cache? ==> v.modifier == None
  }

  ghost predicate SameCoins(v: View, w: View) {
    forall t :: Look(v, t) == Look(w, t)
  }

  // ---------------------------------------------------- lookups and the contents

  /** GetCoins agrees with Look, up to pruned = absent. */
  lemma {:induction false} RawAgreesWithLook(v: View, txid: Txid)
    requires Inv(v)
    ensures Look(v, txid) == if Raw(v, txid).Some? then Unspent(Raw(v, txid).value) else None
  {
    if v.Cache? && txid !in v.entries {
      RawAgreesWithLook(v.base, txid);
    }
  }

  /** HaveCoins only asks whether vout is empty; with no modification under way
      that is the same as having unspent outputs. */
  lemma {:induction false} HaveCoinsIsExact(v: View, txid: Txid)
    requires Inv(v) && Settled(v)
    ensures Look(v, txid).Some? <==> Raw(v, txid).Some? && Raw(v, txid).value.vout != []
    ensures Raw(v, txid).Some? ==> IsClean(Raw(v, txid).value)
  {
    RawAgreesWithLook(v, txid);
    if v.Cache? && txid !in v.entries {
      HaveCoinsIsExact(v.base, txid);
    }
  }

  // ------------------------------------------------- each operation, one by one

  lemma {:induction false} FetchKeeps(v: View, txid: Txid)
    requires Inv(v)
    ensures Inv(Fetch(v, txid)) && SameCoins(Fetch(v, txid), v) && BestBlock(Fetch(v, txid)) == BestBlock(v)
    ensures Settled(v) <==> Settled(Fetch(v, txid))
  {
    if v.Cache? && txid !in v.entries {
      FetchKeeps(v.base, txid);
      RawAgreesWithLook(v.base, txid);
      HaveCoinsIsExact(v.base, txid);
    }
  }

  /** A fetched txid is then in the top cache, if anything below knows it. */
  lemma FetchFills(v: View, txid: Txid)
    requires v.Cache? && Raw(v, txid).Some?
    ensures txid in Fetch(v, txid).entries && Raw(Fetch(v, txid), txid) == Raw(v, txid)
  {
  }

  lemma {:induction false} GetBestKeeps(v: View)
    requires Inv(v)
    ensures Inv(GetBest(v)) && SameCoins(GetBest(v), v) && BestBlock(GetBest(v)) == BestBlock(v)
    ensures Settled(v) <==> Settled(GetBest(v))
  {
    if v.Cache? && v.hashBlock == NULL_HASH {
      GetBestKeeps(v.base);
    }
  }

  lemma BeginModifyKeeps(v: View, txid: Txid)
    requires Inv(v) && v.Cache? && v.modifier == None
    ensures Inv(BeginModify(v, txid)) && SameCoins(BeginModify(v, txid), v)
  {
    if txid !in v.entries {
      FetchKeeps(v.base, txid);
      RawAgreesWithLook(v.base, txid);
    }
  }

  /** w shows `shown` for txid, and otherwise what v shows. */
  ghost predicate Written(v: View, w: View, txid: Txid, shown: Option<Coins>) {
    forall t :: Look(w, t) == if t == txid then shown else Look(v, t)
  }

  /** ModifyNewCoins keeps the invariant exactly when the base has no unspent coins
      for the txid, unless it is for a coinbase. */
  lemma BeginNewKeeps(v: View, txid: Txid, coinbase: bool)
    requires Inv(v) && v.Cache? && v.modifier == None
    ensures Written(v, BeginNew(v, txid, coinbase), txid, None)
    ensures Inv(BeginNew(v, txid, coinbase)) <==> coinbase || Look(v.base, txid) == None
  {
    var v' := BeginNew(v, txid, coinbase);
    assert txid in v'.entries;
    assert EntryOk(v'.entries[txid], Look(v.base, txid)) <==> coinbase || Look(v.base, txid) == None;
  }

  lemma EndModifyKeeps(v: View, coins: Coins)
    requires Inv(v) && v.Cache? && v.modifier.Some?
    ensures Inv(EndModify(v, coins))
    ensures Written(v, EndModify(v, coins), v.modifier.value, Unspent(Cleaned(coins)))
  {
    CleanedKeepsOutputs(coins);
    CleanedKeepsOutputs(Cleaned(coins));
  }

  /** Without the condition the coins come back: new coins that are spent again
      before a flush leave the base's old coins visible. */
  lemma SpentNewCoinsAreGone(v: View, txid: Txid, coins: Coins)
    requires Inv(v) && v.Cache? && v.modifier == None && IsPruned(coins)
    ensures Look(EndModify(BeginNew(v, txid, false), coins), txid) == None <==> Look(v.base, txid) == None
  {
    CleanedKeepsOutputs(coins);
  }

  lemma UncacheKeeps(v: View, txid: Txid)
    requires Inv(v) && v.Cache?
    ensures Inv(Uncache(v, txid)) && SameCoins(Uncache(v, txid), v)
  {
  }

  /** Exactly an entry that holds nothing new is forgotten, and no other. */
  lemma UncacheForgets(v: View, txid: Txid)
    requires v.Cache?
    ensures var w := Uncache(v, txid);
            && w.Cache? && w.base == v.base && w.hashBlock == v.hashBlock && w.modifier == v.modifier
            && (txid in w.entries <==> txid in v.entries && (v.entries[txid].isDirty || v.entries[txid].isFresh))
            && forall t :: t != txid || t in w.entries ==> Get(w.entries, t) == Get(v.entries, t)
  {
  }

  /** Asking for the best block leaves the answer in every cache on the way. */
  lemma {:induction false} GetBestFills(v: View)
    requires v.Cache?
    ensures GetBest(v).Cache? && GetBest(v).hashBlock == BestBlock(v) && GetBest(v).entries == v.entries
    ensures v.hashBlock == NULL_HASH && v.base.Cache? ==> GetBest(v).base.Cache? && GetBest(v).base.hashBlock == BestBlock(v)
  {
    if v.hashBlock == NULL_HASH && v.base.Cache? {
      GetBestFills(v.base);
    }
  }

  /** After a flush the cache is empty, and no coins that came and went above it have
      left anything in a parent cache. */
  lemma FlushEmpties(v: View, txid: Txid)
    requires v.Cache?
    ensures Flush(v).entries == map[]
    ensures v.base.Cache? && txid in v.entries && v.entries[txid] == Entry(v.entries[txid].coins, true, true) &&
            IsPruned(v.entries[txid].coins) && (txid in v.base.entries ==> v.base.entries[txid].isFresh) ==>
              txid !in Flush(v).base.entries
  {
    if v.base.Cache? {
      assert Get(Merge(v.base.entries, v.entries), txid) == Merged(v.base.entries, v.entries, txid);
    }
  }

  /** What BatchWrite leaves for one txid in a parent cache. */
  lemma MergeIsRight(parent: View, child: map<Txid, Entry>, t: Txid)
    requires parent.Cache? && (t in parent.entries ==> EntryOk(parent.entries[t], Look(parent.base, t)))
    requires t in child ==> EntryOk(child[t], Look(parent, t))
    ensures var us := Merge(parent.entries, child);
            && (t in us ==> EntryOk(us[t], Look(parent.base, t)))
            && (if t in us then Unspent(us[t].coins) else Look(parent.base, t))
               == (if t in child then Unspent(child[t].coins) else Look(parent, t))
            && (t in us ==> (t in child && us[t].coins == child[t].coins) || (t in parent.entries && us[t] == parent.entries[t]))
  {
    var us := Merge(parent.entries, child);
    assert Get(us, t) == Merged(parent.entries, child, t);
  }

  /** A child's Flush leaves the parent's view equal to the child's former view. */
  lemma BatchWriteKeeps(v: View)
    requires Inv(v) && v.Cache? && v.modifier == None
    ensures var base' := BatchWrite(v.base, v.entries, v.hashBlock);
            Inv(base') && Settled(base') && SameCoins(base', v)
  {
    var base, base' := v.base, BatchWrite(v.base, v.entries, v.hashBlock);
    if base.Db? {
      forall t
        ensures Look(base', t) == Look(v, t)
        ensures t in base'.coins ==> !IsPruned(base'.coins[t]) && IsClean(base'.coins[t])
      {
        assert Get(base'.coins, t) == Stored(base.coins, v.entries, t);
      }
    } else {
      forall t
        ensures Look(base', t) == Look(v, t)
        ensures t in base'.entries ==> EntryOk(base'.entries[t], Look(base.base, t)) && IsClean(base'.entries[t].coins)
      {
        MergeIsRight(base, v.entries, t);
      }
    }
  }

  lemma FlushKeeps(v: View)
    requires Inv(v) && v.Cache? && v.modifier == None
    ensures Inv(Flush(v)) && SameCoins(Flush(v), v) && SameCoins(Flush(v).base, v)
  {
    BatchWriteKeeps(v);
  }

  /** A flush also hands the best block down, but a cache that never asked for it
      hands down null, which makes a parent cache forget its own. */
  lemma FlushBestBlock(v: View)
    requires v.Cache?
    ensures BestBlock(Flush(v)) == BestBlock(v) <==>
            v.base.Db? || v.hashBlock != NULL_HASH || BestBlock(v.base.base) == BestBlock(v.base)
  {
  }

  /** For instance: the parent knows block 2, its database block 1, and the child
      was never asked. */
  lemma FlushForgets()
    ensures var v := Cache(Cache(Db(map[], 1), map[], 2, None), map[], NULL_HASH, None);
            Inv(v) && BestBlock(v) == BestBlock(v.base) == 2 && BestBlock(Flush(v)) == BestBlock(Flush(v).base) == 1
  {
  }
}
