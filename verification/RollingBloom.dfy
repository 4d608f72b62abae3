/**
 The rolling bloom filter.  Each cell of the table is two bits, in two neighbouring
 words: 0 for unset, else the number (1, 2 or 3) of the generation that set it last.
 */
module RollingBloom {

  type Key = seq<bv8>
  const ALL_ONES: bv64 := 0xFFFF_FFFF_FFFF_FFFF

  /** A single bit within a word. */
  predicate OneHot(u: bv64) {
    u != 0 && u & (u - 1) == 0
  }

  predicate IsOn(x: bv64, u: bv64) {
    And(x, u) != 0
  }

  datatype Cell = Cell(word: nat, unit: bv64)

  predicate IsCell(size: nat, c: Cell) {
    2 * c.word + 1 < size && OneHot(c.unit)
  }

  /** The generation number stored in a cell. */
  function Stored(data: seq<bv64>, c: Cell): nat
    requires 2 * c.word + 1 < |data|
  {
    (if IsOn(data[2 * c.word], c.unit) then 1 else 0) + (if IsOn(data[2 * c.word + 1], c.unit) then 2 else 0)
  }

  function Mask(on: bool): bv64 {
    if on then ALL_ONES else 0
  }

  function LowBit(g: nat): bool { g % 2 == 1 }
  function HighBit(g: nat): bool { g / 2 % 2 == 1 }

  // ------------------------------------------------------------------- on single words

  function Either(a: bv64, b: bv64): bv64 {
    a | b
  }

  lemma SomeBit(a: bv64, b: bv64, u: bv64)
    ensures IsOn(Either(a, b), u) <==> IsOn(a, u) || IsOn(b, u)
  {
    hide And;
    hide Either;
    EitherCommutes(a, b);
    if !IsOn(Either(a, b), u) {
      OffInBoth(a, b, u);
      OffInBoth(b, a, u);
    } else if !IsOn(a, u) && !IsOn(b, u) {
      OffInEither(a, b, u);
    }
  }

  function And(x: bv64, y: bv64): bv64 {
    x & y
  }

  lemma EitherCommutes(a: bv64, b: bv64)
    ensures Either(a, b) == Either(b, a)
  {
  }

  lemma OffInBoth(a: bv64, b: bv64, u: bv64)
    requires And(Either(a, b), u) == 0
    ensures And(a, u) == 0
  {
  }

  lemma OffInEither(a: bv64, b: bv64, u: bv64)
    requires And(a, u) == 0 && And(b, u) == 0
    ensures And(Either(a, b), u) == 0
  {
  }

  function Differs(x: bv64, mask: bv64): bv64 {
    x ^ mask
  }

  function WipeMask(p1: bv64, p2: bv64, mask1: bv64, mask2: bv64): bv64 {
    Either(Differs(p1, mask1), Differs(p2, mask2))
  }

  function Keep(x: bv64, mask: bv64): bv64 {
    x & mask
  }

  lemma WipeBits(p1: bv64, p2: bv64, on1: bool, on2: bool, u: bv64)
    requires OneHot(u)
    ensures var mask := WipeMask(p1, p2, Mask(on1), Mask(on2));
            var same := IsOn(p1, u) == on1 && IsOn(p2, u) == on2;
            && (IsOn(Keep(p1, mask), u) <==> !same && IsOn(p1, u))
            && (IsOn(Keep(p2, mask), u) <==> !same && IsOn(p2, u))
  {
    hide IsOn;
    hide OneHot;
    hide Either;
    hide Differs;
    hide Keep;
    hide Mask;
    DiffersBit(p1, on1, u);
    DiffersBit(p2, on2, u);
    SomeBit(Differs(p1, Mask(on1)), Differs(p2, Mask(on2)), u);
    KeepBit(p1, WipeMask(p1, p2, Mask(on1), Mask(on2)), u);
    KeepBit(p2, WipeMask(p1, p2, Mask(on1), Mask(on2)), u);
  }

  lemma AllOrNothing(x: bv64, u: bv64)
    requires OneHot(u)
    ensures x & u == 0 || x & u == u
  {
  }

  lemma DiffersBit(x: bv64, on: bool, u: bv64)
    requires OneHot(u)
    ensures IsOn(Differs(x, Mask(on)), u) <==> IsOn(x, u) != on
  {
    AllOrNothing(x, u);
    FlipUnder(x, u);
    assert x ^ 0 == x;
  }

  lemma FlipUnder(x: bv64, u: bv64)
    ensures (x ^ ALL_ONES) & u == u ^ (x & u)
  {
  }

  lemma KeepBit(x: bv64, mask: bv64, u: bv64)
    requires OneHot(u)
    ensures IsOn(Keep(x, mask), u) <==> IsOn(x, u) && IsOn(mask, u)
  {
    AllOrNothing(x, u);
    AllOrNothing(mask, u);
    AndUnder(x, mask, u);
  }

  lemma AndUnder(x: bv64, y: bv64, u: bv64)
    ensures (x & y) & u == (x & u) & (y & u)
  {
  }

  function Put(x: bv64, u: bv64, on: bool): bv64 {
    (x & !u) | (if on then u else 0)
  }

  lemma UnitsAreDisjoint(u: bv64, v: bv64)
    requires OneHot(u) && OneHot(v) && u != v
    ensures u & v == 0
  {
  }

  lemma PutElsewhere(x: bv64, u: bv64, on: bool, v: bv64)
    requires u & v == 0
    ensures Put(x, u, on) & v == x & v
  {
  }

  lemma PutBits(x: bv64, u: bv64, on: bool, v: bv64)
    requires OneHot(u) && OneHot(v)
    ensures IsOn(Put(x, u, on), v) <==> if u == v then on else IsOn(x, v)
  {
    if u != v {
      UnitsAreDisjoint(u, v);
      PutElsewhere(x, u, on, v);
    }
  }

  lemma UnitIsOneHot(h: bv32)
    ensures OneHot((1 as bv64) << (h & 0x3F))
  {
  }

  // -------------------------------------------------------------------- on the table

  /** The cell that the n-th hash function selects. */
  function CellFor(h: bv32, size: nat): Cell
    requires size > 0
  {
    var pos := (h >> 6) as nat % size;
    Cell(pos / 2, (1 as bv64) << (h & 0x3F))
  }

  lemma CellForIsCell(h: bv32, size: nat)
    requires size > 0 && size % 2 == 0
    ensures IsCell(size, CellFor(h, size))
  {
    hide OneHot;
    UnitIsOneHot(h);
  }

  /** Every cell of the table is wiped if it holds g, and otherwise kept. */
  ghost predicate Wiped(before: seq<bv64>, after: seq<bv64>, g: nat) {
    |after| == |before| && forall c :: IsCell(|before|, c) ==> WipedCell(before, after, g, c)
  }

  ghost predicate WipedCell(before: seq<bv64>, after: seq<bv64>, g: nat, c: Cell)
    requires |after| == |before| && IsCell(|before|, c)
  {
    Stored(after, c) == if Stored(before, c) == g then 0 else Stored(before, c)
  }

  /** One loop step of the wipe. */
  lemma WipeWord(before: seq<bv64>, after: seq<bv64>, g: nat, c: Cell)
    requires IsCell(|before|, c) && |after| == |before| && 1 <= g <= 3
    requires var p1, p2 := before[2 * c.word], before[2 * c.word + 1];
             var mask := WipeMask(p1, p2, Mask(LowBit(g)), Mask(HighBit(g)));
             after[2 * c.word] == Keep(p1, mask) && after[2 * c.word + 1] == Keep(p2, mask)
    ensures WipedCell(before, after, g, c)
  {
    hide IsOn;
    hide OneHot;
    hide WipeMask;
    hide Keep;
    hide Mask;
    WipeBits(before[2 * c.word], before[2 * c.word + 1], LowBit(g), HighBit(g), c.unit);
  }

  /** After setting a cell to g, that cell holds g and every other what it held. */
  lemma PutCell(before: seq<bv64>, after: seq<bv64>, g: nat, c: Cell, d: Cell)
    requires IsCell(|before|, c) && IsCell(|before|, d) && |after| == |before| && 1 <= g <= 3
    requires after == before[2 * c.word := Put(before[2 * c.word], c.unit, LowBit(g))]
                            [2 * c.word + 1 := Put(before[2 * c.word + 1], c.unit, HighBit(g))]
    ensures Stored(after, d) == if c == d then g else Stored(before, d)
  {
    hide IsOn;
    hide OneHot;
    hide Put;
    PutBits(before[2 * c.word], c.unit, LowBit(g), d.unit);
    PutBits(before[2 * c.word + 1], c.unit, HighBit(g), d.unit);
  }

  class CRollingBloomFilter {
    const nEntriesPerGeneration: nat
    const nHashFuncs: nat
    /** The hash of (nHashNum, nTweak, key). */
    const hash: (nat, bv32, Key) -> bv32
    var nTweak: bv32
    var nEntriesThisGeneration: nat
    var nGeneration: nat
    var data: array<bv64>

    // What has been inserted since the last reset, with the generation (counted
    // without wrap-around) of each insertion, and when each set cell was set last.
    ghost var inserted: seq<Key>
    ghost var born: seq<nat>
    ghost var generation: nat
    ghost var setAt: map<Cell, nat>

    ghost predicate Valid()
      reads this, data
    {
      && nEntriesPerGeneration >= 1 && data.Length > 0 && data.Length % 2 == 0
      && nGeneration == 1 + generation % 3 && nEntriesThisGeneration <= nEntriesPerGeneration
      && |inserted| == |born| == generation * nEntriesPerGeneration + nEntriesThisGeneration
      && (forall i :: 0 <= i < |born| ==> born[i] <= generation && i < (born[i] + 1) * nEntriesPerGeneration)
      && CellsOk(data[..], setAt, generation)
      && (forall i :: 0 <= i < |inserted| && born[i] + 2 >= generation ==> KeyOk(inserted[i], born[i]))
    }

    /** The cells of a key have all been set since its generation. */
    ghost predicate KeyOk(key: Key, since: nat)
      reads this
      requires data.Length > 0
    {
      forall n :: 0 <= n < nHashFuncs ==> SetSince(setAt, CellFor(hash(n, nTweak, key), data.Length), since)
    }

    constructor (nElements: nat, hashFuncs: nat, words: nat, hashIn: (nat, bv32, Key) -> bv32, tweak: bv32)
      requires nElements >= 1 && words >= 1
      ensures Valid() && fresh(data) && inserted == [] && nEntriesPerGeneration == (nElements + 1) / 2
    {
      nEntriesPerGeneration, nHashFuncs, hash := (nElements + 1) / 2, hashFuncs, hashIn;
      nTweak, nEntriesThisGeneration, nGeneration := tweak, 0, 1;
      data := new bv64[2 * words](_ => 0);
      inserted, born, generation, setAt := [], [], 0, map[];
    }

    method Reset(tweak: bv32)
      requires Valid()
      modifies this, data
      ensures Valid() && data == old(data) && inserted == []
    {
      for i := 0 to data.Length
        invariant data == old(data) && unchanged(this)
      {
        data[i] := 0;
      }
      nTweak, nEntriesThisGeneration, nGeneration := tweak, 0, 1;
      inserted, born, generation, setAt := [], [], 0, map[];
    }

    /** The wipe at the start of a generation. */
    method Wipe()
      requires data.Length % 2 == 0 && 1 <= nGeneration <= 3
      modifies data
      ensures Wiped(old(data[..]), data[..], nGeneration)
    {
      hide IsOn;
      hide OneHot;
      hide WipeMask;
      hide Keep;
      hide Mask;
      ghost var before := data[..];
      var nGenerationMask1, nGenerationMask2 := Mask(LowBit(nGeneration)), Mask(HighBit(nGeneration));
      var p := 0;
      while p < data.Length
        invariant p <= data.Length && p % 2 == 0
        invariant forall i :: p <= i < data.Length ==> data[i] == before[i]
        invariant forall c :: IsCell(|before|, c) && 2 * c.word < p ==> WipedCell(before, data[..], nGeneration, c)
      {
        ghost var was := data[..];
        var p1, p2 := data[p], data[p + 1];
        var mask := WipeMask(p1, p2, nGenerationMask1, nGenerationMask2);
        data[p] := Keep(p1, mask);
        data[p + 1] := Keep(p2, mask);
        forall c | IsCell(|before|, c) && 2 * c.word < p + 2 ensures WipedCell(before, data[..], nGeneration, c) {
          if 2 * c.word == p {
            WipeWord(before, data[..], nGeneration, c);
          } else {
            assert WipedCell(before, was, nGeneration, c);
          }
        }
        p := p + 2;
      }
    }

    method SetCell(h: bv32)
      requires data.Length > 0 && data.Length % 2 == 0 && 1 <= nGeneration <= 3
      modifies data
      ensures forall d :: IsCell(data.Length, d) ==>
                Stored(data[..], d) == if d == CellFor(h, data.Length) then nGeneration else Stored(old(data[..]), d)
    {
      hide IsOn;
      hide OneHot;
      hide Put;
      hide CellFor;
      ghost var before := data[..];
      CellForIsCell(h, data.Length);
      var c := CellFor(h, data.Length);
      data[2 * c.word] := Put(data[2 * c.word], c.unit, LowBit(nGeneration));
      data[2 * c.word + 1] := Put(data[2 * c.word + 1], c.unit, HighBit(nGeneration));
      assert data[..] == before[2 * c.word := Put(before[2 * c.word], c.unit, LowBit(nGeneration))]
                               [2 * c.word + 1 := Put(before[2 * c.word + 1], c.unit, HighBit(nGeneration))];
      forall d | IsCell(data.Length, d) ensures Stored(data[..], d) == if d == c then nGeneration else Stored(before, d) {
        PutCell(before, data[..], nGeneration, c, d);
      }
    }

    /** The start of a new generation: its number is reused, and what carried it before
        is wiped. */
    method StartGeneration()
      requires Valid() && nEntriesThisGeneration == nEntriesPerGeneration
      modifies this, data
      ensures Valid() && data == old(data) && inserted == old(inserted) && nTweak == old(nTweak) && nEntriesThisGeneration == 0
    {
      hide Stored;
      hide CellFor;
      hide IsCell;
      nEntriesThisGeneration := 0;
      nGeneration := nGeneration + 1;
      if nGeneration == 4 {
        nGeneration := 1;
      }
      NextNumber(generation);
      ghost var before := data[..];
      Wipe();
      ghost var kept := Recent(setAt, generation + 1);
      WipeKeeps(before, data[..], setAt, generation, nGeneration);
      NextMultiple(generation, nEntriesPerGeneration);
      setAt, generation := kept, generation + 1;
    }

    /** The loop of insert over the hash functions. */
    method SetCellsOf(vKey: Key)
      requires data.Length > 0 && data.Length % 2 == 0 && nGeneration == 1 + generation % 3 && CellsOk(data[..], setAt, generation)
      modifies data, `setAt
      ensures CellsOk(data[..], setAt, generation) && KeyOk(vKey, generation) && Later(old(setAt), setAt)
    {
      hide Stored;
      hide CellFor;
      hide IsCell;
      for n := 0 to nHashFuncs
        invariant CellsOk(data[..], setAt, generation) && Later(old(setAt), setAt)
        invariant forall k :: 0 <= k < n ==> SetSince(setAt, CellFor(hash(k, nTweak, vKey), data.Length), generation)
      {
        var h := hash(n, nTweak, vKey);
        ghost var before, c := data[..], CellFor(h, data.Length);
        CellForIsCell(h, data.Length);
        SetCell(h);
        assert forall d :: d in setAt ==> CellOk(before, d, setAt[d], generation);
        setAt := setAt[c := generation];
      }
    }

    method Insert(vKey: Key)
      requires Valid()
      modifies this, data
      ensures Valid() && data == old(data) && inserted == old(inserted) + [vKey] && nTweak == old(nTweak)
    {
      hide CellsOk;
      hide CellFor;
      if nEntriesThisGeneration == nEntriesPerGeneration {
        StartGeneration();
      }
      ghost var keys, was := inserted, setAt;
      NextMultiple(generation, nEntriesPerGeneration);
      nEntriesThisGeneration := nEntriesThisGeneration + 1;
      SetCellsOf(vKey);
      forall i | 0 <= i < |keys| && born[i] + 2 >= generation ensures KeyOk(keys[i], born[i]) {
        LaterKeys(was, setAt, this, keys[i], born[i]);
      }
      inserted, born := inserted + [vKey], born + [generation];
    }

    /** Contains says yes exactly when no cell of the key is unset. */
    method Contains(vKey: Key) returns (yes: bool)
      requires data.Length > 0 && data.Length % 2 == 0
      ensures yes <==> forall n :: 0 <= n < nHashFuncs ==> SetCells(data[..], hash(n, nTweak, vKey))
      ensures Valid() && (exists i :: |inserted| - 2 * nEntriesPerGeneration <= i < |inserted| && 0 <= i && inserted[i] == vKey) ==> yes
    {
      hide Valid;
      hide IsOn;
      hide OneHot;
      hide CellFor;
      hide Either;
      RecentKeyIsSet(this, vKey);
      for n := 0 to nHashFuncs
        invariant forall k :: 0 <= k < n ==> SetCells(data[..], hash(k, nTweak, vKey))
      {
        var h := hash(n, nTweak, vKey);
        CellForIsCell(h, data.Length);
        var c := CellFor(h, data.Length);
        SomeBit(data[2 * c.word], data[2 * c.word + 1], c.unit);
        if !IsOn(Either(data[2 * c.word], data[2 * c.word + 1]), c.unit) {
          assert !SetCells(data[..], hash(n, nTweak, vKey));
          return false;
        }
      }
      yes := true;
    }
  }

  /** The cell that this hash selects is set. */
  ghost predicate SetCells(data: seq<bv64>, h: bv32)
    requires |data| > 0 && |data| % 2 == 0
  {
    CellForIsCell(h, |data|);
    Stored(data, CellFor(h, |data|)) != 0
  }

  lemma RecentKeyIsSet(f: CRollingBloomFilter, vKey: Key)
    requires f.data.Length > 0 && f.data.Length % 2 == 0
    ensures f.Valid() && (exists i :: |f.inserted| - 2 * f.nEntriesPerGeneration <= i < |f.inserted| && 0 <= i && f.inserted[i] == vKey) ==>
              forall n :: 0 <= n < f.nHashFuncs ==> SetCells(f.data[..], f.hash(n, f.nTweak, vKey))
  {
    hide SetCells;
    if f.Valid() && exists i :: |f.inserted| - 2 * f.nEntriesPerGeneration <= i < |f.inserted| && 0 <= i && f.inserted[i] == vKey {
      var i :| |f.inserted| - 2 * f.nEntriesPerGeneration <= i < |f.inserted| && 0 <= i && f.inserted[i] == vKey;
      RecentKeysAreSet(f, i);
    }
  }

  /** Each of the last 2 * nEntriesPerGeneration inserted keys has all its cells set,
      despite wrap-around, wiping, and newer keys overwriting shared cells. */
  lemma RecentKeysAreSet(f: CRollingBloomFilter, i: nat)
    requires f.Valid() && |f.inserted| - 2 * f.nEntriesPerGeneration <= i < |f.inserted|
    ensures forall n :: 0 <= n < f.nHashFuncs ==> SetCells(f.data[..], f.hash(n, f.nTweak, f.inserted[i]))
  {
    hide Stored;
    hide CellFor;
    hide IsCell;
    RecentlyBorn(i, f.born[i], f.generation, f.nEntriesPerGeneration, f.nEntriesThisGeneration);
    assert f.KeyOk(f.inserted[i], f.born[i]);
    forall n | 0 <= n < f.nHashFuncs ensures SetCells(f.data[..], f.hash(n, f.nTweak, f.inserted[i])) {
      var c := CellFor(f.hash(n, f.nTweak, f.inserted[i]), f.data.Length);
      assert SetSince(f.setAt, c, f.born[i]);
      assert CellOk(f.data[..], c, f.setAt[c], f.generation);
    }
  }

  /** A filter for nElements keys remembers at least that many. */
  lemma RemembersEnough(nElements: nat)
    ensures 2 * ((nElements + 1) / 2) >= nElements
  {
  }

  lemma RecentlyBorn(i: nat, b: nat, generation: nat, perGeneration: nat, thisGeneration: nat)
    requires i < (b + 1) * perGeneration && perGeneration >= 1
    requires generation * perGeneration + thisGeneration - 2 * perGeneration <= i
    ensures b + 2 >= generation
  {
    Monotone(b + 3, generation, perGeneration);
    assert (b + 3) * perGeneration == (b + 1) * perGeneration + 2 * perGeneration;
  }

  lemma Monotone(a: nat, b: nat, c: nat)
    ensures a <= b ==> a * c <= b * c
  {
  }

  lemma NextMultiple(generation: nat, perGeneration: nat)
    ensures (generation + 1) * perGeneration == generation * perGeneration + perGeneration
  {
  }

  lemma NextNumber(generation: nat)
    ensures 1 + (generation + 1) % 3 == if generation % 3 == 2 then 1 else 2 + generation % 3
  {
  }

  /** The cells set in the last three generations up to the given one. */
  function Recent(setAt: map<Cell, nat>, generation: nat): map<Cell, nat> {
    map c | c in setAt && setAt[c] + 2 >= generation :: setAt[c]
  }

  lemma WipeKeeps(before: seq<bv64>, after: seq<bv64>, setAt: map<Cell, nat>, generation: nat, g: nat)
    requires CellsOk(before, setAt, generation) && Wiped(before, after, g) && g == 1 + (generation + 1) % 3
    ensures CellsOk(after, Recent(setAt, generation + 1), generation + 1)
  {
    hide Stored;
    hide IsCell;
    forall c | c in Recent(setAt, generation + 1) ensures IsCell(|after|, c) && CellOk(after, c, setAt[c], generation + 1) {
      assert CellOk(before, c, setAt[c], generation);
      assert WipedCell(before, after, g, c);
    }
  }

  /** Cells stay set, and only get younger. */
  ghost predicate Later(was: map<Cell, nat>, setAt: map<Cell, nat>) {
    forall c :: c in was ==> c in setAt && setAt[c] >= was[c]
  }

  lemma LaterKeys(was: map<Cell, nat>, setAt: map<Cell, nat>, f: CRollingBloomFilter, key: Key, since: nat)
    requires f.data.Length > 0 && f.setAt == setAt && Later(was, setAt)
    requires forall n :: 0 <= n < f.nHashFuncs ==> SetSince(was, CellFor(f.hash(n, f.nTweak, key), f.data.Length), since)
    ensures f.KeyOk(key, since)
  {
    hide CellFor;
  }

  predicate SetSince(setAt: map<Cell, nat>, c: Cell, since: nat) {
    c in setAt && setAt[c] >= since
  }

  /** A cell that counts as set holds the number of its generation, one of the last three. */
  ghost predicate CellsOk(data: seq<bv64>, setAt: map<Cell, nat>, generation: nat) {
    forall c :: c in setAt ==> IsCell(|data|, c) && CellOk(data, c, setAt[c], generation)
  }

  ghost predicate CellOk(data: seq<bv64>, c: Cell, at: nat, generation: nat)
    requires IsCell(|data|, c)
  {
    Stored(data, c) == 1 + at % 3 && at <= generation <= at + 2
  }
}
