/**
 The list of requested transaction indexes, sent as distances.
 */
module IndexCoding {
  import opened Radix
  import opened Wrappers

  /** A uint16_t. */
  type Index = x: int | 0 <= x < 65536

  /** The distances of the indexes, `offset` being one more than the index before. */
  function Differences(indexes: seq<Index>, offset: nat): (d: seq<nat>)
    ensures |d| == |indexes|
  {
    if indexes == [] then []
    else [Wrap64(indexes[0] as int - offset)] + Differences(indexes[1..], indexes[0] as int + 1)
  }

  /** Reading them: None where the reader throws.  The offset has 16 bits. */
  function Restored(d: seq<nat>, offset: Index): Option<seq<Index>> {
    if d == [] then Some([])
    else if d[0] as int + offset > 65535 then None
    else
      var index: int := d[0] + offset;
      match Restored(d[1..], (index + 1) % 65536)
      case None => None
      case Some(rest) => Some([index] + rest)
  }

  predicate IncreasingFrom(indexes: seq<Index>, least: nat) {
    indexes == [] || (least <= indexes[0] && IncreasingFrom(indexes[1..], indexes[0] as int + 1))
  }

  /** In the usual terms. */
  lemma {:induction false} IncreasingIs(indexes: seq<Index>, least: nat)
    ensures IncreasingFrom(indexes, least) <==>
            (forall i :: 0 <= i < |indexes| ==> least <= indexes[i]) && forall i, j :: 0 <= i < j < |indexes| ==> indexes[i] < indexes[j]
  {
    if indexes != [] {
      var rest := indexes[1..];
      IncreasingIs(rest, indexes[0] as int + 1);
      assert indexes == [indexes[0]] + rest;
      assert forall i :: 0 < i < |indexes| ==> indexes[i] == rest[i - 1];
    }
  }

  /** The reader restores a list exactly when it is strictly increasing. */
  lemma {:induction false} RestoresIffIncreasing(indexes: seq<Index>, offset: nat)
    requires offset <= 65536
    ensures Restored(Differences(indexes, offset), offset % 65536) == Some(indexes) <==> IncreasingFrom(indexes, offset)
    decreases |indexes|
  {
    if indexes != [] {
      var d := Differences(indexes, offset);
      assert d[1..] == Differences(indexes[1..], indexes[0] as int + 1);
      RestoresIffIncreasing(indexes[1..], indexes[0] as int + 1);
      assert indexes == [indexes[0]] + indexes[1..];
      if offset <= indexes[0] {
        assert d[0] == indexes[0] - offset;
        assert offset % 65536 == offset;
      } else {
        assert d[0] >= UINT64 - 65536;
      }
    }
  }

  /** The largest index is nowhere but possibly at the end. */
  ghost predicate OnlyLast(l: seq<Index>) {
    forall i :: 0 <= i < |l| - 1 ==> l[i] != 65535
  }

  lemma LargestLast(index: Index, rest: seq<Index>)
    ensures OnlyLast([index] + rest) <==> OnlyLast(rest) && (rest == [] || index != 65535)
  {
    var l := [index] + rest;
    assert l[0] == index;
    assert forall i :: 0 <= i < |rest| ==> l[i + 1] == rest[i];
    if OnlyLast(l) {
      forall i | 0 <= i < |rest| - 1 ensures rest[i] != 65535 {
        assert l[i + 1] != 65535;
      }
    } else {
      var i :| 0 <= i < |l| - 1 && l[i] == 65535;
      assert i > 0 ==> rest[i - 1] == 65535;
    }
  }

  /** The largest index can only come last; then a list that was read is increasing
      and is written as it was read. */
  lemma {:induction false} RestoredIsIncreasingIff(d: seq<nat>, offset: Index)
    requires Restored(d, offset).Some?
    ensures var l := Restored(d, offset).value; |l| == |d| && (IncreasingFrom(l, offset) <==> OnlyLast(l))
    ensures var l := Restored(d, offset).value; IncreasingFrom(l, offset) ==> Differences(l, offset) == d
    decreases |d|
  {
    if d != [] {
      var index: Index := d[0] as int + offset as int;
      var l := Restored(d, offset).value;
      var rest := Restored(d[1..], (index as int + 1) % 65536).value;
      RestoredIsIncreasingIff(d[1..], (index as int + 1) % 65536);
      assert l[1..] == rest && d == [d[0]] + d[1..];
      LargestLast(index, rest);
      if index == 65535 && rest != [] {
        assert !IncreasingFrom(rest, 65536);
      }
    }
  }

  function Sum(d: seq<nat>): nat {
    if d == [] then 0 else d[0] + Sum(d[1..])
  }

  /** What that means for the distances received: the reader accepts them and gives
      an increasing list exactly when they do not reach beyond the last index. */
  lemma {:induction false} ReadIsIncreasingIff(d: seq<nat>, offset: Index)
    ensures Restored(d, offset).Some? && IncreasingFrom(Restored(d, offset).value, offset)
            <==> d == [] || offset as int + Sum(d) + |d| - 1 <= 65535
    decreases |d|
  {
    if d != [] && d[0] as int + offset as int <= 65535 {
      var index: int := d[0] as int + offset as int;
      var next := (index + 1) % 65536;
      ReadIsIncreasingIff(d[1..], next);
      if Restored(d[1..], next).Some? {
        var rest := Restored(d[1..], next).value;
        var l := Restored(d, offset).value;
        assert l[0] == index && l[1..] == rest;
        RestoredLength(d[1..], next);
        if index == 65535 && rest != [] {
          assert !IncreasingFrom(rest, 65536);
        }
      }
    }
  }

  lemma {:induction false} RestoredLength(d: seq<nat>, offset: Index)
    requires Restored(d, offset).Some?
    ensures |Restored(d, offset).value| == |d|
  {
    if d != [] {
      RestoredLength(d[1..], (d[0] as int + offset as int + 1) % 65536);
    }
  }

  /** So the reader also accepts lists that are not increasing. */
  lemma WrappedOffset()
    ensures Restored([65535, 0], 0) == Some([65535, 0]) && !IncreasingFrom([65535, 0], 0)
  {
    var d: seq<nat>, e: seq<nat> := [65535, 0], [0];
    var l: seq<Index> := [0];
    assert d[1..] == e && e[1..] == [];
    assert l == l + [];
    assert Restored(e, 0) == Some(l);
    var w: seq<Index> := [65535, 0];
    assert w == [65535] + l;
    assert w[1..] == l;
  }

  /** SerializationOp, writing. */
  method WriteIndexes(indexes: seq<Index>) returns (out: seq<nat>)
    ensures out == Differences(indexes, 0)
  {
    hide Wrap64;
    hide Differences;
    out := [];
    assert indexes[0..] == indexes;
    assert [] + Differences(indexes, 0) == Differences(indexes, 0);
    for i := 0 to |indexes|
      invariant out + Differences(indexes[i..], Offset(indexes, i)) == Differences(indexes, 0)
    {
      NextDifference(indexes, i);
      ghost var rest := Differences(indexes[i + 1..], Offset(indexes, i + 1));
      var index := Wrap64(indexes[i] as int - (if i == 0 then 0 else indexes[i - 1] as int + 1));
      assert out + ([index] + rest) == out + [index] + rest;
      out := out + [index];
    }
    assert indexes[|indexes|..] == [];
    NoDifferences(Offset(indexes, |indexes|));
  }

  function Offset(indexes: seq<Index>, i: nat): nat
    requires i <= |indexes|
  {
    if i == 0 then 0 else indexes[i - 1] as int + 1
  }

  lemma NextDifference(indexes: seq<Index>, i: nat)
    requires i < |indexes|
    ensures Differences(indexes[i..], Offset(indexes, i))
            == [Wrap64(indexes[i] as int - Offset(indexes, i))] + Differences(indexes[i + 1..], Offset(indexes, i + 1))
  {
    assert indexes[i..][1..] == indexes[i + 1..];
  }

  lemma NoDifferences(offset: nat)
    ensures Differences([], offset) == []
  {
  }

  /** SerializationOp, reading: first the distances, each of which must fit 16 bits,
      then in place the indexes. */
  method ReadIndexes(d: seq<nat>) returns (ok: bool, indexes: seq<Index>)
    ensures Restored(d, 0) == if ok then Some(indexes) else None
  {
    indexes := [];
    for i := 0 to |d|
      invariant |indexes| == i && forall j :: 0 <= j < i ==> indexes[j] == d[j]
    {
      if d[i] > 65535 {
        TooFar(d, i, 0);
        return false, [];
      }
      indexes := indexes + [d[i]];
    }
    var offset: Index := 0;
    assert d[0..] == d;
    BehindNothing(Restored(d, 0));
    assert indexes[..0] == [];
    for i := 0 to |d|
      invariant |indexes| == |d| && forall j :: i <= j < |d| ==> indexes[j] == d[j]
      invariant Restored(d, 0) == Behind(indexes[..i], Restored(d[i..], offset))
    {
      assert d[i..][1..] == d[i + 1..];
      if indexes[i] as int + offset as int > 65535 {
        return false, [];
      }
      var index: int := indexes[i] as int + offset as int;
      BehindStep(indexes[..i], index, Restored(d[i + 1..], (index + 1) % 65536));
      indexes := indexes[i := index];
      assert indexes[..i + 1] == indexes[..i] + [index];
      offset := (index + 1) % 65536;
    }
    assert d[|d|..] == [];
    assert indexes[..|d|] + [] == indexes;
    ok := true;
  }

  function Behind(before: seq<Index>, found: Option<seq<Index>>): Option<seq<Index>> {
    match found
    case None => None
    case Some(rest) => Some(before + rest)
  }

  lemma BehindNothing(found: Option<seq<Index>>)
    ensures Behind([], found) == found
  {
    if found.Some? {
      assert [] + found.value == found.value;
    }
  }

  lemma BehindStep(before: seq<Index>, index: Index, found: Option<seq<Index>>)
    ensures Behind(before + [index], found) == Behind(before, Behind([index], found))
  {
    if found.Some? {
      assert before + [index] + found.value == before + ([index] + found.value);
    }
  }

  lemma {:induction false} TooFar(d: seq<nat>, i: nat, offset: Index)
    requires i < |d| && d[i] > 65535
    ensures Restored(d, offset) == None
    decreases i
  {
    if i > 0 && d[0] as int + offset as int <= 65535 {
      TooFar(d[1..], i - 1, (d[0] as int + offset as int + 1) % 65536);
    }
  }
}
