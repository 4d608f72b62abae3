/**
 Positional numerals, most significant digit first, and powers.
 */
module Radix {

  type Byte = x: int | 0 <= x < 256

  const UINT64: nat := 0x1_0000_0000_0000_0000

  /** What a uint64_t keeps of a number. */
  function Wrap64(x: int): nat {
    x % 0x1_0000_0000_0000_0000
  }

  function Pow(b: nat, n: nat): nat {
    if n == 0 then 1 else b * Pow(b, n - 1)
  }

  lemma {:induction false} PowPositive(b: nat, n: nat)
    requires b > 0
    ensures Pow(b, n) > 0
  {
    if n > 0 {
      PowPositive(b, n - 1);
    }
  }

  lemma {:induction false} PowAdd(b: nat, m: nat, n: nat)
    ensures Pow(b, m + n) == Pow(b, m) * Pow(b, n)
  {
    if m > 0 {
      PowAdd(b, m - 1, n);
      assert b * (Pow(b, m - 1) * Pow(b, n)) == b * Pow(b, m - 1) * Pow(b, n);
    }
  }

  lemma {:induction false} PowTimes(b: nat, m: nat, n: nat)
    ensures Pow(b, m * n) == Pow(Pow(b, m), n)
  {
    if n == 0 {
      assert m * n == 0;
    } else {
      assert m * n == m + m * (n - 1);
      PowAdd(b, m, m * (n - 1));
      PowTimes(b, m, n - 1);
    }
  }

  lemma {:induction false} PowGrows(b: nat, m: nat, n: nat)
    requires b > 0 && m <= n
    ensures Pow(b, m) <= Pow(b, n)
  {
    if m < n {
      PowGrows(b, m, n - 1);
    }
  }

  lemma {:induction false} PowOfLarger(a: nat, b: nat, n: nat)
    requires a <= b
    ensures Pow(a, n) <= Pow(b, n)
  {
    if n > 0 {
      PowOfLarger(a, b, n - 1);
      Product(a, b, Pow(a, n - 1), Pow(b, n - 1));
    }
  }

  lemma Product(a: nat, b: nat, x: nat, y: nat)
    requires a <= b && x <= y
    ensures a * x <= b * y
  {
  }

  lemma {:induction false} PowOfStrictlyLarger(a: nat, b: nat, n: nat)
    requires a < b && n > 0
    ensures Pow(a, n) < Pow(b, n)
  {
    if n > 1 {
      PowOfStrictlyLarger(a, b, n - 1);
      StrictProduct(a, b, Pow(a, n - 1), Pow(b, n - 1));
    }
  }

  lemma StrictProduct(a: nat, b: nat, x: nat, y: nat)
    requires a < b && x < y
    ensures a * x < b * y
  {
    assert a * x <= a * y;
    assert b * y == a * y + (b - a) * y;
    Product(1, b - a, y, y);
  }

  /** If a^p <= b^q, then b needs at most q digits for every p digits of a. */
  lemma DigitsSuffice(a: nat, b: nat, p: nat, q: nat, n: nat, k: nat)
    requires b > 0 && p > 0 && Pow(a, p) <= Pow(b, q) && q * n <= p * k
    ensures Pow(a, n) <= Pow(b, k)
  {
    hide Pow;
    var m, l := q * n, p * k;
    PowTimes(b, q, n);
    PowTimes(b, p, k);
    PowGrows(b, m, l);
    PowSwap(b, k, p);
    PowSwap(a, n, p);
    PowOfLarger(Pow(a, p), Pow(b, q), n);
    RootOrder(Pow(a, n), Pow(b, k), p);
  }

  lemma RootOrder(x: nat, y: nat, p: nat)
    requires p > 0 && Pow(x, p) <= Pow(y, p)
    ensures x <= y
  {
    if y < x {
      PowOfStrictlyLarger(y, x, p);
    }
  }

  lemma PowSwap(b: nat, m: nat, n: nat)
    ensures Pow(Pow(b, m), n) == Pow(Pow(b, n), m)
  {
    PowTimes(b, m, n);
    PowTimes(b, n, m);
    assert m * n == n * m;
  }

  // ------------------------------------------------------------------------- numerals

  predicate AreDigits(b: nat, s: seq<int>) {
    forall i :: 0 <= i < |s| ==> 0 <= s[i] < b
  }

  function Value(b: nat, s: seq<int>): int {
    if s == [] then 0 else Value(b, s[..|s| - 1]) * b + s[|s| - 1]
  }

  /** The value of the last i digits. */
  function Low(b: nat, s: seq<int>, i: nat): int
    requires i <= |s|
  {
    if i == 0 then 0 else Low(b, s, i - 1) + s[|s| - i] * Pow(b, i - 1)
  }

  lemma {:induction false} SplitValue(b: nat, s: seq<int>, i: nat)
    requires i <= |s|
    ensures Value(b, s) == Value(b, s[..|s| - i]) * Pow(b, i) + Low(b, s, i)
  {
    if i == 0 {
      assert s[..|s|] == s;
    } else {
      SplitValue(b, s, i - 1);
      var t := s[..|s| - (i - 1)];
      assert t[..|t| - 1] == s[..|s| - i];
      var v, d, p := Value(b, s[..|s| - i]), s[|s| - i], Pow(b, i - 1);
      assert Value(b, t) == v * b + d;
      assert (v * b + d) * p == v * (b * p) + d * p;
    }
  }

  lemma {:induction false} LowUnchanged(b: nat, s: seq<int>, t: seq<int>, i: nat)
    requires i <= |s| == |t| && forall k :: |s| - i <= k < |s| ==> s[k] == t[k]
    ensures Low(b, s, i) == Low(b, t, i)
  {
    if i > 0 {
      LowUnchanged(b, s, t, i - 1);
    }
  }

  lemma {:induction false} LowBound(b: nat, s: seq<int>, i: nat)
    requires AreDigits(b, s) && i <= |s|
    ensures 0 <= Low(b, s, i) < Pow(b, i)
  {
    if i > 0 {
      LowBound(b, s, i - 1);
      var d, p := s[|s| - i], Pow(b, i - 1);
      assert 0 <= d * p <= (b - 1) * p == b * p - p;
    }
  }

  lemma ValueBound(b: nat, s: seq<int>)
    requires AreDigits(b, s)
    ensures 0 <= Value(b, s) < Pow(b, |s|)
  {
    SplitValue(b, s, |s|);
    LowBound(b, s, |s|);
    assert Value(b, s[..0]) * Pow(b, |s|) == 0;
  }

  ghost predicate StartsWithZeros(s: seq<int>, n: nat) {
    n <= |s| && forall i :: 0 <= i < n ==> s[i] == 0
  }

  lemma {:induction false} ZerosAreZero(b: nat, s: seq<int>, n: nat)
    requires StartsWithZeros(s, n)
    ensures Value(b, s[..n]) == 0
  {
    if n > 0 {
      ZerosAreZero(b, s, n - 1);
      assert s[..n][..n - 1] == s[..n - 1];
    }
  }

  lemma {:induction false} ValueOfConcat(b: nat, s: seq<int>, t: seq<int>)
    ensures Value(b, s + t) == Value(b, s) * Pow(b, |t|) + Value(b, t)
  {
    if t == [] {
      assert s + t == s;
    } else {
      var n := |t| - 1;
      ValueOfConcat(b, s, t[..n]);
      assert (s + t)[..|s| + n] == s + t[..n];
      assert (s + t)[|s| + n] == t[n];
      var v, p := Value(b, s), Pow(b, n);
      assert (v * p + Value(b, t[..n])) * b == v * (b * p) + Value(b, t[..n]) * b;
    }
  }

  /** Leading zeros do not count. */
  lemma ValueWithoutZeros(b: nat, s: seq<int>, n: nat)
    requires StartsWithZeros(s, n)
    ensures Value(b, s) == Value(b, s[n..])
  {
    ZerosAreZero(b, s, n);
    ValueOfConcat(b, s[..n], s[n..]);
    assert s == s[..n] + s[n..];
    assert 0 * Pow(b, |s[n..]|) == 0;
  }

  /** Numerals of the same length and value are the same. */
  lemma {:induction false} SameValueSameDigits(b: nat, s: seq<int>, t: seq<int>)
    requires AreDigits(b, s) && AreDigits(b, t) && |s| == |t| && Value(b, s) == Value(b, t)
    ensures s == t
  {
    if s != [] {
      var n := |s| - 1;
      QuotientIsUnique(b, Value(b, s[..n]), s[n], Value(b, t[..n]), t[n]);
      SameValueSameDigits(b, s[..n], t[..n]);
      assert s == s[..n] + [s[n]];
      assert t == t[..n] + [t[n]];
    }
  }

  lemma QuotientIsUnique(b: nat, x: int, d: int, y: int, e: int)
    requires 0 <= d < b && 0 <= e < b && x * b + d == y * b + e
    ensures x == y && d == e
  {
    if x < y {
      StrictlyMore(b, x, d, y, e);
    } else if y < x {
      StrictlyMore(b, y, e, x, d);
    }
  }

  lemma StrictlyMore(b: nat, x: int, d: int, y: int, e: int)
    requires x < y && 0 <= d < b && 0 <= e
    ensures x * b + d < y * b + e
  {
    Product(1, y - x, b, b);
    assert (y - x) * b == y * b - x * b;
  }

  ghost predicate Canonical(s: seq<int>) {
    s == [] || s[0] != 0
  }

  /** A numeral without leading zero is as long as its value demands. */
  lemma CanonicalLength(b: nat, s: seq<int>, t: seq<int>)
    requires b > 0 && AreDigits(b, s) && AreDigits(b, t) && Canonical(s) && Value(b, s) == Value(b, t)
    ensures |s| <= |t|
  {
    hide Pow;
    if |t| < |s| {
      var n := |s| - 1;
      ValueBound(b, t);
      PowGrows(b, |t|, n);
      SplitValue(b, s, n);
      LowBound(b, s, n);
      assert s[..1] == [s[0]];
      assert Value(b, s[..1]) == Value(b, []) * b + s[0] == s[0];
      Product(1, s[0], Pow(b, n), Pow(b, n));
    }
  }

  lemma CanonicalIsUnique(b: nat, s: seq<int>, t: seq<int>)
    requires b > 0 && AreDigits(b, s) && AreDigits(b, t) && Canonical(s) && Canonical(t) && Value(b, s) == Value(b, t)
    ensures s == t
  {
    CanonicalLength(b, s, t);
    CanonicalLength(b, t, s);
    SameValueSameDigits(b, s, t);
  }

  function LeadingZeros(s: seq<int>): nat {
    if s == [] || s[0] != 0 then 0 else 1 + LeadingZeros(s[1..])
  }

  lemma {:induction false} LeadingZerosSplit(s: seq<int>)
    ensures var z := LeadingZeros(s); StartsWithZeros(s, z) && Canonical(s[z..])
  {
    if s != [] && s[0] == 0 {
      LeadingZerosSplit(s[1..]);
      var z := LeadingZeros(s[1..]);
      assert s[1 + z..] == s[1..][z..];
      forall i | 0 <= i < 1 + z ensures s[i] == 0 {
        assert i > 0 ==> s[i] == s[1..][i - 1];
      }
    }
  }

  lemma {:induction false} LeadingZerosAre(s: seq<int>, z: nat)
    requires StartsWithZeros(s, z) && Canonical(s[z..])
    ensures LeadingZeros(s) == z
  {
    if z > 0 {
      assert s[1..][z - 1..] == s[z..];
      LeadingZerosAre(s[1..], z - 1);
    } else {
      assert s[0..] == s;
    }
  }

  /** Digits are determined by the number of leading zeros and the value. */
  lemma DigitsAreDetermined(b: nat, s: seq<int>, t: seq<int>)
    requires b > 0 && AreDigits(b, s) && AreDigits(b, t)
    requires LeadingZeros(s) == LeadingZeros(t) && Value(b, s) == Value(b, t)
    ensures s == t
  {
    var z := LeadingZeros(s);
    LeadingZerosSplit(s);
    LeadingZerosSplit(t);
    ValueWithoutZeros(b, s, z);
    ValueWithoutZeros(b, t, z);
    CanonicalIsUnique(b, s[z..], t[z..]);
    assert s == s[..z] + s[z..];
    assert t == t[..z] + t[z..];
    assert s[..z] == t[..z];
  }
}
