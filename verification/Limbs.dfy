/**
 256-bit numbers as eight 32-bit limbs, least significant first: what they stand
 for, and the arithmetic behind carries, shifts and bitwise or.
 */
module Limbs {
  import opened Radix

  const BASE: nat := 0x1_0000_0000

  /** A uint32_t. */
  type Limb = x: int | 0 <= x < 0x1_0000_0000

  type Words = s: seq<int> | |s| == 8 && AreDigits(0x1_0000_0000, s) witness [0, 0, 0, 0, 0, 0, 0, 0]

  /** The low 32 bits, as & 0xffffffff or an assignment to a limb keeps them. */
  function Low32(x: int): Limb {
    x % 0x1_0000_0000
  }

  /** The number in the first n limbs. */
  function Num(s: seq<int>, n: nat): int
    requires n <= |s|
  {
    if n == 0 then 0 else Num(s, n - 1) + s[n - 1] * Pow(BASE, n - 1)
  }

  function Val(s: Words): (v: nat)
    ensures v < Modulus()
  {
    NumBound(s, 8);
    Num(s, 8)
  }

  function Modulus(): nat {
    Pow(BASE, 8)
  }

  lemma {:induction false} NumBound(s: seq<int>, n: nat)
    requires n <= |s| && AreDigits(0x1_0000_0000, s)
    ensures 0 <= Num(s, n) < Pow(BASE, n)
  {
    if n > 0 {
      NumBound(s, n - 1);
      Scaled(s[n - 1], BASE - 1, Pow(BASE, n - 1));
    }
  }

  lemma Scaled(a: int, b: int, p: nat)
    requires a <= b
    ensures a * p <= b * p
  {
  }

  lemma {:induction false} NumUnchanged(s: seq<int>, t: seq<int>, n: nat)
    requires n <= |s| && n <= |t| && forall k :: 0 <= k < n ==> s[k] == t[k]
    ensures Num(s, n) == Num(t, n)
  {
    if n > 0 {
      NumUnchanged(s, t, n - 1);
    }
  }

  /** Writing limb i, with the limbs below as they are. */
  lemma NumWrite(s: seq<int>, i: nat, d: int)
    requires i < |s|
    ensures Num(s[i := d], i + 1) == Num(s, i) + d * Pow(BASE, i)
  {
    NumUnchanged(s[i := d], s, i);
  }

  lemma NumNext(s: seq<int>, i: nat)
    requires i < |s|
    ensures Num(s, i + 1) == Num(s, i) + s[i] * Pow(BASE, i)
  {
  }

  lemma PowNext(b: nat, i: nat)
    ensures Pow(b, i + 1) == b * Pow(b, i) && Pow(b, 0) == 1
  {
  }

  lemma NumZero(s: seq<int>)
    ensures Num(s, 0) == 0
  {
  }

  lemma {:induction false} NumOfZeros(s: seq<int>, n: nat)
    requires n <= |s| && forall k :: 0 <= k < n ==> s[k] == 0
    ensures Num(s, n) == 0
  {
    if n > 0 {
      NumOfZeros(s, n - 1);
    }
  }

  lemma ValBound(s: Words)
    ensures 0 <= Val(s) < Modulus()
  {
    NumBound(s, 8);
  }

  /** A number below m that differs from y by a multiple of m is y mod m. */
  lemma ModIs(x: int, k: int, m: int, y: int)
    requires 0 <= x < m && x + k * m == y
    ensures x == y % m
  {
    QuotientIsUnique(m, k, x, y / m, y % m);
  }

  lemma ModEquals(y: int, m: int) returns (k: int)
    requires m > 0
    ensures y == y % m + k * m
  {
    k := y / m;
  }

  /** The digits of two numbers of n limbs decide which is larger. */
  lemma {:induction false} NumOrder(s: seq<int>, t: seq<int>, i: nat, n: nat)
    requires AreDigits(0x1_0000_0000, s) && AreDigits(0x1_0000_0000, t)
    requires i < n <= |s| && n <= |t| && s[i] < t[i] && forall k :: i < k < n ==> s[k] == t[k]
    ensures Num(s, n) < Num(t, n)
    decreases n
  {
    hide Num;
    hide Pow;
    NumNext(s, n - 1);
    NumNext(t, n - 1);
    if i < n - 1 {
      NumOrder(s, t, i, n - 1);
    } else {
      NumBound(s, i);
      NumBound(t, i);
      var p := Pow(BASE, i);
      Scaled(s[i] + 1, t[i], p);
      assert (s[i] + 1) * p == s[i] * p + p;
    }
  }

  lemma WriteLimb(s: Words, i: nat, d: Limb)
    requires i < 8
    ensures |s[i := d]| == 8 && AreDigits(0x1_0000_0000, s[i := d])
  {
  }

  lemma CarryStep(x: int, a: int, p: int, carry: int, n: int, r: int, q: int)
    requires x + carry * p == a && n == r + q * 0x1_0000_0000
    ensures x + r * p + q * (0x1_0000_0000 * p) == a + (n - carry) * p
  {
    assert (r + q * 0x1_0000_0000) * p == r * p + q * (0x1_0000_0000 * p);
  }

  // ------------------------------------------------------------------------ bitwise or

  /** Bitwise or of natural numbers. */
  function Or(x: nat, y: nat): nat
    decreases x + y
  {
    if x == 0 then y
    else if y == 0 then x
    else 2 * Or(x / 2, y / 2) + (if x % 2 == 1 || y % 2 == 1 then 1 else 0)
  }

  /** Without a bit in common, or adds. */
  lemma {:induction false} OrDisjoint(x: nat, z: nat, s: nat)
    requires x < Pow(2, s)
    ensures Or(x, z * Pow(2, s)) == x + z * Pow(2, s) == Or(z * Pow(2, s), x)
  {
    if s > 0 && x > 0 && z > 0 {
      var y := z * Pow(2, s - 1);
      assert z * Pow(2, s) == 2 * y;
      OrDisjoint(x / 2, z, s - 1);
    }
  }
}
