/**
 One step of each limb loop: the equation between the limbs done so far, the
 carry, and the operands.
 */
module LimbSteps {
  import opened Radix
  import opened Limbs

  lemma SmallVal(s: Words)
    requires forall k :: 2 <= k < 8 ==> s[k] == 0
    ensures var low: int, high: int := s[0], s[1]; Val(s) == low + high * 0x1_0000_0000
  {
    NumFrom(s, 2, 8);
    assert Num(s, 2) == Num(s, 1) + s[1] * Pow(BASE, 1);
    assert Num(s, 1) == Num(s, 0) + s[0] * Pow(BASE, 0);
    assert Pow(BASE, 1) == BASE * Pow(BASE, 0);
  }

  /** Zero limbs on top do not count. */
  lemma {:induction false} NumFrom(s: Words, i: nat, n: nat)
    requires i <= n <= 8 && forall k :: i <= k < n ==> s[k] == 0
    ensures Num(s, n) == Num(s, i)
  {
    if i < n {
      NumFrom(s, i, n - 1);
    }
  }

  /** ~ limb by limb is 2^256 - 1 - x. */
  lemma {:induction false} ComplementNum(s: Words, t: Words, n: nat)
    requires n <= 8 && forall k :: 0 <= k < n ==> t[k] == 0xffff_ffff - s[k]
    ensures Num(t, n) == Pow(BASE, n) - 1 - Num(s, n)
  {
    if n > 0 {
      ComplementNum(s, t, n - 1);
      var p := Pow(BASE, n - 1);
      assert t[n - 1] * p == 0xffff_ffff * p - s[n - 1] * p;
    }
  }

  /** A change below limb i shows in the whole number. */
  lemma {:induction false} NumChange(s: Words, t: Words, i: nat, n: nat)
    requires i <= n <= 8 && forall k :: i <= k < n ==> s[k] == t[k]
    ensures Num(t, n) - Num(s, n) == Num(t, i) - Num(s, i)
  {
    if i < n {
      NumChange(s, t, i, n - 1);
    }
  }

  lemma AddStart(s: Words, t: Words)
    ensures Num(s, 0) == Num(t, 0) == 0 && Pow(BASE, 0) == 1
  {
  }

  lemma AddStep(s: Words, t: Words, u: Words, i: nat, carry: int)
    requires i < 8 && u[i] == s[i] && Num(u, i) + carry * Pow(BASE, i) == Num(s, i) + Num(t, i)
    ensures var n := carry + s[i] + t[i];
            Num(u[i := Low32(n)], i + 1) + n / 0x1_0000_0000 * Pow(BASE, i + 1) == Num(s, i + 1) + Num(t, i + 1)
  {
    hide Pow;
    hide Num;
    var n, p := carry + s[i] + t[i], Pow(BASE, i);
    NumNext(s, i);
    NumNext(t, i);
    PowNext(BASE, i);
    CarryStep(Num(u, i), Num(s, i) + Num(t, i), p, carry, n, Low32(n), n / 0x1_0000_0000);
    NumWrite(u, i, Low32(n));
    assert (n - carry) * p == s[i] * p + t[i] * p;
  }

  lemma MultiplyStep(s: Words, b32: int, u: Words, i: nat, carry: int)
    requires 0 <= b32 < 0x1_0000_0000 && i < 8 && u[i] == s[i]
    requires Num(u, i) + carry * Pow(BASE, i) == Num(s, i) * b32 && 0 <= carry < 0x1_0000_0000
    ensures var n := carry + b32 * s[i];
            && 0 <= n / 0x1_0000_0000 < 0x1_0000_0000 && n < UINT64
            && Num(u[i := Low32(n)], i + 1) + n / 0x1_0000_0000 * Pow(BASE, i + 1) == Num(s, i + 1) * b32
  {
    hide Pow;
    hide Num;
    WordProduct(b32, s[i]);
    var n, p := carry + b32 * s[i], Pow(BASE, i);
    NumNext(s, i);
    PowNext(BASE, i);
    CarryStep(Num(u, i), Num(s, i) * b32, p, carry, n, Low32(n), n / 0x1_0000_0000);
    NumWrite(u, i, Low32(n));
    Distribute(Num(s, i), b32, s[i], p);
  }

  lemma WordProduct(a: int, b: int)
    requires 0 <= a < 0x1_0000_0000 && 0 <= b < 0x1_0000_0000
    ensures 0 <= a * b <= 0xffff_fffe_0000_0001
  {
    Product(a, 0xffff_ffff, b, 0xffff_ffff);
  }

  lemma Distribute(x: int, a: int, d: int, p: int)
    ensures x * a + (a * d) * p == (x + d * p) * a
  {
  }

  lemma Incremented(s: Words, t: Words, i: nat)
    requires i <= 7 && t[i] == Low32(s[i] + 1) && (t[i] != 0 || i == 7)
    requires Num(t, i) + Pow(BASE, i) == Num(s, i) + 1 && forall k :: i < k < 8 ==> t[k] == s[k]
    ensures Val(t) == (Val(s) + 1) % Modulus()
  {
    hide Pow;
    hide Num;
    var p := Pow(BASE, i);
    NumNext(t, i);
    NumNext(s, i);
    ValBound(t);
    if t[i] != 0 {
      assert t[i] * p == s[i] * p + p;
      NumChange(s, t, i + 1, 8);
      ModIs(Val(t), 0, Modulus(), Val(s) + 1);
    } else {
      PowNext(BASE, 7);
      assert s[i] * p == 0xffff_ffff * p;
      ModIs(Val(t), 1, Modulus(), Val(s) + 1);
    }
  }

  // ------------------------------------------------------------------------ long products

  lemma RowProduct(a: int, x: int, d: int, p: int, q: int)
    ensures a * (x + d * p) * q == a * x * q + a * d * (p * q)
  {
  }

  lemma RowStart(t: Words, aj: int, j: nat)
    ensures Num(t, 0) == 0 && aj * Num(t, 0) * Pow(BASE, j) == 0
  {
  }

  lemma RowRange(aj: int, d: int, e: int, carry: int)
    requires 0 <= aj < 0x1_0000_0000 && 0 <= d < 0x1_0000_0000 && 0 <= e < 0x1_0000_0000 && 0 <= carry < 0x1_0000_0000
    ensures var n := carry + e + aj * d; n < UINT64 && 0 <= n / 0x1_0000_0000 < 0x1_0000_0000
  {
    WordProduct(aj, d);
  }

  lemma RowSum(lhs: int, a: int, e: int, w: int, p: int, x: int, was: int, now: int)
    requires lhs == a + (e + w) * p && a == x + was && now == was + w * p
    ensures lhs == x + e * p + now
  {
  }

  /** One limb of one row of the long multiplication. */
  lemma RowStep(p0: Words, t: Words, aj: int, u: Words, j: nat, i: nat, carry: int, n: int)
    requires i + j < 8 && u[i + j] == p0[i + j] && n == carry + p0[i + j] + aj * t[i]
    requires Num(u, i + j) + carry * Pow(BASE, i + j) == Num(p0, i + j) + aj * Num(t, i) * Pow(BASE, j)
    ensures Num(u[i + j := Low32(n)], i + j + 1) + n / 0x1_0000_0000 * Pow(BASE, i + j + 1) == Num(p0, i + j + 1) + aj * Num(t, i + 1) * Pow(BASE, j)
  {
    hide Pow;
    hide Num;
    var m, p, w, x := i + j, Pow(BASE, i + j), aj * t[i], Num(p0, i + j);
    var was, now := aj * Num(t, i) * Pow(BASE, j), aj * Num(t, i + 1) * Pow(BASE, j);
    assert now == was + w * p by {
      NumNext(t, i);
      PowAdd(BASE, i, j);
      RowProduct(aj, Num(t, i), t[i], Pow(BASE, i), Pow(BASE, j));
    }
    CarryStep(Num(u, m), x + was, p, carry, n, Low32(n), n / 0x1_0000_0000);
    NumWrite(u, m, Low32(n));
    PowNext(BASE, m);
    NumNext(p0, m);
    RowSum(Num(u[m := Low32(n)], m + 1) + n / 0x1_0000_0000 * Pow(BASE, m + 1), x + was, p0[m], w, p, x, was, now);
  }

  /** The limbs from m on, as a multiple of BASE^m. */
  lemma {:induction false} NumSplit(t: Words, m: nat, n: nat) returns (h: int)
    requires m <= n <= 8
    ensures Num(t, n) == Num(t, m) + h * Pow(BASE, m) && h >= 0
  {
    hide Pow;
    hide Num;
    if m == n {
      h := 0;
    } else {
      var g := NumSplit(t, m, n - 1);
      var p := Pow(BASE, n - 1 - m);
      PowAdd(BASE, n - 1 - m, m);
      NumNext(t, n - 1);
      h := g + t[n - 1] * p;
      TopLimb(g, t[n - 1], p, Pow(BASE, m));
    }
  }

  lemma TopLimb(g: nat, d: nat, p: nat, q: nat)
    ensures (g + d * p) * q == g * q + d * (p * q) && 0 <= g + d * p
  {
  }

  /** A finished row adds one limb of the other factor, up to a multiple of 2^256. */
  lemma RowDone(p0: Words, t: Words, aj: int, u: Words, j: nat, carry: int) returns (k: int)
    requires j < 8 && Num(u, 8) + carry * Pow(BASE, 8) == Num(p0, 8) + aj * Num(t, 8 - j) * Pow(BASE, j)
    ensures Val(u) + k * Modulus() == Val(p0) + aj * Val(t) * Pow(BASE, j)
  {
    hide Pow;
    hide Num;
    var h := NumSplit(t, 8 - j, 8);
    PowAdd(BASE, 8 - j, j);
    k := carry + aj * h;
    RowProduct(aj, Num(t, 8 - j), h, Pow(BASE, 8 - j), Pow(BASE, j));
    assert k * Modulus() == carry * Modulus() + aj * h * Modulus();
  }

  lemma NextRow(a: Words, j: nat, before: int, k: int, after: int, l: int, t: int)
    requires j < 8 && before + k * Modulus() == Num(a, j) * t && after + l * Modulus() == before + a[j] * t * Pow(BASE, j)
    ensures after + (k + l) * Modulus() == Num(a, j + 1) * t
  {
    hide Pow;
    hide Num;
    NumNext(a, j);
    var p := Pow(BASE, j);
    assert (Num(a, j) + a[j] * p) * t == Num(a, j) * t + a[j] * t * p;
    assert (k + l) * Modulus() == k * Modulus() + l * Modulus();
  }
}
