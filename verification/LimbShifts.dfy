/**
 Bits of limbs, and the shift loops.
 */
module LimbShifts {
  import opened Radix
  import opened Limbs
  import opened LimbSteps

  /** x & 1 << b. */
  predicate HasBit(x: nat, b: nat) {
    PowPositive(2, b);
    x / Pow(2, b) % 2 == 1
  }

  lemma LimbBelow(x: Limb)
    ensures Pow(2, 32) == 0x1_0000_0000 && x < Pow(2, 32)
  {
    assert Pow(2, 8) == 256;
    hide Pow;
    PowAdd(2, 8, 8);
    PowAdd(2, 16, 16);
  }

  lemma TestBit(x: nat, b: nat)
    requires x < Pow(2, b + 1)
    ensures if HasBit(x, b) then Pow(2, b) <= x else x < Pow(2, b)
  {
    var p := Pow(2, b);
    PowPositive(2, b);
    assert x < 2 * p;
    if x < p {
      QuotientIsUnique(p, 0, x, x / p, x % p);
    } else {
      QuotientIsUnique(p, 1, x - p, x / p, x % p);
    }
  }

  lemma BaseIsPower(i: nat)
    ensures Pow(BASE, i) == Pow(2, 32 * i)
  {
    LimbBelow(0);
    PowTimes(2, 32, i);
  }

  lemma TopBit(s: Words, pos: nat, bits: nat)
    requires pos < 8 && (forall k :: pos < k < 8 ==> s[k] == 0) && s[pos] > 0
    requires s[pos] < Pow(2, bits + 1) && (bits == 0 || Pow(2, bits) <= s[pos])
    ensures 0 < Pow(2, 32 * pos + bits) <= Val(s) < Pow(2, 32 * pos + bits + 1)
  {
    hide Num;
    PowNext(2, 0);
    assert Pow(2, bits) <= s[pos];
    hide Pow;
    NumFrom(s, pos + 1, 8);
    NumNext(s, pos);
    NumBound(s, pos);
    BaseIsPower(pos);
    PowAdd(2, bits, 32 * pos);
    PowAdd(2, bits + 1, 32 * pos);
    PowPositive(2, 32 * pos + bits);
    Between(Num(s, pos), s[pos], Pow(BASE, pos), Pow(2, bits), Pow(2, bits + 1));
  }

  lemma Between(low: nat, x: nat, p: nat, a: nat, b: nat)
    requires low < p && a <= x < b
    ensures a * p <= low + x * p < b * p
  {
    Scaled(a, x, p);
    Scaled(x + 1, b, p);
    assert (x + 1) * p == x * p + p;
  }

  // ------------------------------------------------------------------------- shifting

  lemma Complementary(r: nat)
    requires r <= 32
    ensures Pow(2, r) * Pow(2, 32 - r) == 0x1_0000_0000 && Pow(2, r) > 0 && Pow(2, 32 - r) > 0
  {
    PowAdd(2, r, 32 - r);
    LimbBelow(0);
    PowPositive(2, r);
    PowPositive(2, 32 - r);
  }

  lemma SplitProduct(x: nat, f: nat, g: nat, q: nat, m: nat)
    requires x == q * g + m && m < g && x < f * g && f > 0
    ensures x * f == q * (f * g) + m * f && m * f + f <= f * g && q < f
  {
    Scaled(m + 1, g, f);
    assert (m + 1) * f == m * f + f;
    assert (q * g + m) * f == q * (f * g) + m * f;
    if q >= f {
      Scaled(f, q, g);
    }
  }

  lemma LimbParts(x: nat, f: nat, g: nat, q: nat, m: nat)
    requires f * g == 0x1_0000_0000 && x < 0x1_0000_0000 && x == q * g + m && m < g && f > 0
    ensures q < f && Low32(x * f) == m * f && m * f + f <= 0x1_0000_0000 && x * f == m * f + q * 0x1_0000_0000
  {
    SplitProduct(x, f, g, q, m);
    var y, z := x * f, m * f;
    assert y == q * 0x1_0000_0000 + z && 0 <= z < 0x1_0000_0000;
  }

  /** Shifting a limb by r parts it into what stays and what moves to the next. */
  lemma ShiftedLimb(x: Limb, r: nat)
    requires r <= 32
    ensures Pow(2, 32 - r) > 0
    ensures var f, g := Pow(2, r), Pow(2, 32 - r); x / g < f && Low32(x * f) == x % g * f && x % g * f + f <= 0x1_0000_0000
    ensures var f, g := Pow(2, r), Pow(2, 32 - r); x * f == Low32(x * f) + x / g * 0x1_0000_0000
  {
    hide Pow;
    var f, g := Pow(2, r), Pow(2, 32 - r);
    Complementary(r);
    DivMod(x, g);
    LimbParts(x, f, g, x / g, x % g);
  }

  lemma DivMod(x: nat, g: nat)
    requires g > 0
    ensures x == x / g * g + x % g && x % g < g && 0 <= x / g
  {
  }

  lemma OrShifted(c: nat, x: Limb, r: nat)
    requires r <= 32 && c < Pow(2, r)
    ensures Or(c, Low32(x * Pow(2, r))) == c + Low32(x * Pow(2, r)) < 0x1_0000_0000
  {
    ShiftedLimb(x, r);
    OrDisjoint(c, x % Pow(2, 32 - r), r);
  }

  /** One limb of a left shift, the limbs below done and c carried into this one. */
  lemma LeftStep(a: Words, u: Words, k: nat, r: nat, i: nat, c: nat)
    requires r < 32 && i + k < 8 && Num(u, i + k) + c * Pow(BASE, i + k) == Num(a, i) * Pow(2, r) * Pow(BASE, k)
    requires Pow(2, 32 - r) > 0
    ensures Num(u[i + k := c + Low32(a[i] * Pow(2, r))], i + k + 1) + a[i] / Pow(2, 32 - r) * Pow(BASE, i + k + 1)
            == Num(a, i + 1) * Pow(2, r) * Pow(BASE, k)
  {
    hide Num;
    var f, p, lo, hi := Pow(2, r), Pow(BASE, i + k), Low32(a[i] * Pow(2, r)), a[i] / Pow(2, 32 - r);
    ShiftedLimb(a[i], r);
    hide Pow;
    NumNext(a, i);
    NumWrite(u, i + k, c + lo);
    PowNext(BASE, i + k);
    PowAdd(BASE, i, k);
    LeftSum(Num(u, i + k), c, lo, hi, p, a[i], f, Num(a, i), Pow(BASE, i), Pow(BASE, k));
  }

  lemma LeftSum(low: int, c: int, lo: int, hi: int, p: int, x: int, f: int, was: int, pi: int, pk: int)
    requires low + c * p == was * f * pk && p == pi * pk && x * f == lo + hi * 0x1_0000_0000
    ensures low + (c + lo) * p + hi * (0x1_0000_0000 * p) == (was + x * pi) * f * pk
  {
    assert (c + lo) * p + hi * (0x1_0000_0000 * p) == c * p + (lo + hi * 0x1_0000_0000) * p;
    assert (was + x * pi) * f * pk == was * f * pk + x * f * (pi * pk);
  }

  /** The finished left shift: the limbs that fell off are a multiple of 2^256. */
  lemma LeftDone(a: Words, u: Words, shift: nat, c: int)
    requires var k, r := shift / 32, shift % 32;
             k <= 8 && Num(u, 8) + c * Pow(BASE, 8) == Num(a, 8 - k) * Pow(2, r) * Pow(BASE, k)
    ensures Val(u) == Val(a) * Pow(2, shift) % Modulus()
  {
    hide Num;
    hide Pow;
    var k, r := shift / 32, shift % 32;
    var h := NumSplit(a, 8 - k, 8);
    PowAdd(2, r, 32 * k);
    BaseIsPower(k);
    PowAdd(BASE, 8 - k, k);
    ValBound(u);
    var f, pk, ph, x := Pow(2, r), Pow(BASE, k), Pow(BASE, 8 - k), Num(a, 8 - k);
    LeftTotal(Val(u), c, Modulus(), x, h, f, pk, ph);
    ModIs(Val(u), c + h * f, Modulus(), (x + h * ph) * (f * pk));
  }

  lemma LeftTotal(u: int, c: int, m: int, x: int, h: int, f: int, pk: int, ph: int)
    requires u + c * m == x * f * pk && m == ph * pk
    ensures u + (c + h * f) * m == (x + h * ph) * (f * pk)
  {
    assert (x + h * ph) * (f * pk) == x * f * pk + h * f * (ph * pk);
    assert (c + h * f) * m == c * m + h * f * m;
  }

  /** All limbs shifted out. */
  lemma LeftAllGone(a: Words, shift: nat)
    requires shift >= 256
    ensures Val(a) * Pow(2, shift) % Modulus() == 0
  {
    hide Num;
    hide Pow;
    PowAdd(2, shift - 256, 256);
    BaseIsPower(8);
    var v, x, m := Val(a), Pow(2, shift - 256), Modulus();
    PowPositive(BASE, 8);
    assert v * (x * m) == 0 + v * x * m;
    ModIs(0, v * x, m, v * (x * m));
  }

  /** The first limb that a right shift keeps. */
  lemma RightStart(a: Words, k: nat, f: nat)
    requires k < 8 && f > 0
    ensures 0 <= Num(a, k + 1) - a[k] / f * (Pow(BASE, k) * f) < Pow(BASE, k) * f
  {
    hide Pow;
    hide Num;
    NumNext(a, k);
    NumBound(a, k);
    DivMod(a[k], f);
    Remainder(Num(a, k), a[k], Pow(BASE, k), f, a[k] / f, a[k] % f);
  }

  lemma Remainder(low: nat, x: nat, p: nat, f: nat, q: nat, m: nat)
    requires low < p && x == q * f + m && m < f
    ensures 0 <= low + x * p - q * (p * f) < p * f
  {
    assert (q * f + m) * p == q * (p * f) + m * p;
    Between(low, m, p, 0, f);
  }

  /** One more limb of a right shift: its low bits join the limb below, the rest
      is the next limb. */
  lemma RightStep(a: Words, u: Words, k: nat, r: nat, i: nat, lo: int, hi: int, rem: int)
    requires r < 32 && k < i < 8 && a[i] * Pow(2, 32 - r) == lo + hi * 0x1_0000_0000
    requires Num(u, i - k) * (Pow(BASE, k) * Pow(2, r)) + rem == Num(a, i)
    ensures Num(u[i - k - 1 := u[i - k - 1] + lo][i - k := hi], i - k + 1) * (Pow(BASE, k) * Pow(2, r)) + rem == Num(a, i + 1)
  {
    hide Pow;
    hide Num;
    var n := i - k;
    var v := u[n - 1 := u[n - 1] + lo];
    NumWrite(u, n - 1, u[n - 1] + lo);
    NumNext(u, n - 1);
    NumWrite(v, n, hi);
    NumNext(a, i);
    PowNext(BASE, n - 1);
    PowAdd(BASE, n - 1, k);
    PowNext(BASE, i - 1);
    Complementary(r);
    RightSum(Num(u, n), lo, hi, Pow(BASE, n - 1), a[i], Pow(2, 32 - r), Pow(BASE, k), Pow(2, r), Pow(BASE, i - 1), rem, Num(a, i));
    assert Num(v, n) == Num(u, n) + lo * Pow(BASE, n - 1) by {
      assert (u[n - 1] + lo) * Pow(BASE, n - 1) == u[n - 1] * Pow(BASE, n - 1) + lo * Pow(BASE, n - 1);
    }
  }

  lemma RightSum(low: int, lo: int, hi: int, p: int, x: int, g: int, pk: int, f: int, q: int, rem: int, was: int)
    requires x * g == lo + hi * 0x1_0000_0000 && low * (pk * f) + rem == was && q == p * pk && f * g == 0x1_0000_0000
    ensures (low + lo * p + hi * (0x1_0000_0000 * p)) * (pk * f) + rem == was + x * (0x1_0000_0000 * q)
  {
    assert lo * p + hi * (0x1_0000_0000 * p) == (lo + hi * 0x1_0000_0000) * p;
    RightProduct(x, g, p, pk, f);
    assert (low + x * g * p) * (pk * f) == low * (pk * f) + x * g * p * (pk * f);
  }

  lemma RightProduct(x: int, g: int, p: int, pk: int, f: int)
    ensures x * g * p * (pk * f) == x * ((f * g) * (p * pk))
  {
    assert g * p * (pk * f) == (f * g) * (p * pk);
    assert x * (g * p * (pk * f)) == x * g * p * (pk * f);
  }

  lemma DivIs(x: int, q: int, d: int, rem: int)
    requires x == q * d + rem && 0 <= rem < d
    ensures q == x / d
  {
    QuotientIsUnique(d, q, rem, x / d, x % d);
  }

  lemma RightDone(a: Words, u: Words, shift: nat, rem: int)
    requires var k, r := shift / 32, shift % 32; var d := Pow(BASE, k) * Pow(2, r);
             k < 8 && Num(u, 8 - k) * d + rem == Num(a, 8) && 0 <= rem < d
    requires forall m :: 8 - shift / 32 <= m < 8 ==> u[m] == 0
    ensures Pow(2, shift) > 0 && Val(u) == Val(a) / Pow(2, shift)
  {
    hide Pow;
    hide Num;
    var k, r := shift / 32, shift % 32;
    PowAdd(2, 32 * k, r);
    BaseIsPower(k);
    NumFrom(u, 8 - k, 8);
    PowPositive(2, shift);
    DivIs(Val(a), Val(u), Pow(2, shift), rem);
  }

  lemma RightAllGone(a: Words, shift: nat)
    requires shift >= 256
    ensures Pow(2, shift) > 0 && Val(a) / Pow(2, shift) == 0
  {
    hide Pow;
    hide Num;
    ValBound(a);
    BaseIsPower(8);
    PowGrows(2, 256, shift);
    PowPositive(2, shift);
    DivIs(Val(a), 0, Pow(2, shift), Val(a));
  }

  lemma OrZero(x: nat)
    ensures Or(0, x) == x == Or(x, 0)
  {
  }

  /** The body of the loop of <<= for limb i. */
  function LeftLimb(a: Words, u: seq<int>, k: nat, r: nat, i: nat): seq<int>
    requires i < 8 && r < 32 && |u| == 8 && forall m :: 0 <= m < 8 ==> u[m] >= 0
  {
    ShiftedLimb(a[i], r);
    var v := if i + k + 1 < 8 && r != 0 then u[i + k + 1 := Or(u[i + k + 1], a[i] / Pow(2, 32 - r))] else u;
    if i + k < 8 then v[i + k := Or(v[i + k], Low32(a[i] * Pow(2, r)))] else v
  }

  /** Before limb i: the limbs below i + k are final, limb i + k holds the bits c
      carried into it, the rest is zero. */
  ghost predicate LeftInv(a: Words, u: Words, k: nat, r: nat, i: nat, c: nat)
    requires i <= 8
  {
    if k >= 8 then forall m :: 0 <= m < 8 ==> u[m] == 0
    else
      var n := if i + k < 8 then i else 8 - k;
      && c < Pow(2, r)
      && (forall m :: n + k < m < 8 ==> u[m] == 0)
      && (n + k < 8 ==> u[n + k] == c)
      && Num(u, n + k) + c * Pow(BASE, n + k) == Num(a, n) * Pow(2, r) * Pow(BASE, k)
  }

  lemma LeftStart(a: Words, u: Words, k: nat, r: nat)
    requires forall m :: 0 <= m < 8 ==> u[m] == 0
    ensures LeftInv(a, u, k, r, 0, 0)
  {
    PowPositive(2, r);
    if k < 8 {
      NumOfZeros(u, k);
      NumZero(a);
    }
  }

  /** What the two writes come to. */
  lemma LeftWrites(a: Words, u: Words, k: nat, r: nat, i: nat, c: nat)
    requires i < 8 && r < 32 && k < 8 && i + k < 8 && LeftInv(a, u, k, r, i, c)
    ensures Pow(2, 32 - r) > 0
    ensures var v := LeftLimb(a, u, k, r, i); var lo, hi := Low32(a[i] * Pow(2, r)), a[i] / Pow(2, 32 - r);
            && |v| == 8 && AreDigits(0x1_0000_0000, v) && hi < Pow(2, r)
            && v[i + k] == c + lo && (i + k + 1 < 8 ==> v[i + k + 1] == hi)
            && forall m :: 0 <= m < 8 && m != i + k && m != i + k + 1 ==> v[m] == u[m]
  {
    hide Num;
    hide Or;
    hide Pow;
    ShiftedLimb(a[i], r);
    OrShifted(c, a[i], r);
    OrZero(a[i] / Pow(2, 32 - r));
    LimbShrinks(a[i], 32 - r);
    if r == 0 {
      PowNext(2, 0);
    }
  }

  lemma LimbShrinks(x: Limb, s: nat)
    requires Pow(2, s) > 0
    ensures 0 <= x / Pow(2, s) < 0x1_0000_0000
  {
    DivMod(x, Pow(2, s));
    Product(x / Pow(2, s), x / Pow(2, s), 1, Pow(2, s));
  }

  lemma LeftInvStep(a: Words, u: Words, k: nat, r: nat, i: nat, c: nat) returns (d: nat)
    requires i < 8 && r < 32 && LeftInv(a, u, k, r, i, c)
    ensures var v := LeftLimb(a, u, k, r, i); |v| == 8 && AreDigits(0x1_0000_0000, v) && LeftInv(a, v, k, r, i + 1, d)
  {
    hide Num;
    hide Or;
    hide Pow;
    d := c;
    if k < 8 && i + k < 8 {
      LeftWrites(a, u, k, r, i, c);
      LeftStep(a, u, k, r, i, c);
      var v := LeftLimb(a, u, k, r, i);
      hide LeftLimb;
      NumUnchanged(v, u[i + k := v[i + k]], i + k + 1);
      d := a[i] / Pow(2, 32 - r);
    }
  }

  /** The body of the loop of >>= for limb i. */
  function RightLimb(a: Words, u: seq<int>, k: nat, r: nat, i: nat): seq<int>
    requires i < 8 && r < 32 && |u| == 8 && forall m :: 0 <= m < 8 ==> u[m] >= 0
  {
    PowPositive(2, r);
    var v := if i - k - 1 >= 0 && r != 0 then u[i - k - 1 := Or(u[i - k - 1], Low32(a[i] * Pow(2, 32 - r)))] else u;
    if i - k >= 0 then v[i - k := Or(v[i - k], a[i] / Pow(2, r))] else v
  }

  /** Before limb i: the limbs done are the quotient of the limbs read. */
  ghost predicate RightInv(a: Words, u: Words, k: nat, r: nat, i: nat, rem: nat)
    requires i <= 8
  {
    PowPositive(2, r);
    if i <= k then forall m :: 0 <= m < 8 ==> u[m] == 0
    else
      && rem < Pow(BASE, k) * Pow(2, r)
      && (forall m :: i - k <= m < 8 ==> u[m] == 0)
      && u[i - k - 1] == a[i - 1] / Pow(2, r)
      && Num(u, i - k) * (Pow(BASE, k) * Pow(2, r)) + rem == Num(a, i)
  }

  /** What the two writes come to: lo is what the limb below gains. */
  lemma RightWrites(a: Words, u: Words, k: nat, r: nat, i: nat, rem: nat) returns (lo: int, hi: int)
    requires k < i < 8 && r < 32 && RightInv(a, u, k, r, i, rem)
    ensures Pow(2, r) > 0 && a[i] * Pow(2, 32 - r) == lo + hi * 0x1_0000_0000 && hi == a[i] / Pow(2, r)
    ensures var v := RightLimb(a, u, k, r, i);
            && |v| == 8 && AreDigits(0x1_0000_0000, v)
            && v == u[i - k - 1 := u[i - k - 1] + lo][i - k := hi]
  {
    hide Num;
    hide Or;
    hide Pow;
    PowPositive(2, r);
    var x := a[i - 1];
    ShiftedLimb(x, 32 - r);
    assert 32 - (32 - r) == r;
    ShiftedLimb(a[i], 32 - r);
    lo, hi := Low32(a[i] * Pow(2, 32 - r)), a[i] / Pow(2, r);
    OrShifted(x / Pow(2, r), a[i], 32 - r);
    OrZero(hi);
    LimbShrinks(a[i], r);
    if r == 0 {
      LimbBelow(0);
      ShiftOut(a[i]);
    }
  }

  lemma ShiftOut(x: Limb)
    ensures Low32(x * 0x1_0000_0000) == 0
  {
  }

  lemma RightInvStep(a: Words, u: Words, k: nat, r: nat, i: nat, rem: nat) returns (d: nat)
    requires i < 8 && r < 32 && RightInv(a, u, k, r, i, rem)
    ensures var v := RightLimb(a, u, k, r, i); |v| == 8 && AreDigits(0x1_0000_0000, v) && RightInv(a, v, k, r, i + 1, d)
  {
    hide Num;
    hide Or;
    d := rem;
    if i > k {
      var lo, hi := RightWrites(a, u, k, r, i, rem);
      RightStep(a, u, k, r, i, lo, hi, rem);
    } else if i == k {
      d := RightFirst(a, u, k, r);
    }
  }

  lemma RightFirst(a: Words, u: Words, k: nat, r: nat) returns (d: nat)
    requires k < 8 && r < 32 && forall m :: 0 <= m < 8 ==> u[m] == 0
    ensures var v := RightLimb(a, u, k, r, k); |v| == 8 && AreDigits(0x1_0000_0000, v) && RightInv(a, v, k, r, k + 1, d)
  {
    hide Num;
    hide Or;
    PowPositive(2, r);
    LimbShrinks(a[k], r);
    OrZero(a[k] / Pow(2, r));
    RightStart(a, k, Pow(2, r));
    var v := RightLimb(a, u, k, r, k);
    d := Num(a, k + 1) - a[k] / Pow(2, r) * (Pow(BASE, k) * Pow(2, r));
    PowNext(BASE, 0);
    NumZero(v);
    NumNext(v, 0);
  }

  // -------------------------------------------------------------------- quotient bits

  /** The n lowest bits are zero. */
  ghost predicate Clear(s: Words, n: nat) {
    PowPositive(2, n % 32);
    (forall m :: 0 <= m < n / 32 && m < 8 ==> s[m] == 0) && (n / 32 < 8 ==> s[n / 32] % Pow(2, n % 32) == 0)
  }

  lemma ClearLimb(s: Words, n: nat) returns (z: nat)
    requires n < 256 && Clear(s, n + 1)
    ensures s[n / 32] == z * Pow(2, n % 32 + 1) && z < Pow(2, 31 - n % 32)
    ensures forall m :: 0 <= m < n / 32 ==> s[m] == 0
  {
    hide Pow;
    var j := n % 32;
    PowPositive(2, j + 1);
    PowPositive(2, 31 - j);
    if j == 31 {
      z := 0;
    } else {
      assert (n + 1) / 32 == n / 32 && (n + 1) % 32 == j + 1;
      z := s[n / 32] / Pow(2, j + 1);
      DivMod(s[n / 32], Pow(2, j + 1));
    }
    Complementary(j + 1);
    if j == 31 {
      return;
    }
    BelowQuotient(z, Pow(2, 31 - j), Pow(2, j + 1));
  }

  lemma BelowQuotient(z: nat, g: nat, p: nat)
    requires z * p < g * p
    ensures z < g
  {
    if z >= g {
      Scaled(g, z, p);
    }
  }

  lemma MultipleHasNoRest(z: nat, p: nat)
    requires p > 0
    ensures z * p % p == 0
  {
    ModIs(0, z, p, z * p);
  }

  lemma ClearLess(s: Words, n: nat)
    requires n < 256 && Clear(s, n + 1)
    ensures Clear(s, n)
  {
    var z := ClearLimb(s, n);
    hide Pow;
    var p := Pow(2, n % 32);
    PowPositive(2, n % 32);
    PowNext(2, n % 32);
    Regroup(z, p);
    MultipleHasNoRest(2 * z, p);
  }

  lemma Regroup(z: int, p: int)
    ensures z * (2 * p) == 2 * z * p && (2 * z + 1) * p == z * (2 * p) + p
  {
  }

  /** pn[n / 32] |= 1 << (n & 31). */
  function WithBit(s: Words, n: nat): seq<int>
    requires n < 256
  {
    s[n / 32 := Or(s[n / 32], Pow(2, n % 32))]
  }

  lemma SetLimbBit(z: nat, j: nat)
    requires j < 32 && z < Pow(2, 31 - j)
    ensures Or(z * Pow(2, j + 1), Pow(2, j)) == z * Pow(2, j + 1) + Pow(2, j) == (2 * z + 1) * Pow(2, j) < 0x1_0000_0000
  {
    hide Pow;
    hide Or;
    var p := Pow(2, j);
    PowNext(2, j);
    PowPositive(2, j);
    OrDisjoint(p, z, j + 1);
    Complementary(j + 1);
    Regroup(z, p);
    BitFits(z, Pow(2, 31 - j), p);
  }

  lemma BitFits(z: nat, g: nat, p: nat)
    requires z < g && p > 0
    ensures z * (2 * p) + p < (2 * p) * g
  {
    Scaled(z + 1, g, 2 * p);
    assert (z + 1) * (2 * p) == z * (2 * p) + 2 * p;
  }

  lemma BitLimb(s: Words, n: nat) returns (d: Limb)
    requires n < 256 && Clear(s, n + 1)
    ensures WithBit(s, n) == s[n / 32 := d] && d == s[n / 32] + Pow(2, n % 32)
    ensures Pow(2, n % 32) > 0 && d % Pow(2, n % 32) == 0 && forall m :: 0 <= m < n / 32 ==> s[m] == 0
  {
    hide Num;
    hide Or;
    hide Pow;
    var z := ClearLimb(s, n);
    SetLimbBit(z, n % 32);
    PowPositive(2, n % 32);
    MultipleHasNoRest(2 * z + 1, Pow(2, n % 32));
    d := (2 * z + 1) * Pow(2, n % 32);
  }

  lemma SetBit(s: Words, n: nat)
    requires n < 256 && Clear(s, n + 1)
    ensures var v := WithBit(s, n); |v| == 8 && AreDigits(0x1_0000_0000, v) && Val(v) == Val(s) + Pow(2, n) && Clear(v, n)
  {
    hide Num;
    hide WithBit;
    hide Pow;
    var d := BitLimb(s, n);
    var m := n / 32;
    WrittenVal(s, m, d);
    PowAdd(2, n % 32, 32 * m);
    BaseIsPower(m);
  }

  lemma WrittenVal(s: Words, m: nat, d: Limb)
    requires m < 8
    ensures |s[m := d]| == 8 && AreDigits(0x1_0000_0000, s[m := d]) && Val(s[m := d]) == Val(s) + (d - s[m]) * Pow(BASE, m)
  {
    hide Num;
    hide Pow;
    var v := s[m := d];
    NumWrite(s, m, d);
    NumNext(s, m);
    NumChange(s, v, m + 1, 8);
    var p := Pow(BASE, m);
    assert (d - s[m]) * p == d * p - s[m] * p;
  }

  // ------------------------------------------------------------------- long division

  lemma DivideStart(x: nat, y: nat, xb: nat, yb: nat)
    requires 0 < yb <= xb <= 256 && x < Pow(2, xb) && Pow(2, yb - 1) <= y < Pow(2, yb)
    ensures y * Pow(2, xb - yb) < Pow(BASE, 8) && x < y * Pow(2, xb - yb + 1)
  {
    hide Pow;
    var s := xb - yb;
    PowPositive(2, s);
    PowAdd(2, yb, s);
    PowAdd(2, yb - 1, s + 1);
    Scaled(y + 1, Pow(2, yb), Pow(2, s));
    assert (y + 1) * Pow(2, s) == y * Pow(2, s) + Pow(2, s);
    Scaled(Pow(2, yb - 1), y, Pow(2, s + 1));
    PowGrows(2, xb, 256);
    BaseIsPower(8);
  }

  /** Subtracting the shifted divisor sets bit `shift` of the quotient. */
  lemma DivideStep(x: int, y: nat, q: int, num: int, shift: nat)
    requires x == q * y + num && num < y * Pow(2, shift + 1)
    ensures x == (q + Pow(2, shift)) * y + (num - y * Pow(2, shift)) && num - y * Pow(2, shift) < y * Pow(2, shift)
  {
    var p := Pow(2, shift);
    assert y * (2 * p) == y * p + y * p;
    assert (q + p) * y == q * y + y * p;
  }

  lemma HalveDivisor(y: nat, shift: nat)
    requires shift > 0
    ensures Pow(2, 1) == 2 && y * Pow(2, shift) / Pow(2, 1) == y * Pow(2, shift - 1)
  {
    var p := Pow(2, shift - 1);
    assert y * (2 * p) == 2 * (y * p);
  }
}
