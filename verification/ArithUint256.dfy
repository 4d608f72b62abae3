/**
 The limb arithmetic of arith_uint256: each operation, limb by limb with its
 carries, against the integers modulo 2^256.
 */
module ArithUint256 {
  import opened Radix
  import opened Limbs
  import opened LimbSteps
  import opened LimbShifts
  import opened CompactTarget

  class BaseUint {
    var pn: Words

    predicate IsZero()
      reads this
    {
      forall m :: 0 <= m < 8 ==> pn[m] == 0
    }

    constructor Copy(b: BaseUint)
      ensures pn == b.pn
    {
      pn := b.pn;
    }

    /** From a 64-bit number. */
    constructor Of(b: nat)
      requires b < UINT64
      ensures Val(pn) == b
    {
      var s: Words := [b % 0x1_0000_0000, b / 0x1_0000_0000, 0, 0, 0, 0, 0, 0];
      pn := s;
      SmallVal(s);
    }

    method Add(b: BaseUint)
      modifies this
      ensures Val(pn) == (old(Val(pn)) + old(Val(b.pn))) % Modulus()
    {
      hide Pow;
      hide Num;
      var carry := 0;
      ghost var s, t := pn, b.pn;
      AddStart(s, t);
      for i := 0 to 8
        invariant 0 <= carry <= 1 && (b == this || b.pn == t)
        invariant forall k :: i <= k < 8 ==> pn[k] == s[k] && b.pn[k] == t[k]
        invariant Num(pn, i) + carry * Pow(BASE, i) == Num(s, i) + Num(t, i)
      {
        var n := carry + pn[i] + b.pn[i];
        assert n < UINT64;
        AddStep(s, t, pn, i, carry);
        WriteLimb(pn, i, Low32(n));
        pn := pn[i := Low32(n)];
        carry := n / 0x1_0000_0000;
      }
      ValBound(pn);
      ModIs(Val(pn), carry, Modulus(), Val(s) + Val(t));
    }

    /** The prefix ++. */
    method Increment()
      modifies this
      ensures Val(pn) == (old(Val(pn)) + 1) % Modulus()
    {
      hide Pow;
      hide Num;
      ghost var s := pn;
      NumZero(s);
      PowNext(BASE, 0);
      var i := 0;
      pn := pn[0 := Low32(pn[0] + 1)];
      NumZero(pn);
      while pn[i] == 0 && i < 7
        invariant 0 <= i <= 7 && pn[i] == Low32(s[i] + 1)
        invariant forall k :: i < k < 8 ==> pn[k] == s[k]
        invariant Num(pn, i) + Pow(BASE, i) == Num(s, i) + 1
      {
        NumNext(pn, i);
        NumNext(s, i);
        PowNext(BASE, i);
        assert s[i] * Pow(BASE, i) == BASE * Pow(BASE, i) - Pow(BASE, i);
        i := i + 1;
        NumUnchanged(pn[i := Low32(pn[i] + 1)], pn, i);
        pn := pn[i := Low32(pn[i] + 1)];
      }
      Incremented(s, pn, i);
    }


    /** ~x. */
    method Complement() returns (ret: BaseUint)
      ensures fresh(ret) && Val(ret.pn) == Modulus() - 1 - Val(pn)
    {
      ret := new BaseUint.Of(0);
      for i := 0 to 8
        invariant fresh(ret) && pn == old(pn) && forall k :: 0 <= k < i ==> ret.pn[k] == 0xffff_ffff - pn[k]
      {
        ret.pn := ret.pn[i := 0xffff_ffff - pn[i]];
      }
      ComplementNum(pn, ret.pn, 8);
    }

    /** Unary minus. */
    method Negate() returns (ret: BaseUint)
      ensures fresh(ret) && Val(ret.pn) == (Modulus() - Val(pn)) % Modulus()
    {
      ret := Complement();
      ret.Increment();
    }

    method Subtract(b: BaseUint)
      modifies this
      ensures Val(pn) == (old(Val(pn)) as int - old(Val(b.pn)) as int) % Modulus()
    {
      hide Val;
      ghost var x: int, y: int, m: int := Val(pn), Val(b.pn), Modulus();
      var minus := b.Negate();
      ghost var k := ModEquals(m - y, m);
      ghost var l := ModEquals(x + (m - y) % m, m);
      Add(minus);
      ValBound(pn);
      assert Val(pn) + (l + k - 1) * m == x - y;
      ModIs(Val(pn), l + k - 1, m, x - y);
    }

    method MultiplyWord(b32: Limb)
      modifies this
      ensures Val(pn) == old(Val(pn)) * b32 % Modulus()
    {
      hide Pow;
      hide Num;
      var carry := 0;
      ghost var s := pn;
      NumZero(s);
      PowNext(BASE, 0);
      for i := 0 to 8
        invariant 0 <= carry < 0x1_0000_0000
        invariant forall k :: i <= k < 8 ==> pn[k] == s[k]
        invariant Num(pn, i) + carry * Pow(BASE, i) == Num(s, i) * b32
      {
        var n := carry + b32 * pn[i];
        MultiplyStep(s, b32, pn, i, carry);
        WriteLimb(pn, i, Low32(n));
        pn := pn[i := Low32(n)];
        carry := n / 0x1_0000_0000;
      }
      ValBound(pn);
      ModIs(Val(pn), carry, Modulus(), Val(s) * b32);
    }

    /** Row j of the long multiplication: adds aj * b shifted by j limbs. */
    method MultiplyRow(aj: Limb, b: BaseUint, j: nat) returns (ghost k: int)
      requires j < 8 && (b == this ==> IsZero())
      modifies this
      ensures Val(pn) + k * Modulus() == old(Val(pn)) + aj * old(Val(b.pn)) * Pow(BASE, j)
      ensures b != this ==> b.pn == old(b.pn)
      ensures b == this ==> IsZero()
    {
      hide Pow;
      hide Num;
      ghost var p0, t := pn, b.pn;
      var carry := 0;
      RowStart(t, aj, j);
      for i := 0 to 8 - j
        invariant 0 <= carry < 0x1_0000_0000 && (b != this ==> b.pn == t) && (b == this ==> pn == p0 && carry == 0)
        invariant forall m :: i + j <= m < 8 ==> pn[m] == p0[m]
        invariant Num(pn, i + j) + carry * Pow(BASE, i + j) == Num(p0, i + j) + aj * Num(t, i) * Pow(BASE, j)
      {
        var n := carry + pn[i + j] + aj * b.pn[i];
        RowRange(aj, t[i], p0[i + j], carry);
        RowStep(p0, t, aj, pn, j, i, carry, n);
        WriteLimb(pn, i + j, Low32(n));
        pn := pn[i + j := Low32(n)];
        carry := n / 0x1_0000_0000;
      }
      k := RowDone(p0, t, aj, pn, j, carry);
    }

    /** Exact modulo 2^256.  A number multiplied in place by itself is zeroed first,
        so the result is 0. */
    method Multiply(b: BaseUint)
      modifies this
      ensures b != this ==> Val(pn) == old(Val(pn)) * old(Val(b.pn)) % Modulus()
      ensures b == this ==> Val(pn) == 0
    {
      hide Pow;
      hide Num;
      ghost var x, y, m := Val(pn), Val(b.pn), Modulus();
      var a := pn;
      pn := [0, 0, 0, 0, 0, 0, 0, 0];
      ghost var k, t := 0, b.pn;
      NumOfZeros(pn, 8);
      NumZero(a);
      for j := 0 to 8
        invariant Val(pn) + k * m == Num(a, j) * Val(t)
        invariant (b != this ==> b.pn == t) && (b == this ==> IsZero() && pn == t)
      {
        ghost var before := Val(pn);
        ghost var l := MultiplyRow(a[j], b, j);
        NextRow(a, j, before, k, Val(pn), l, Val(t));
        k := k + l;
      }
      if b == this {
        NumOfZeros(pn, 8);
      }
      ValBound(pn);
      ModIs(Val(pn), k, m, Val(a) * Val(t));
    }

    // ------------------------------------------------------------------------- comparing

    method CompareTo(b: BaseUint) returns (c: int)
      ensures c == if Val(pn) < Val(b.pn) then -1 else if Val(pn) == Val(b.pn) then 0 else 1
    {
      var i := 8;
      while i > 0
        invariant 0 <= i <= 8 && forall k :: i <= k < 8 ==> pn[k] == b.pn[k]
      {
        i := i - 1;
        if pn[i] < b.pn[i] {
          NumOrder(pn, b.pn, i, 8);
          return -1;
        }
        if pn[i] > b.pn[i] {
          NumOrder(b.pn, pn, i, 8);
          return 1;
        }
      }
      NumUnchanged(pn, b.pn, 8);
      return 0;
    }

    /** The number of bits: the position of the highest set bit plus one. */
    method Bits() returns (r: nat)
      ensures r <= 256 && (r == 0 <==> Val(pn) == 0)
      ensures r > 0 ==> Pow(2, r - 1) <= Val(pn) < Pow(2, r)
    {
      hide Pow;
      hide Num;
      var pos := 7;
      while pos >= 0
        invariant -1 <= pos <= 7 && forall k :: pos < k < 8 ==> pn[k] == 0
      {
        if pn[pos] != 0 {
          var bits := 31;
          LimbBelow(pn[pos]);
          while bits > 0
            invariant 0 <= bits <= 31 && pn[pos] < Pow(2, bits + 1)
          {
            TestBit(pn[pos], bits);
            if HasBit(pn[pos], bits) {
              TopBit(pn, pos, bits);
              return 32 * pos + bits + 1;
            }
            bits := bits - 1;
          }
          TopBit(pn, pos, 0);
          return 32 * pos + 1;
        }
        pos := pos - 1;
      }
      NumOfZeros(pn, 8);
      return 0;
    }

    // -------------------------------------------------------------------------- shifting

    /** <<=, for any shift. */
    method ShiftLeft(shift: nat)
      modifies this
      ensures Val(pn) == old(Val(pn)) * Pow(2, shift) % Modulus()
    {
      hide Pow;
      hide Num;
      hide LeftLimb;
      var a := pn;
      pn := [0, 0, 0, 0, 0, 0, 0, 0];
      var k, r := shift / 32, shift % 32;
      ghost var c := 0;
      LeftStart(a, pn, k, r);
      for i := 0 to 8
        invariant LeftInv(a, pn, k, r, i, c)
      {
        ghost var d := LeftInvStep(a, pn, k, r, i, c);
        pn := LeftLimb(a, pn, k, r, i);
        c := d;
      }
      if k < 8 {
        LeftDone(a, pn, shift, c);
      } else {
        NumOfZeros(pn, 8);
        LeftAllGone(a, shift);
      }
    }

    /** >>=, for any shift. */
    method ShiftRight(shift: nat)
      modifies this
      ensures Pow(2, shift) > 0 && Val(pn) == old(Val(pn)) / Pow(2, shift)
    {
      hide Pow;
      hide Num;
      hide RightLimb;
      var a := pn;
      pn := [0, 0, 0, 0, 0, 0, 0, 0];
      var k, r := shift / 32, shift % 32;
      ghost var rem := 0;
      for i := 0 to 8
        invariant RightInv(a, pn, k, r, i, rem)
      {
        ghost var d := RightInvStep(a, pn, k, r, i, rem);
        pn := RightLimb(a, pn, k, r, i);
        rem := d;
      }
      if k < 8 {
        RightDone(a, pn, shift, rem);
      } else {
        NumOfZeros(pn, 8);
        RightAllGone(a, shift);
      }
    }

    // -------------------------------------------------------------------------- dividing

    /** /=: the floor of the quotient; a zero divisor is refused. */
    method Divide(b: BaseUint) returns (ok: bool)
      modifies this
      ensures ok <==> old(Val(b.pn)) != 0
      ensures Val(pn) == if ok then old(Val(pn)) / old(Val(b.pn)) else 0
    {
      hide Pow;
      hide Num;
      hide Clear;
      hide WithBit;
      var div := new BaseUint.Copy(b);
      var num := new BaseUint.Copy(this);
      ghost var x, y := Val(pn), Val(b.pn);
      pn := [0, 0, 0, 0, 0, 0, 0, 0];
      NumOfZeros(pn, 8);
      ValBound(num.pn);
      ValBound(div.pn);
      var num_bits := num.Bits();
      var div_bits := div.Bits();
      if div_bits == 0 {
        return false;
      }
      if div_bits > num_bits {
        SmallerDividend(x, y, num_bits, div_bits);
        return true;
      }
      var shift := num_bits - div_bits;
      DivideStart(x, y, num_bits, div_bits);
      ModIs(y * Pow(2, shift), 0, Modulus(), y * Pow(2, shift));
      div.ShiftLeft(shift);
      AllClear(pn, shift + 1);
      while shift >= 0
        invariant -1 <= shift <= 255 && fresh(div) && fresh(num) && div != num
        invariant x == Val(pn) * y + Val(num.pn) && 0 <= Val(num.pn) < y * Pow(2, shift + 1)
        invariant Clear(pn, shift + 1) && (shift >= 0 ==> Val(div.pn) == y * Pow(2, shift))
      {
        DivideStep(x, y, Val(pn), Val(num.pn), shift);
        ClearLess(pn, shift);
        var c := num.CompareTo(div);
        if c >= 0 {
          num.SubtractExactly(div);
          SetBit(pn, shift);
          pn := WithBit(pn, shift);
        }
        div.ShiftRight(1);
        if shift > 0 {
          HalveDivisor(y, shift);
        }
        shift := shift - 1;
      }
      PowNext(2, 0);
      DivIs(x, Val(pn), y, Val(num.pn));
      return true;
    }

    /** Without a borrow, - is exact. */
    method SubtractExactly(b: BaseUint)
      requires Val(b.pn) <= Val(pn)
      modifies this
      ensures Val(pn) == old(Val(pn)) - old(Val(b.pn))
    {
      ghost var x, y := Val(pn), Val(b.pn);
      ValBound(pn);
      ValBound(b.pn);
      Subtract(b);
      ModIs(x - y, 0, Modulus(), x - y);
    }

    // ------------------------------------------------------------------------ compact form

    method GetLow64() returns (r: nat)
      ensures r == Val(pn) % 0x1_0000_0000_0000_0000
    {
      LowWords(pn);
      r := Or(pn[0], pn[1] * 0x1_0000_0000);
    }

    method EqualTo(b: nat) returns (r: bool)
      requires b < UINT64
      ensures r <==> Val(pn) == b
    {
      var i := 7;
      while i >= 2
        invariant 1 <= i <= 7 && forall k :: i < k < 8 ==> pn[k] == 0
      {
        if pn[i] != 0 {
          HighLimb(pn, i);
          return false;
        }
        i := i - 1;
      }
      SmallVal(pn);
      if pn[1] != b / 0x1_0000_0000 {
        return false;
      }
      if pn[0] != b % 0x1_0000_0000 {
        return false;
      }
      return true;
    }

    /** Sets the number a compact form stands for, modulo 2^256, and says whether it
        is negative and whether it really needs more than 256 bits. */
    method SetCompact(nCompact: Limb) returns (fNegative: bool, fOverflow: bool)
      modifies this
      ensures Val(pn) == Decoded(nCompact) % Modulus()
      ensures fNegative <==> Decoded(nCompact) != 0 && SignBit(nCompact)
      ensures fOverflow <==> Decoded(nCompact) >= Modulus()
    {
      hide Pow;
      hide Num;
      var nSize := nCompact / 0x1000000;
      var nWord := nCompact % 0x800000;
      DecodedFields(nCompact);
      if nSize <= 3 {
        BytesPower(3 - nSize);
        PowPositive(256, 3 - nSize);
        SmallDecoded(nWord, nSize);
        nWord := nWord / Pow(2, 8 * (3 - nSize));
        SetWord(nWord);
      } else {
        SetWord(nWord);
        BytesPower(nSize - 3);
        ShiftLeft(8 * (nSize - 3));
        OverflowIsExact(nWord, nSize);
        PowPositive(256, nSize - 3);
        NonZeroProduct(nWord, Pow(256, nSize - 3));
      }
      fNegative := nWord != 0 && SignBit(nCompact);
      fOverflow := nWord != 0 && (nSize > 34 || (nWord > 0xff && nSize > 33) || (nWord > 0xffff && nSize > 32));
    }

    /** Assignment from a 64-bit number. */
    method SetWord(b: nat)
      requires b < UINT64
      modifies this
      ensures Val(pn) == b
    {
      var s: Words := [b % 0x1_0000_0000, b / 0x1_0000_0000, 0, 0, 0, 0, 0, 0];
      pn := s;
      SmallVal(s);
    }

    method LowOfShifted(shift: nat) returns (r: nat)
      ensures Pow(2, shift) > 0 && r == Val(pn) / Pow(2, shift) % 0x1_0000_0000_0000_0000
    {
      hide Pow;
      hide Val;
      var bn := new BaseUint.Copy(this);
      bn.ShiftRight(shift);
      r := bn.GetLow64();
    }

    /** The number of bytes and the three leading ones. */
    method LeadingBytes() returns (nSize: nat, nCompact: nat)
      ensures nSize == Bytes(Val(pn)) && nCompact == Mantissa(Val(pn), nSize)
    {
      hide Pow;
      hide Num;
      hide Mantissa;
      hide Bytes;
      hide Val;
      hide Low32;
      ghost var x := Val(pn);
      var bits := Bits();
      PowNext(2, 0);
      BytesOfBits(x, bits);
      nSize := (bits + 7) / 8;
      if nSize <= 3 {
        var low := GetLow64();
        LowMantissa(x, nSize);
        assert low == x;
        var shifted := low * Pow(2, 8 * (3 - nSize));
        LowIsAll(shifted);
        nCompact := Low32(shifted % 0x1_0000_0000_0000_0000);
      } else {
        HighMantissa(x, nSize);
        var low := LowOfShifted(8 * (nSize - 3));
        LowIsAll(low);
        nCompact := Low32(low);
      }
    }

    method GetCompact(fNegative: bool) returns (nCompact: nat)
      ensures nCompact == Compact(Val(pn)) + (if fNegative && Compact(Val(pn)) % 0x800000 != 0 then 0x800000 else 0)
    {
      hide Pow;
      hide Num;
      hide Mantissa;
      hide Bytes;
      hide Or;
      hide Val;
      hide HasBit;
      hide Compact;
      ghost var x := Val(pn);
      ValBound(pn);
      BytesOfWord(x);
      TwoSteps(x);
      CompactFields(x);
      var nSize;
      nSize, nCompact := LeadingBytes();
      MantissaBit(nCompact);
      if HasBit(nCompact, 23) {
        nCompact := nCompact / 256;
        nSize := nSize + 1;
      }
      assert nCompact < 0x800000 && nSize < 256;
      OrExponent(nCompact, nSize);
      nCompact := Or(nCompact, nSize * 0x1000000);
      if fNegative && nCompact % 0x800000 != 0 {
        nCompact := nCompact + 0x800000;
      }
    }
  }

  lemma SmallerDividend(x: nat, y: nat, xb: nat, yb: nat)
    requires xb < yb && Pow(2, yb - 1) <= y && (xb == 0 ==> x == 0) && (xb > 0 ==> x < Pow(2, xb))
    ensures y > 0 && x / y == 0
  {
    hide Pow;
    PowPositive(2, yb - 1);
    PowGrows(2, xb, yb - 1);
    DivIs(x, 0, y, x);
  }

  lemma AllClear(s: Words, n: nat)
    requires forall m :: 0 <= m < 8 ==> s[m] == 0
    ensures Clear(s, n)
  {
    PowPositive(2, n % 32);
    MultipleHasNoRest(0, Pow(2, n % 32));
  }

  lemma LowIsAll(x: nat)
    requires x < 0x1_0000_0000
    ensures Low32(x) == x && x % 0x1_0000_0000_0000_0000 == x
  {
  }

  lemma LowWords(s: Words)
    ensures Or(s[0], s[1] * 0x1_0000_0000) == Val(s) % 0x1_0000_0000_0000_0000
  {
    hide Or;
    LimbBelow(s[0]);
    OrDisjoint(s[0], s[1], 32);
    hide Num;
    var h := NumSplit(s, 2, 8);
    NumNext(s, 1);
    NumNext(s, 0);
    NumZero(s);
    PowNext(BASE, 0);
    PowNext(BASE, 1);
    hide Pow;
    ModIs(s[0] + s[1] * 0x1_0000_0000, h, 0x1_0000_0000_0000_0000, Val(s));
  }

  lemma HighLimb(s: Words, i: nat)
    requires 2 <= i < 8 && s[i] != 0
    ensures Val(s) >= UINT64
  {
    hide Num;
    var h := NumSplit(s, i + 1, 8);
    NumNext(s, i);
    NumBound(s, i);
    PowNext(BASE, 0);
    PowNext(BASE, 1);
    hide Pow;
    PowGrows(BASE, 2, i);
    Product(1, s[i], Pow(BASE, i), Pow(BASE, i));
    Product(0, h, 0, Pow(BASE, i + 1));
  }

  lemma DecodedFields(n: Limb)
    ensures var size, word := n / 0x1000000, n % 0x800000;
            (size <= 3 ==> Pow(256, 3 - size) > 0) &&
            Decoded(n) == if size <= 3 then word / Pow(256, 3 - size) else word * Pow(256, size - 3)
  {
    hide Pow;
    if n / 0x1000000 <= 3 {
      PowPositive(256, 3 - n / 0x1000000);
    }
  }

  lemma SmallDecoded(word: nat, size: nat)
    requires word < 0x800000 && size <= 3 && Pow(256, 3 - size) > 0
    ensures 0 <= word / Pow(256, 3 - size) <= word < Modulus() && !OverflowFlag(word / Pow(256, 3 - size), size)
    ensures word / Pow(256, 3 - size) % Modulus() == word / Pow(256, 3 - size)
  {
    Pow256();
    Modulus256();
    hide Pow;
    PowGrows(256, 3, 32);
    var p := Pow(256, 3 - size);
    DivMod(word, p);
    Product(word / p, word / p, 1, p);
    ModIs(word / p, 0, Modulus(), word / p);
  }

  lemma NonZeroProduct(a: nat, p: nat)
    requires p > 0
    ensures a * p != 0 <==> a != 0
  {
  }

  lemma MantissaBit(m: nat)
    requires m < 0x1000000
    ensures HasBit(m, 23) <==> m >= 0x800000
  {
    BytesPower(3);
    Pow256();
    PowNext(2, 23);
    TestBit(m, 23);
  }

  lemma OrExponent(word: nat, size: nat)
    requires word < 0x1000000
    ensures Or(word, size * 0x1000000) == word + size * 0x1000000
  {
    BytesPower(3);
    Pow256();
    OrDisjoint(word, size, 24);
  }

  lemma LowMantissa(x: nat, size: nat)
    requires size <= 3 && Bytes(x) == size
    ensures x < UINT64 && x * Pow(2, 8 * (3 - size)) == Mantissa(x, size) < 0x1000000
  {
    hide Bytes;
    BytesPower(3 - size);
    BytesBound(x);
    MantissaBound(x, size, 1);
    Pow256();
    hide Pow;
    PowGrows(256, size, 3);
  }

  lemma HighMantissa(x: nat, size: nat)
    requires size > 3 && Bytes(x) == size
    ensures Pow(2, 8 * (size - 3)) > 0 && x / Pow(2, 8 * (size - 3)) == Mantissa(x, size) < 0x1000000
  {
    hide Bytes;
    hide Pow;
    BytesPower(size - 3);
    BytesBound(x);
    PowPositive(2, 8 * (size - 3));
    MantissaBound(x, size, 1);
  }
}
