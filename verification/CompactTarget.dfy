/**
 The compact form of targets: a base-256 floating point number with a 23-bit
 mantissa, a sign bit and an exponent byte.
 */
module CompactTarget {
  import opened Radix
  import opened Limbs
  import opened LimbShifts

  /** The number of base-256 digits. */
  function Bytes(x: nat): nat {
    if x == 0 then 0 else 1 + Bytes(x / 256)
  }

  /** The value of a compact form, as a number of any size, without its sign. */
  function Decoded(n: nat): nat {
    var size, word := n / 0x1000000, n % 0x800000;
    PowPositive(256, if size <= 3 then 3 - size else 0);
    if size <= 3 then word / Pow(256, 3 - size) else word * Pow(256, size - 3)
  }

  predicate SignBit(n: nat) {
    n / 0x800000 % 2 == 1
  }

  /** x in a mantissa of three bytes, when its exponent is size. */
  function Mantissa(x: nat, size: nat): nat {
    PowPositive(256, if size > 3 then size - 3 else 0);
    if size <= 3 then x * Pow(256, 3 - size) else x / Pow(256, size - 3)
  }

  /** The compact form: the exponent is the number of bytes with room for a sign. */
  function Compact(x: nat): nat {
    Mantissa(x, Bytes(2 * x)) + Bytes(2 * x) * 0x1000000
  }

  /** How many low-order bytes the mantissa has no room for. */
  function Dropped(x: nat): nat {
    if Bytes(2 * x) <= 3 then 0 else Bytes(2 * x) - 3
  }

  // ---------------------------------------------------------------------- counting bytes

  lemma {:induction false} BytesBound(x: nat)
    ensures x < Pow(256, Bytes(x)) && (x == 0 ==> Bytes(x) == 0) && (x > 0 ==> Bytes(x) > 0 && Pow(256, Bytes(x) - 1) <= x)
  {
    if x > 0 {
      BytesBound(x / 256);
    }
  }

  lemma BytesIs(x: nat, k: nat)
    requires x < Pow(256, k) && (k > 0 ==> Pow(256, k - 1) <= x)
    ensures Bytes(x) == k
  {
    BytesBound(x);
    if k > 0 {
      PowPositive(256, k - 1);
    }
    if Bytes(x) < k {
      PowGrows(256, Bytes(x), k - 1);
    } else if Bytes(x) > k {
      PowGrows(256, k, Bytes(x) - 1);
    }
  }

  lemma BytesPower(k: nat)
    ensures Pow(256, k) == Pow(2, 8 * k)
  {
    assert Pow(2, 8) == 256;
    PowTimes(2, 8, k);
  }

  /** From the number of bits to the number of bytes. */
  lemma BytesOfBits(x: nat, bits: nat)
    requires x < Pow(2, bits) && (bits > 0 ==> Pow(2, bits - 1) <= x)
    ensures Bytes(x) == (bits + 7) / 8
  {
    hide Pow;
    var k := (bits + 7) / 8;
    BytesPower(k);
    PowGrows(2, bits, 8 * k);
    if k > 0 {
      BytesPower(k - 1);
      PowGrows(2, 8 * (k - 1), bits - 1);
    }
    BytesIs(x, k);
  }

  lemma BytesOfWord(x: nat)
    requires x < Modulus()
    ensures Bytes(x) <= 32 && Bytes(2 * x) <= 33
  {
    hide Pow;
    BaseIsPower(8);
    BytesPower(32);
    BytesPower(33);
    PowNext(256, 32);
    BytesBound(x);
    BytesBound(2 * x);
    if Bytes(x) > 32 {
      PowGrows(256, 32, Bytes(x) - 1);
    }
    if Bytes(2 * x) > 33 {
      PowGrows(256, 33, Bytes(2 * x) - 1);
    }
  }

  // ------------------------------------------------------------------------- the mantissa

  lemma Pow256()
    ensures Pow(256, 0) == 1 && Pow(256, 1) == 256 && Pow(256, 2) == 65536 && Pow(256, 3) == 0x1000000
  {
  }

  /** The mantissa is below 2^24 times the fraction of its range that x fills. */
  lemma MantissaBound(x: nat, size: nat, c: nat)
    requires c * x < Pow(256, size) && c > 0
    ensures c * Mantissa(x, size) < 0x1000000
  {
    Pow256();
    hide Pow;
    if size <= 3 {
      var p := Pow(256, 3 - size);
      PowAdd(256, size, 3 - size);
      PowPositive(256, 3 - size);
      ScaledBelow(c, x, Pow(256, size), p);
    } else {
      var p := Pow(256, size - 3);
      PowAdd(256, 3, size - 3);
      PowPositive(256, size - 3);
      DivMod(x, p);
      DivBelow(x, p, x / p, x % p, c, 0x1000000);
    }
  }

  lemma DivBelow(x: nat, p: nat, q: nat, r: nat, c: nat, n: nat)
    requires x == q * p + r && c * x < n * p
    ensures c * q < n
  {
    Product(c, c, q * p, x);
    assert c * q * p == c * (q * p);
    if c * q >= n {
      Scaled(n, c * q, p);
    }
  }

  lemma ScaledBelow(c: nat, x: nat, q: nat, p: nat)
    requires c * x < q && p > 0
    ensures c * (x * p) < q * p
  {
    StrictScale(c * x, q, p);
    assert c * x * p == c * (x * p);
  }

  lemma StrictScale(a: nat, b: nat, p: nat)
    requires a < b && p > 0
    ensures a * p < b * p
  {
    Scaled(a + 1, b, p);
    assert (a + 1) * p == a * p + p;
  }

  /** The other way: a number that fills half its range has the top mantissa bit. */
  lemma MantissaHigh(x: nat, size: nat)
    requires 2 * x >= Pow(256, size)
    ensures Mantissa(x, size) >= 0x800000
  {
    Pow256();
    hide Pow;
    if size <= 3 {
      var p := Pow(256, 3 - size);
      PowAdd(256, size, 3 - size);
      Scaled(Pow(256, size), 2 * x, p);
      assert 2 * x * p == 2 * (x * p);
    } else {
      var p := Pow(256, size - 3);
      PowAdd(256, 3, size - 3);
      PowPositive(256, size - 3);
      DivMod(x, p);
      DivAbove(x, p, x / p, x % p, 0x800000);
    }
  }

  lemma DivAbove(x: nat, p: nat, q: nat, r: nat, n: nat)
    requires x == q * p + r && r < p && n * p <= x
    ensures n <= q
  {
    if q < n {
      StrictlyMore(p, q, r, n, 0);
    }
  }

  /** One byte more of exponent is one byte less of mantissa. */
  lemma MantissaShift(x: nat, size: nat)
    ensures Mantissa(x, size) / 256 == Mantissa(x, size + 1)
  {
    Pow256();
    hide Pow;
    if size < 3 {
      var p := Pow(256, 2 - size);
      PowNext(256, 2 - size);
      assert x * (256 * p) == 256 * (x * p);
    } else {
      PowNext(256, size - 3);
      PowPositive(256, size - 3);
      QuotientOfQuotient(x, Pow(256, size - 3));
    }
  }

  lemma QuotientOfQuotient(x: nat, p: nat)
    requires p > 0
    ensures x / p / 256 == x / (256 * p)
  {
    var q, r := x / p, x % p;
    DivMod(x, p);
    var h, l := q / 256, q % 256;
    assert q == 256 * h + l;
    assert x == h * (256 * p) + (l * p + r);
    Scaled(l, 255, p);
    DivIs(x, h, 256 * p, l * p + r);
  }

  // -------------------------------------------------------------------------- encoding

  /** Encoding first without room for a sign, then moving over if the top bit of
      the mantissa is taken, comes to the same. */
  lemma TwoSteps(x: nat)
    ensures var size := Bytes(x); var word := Mantissa(x, size);
            && word < 0x1000000
            && Compact(x) == if word >= 0x800000 then word / 256 + (size + 1) * 0x1000000 else word + size * 0x1000000
  {
    hide Mantissa;
    hide Pow;
    hide Bytes;
    BytesBound(x);
    MantissaBound(x, Bytes(x), 1);
    SignedBytes(x);
    MantissaShift(x, Bytes(x));
  }

  /** There is room for a sign unless the top bit of the mantissa is taken. */
  lemma SignedBytes(x: nat)
    ensures var size := Bytes(x); Bytes(2 * x) == if Mantissa(x, size) >= 0x800000 then size + 1 else size
  {
    hide Mantissa;
    hide Pow;
    hide Bytes;
    var size := Bytes(x);
    BytesBound(x);
    if 2 * x >= Pow(256, size) {
      MantissaHigh(x, size);
      PowNext(256, size);
      BytesIs(2 * x, size + 1);
    } else {
      MantissaBound(x, size, 2);
      BytesIs(2 * x, size);
    }
  }

  lemma FieldsOf(word: nat, size: nat)
    requires word < 0x800000
    ensures var n := word + size * 0x1000000; n / 0x1000000 == size && n % 0x800000 == word && !SignBit(n)
  {
    var n := word + size * 0x1000000;
    assert n == word + 2 * size * 0x800000;
  }

  lemma CompactFields(x: nat)
    ensures var n := Compact(x); n / 0x1000000 == Bytes(2 * x) && n % 0x800000 == Mantissa(x, Bytes(2 * x)) && !SignBit(n)
  {
    hide Mantissa;
    BytesBound(2 * x);
    MantissaBound(x, Bytes(2 * x), 2);
    FieldsOf(Mantissa(x, Bytes(2 * x)), Bytes(2 * x));
  }

  lemma MultipleOver(x: nat, p: nat)
    requires p > 0
    ensures x * p / p == x
  {
    DivIs(x * p, x, p, 0);
  }

  /** Decoding the compact form gives x with only its dropped bytes cleared; it is
      never negative. */
  lemma DecodesCompact(x: nat)
    ensures Pow(256, Dropped(x)) > 0 && Decoded(Compact(x)) == x - x % Pow(256, Dropped(x)) && !SignBit(Compact(x))
  {
    hide Compact;
    var size := Bytes(2 * x);
    CompactFields(x);
    hide Pow;
    hide Bytes;
    PowPositive(256, Dropped(x));
    if size <= 3 {
      PowPositive(256, 3 - size);
      MultipleOver(x, Pow(256, 3 - size));
      PowNext(256, 0);
    } else {
      DivMod(x, Pow(256, size - 3));
    }
  }

  /** In particular a 256-bit number does not overflow. */
  lemma CompactFits(x: nat)
    requires x < Modulus()
    ensures Decoded(Compact(x)) <= x < Modulus() && Compact(x) < 0x1_0000_0000
  {
    hide Pow;
    hide Decoded;
    DecodesCompact(x);
    BytesOfWord(x);
    BytesBound(2 * x);
    MantissaBound(x, Bytes(2 * x), 2);
  }

  lemma ClearedKeepsBytes(x: nat, y: nat, size: nat, p: nat)
    requires size > 3 && p == Pow(256, size - 3) && p > 0 && y == x - x % p && 2 * x >= Pow(256, size - 1)
    ensures 2 * y >= Pow(256, size - 1)
  {
    Pow256();
    hide Pow;
    PowAdd(256, 2, size - 3);
    DivMod(x, p);
    assert 2 * x >= 65536 * p;
    DivAbove(x, p, x / p, x % p, 32768);
    Scaled(32768, x / p, p);
  }

  /** Re-encoding what the compact form decodes to changes nothing. */
  lemma CompactIsStable(x: nat)
    ensures Compact(Decoded(Compact(x))) == Compact(x)
  {
    hide Pow;
    hide Bytes;
    DecodesCompact(x);
    var size, y := Bytes(2 * x), Decoded(Compact(x));
    hide Decoded;
    if size <= 3 {
      PowNext(256, 0);
      assert y == x;
    } else {
      var p := Pow(256, size - 3);
      BytesBound(2 * x);
      DivMod(x, p);
      ClearedKeepsBytes(x, y, size, p);
      BytesIs(2 * y, size);
      MultipleOver(x / p, p);
    }
  }

  // -------------------------------------------------------------------------- overflow

  predicate OverflowFlag(word: nat, size: nat) {
    word != 0 && (size > 34 || (word > 0xff && size > 33) || (word > 0xffff && size > 32))
  }

  lemma Modulus256()
    ensures Modulus() == Pow(256, 32)
  {
    hide Pow;
    BaseIsPower(8);
    BytesPower(32);
  }

  lemma {:induction false} OverflowsAt(word: nat, size: nat, k: nat)
    requires size >= 3 && k <= 32 && size - 3 >= 32 - k && word >= Pow(256, k)
    ensures word * Pow(256, size - 3) >= Modulus()
  {
    hide Pow;
    Modulus256();
    PowAdd(256, k, 32 - k);
    PowGrows(256, 32 - k, size - 3);
    Product(Pow(256, k), word, Pow(256, 32 - k), Pow(256, size - 3));
  }

  lemma FitsAt(word: nat, size: nat, k: nat)
    requires size >= 3 && k <= 32 && size - 3 <= 32 - k && word < Pow(256, k)
    ensures word * Pow(256, size - 3) < Modulus()
  {
    hide Pow;
    Modulus256();
    PowAdd(256, k, 32 - k);
    PowGrows(256, size - 3, 32 - k);
    PowPositive(256, 32 - k);
    Product(word, word, Pow(256, size - 3), Pow(256, 32 - k));
    StrictScale(word, Pow(256, k), Pow(256, 32 - k));
  }

  /** The flag is set exactly when the value needs more than 256 bits. */
  lemma OverflowIsExact(word: nat, size: nat)
    requires word < 0x800000 && size >= 3
    ensures OverflowFlag(word, size) <==> word * Pow(256, size - 3) >= Modulus()
  {
    Pow256();
    hide Pow;
    if word == 0 {
      PowPositive(BASE, 8);
    } else if size > 34 {
      OverflowsAt(word, size, 0);
    } else if word > 0xff && size > 33 {
      OverflowsAt(word, size, 1);
    } else if word > 0xffff && size > 32 {
      OverflowsAt(word, size, 2);
    } else if size == 34 {
      FitsAt(word, size, 1);
    } else if size == 33 {
      FitsAt(word, size, 2);
    } else {
      FitsAt(word, size, 3);
    }
  }
}
