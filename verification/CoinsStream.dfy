/**
 Writing coins to a stream and reading them back, loop by loop.
 */
module CoinsStream {
  import opened Radix
  import opened Limbs
  import opened LimbShifts
  import opened Wrappers
  import opened Coins
  import opened VarInt
  import opened Compressor
  import opened CoinsCodec

  // ---------------------------------------------------------------------------- writing

  lemma {:induction false} NonZerosAppend(s: seq<Byte>, b: Byte)
    ensures NonZeros(s + [b]) == NonZeros(s) + (if b != 0 then 1 else 0)
  {
    if s != [] {
      assert (s + [b])[1..] == s[1..] + [b];
      NonZerosAppend(s[1..], b);
    }
  }

  lemma {:induction false} ZerosDoNotCount(c: Coins, n: nat)
    ensures NonZeros(Mask(c, n)) == NonZeros(Mask(c, MaskSize(c, n)))
  {
    if n > 0 && MaskByte(c, n - 1) == 0 {
      NonZerosAppend(Mask(c, n - 1), 0);
      ZerosDoNotCount(c, n - 1);
    }
  }

  lemma ByteIsZero(c: Coins, b: nat)
    ensures MaskByte(c, b) == 0 <==> forall j :: 0 <= j < 8 ==> !Group(c, b)[j]
  {
    UnpacksPacked(Group(c, b));
  }

  /** Counts the bytes of the mask and those that are not zero. */
  method CalcMaskSize(c: Coins) returns (nBytes: nat, nNonzeroBytes: nat)
    ensures nBytes == MaskSize(c, Groups(c)) && nNonzeroBytes == NonZeros(WrittenMask(c))
  {
    hide MaskByte;
    nBytes, nNonzeroBytes := 0, 0;
    var b := 0;
    while 2 + b * 8 < |c.vout|
      invariant b <= Groups(c) && nBytes == MaskSize(c, b) && nNonzeroBytes == NonZeros(Mask(c, b))
    {
      var fZero := GroupIsZero(c, b);
      NonZerosAppend(Mask(c, b), MaskByte(c, b));
      if !fZero {
        nBytes := b + 1;
        nNonzeroBytes := nNonzeroBytes + 1;
      }
      b := b + 1;
    }
    ZerosDoNotCount(c, Groups(c));
  }

  method GroupIsZero(c: Coins, b: nat) returns (fZero: bool)
    ensures fZero <==> MaskByte(c, b) == 0
  {
    ghost var bits := Group(c, b);
    fZero := true;
    var i := 0;
    while i < 8 && 2 + b * 8 + i < |c.vout|
      invariant i <= 8 && (fZero <==> forall j :: 0 <= j < i ==> !bits[j])
    {
      assert bits[i] == !IsNull(c.vout[2 + b * 8 + i]);
      if !IsNull(c.vout[2 + b * 8 + i]) {
        fZero := false;
      }
      i := i + 1;
    }
    assert forall j :: i <= j < 8 ==> !bits[j];
    ByteIsZero(c, b);
  }

  lemma {:induction false} PackAppend(bits: seq<bool>, f: bool)
    ensures Pack(bits + [f]) == Pack(bits) + (if f then Pow(2, |bits|) else 0)
  {
    if bits != [] {
      assert (bits + [f])[1..] == bits[1..] + [f];
      PackAppend(bits[1..], f);
    } else {
      assert (bits + [f])[1..] == [];
    }
  }

  lemma SetNextBit(bits: seq<bool>)
    ensures Or(Pack(bits), Pow(2, |bits|)) == Pack(bits + [true])
  {
    hide Pack;
    hide Pow;
    hide Or;
    UnpacksPacked(bits);
    OrDisjoint(Pack(bits), 1, |bits|);
    PackAppend(bits, true);
  }

  method PackGroup(c: Coins, b: nat) returns (chAvail: Byte)
    ensures chAvail == MaskByte(c, b)
  {
    hide Pack;
    hide Or;
    hide Pow;
    ghost var bits := Group(c, b);
    var ch := 0;
    assert bits[..0] == [];
    PackNothing();
    for i := 0 to 8
      invariant ch == Pack(bits[..i])
    {
      assert bits[..i + 1] == bits[..i] + [bits[i]];
      if 2 + b * 8 + i < |c.vout| && !IsNull(c.vout[2 + b * 8 + i]) {
        SetNextBit(bits[..i]);
        ch := Or(ch, Pow(2, i));
      } else {
        PackAppend(bits[..i], false);
      }
    }
    assert bits[..8] == bits;
    assert ch == MaskByte(c, b);
    chAvail := ch;
  }

  lemma PackNothing()
    ensures Pack([]) == 0
  {
  }

  lemma SerializedOutsFrom(keys: Keys, outs: seq<TxOut>, i: nat)
    requires i < |outs|
    ensures SerializedOuts(keys, outs[i..]) == (if IsNull(outs[i]) then [] else SerializedOut(keys, outs[i])) + SerializedOuts(keys, outs[i + 1..])
  {
    assert outs[i..][1..] == outs[i + 1..];
  }

  /** CTxOutCompressor, writing. */
  method SerializeOut(keys: Keys, s: seq<Byte>, out: TxOut) returns (r: seq<Byte>)
    ensures r == s + SerializedOut(keys, out)
  {
    hide Compressed;
    hide Encoded;
    hide Wrap64;
    WrapBound(out.nValue);
    var nVal := CompressAmount(Wrap64(out.nValue));
    r := WriteVarInt(s, nVal);
    var compr := Compress(keys, out.scriptPubKey);
    if compr.Some? {
      r := r + compr.value;
    } else {
      r := WriteVarInt(r, |out.scriptPubKey| + nSpecialScripts);
      r := r + out.scriptPubKey;
    }
  }

  lemma WrapBound(x: int)
    ensures Wrap64(x) < UINT64
  {
  }

  /** CCoins::Serialize; the assertion that something is unspent is the caller's duty. */
  method Serialize(keys: Keys, s: seq<Byte>, c: Coins) returns (r: seq<Byte>)
    requires !IsPruned(c)
    ensures r == s + Serialized(keys, c)
  {
    hide SerializedOut;
    hide SerializedOuts;
    hide Encoded;
    hide MaskByte;
    hide IsPruned;
    var nMaskSize, nMaskCode := CalcMaskSize(c);
    var fFirst := |c.vout| > 0 && !IsNull(c.vout[0]);
    var fSecond := |c.vout| > 1 && !IsNull(c.vout[1]);
    MaskIsNeeded(c);
    assert fFirst || fSecond || nMaskCode > 0;
    var nCode := 8 * (nMaskCode - (if fFirst || fSecond then 0 else 1)) + (if c.fCoinBase then 1 else 0)
                 + (if fFirst then 2 else 0) + (if fSecond then 4 else 0);
    r := WriteVarInt(s, c.nVersion);
    r := WriteVarInt(r, nCode);
    ghost var header := r;
    assert header == s + Encoded(c.nVersion) + Encoded(Code(c));
    for b := 0 to nMaskSize
      invariant r == header + Mask(c, b)
    {
      var chAvail := PackGroup(c, b);
      r := r + [chAvail];
    }
    r := SerializeOuts(keys, r, c.vout);
    r := WriteVarInt(r, c.nHeight);
  }

  method SerializeOuts(keys: Keys, s: seq<Byte>, vout: seq<TxOut>) returns (r: seq<Byte>)
    ensures r == s + SerializedOuts(keys, vout)
  {
    hide SerializedOut;
    hide SerializedOuts;
    r := s;
    assert vout[0..] == vout;
    for i := 0 to |vout|
      invariant r + SerializedOuts(keys, vout[i..]) == s + SerializedOuts(keys, vout)
    {
      SerializedOutsFrom(keys, vout, i);
      ghost var rest := SerializedOuts(keys, vout[i + 1..]);
      if !IsNull(vout[i]) {
        assert r + (SerializedOut(keys, vout[i]) + rest) == r + SerializedOut(keys, vout[i]) + rest;
        r := SerializeOut(keys, r, vout[i]);
      } else {
        assert [] + rest == rest;
      }
    }
    NoOuts(keys, vout[|vout|..]);
  }

  lemma NoOuts(keys: Keys, outs: seq<TxOut>)
    requires outs == []
    ensures SerializedOuts(keys, outs) == []
  {
  }

  // ---------------------------------------------------------------------------- reading

  /** What a parser found, with earlier findings in front. */
  function Behind<T>(before: seq<T>, found: Option<(seq<T>, seq<Byte>)>): Option<(seq<T>, seq<Byte>)> {
    match found
    case None => None
    case Some((items, rest)) => Some((before + items, rest))
  }

  lemma BehindConcat<T>(a: seq<T>, b: seq<T>, found: Option<(seq<T>, seq<Byte>)>)
    ensures Behind(a + b, found) == Behind(a, Behind(b, found))
  {
    if found.Some? {
      assert a + b + found.value.0 == a + (b + found.value.0);
    }
  }

  lemma {:induction false} UnpackBit(b: nat, n: nat, p: nat)
    requires p < n
    ensures Unpack(b, n)[p] <==> HasBit(b, p)
    decreases p
  {
    PowPositive(2, p);
    if p > 0 {
      UnpackBit(b / 2, n - 1, p - 1);
      PowPositive(2, p - 1);
      HalfTwice(b, Pow(2, p - 1));
    }
  }

  lemma HalfTwice(b: nat, p: nat)
    requires p > 0
    ensures b / 2 / p == b / (2 * p)
  {
    var h, l := b / 2, b % 2;
    var q, r := h / p, h % p;
    DivMod(h, p);
    assert b == q * (2 * p) + (2 * r + l);
    DivIs(b, q, 2 * p, 2 * r + l);
  }

  method PushBits(vAvail: seq<bool>, chAvail: Byte) returns (r: seq<bool>)
    ensures r == vAvail + Unpack(chAvail, 8)
  {
    hide HasBit;
    hide Unpack;
    r := vAvail;
    ghost var bits := Unpack(chAvail, 8);
    for p := 0 to 8
      invariant r == vAvail + bits[..p]
    {
      UnpackBit(chAvail, 8, p);
      assert bits[..p + 1] == bits[..p] + [bits[p]];
      r := r + [HasBit(chAvail, p)];
    }
    assert bits[..8] == bits;
  }

  method ReadMask(data: seq<Byte>, nMaskCode: nat, vAvailIn: seq<bool>) returns (ok: bool, vAvail: seq<bool>, rest: seq<Byte>)
    ensures Behind(vAvailIn, ParseMask(data, nMaskCode)) == if ok then Some((vAvail, rest)) else None
  {
    hide Unpack;
    vAvail, rest := vAvailIn, data;
    var k := nMaskCode;
    while k > 0
      invariant Behind(vAvail, ParseMask(rest, k)) == Behind(vAvailIn, ParseMask(data, nMaskCode))
      decreases |rest|
    {
      if rest == [] {
        return false, [], [];
      }
      var chAvail := rest[0];
      var k' := if chAvail != 0 then k - 1 else k;
      BehindConcat(vAvail, Unpack(chAvail, 8), ParseMask(rest[1..], k'));
      vAvail := PushBits(vAvail, chAvail);
      rest := rest[1..];
      k := k';
    }
    assert vAvail + [] == vAvail;
    ok := true;
  }

  lemma ParseOutsFrom(keys: Keys, avail: seq<bool>, i: nat, data: seq<Byte>)
    requires i < |avail|
    ensures var found := if avail[i] then ParseOut(keys, data) else Some((NULL_OUT, data));
            ParseOuts(keys, avail[i..], data) ==
            match found case None => None case Some((out, rest)) => Behind([out], ParseOuts(keys, avail[i + 1..], rest))
  {
    hide ParseOut;
    assert avail[i..][1..] == avail[i + 1..];
  }

  method ReadOuts(keys: Keys, vAvail: seq<bool>, data: seq<Byte>) returns (ok: bool, vout: seq<TxOut>, rest: seq<Byte>)
    ensures ParseOuts(keys, vAvail, data) == if ok then Some((vout, rest)) else None
  {
    hide ParseOut;
    hide ParseOuts;
    vout, rest := [], data;
    assert vAvail[0..] == vAvail;
    BehindNothing(ParseOuts(keys, vAvail, data));
    for i := 0 to |vAvail|
      invariant Behind(vout, ParseOuts(keys, vAvail[i..], rest)) == ParseOuts(keys, vAvail, data)
    {
      ParseOutsFrom(keys, vAvail, i, rest);
      var out, after := NULL_OUT, rest;
      if vAvail[i] {
        var found := ParseOut(keys, rest);
        if found.None? {
          return false, [], [];
        }
        out, after := found.value.0, found.value.1;
      }
      BehindConcat(vout, [out], ParseOuts(keys, vAvail[i + 1..], after));
      vout, rest := vout + [out], after;
    }
    AllRead(keys, vAvail[|vAvail|..], rest);
    assert vout + [] == vout;
    ok := true;
  }

  lemma BehindNothing<T>(found: Option<(seq<T>, seq<Byte>)>)
    ensures Behind([], found) == found
  {
    if found.Some? {
      assert [] + found.value.0 == found.value.0;
    }
  }

  lemma AllRead(keys: Keys, avail: seq<bool>, data: seq<Byte>)
    requires avail == []
    ensures ParseOuts(keys, avail, data) == Some(([], data))
  {
  }

  /** CCoins::Unserialize; false where the stream throws for want of data. */
  method Unserialize(keys: Keys, data: seq<Byte>) returns (ok: bool, c: Coins, rest: seq<Byte>)
    ensures Unserialized(keys, data) == if ok then Some((c, rest)) else None
  {
    hide Parse;
    hide ParseMask;
    hide ParseOuts;
    hide Trimmed;
    var nVersion, nCode, nHeight, vAvail, vout;
    c := CLEARED;
    ok, nVersion, rest := ReadVarInt(data);
    if !ok {
      return;
    }
    ok, nCode, rest := ReadVarInt(rest);
    if !ok {
      return;
    }
    var fCoinBase := nCode % 2 == 1;
    vAvail := [nCode / 2 % 2 == 1, nCode / 4 % 2 == 1];
    var nMaskCode := nCode / 8 + (if vAvail[0] || vAvail[1] then 0 else 1);
    ok, vAvail, rest := ReadMask(rest, nMaskCode, vAvail);
    if !ok {
      return;
    }
    ok, vout, rest := ReadOuts(keys, vAvail, rest);
    if !ok {
      return;
    }
    ok, nHeight, rest := ReadVarInt(rest);
    if !ok {
      return;
    }
    c := Cleanup(Coins(fCoinBase, vout, nHeight, nVersion));
  }

  // ------------------------------------------------------------------------------- sizes

  method GetSerializeSizeOut(keys: Keys, out: TxOut) returns (nSize: nat)
    ensures nSize == |SerializedOut(keys, out)|
  {
    hide Compressed;
    hide Encoded;
    hide Wrap64;
    WrapBound(out.nValue);
    var nVal := CompressAmount(Wrap64(out.nValue));
    nSize := GetSizeOfVarInt(nVal);
    var compr := Compress(keys, out.scriptPubKey);
    if compr.Some? {
      nSize := nSize + |compr.value|;
    } else {
      var k := GetSizeOfVarInt(|out.scriptPubKey| + nSpecialScripts);
      nSize := nSize + (|out.scriptPubKey| + k);
    }
  }

  /** The announced size is the length of what is written. */
  method GetSerializeSize(keys: Keys, c: Coins) returns (nSize: nat)
    requires !IsPruned(c)
    ensures nSize == |Serialized(keys, c)|
  {
    hide SerializedOut;
    hide SerializedOuts;
    hide Encoded;
    hide MaskByte;
    hide IsPruned;
    var nMaskSize, nMaskCode := CalcMaskSize(c);
    var fFirst := |c.vout| > 0 && !IsNull(c.vout[0]);
    var fSecond := |c.vout| > 1 && !IsNull(c.vout[1]);
    MaskIsNeeded(c);
    assert fFirst || fSecond || nMaskCode > 0;
    var nCode := 8 * (nMaskCode - (if fFirst || fSecond then 0 else 1)) + (if c.fCoinBase then 1 else 0)
                 + (if fFirst then 2 else 0) + (if fSecond then 4 else 0);
    assert nCode == Code(c);
    nSize := GetSizeOfVarInt(c.nVersion);
    var k := GetSizeOfVarInt(nCode);
    nSize := nSize + k + nMaskSize;
    k := SizeOfOuts(keys, c.vout);
    nSize := nSize + k;
    k := GetSizeOfVarInt(c.nHeight);
    nSize := nSize + k;
  }

  method SizeOfOuts(keys: Keys, vout: seq<TxOut>) returns (nSize: nat)
    ensures nSize == |SerializedOuts(keys, vout)|
  {
    hide SerializedOut;
    hide SerializedOuts;
    nSize := 0;
    assert vout[0..] == vout;
    for i := 0 to |vout|
      invariant nSize + |SerializedOuts(keys, vout[i..])| == |SerializedOuts(keys, vout)|
    {
      SerializedOutsFrom(keys, vout, i);
      if !IsNull(vout[i]) {
        var k := GetSerializeSizeOut(keys, vout[i]);
        nSize := nSize + k;
      }
    }
    NoOuts(keys, vout[|vout|..]);
  }
}
