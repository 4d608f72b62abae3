/**
 The serialized form of a transaction's unspent outputs: a header code, a bit mask
 with its trailing zero bytes left off, and the outputs themselves.
 */
module CoinsCodec {
  import opened Radix
  import opened Wrappers
  import opened Coins
  import opened VarInt
  import opened Compressor

  // ---------------------------------------------------------------------------- the mask

  function Pack(bits: seq<bool>): nat {
    if bits == [] then 0 else (if bits[0] then 1 else 0) + 2 * Pack(bits[1..])
  }

  function Unpack(b: nat, n: nat): (bits: seq<bool>)
    ensures |bits| == n
    decreases n
  {
    if n == 0 then [] else [b % 2 == 1] + Unpack(b / 2, n - 1)
  }

  lemma {:induction false} UnpacksPacked(bits: seq<bool>)
    ensures Unpack(Pack(bits), |bits|) == bits
    ensures Pack(bits) < Pow(2, |bits|)
    ensures Pack(bits) == 0 <==> forall i :: 0 <= i < |bits| ==> !bits[i]
  {
    if bits != [] {
      UnpacksPacked(bits[1..]);
      assert bits == [bits[0]] + bits[1..];
    }
  }

  /** The availability of the eight outputs that byte b of the mask stands for. */
  function Group(c: Coins, b: nat): (bits: seq<bool>)
    ensures |bits| == 8 && forall i :: 0 <= i < 8 ==> bits[i] == IsAvailable(c, 2 + b * 8 + i)
  {
    seq(8, i => i >= 0 && IsAvailable(c, 2 + b * 8 + i))
  }

  function MaskByte(c: Coins, b: nat): Byte {
    UnpacksPacked(Group(c, b));
    assert Pow(2, 8) == 256;
    Pack(Group(c, b))
  }

  /** The number of groups after the first two outputs. */
  function Groups(c: Coins): nat {
    if |c.vout| <= 2 then 0 else (|c.vout| - 2 + 7) / 8
  }

  /** Up to the last byte that is not zero. */
  function MaskSize(c: Coins, n: nat): nat {
    if n == 0 then 0 else if MaskByte(c, n - 1) != 0 then n else MaskSize(c, n - 1)
  }

  function NonZeros(bytes: seq<Byte>): nat {
    if bytes == [] then 0 else (if bytes[0] != 0 then 1 else 0) + NonZeros(bytes[1..])
  }

  function Mask(c: Coins, n: nat): (m: seq<Byte>)
    ensures |m| == n && forall b :: 0 <= b < n ==> m[b] == MaskByte(c, b)
  {
    if n == 0 then [] else Mask(c, n - 1) + [MaskByte(c, n - 1)]
  }

  /** The mask that is written. */
  function WrittenMask(c: Coins): seq<Byte> {
    Mask(c, MaskSize(c, Groups(c)))
  }

  function Bits(bytes: seq<Byte>): (bits: seq<bool>)
    ensures |bits| == 8 * |bytes|
  {
    if bytes == [] then [] else Unpack(bytes[0], 8) + Bits(bytes[1..])
  }

  /** The reader goes on until it has seen k bytes that are not zero. */
  function ParseMask(data: seq<Byte>, k: nat): Option<(seq<bool>, seq<Byte>)> {
    if k == 0 then Some(([], data))
    else if data == [] then None
    else
      match ParseMask(data[1..], if data[0] != 0 then k - 1 else k)
      case None => None
      case Some((bits, rest)) => Some((Unpack(data[0], 8) + bits, rest))
  }

  /** So it stops exactly behind a mask that ends with a byte that is not zero. */
  lemma {:induction false} ParsesMask(m: seq<Byte>, t: seq<Byte>)
    requires m == [] || m[|m| - 1] != 0
    ensures ParseMask(m + t, NonZeros(m)) == Some((Bits(m), t)) && (m != [] ==> NonZeros(m) > 0)
  {
    if m == [] {
      assert m + t == t;
    } else {
      assert (m + t)[1..] == m[1..] + t;
      ParsesMask(m[1..], t);
    }
  }

  lemma {:induction false} MaskEndsNonZero(c: Coins, n: nat)
    ensures var k := MaskSize(c, n); k <= n && (k > 0 ==> MaskByte(c, k - 1) != 0)
    ensures forall b :: MaskSize(c, n) <= b < n ==> MaskByte(c, b) == 0
  {
    if n > 0 && MaskByte(c, n - 1) == 0 {
      MaskEndsNonZero(c, n - 1);
    }
  }

  lemma UnpackedByte(c: Coins, b: nat)
    ensures Unpack(MaskByte(c, b), 8) == Group(c, b)
  {
    UnpacksPacked(Group(c, b));
  }

  lemma {:induction false} BitsAreAvailability(bytes: seq<Byte>, c: Coins, from: nat, i: nat)
    requires i < 8 * |bytes| && forall b :: 0 <= b < |bytes| ==> bytes[b] == MaskByte(c, from + b)
    ensures Bits(bytes)[i] <==> IsAvailable(c, 2 + from * 8 + i)
    decreases |bytes|
  {
    hide MaskByte;
    hide Unpack;
    hide Bits;
    hide IsAvailable;
    UnpackedByte(c, from);
    FirstByte(bytes);
    if i >= 8 {
      BitsAreAvailability(bytes[1..], c, from + 1, i - 8);
    }
  }

  lemma FirstByte(bytes: seq<Byte>)
    requires bytes != []
    ensures Bits(bytes) == Unpack(bytes[0], 8) + Bits(bytes[1..])
  {
  }

  // -------------------------------------------------------------------------- the outputs

  function SerializedOuts(keys: Keys, outs: seq<TxOut>): seq<Byte> {
    if outs == [] then []
    else (if IsNull(outs[0]) then [] else SerializedOut(keys, outs[0])) + SerializedOuts(keys, outs[1..])
  }

  function ParseOuts(keys: Keys, avail: seq<bool>, data: seq<Byte>): Option<(seq<TxOut>, seq<Byte>)> {
    if avail == [] then Some(([], data))
    else if avail[0] then
      match ParseOut(keys, data)
      case None => None
      case Some((out, rest)) =>
        match ParseOuts(keys, avail[1..], rest)
        case None => None
        case Some((outs, rest)) => Some(([out] + outs, rest))
    else
      match ParseOuts(keys, avail[1..], data)
      case None => None
      case Some((outs, rest)) => Some(([NULL_OUT] + outs, rest))
  }

  /** Spent outputs are as SetNull leaves them, the others are in range. */
  predicate OutOk(out: TxOut) {
    if IsNull(out) then out == NULL_OUT else InRange(out)
  }

  lemma {:induction false} ParsesOuts(keys: Keys, outs: seq<TxOut>, avail: seq<bool>, t: seq<Byte>)
    requires KeysAreSound(keys) && |avail| == |outs|
    requires forall i :: 0 <= i < |outs| ==> OutOk(outs[i]) && avail[i] == !IsNull(outs[i])
    ensures ParseOuts(keys, avail, SerializedOuts(keys, outs) + t) == Some((outs, t))
  {
    hide ParseOut;
    hide SerializedOut;
    hide KeysAreSound;
    if outs == [] {
      assert [] + t == t;
    } else {
      var rest := SerializedOuts(keys, outs[1..]);
      ParsesOuts(keys, outs[1..], avail[1..], t);
      assert outs == [outs[0]] + outs[1..];
      if avail[0] {
        ParsesOut(keys, outs[0], rest + t);
        assert SerializedOut(keys, outs[0]) + rest + t == SerializedOut(keys, outs[0]) + (rest + t);
      } else {
        assert [] + rest + t == rest + t;
      }
    }
  }

  function Nulls(n: nat): (s: seq<TxOut>)
    ensures |s| == n && forall i :: 0 <= i < n ==> s[i] == NULL_OUT
  {
    seq(n, _ => NULL_OUT)
  }

  lemma {:induction false} NullsWriteNothing(keys: Keys, outs: seq<TxOut>, n: nat)
    ensures SerializedOuts(keys, outs + Nulls(n)) == SerializedOuts(keys, outs)
    decreases |outs| + n
  {
    if outs == [] {
      assert outs + Nulls(n) == Nulls(n);
      if n > 0 {
        assert Nulls(n)[1..] == [] + Nulls(n - 1);
        NullsWriteNothing(keys, [], n - 1);
      }
    } else {
      assert (outs + Nulls(n))[1..] == outs[1..] + Nulls(n);
      NullsWriteNothing(keys, outs[1..], n);
    }
  }

  lemma {:induction false} NullsAreTrimmed(vout: seq<TxOut>, n: nat)
    requires vout == [] || !IsNull(vout[|vout| - 1])
    ensures Trimmed(vout + Nulls(n)) == vout
  {
    var s := vout + Nulls(n);
    if n > 0 {
      assert s[..|s| - 1] == vout + Nulls(n - 1);
      NullsAreTrimmed(vout, n - 1);
    } else {
      assert s == vout;
    }
  }

  // ----------------------------------------------------------------------------- the whole

  /** The number of mask bytes that are not zero, the first two outputs and the
      coinbase flag. */
  function Code(c: Coins): int {
    var first, second := IsAvailable(c, 0), IsAvailable(c, 1);
    8 * (NonZeros(WrittenMask(c)) - (if first || second then 0 else 1))
    + (if c.fCoinBase then 1 else 0) + (if first then 2 else 0) + (if second then 4 else 0)
  }

  function Serialized(keys: Keys, c: Coins): seq<Byte> {
    Encoded(c.nVersion) + (Encoded(Code(c)) + (WrittenMask(c) + (SerializedOuts(keys, c.vout) + Encoded(c.nHeight))))
  }

  function Unserialized(keys: Keys, data: seq<Byte>): Option<(Coins, seq<Byte>)> {
    match Parse(data, 0)
    case None => None
    case Some((nVersion, rest)) =>
      match Parse(rest, 0)
      case None => None
      case Some((nCode, rest)) =>
        var first, second := nCode / 2 % 2 == 1, nCode / 4 % 2 == 1;
        match ParseMask(rest, nCode / 8 + (if first || second then 0 else 1))
        case None => None
        case Some((bits, rest)) =>
          match ParseOuts(keys, [first, second] + bits, rest)
          case None => None
          case Some((outs, rest)) =>
            match Parse(rest, 0)
            case None => None
            case Some((nHeight, rest)) => Some((Cleaned(Coins(nCode % 2 == 1, outs, nHeight, nVersion)), rest))
  }

  /** Coins as the database keeps them. */
  predicate IsStorable(c: Coins) {
    IsClean(c) && !IsPruned(c) && forall i :: 0 <= i < |c.vout| ==> OutOk(c.vout[i])
  }

  lemma CodeArithmetic(k: nat, coinBase: bool, first: bool, second: bool)
    ensures var n := 8 * k + (if coinBase then 1 else 0) + (if first then 2 else 0) + (if second then 4 else 0);
            n / 8 == k && (n % 2 == 1 <==> coinBase) && (n / 2 % 2 == 1 <==> first) && (n / 4 % 2 == 1 <==> second)
  {
  }

  lemma CodeFields(c: Coins)
    requires !IsPruned(c)
    ensures var n, first, second := Code(c), IsAvailable(c, 0), IsAvailable(c, 1);
            && n >= 0 && (n % 2 == 1 <==> c.fCoinBase) && (n / 2 % 2 == 1 <==> first) && (n / 4 % 2 == 1 <==> second)
            && n / 8 + (if first || second then 0 else 1) == NonZeros(WrittenMask(c))
  {
    MaskIsNeeded(c);
    var k, f, s := NonZeros(WrittenMask(c)), IsAvailable(c, 0), IsAvailable(c, 1);
    hide WrittenMask;
    hide IsPruned;
    hide IsAvailable;
    hide NonZeros;
    CodeArithmetic(k - (if f || s then 0 else 1), c.fCoinBase, f, s);
  }

  lemma ByteIsUsed(c: Coins, b: nat, j: nat)
    requires j < 8 && IsAvailable(c, 2 + b * 8 + j)
    ensures MaskByte(c, b) != 0
  {
    UnpacksPacked(Group(c, b));
    assert Group(c, b)[j];
  }

  /** If the first two outputs are spent, the mask is not empty. */
  lemma MaskIsNeeded(c: Coins)
    requires !IsPruned(c)
    ensures IsAvailable(c, 0) || IsAvailable(c, 1) || NonZeros(WrittenMask(c)) > 0
  {
    var i :| 0 <= i < |c.vout| && !IsNull(c.vout[i]);
    if i >= 2 {
      var b := (i - 2) / 8;
      ByteIsUsed(c, b, (i - 2) % 8);
      hide MaskByte;
      MaskEndsNonZero(c, Groups(c));
      ParsesMask(WrittenMask(c), []);
    }
  }

  /** The mask reaches the last output. */
  lemma MaskIsLongEnough(c: Coins)
    requires IsClean(c)
    ensures |c.vout| <= 2 + 8 * |WrittenMask(c)|
  {
    if |c.vout| > 2 {
      var i := |c.vout| - 1;
      var b := (i - 2) / 8;
      assert b == Groups(c) - 1;
      ByteIsUsed(c, b, (i - 2) % 8);
    }
  }

  /** The availability bits as the reader puts them together. */
  lemma ReadBits(c: Coins) returns (avail: seq<bool>)
    ensures avail == [IsAvailable(c, 0), IsAvailable(c, 1)] + Bits(WrittenMask(c))
    ensures forall i :: 0 <= i < |avail| ==> avail[i] == IsAvailable(c, i)
  {
    hide MaskByte;
    hide Bits;
    hide IsAvailable;
    var m := WrittenMask(c);
    avail := [IsAvailable(c, 0), IsAvailable(c, 1)] + Bits(m);
    forall i | 0 <= i < |avail| ensures avail[i] == IsAvailable(c, i) {
      if i >= 2 {
        BitsAreAvailability(m, c, 0, i - 2);
      }
    }
  }

  /** What one number comes back as: VARINT keeps only the low bits of a negative. */
  function ReadBack(n: int): nat {
    if n >= 0 then n else n % 128
  }

  lemma ParsesOutsOf(keys: Keys, c: Coins, t: seq<Byte>) returns (outs: seq<TxOut>)
    requires KeysAreSound(keys) && IsStorable(c)
    ensures ParseOuts(keys, [IsAvailable(c, 0), IsAvailable(c, 1)] + Bits(WrittenMask(c)), SerializedOuts(keys, c.vout) + t) == Some((outs, t))
    ensures Trimmed(outs) == c.vout
  {
    hide WrittenMask;
    hide ParseOuts;
    hide SerializedOuts;
    hide KeysAreSound;
    var avail := ReadBits(c);
    MaskIsLongEnough(c);
    var n := |avail| - |c.vout|;
    outs := c.vout + Nulls(n);
    NullsWriteNothing(keys, c.vout, n);
    NullsAreTrimmed(c.vout, n);
    ParsesOuts(keys, outs, avail, t);
  }

  /** Unserializing gives back the coins and stops exactly behind them; only a
      negative version or height comes back changed. */
  lemma UnserializesSerialized(keys: Keys, c: Coins, t: seq<Byte>)
    requires KeysAreSound(keys) && IsStorable(c)
    ensures Unserialized(keys, Serialized(keys, c) + t)
            == Some((c.(nVersion := ReadBack(c.nVersion), nHeight := ReadBack(c.nHeight)), t))
  {
    hide KeysAreSound;
    hide Encoded;
    hide Parse;
    hide ParseMask;
    hide ParseOuts;
    hide SerializedOuts;
    hide WrittenMask;
    hide Code;
    CodeFields(c);
    var code, m, outs := Code(c), WrittenMask(c), SerializedOuts(keys, c.vout);
    var t4 := Encoded(c.nHeight) + t;
    var t3 := outs + t4;
    var t2 := m + t3;
    var t1 := Encoded(code) + t2;
    assert Serialized(keys, c) + t == Encoded(c.nVersion) + t1;
    ReadsBack(c.nVersion, t1);
    ReadsBack(code, t2);
    MaskParses(c, t3);
    var back := ParsesOutsOf(keys, c, t4);
    ReadsBack(c.nHeight, t);
  }

  lemma MaskParses(c: Coins, t: seq<Byte>)
    ensures ParseMask(WrittenMask(c) + t, NonZeros(WrittenMask(c))) == Some((Bits(WrittenMask(c)), t))
  {
    MaskEndsNonZero(c, Groups(c));
    ParsesMask(WrittenMask(c), t);
  }

  /** So storable coins survive the round trip if and only if version and height
      are not negative. */
  lemma RoundTripIffNotNegative(keys: Keys, c: Coins, t: seq<Byte>)
    requires KeysAreSound(keys) && IsStorable(c)
    ensures Unserialized(keys, Serialized(keys, c) + t) == Some((c, t)) <==> c.nVersion >= 0 && c.nHeight >= 0
  {
    UnserializesSerialized(keys, c, t);
  }

  /** For instance, version -1 comes back as 127. */
  lemma NegativeVersionChanges(keys: Keys)
    requires KeysAreSound(keys)
    ensures var c := Coins(false, [TxOut(0, [])], 0, -1);
            IsStorable(c) && Unserialized(keys, Serialized(keys, c)) == Some((c.(nVersion := 127), []))
  {
    var c := Coins(false, [TxOut(0, [])], 0, -1);
    hide KeysAreSound;
    assert !IsNull(c.vout[0]);
    assert Serialized(keys, c) + [] == Serialized(keys, c);
    UnserializesSerialized(keys, c, []);
  }
}
