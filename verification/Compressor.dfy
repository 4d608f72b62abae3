/**
 Compressed transaction outputs: amounts without their trailing decimal zeros, and
 short forms of the usual scripts.
 */
module Compressor {
  import opened Radix
  import opened Wrappers
  import opened Coins
  import opened VarInt

  const MAX_MONEY: nat := 2_100_000_000_000_000
  const MAX_SCRIPT_SIZE: nat := 10000
  const nSpecialScripts: nat := 6

  lemma WrapIsExact(x: int)
    ensures 0 <= x < UINT64 ==> Wrap64(x) == x
  {
  }

  // ----------------------------------------------------------------------------- amounts

  /** The number of trailing decimal zeros, at most limit. */
  function Exponent(n: nat, limit: nat): nat {
    if limit > 0 && n % 10 == 0 then 1 + Exponent(n / 10, limit - 1) else 0
  }

  function Shortened(n: nat, e: nat): nat {
    if e == 0 then n else Shortened(n / 10, e - 1)
  }

  function Lengthened(n: nat, e: nat): nat
    decreases e
  {
    if e == 0 then n else Lengthened(n * 10, e - 1)
  }

  /** The code for k * 10^e. */
  function Packed(k: nat, e: nat): int {
    if e < 9 then 1 + (k / 10 * 9 + k % 10 - 1) * 10 + e else 1 + (k - 1) * 10 + 9
  }

  function Compressed(n: nat): int {
    if n == 0 then 0 else var e := Exponent(n, 9); Packed(Shortened(n, e), e)
  }

  function Decompressed(x: nat): nat {
    if x == 0 then 0
    else
      var e, y := (x - 1) % 10, (x - 1) / 10;
      Lengthened(if e < 9 then y / 9 * 10 + (y % 9 + 1) else y + 1, e)
  }

  lemma {:induction false} ZerosAreCounted(k: nat, e: nat, limit: nat)
    requires e <= limit && (e < limit ==> k % 10 != 0)
    ensures Exponent(k * Pow(10, e), limit) == e && Shortened(k * Pow(10, e), e) == k
    decreases e
  {
    if e == 0 {
      assert k * Pow(10, 0) == k;
    } else {
      var rest := k * Pow(10, e - 1);
      assert k * (10 * Pow(10, e - 1)) == 10 * rest;
      ZerosAreCounted(k, e - 1, limit - 1);
    }
  }

  /** The documented code: up to eight zeros after a last digit d, or at least nine. */
  lemma CompressedMeans(n: nat, d: nat, e: nat)
    ensures 1 <= d <= 9 && e < 9 ==> Compressed((10 * n + d) * Pow(10, e)) == 1 + 10 * (9 * n + d - 1) + e
    ensures n > 0 ==> Compressed(n * Pow(10, 9)) == 1 + 10 * (n - 1) + 9
  {
    hide Pow;
    PowPositive(10, e);
    PowPositive(10, 9);
    if 1 <= d <= 9 && e < 9 {
      ZerosAreCounted(10 * n + d, e, 9);
    }
    if n > 0 {
      ZerosAreCounted(n, 9, 9);
    }
  }

  /** A digit string and an exponent as the compressor finds them. */
  predicate Normal(k: nat, e: nat) {
    k > 0 && e <= 9 && (e < 9 ==> k % 10 != 0)
  }

  lemma {:induction false} ShortenedIsNormal(n: nat, limit: nat)
    requires n > 0
    ensures var e := Exponent(n, limit); var k := Shortened(n, e);
            e <= limit && k > 0 && (e < limit ==> k % 10 != 0) && Lengthened(k, e) == n
    decreases limit
  {
    if limit > 0 && n % 10 == 0 {
      ShortenedIsNormal(n / 10, limit - 1);
      var e := Exponent(n / 10, limit - 1);
      LengthenedNext(Shortened(n / 10, e), e);
    }
  }

  lemma {:induction false} LengthenedNext(k: nat, e: nat)
    ensures Lengthened(k, e + 1) == Lengthened(k, e) * 10
    decreases e
  {
    if e > 0 {
      LengthenedNext(k * 10, e - 1);
    }
  }

  /** The zeros that were put on are the zeros that come off. */
  lemma {:induction false} LengthenedExponent(k: nat, e: nat, limit: nat)
    requires k > 0 && e <= limit && (e < limit ==> k % 10 != 0)
    ensures var n := Lengthened(k, e); n > 0 && Exponent(n, limit) == e && Shortened(n, e) == k
    decreases limit
  {
    if e > 0 {
      LengthenedNext(k, e - 1);
      LengthenedExponent(k, e - 1, limit - 1);
    }
  }

  lemma PackedFields(k: nat, e: nat)
    requires Normal(k, e)
    ensures var x := Packed(k, e);
            x > 0 && (x - 1) % 10 == e && var y := (x - 1) / 10; (if e < 9 then y / 9 * 10 + (y % 9 + 1) else y + 1) == k
  {
    if e < 9 {
      var d := k % 10;
      var y := k / 10 * 9 + d - 1;
      assert Packed(k, e) - 1 == y * 10 + e;
      assert y / 9 == k / 10 && y % 9 == d - 1;
    }
  }

  /** Decompression undoes compression. */
  lemma DecompressesCompressed(n: nat)
    ensures Compressed(n) >= 0 && Decompressed(Compressed(n)) == n
  {
    if n > 0 {
      ShortenedIsNormal(n, 9);
      var e := Exponent(n, 9);
      PackedFields(Shortened(n, e), e);
    }
  }

  /** And compression undoes decompression: no code is wasted. */
  lemma CompressesDecompressed(x: nat)
    ensures Compressed(Decompressed(x)) == x
  {
    if x > 0 {
      var e, y := (x - 1) % 10, (x - 1) / 10;
      var k := if e < 9 then y / 9 * 10 + (y % 9 + 1) else y + 1;
      assert Normal(k, e);
      LengthenedExponent(k, e, 9);
      if e < 9 {
        assert k / 10 == y / 9 && k % 10 == y % 9 + 1;
      }
    }
  }

  lemma {:induction false} ShortenedIsSmaller(n: nat, e: nat)
    ensures Shortened(n, e) <= n
    decreases e
  {
    if e > 0 {
      ShortenedIsSmaller(n / 10, e - 1);
    }
  }

  /** No amount of money needs more than 64 bits, compressed or not. */
  lemma CompressedFits(n: nat)
    requires n <= MAX_MONEY
    ensures Compressed(n) < UINT64
  {
    ShortenedIsSmaller(n, Exponent(n, 9));
  }

  method StripZeros(n: nat) returns (m: nat, e: nat)
    requires n > 0
    ensures e == Exponent(n, 9) && m == Shortened(n, e)
  {
    m, e := n, 0;
    while m % 10 == 0 && e < 9
      invariant m > 0 && e <= 9 && Exponent(n, 9) == e + Exponent(m, 9 - e)
      invariant Shortened(n, Exponent(n, 9)) == Shortened(m, Exponent(m, 9 - e))
    {
      m := m / 10;
      e := e + 1;
    }
  }

  method CompressAmount(n: nat) returns (x: nat)
    requires n < UINT64
    ensures x == Wrap64(Compressed(n))
    ensures n <= MAX_MONEY ==> x == Compressed(n)
  {
    hide Wrap64;
    hide Exponent;
    hide Shortened;
    hide Decompressed;
    DecompressesCompressed(n);
    if n <= MAX_MONEY {
      CompressedFits(n);
    }
    WrapIsExact(Compressed(n));
    if n == 0 {
      return 0;
    }
    var m, e := StripZeros(n);
    ShortenedIsNormal(n, 9);
    hide Compressed;
    if e < 9 {
      var d := m % 10;
      assert 1 <= d <= 9;
      x := Wrap64(1 + (m / 10 * 9 + d - 1) * 10 + e);
    } else {
      x := Wrap64(1 + (m - 1) * 10 + 9);
    }
  }

  lemma TimesTen(n: nat, m: nat)
    requires n % UINT64 == m % UINT64
    ensures n * 10 % UINT64 == m * 10 % UINT64
  {
    var a, b, r := n / 0x1_0000_0000_0000_0000, m / 0x1_0000_0000_0000_0000, n % 0x1_0000_0000_0000_0000;
    ModOfSum(10 * a, 10 * r);
    ModOfSum(10 * b, 10 * r);
  }

  lemma ModOfSum(k: nat, r: nat)
    ensures (k * 0x1_0000_0000_0000_0000 + r) % 0x1_0000_0000_0000_0000 == r % 0x1_0000_0000_0000_0000
  {
    var q, l := r / 0x1_0000_0000_0000_0000, r % 0x1_0000_0000_0000_0000;
    var x := k * 0x1_0000_0000_0000_0000 + r;
    QuotientIsUnique(0x1_0000_0000_0000_0000, k + q, l, x / 0x1_0000_0000_0000_0000, x % 0x1_0000_0000_0000_0000);
  }

  lemma {:induction false} LengthenedWraps(n: nat, m: nat, e: nat)
    requires n % UINT64 == m % UINT64
    ensures Wrap64(Lengthened(n, e)) == Wrap64(Lengthened(m, e))
    decreases e
  {
    if e > 0 {
      TimesTen(n, m);
      LengthenedWraps(n * 10, m * 10, e - 1);
    }
  }

  lemma OneMoreZero(n: nat, e: nat)
    requires e > 0
    ensures Wrap64(Lengthened(Wrap64(n * 10), e - 1)) == Wrap64(Lengthened(n, e))
  {
    LengthenedWraps(n * 10, Wrap64(n * 10), e - 1);
  }

  method AppendZeros(n: nat, e: nat) returns (m: nat)
    requires n < UINT64
    ensures m == Wrap64(Lengthened(n, e))
  {
    WrapIsExact(n);
    hide Wrap64;
    m := n;
    var f := e;
    while f > 0
      invariant Wrap64(Lengthened(m, f)) == Wrap64(Lengthened(n, e)) && Wrap64(m) == m
    {
      OneMoreZero(m, f);
      WrapTwice(m * 10);
      m := Wrap64(m * 10);
      f := f - 1;
    }
  }

  lemma WrapTwice(x: int)
    ensures Wrap64(Wrap64(x)) == Wrap64(x)
  {
  }

  method DecompressAmount(x: nat) returns (n: nat)
    requires x < UINT64
    ensures n == Wrap64(Decompressed(x))
  {
    if x == 0 {
      return 0;
    }
    var y := x - 1;
    var e := y % 10;
    y := y / 10;
    if e < 9 {
      var d := y % 9 + 1;
      n := y / 9 * 10 + d;
    } else {
      n := y + 1;
    }
    n := AppendZeros(n, e);
  }

  // ----------------------------------------------------------------------------- scripts

  const OP_RETURN: Byte := 0x6a
  const OP_DUP: Byte := 0x76
  const OP_EQUAL: Byte := 0x87
  const OP_EQUALVERIFY: Byte := 0x88
  const OP_HASH160: Byte := 0xa9
  const OP_CHECKSIG: Byte := 0xac

  type Script = seq<Byte>

  /** Public keys as the elliptic curve library sees them. */
  datatype Keys = Keys(isFullyValid: seq<Byte> -> bool, decompress: seq<Byte> -> Option<seq<Byte>>)

  /** A valid uncompressed key is determined by its first coordinate and the parity
      of the second. */
  ghost predicate KeysAreSound(keys: Keys) {
    forall k :: |k| == 65 && k[0] == 0x04 && keys.isFullyValid(k) ==> keys.decompress([0x02 + k[64] % 2] + k[1..33]) == Some(k)
  }

  predicate IsToKeyID(s: Script) {
    |s| == 25 && s[0] == OP_DUP && s[1] == OP_HASH160 && s[2] == 20 && s[23] == OP_EQUALVERIFY && s[24] == OP_CHECKSIG
  }

  predicate IsToScriptID(s: Script) {
    |s| == 23 && s[0] == OP_HASH160 && s[1] == 20 && s[22] == OP_EQUAL
  }

  predicate IsToCompressedKey(s: Script) {
    |s| == 35 && s[0] == 33 && s[34] == OP_CHECKSIG && (s[1] == 0x02 || s[1] == 0x03)
  }

  predicate IsToFullKey(keys: Keys, s: Script) {
    |s| == 67 && s[0] == 65 && s[66] == OP_CHECKSIG && s[1] == 0x04 && keys.isFullyValid(s[1..66])
  }

  function Compress(keys: Keys, s: Script): Option<seq<Byte>> {
    if IsToKeyID(s) then Some([0x00] + s[3..23])
    else if IsToScriptID(s) then Some([0x01] + s[2..22])
    else if IsToCompressedKey(s) then Some([s[1]] + s[2..34])
    else if IsToFullKey(keys, s) then Some([0x04 + s[65] % 2] + s[2..34])
    else None
  }

  function GetSpecialSize(nSize: nat): nat {
    if nSize <= 1 then 20 else if nSize <= 5 then 32 else 0
  }

  function Decompress(keys: Keys, nSize: nat, data: seq<Byte>): Option<Script>
    requires nSize < nSpecialScripts && |data| == GetSpecialSize(nSize)
  {
    if nSize == 0 then Some([OP_DUP, OP_HASH160, 20] + data + [OP_EQUALVERIFY, OP_CHECKSIG])
    else if nSize == 1 then Some([OP_HASH160, 20] + data + [OP_EQUAL])
    else if nSize <= 3 then Some([33, nSize] + data + [OP_CHECKSIG])
    else
      match keys.decompress([nSize - 2] + data)
      case None => None
      case Some(key) => Some([65] + key + [OP_CHECKSIG])
  }

  lemma KeyScriptsReturn(keys: Keys, s: Script)
    requires KeysAreSound(keys) && IsToFullKey(keys, s)
    ensures Decompress(keys, 0x04 + s[65] % 2, s[2..34]) == Some(s)
  {
    var key := s[1..66];
    assert forall i :: 0 <= i < 65 ==> key[i] == s[i + 1];
    assert key[64] == s[65] && key[0] == s[1];
    assert key[1..33] == s[2..34];
    assert keys.decompress([0x02 + key[64] % 2] + key[1..33]) == Some(key);
    assert s == [s[0]] + key + [s[66]];
  }

  /** Every script with a short form comes back from it. */
  lemma DecompressesScript(keys: Keys, s: Script)
    requires KeysAreSound(keys) && Compress(keys, s).Some?
    ensures var out := Compress(keys, s).value;
            && |out| > 0 && out[0] < nSpecialScripts && |out| == 1 + GetSpecialSize(out[0])
            && Decompress(keys, out[0], out[1..]) == Some(s)
  {
    var out := Compress(keys, s).value;
    hide KeysAreSound;
    if IsToKeyID(s) {
      assert out[1..] == s[3..23];
      assert s == [s[0], s[1], s[2]] + s[3..23] + [s[23], s[24]];
    } else if IsToScriptID(s) {
      assert out[1..] == s[2..22];
      assert s == [s[0], s[1]] + s[2..22] + [s[22]];
    } else if IsToCompressedKey(s) {
      assert out[1..] == s[2..34];
      assert s == [s[0], s[1]] + s[2..34] + [s[34]];
    } else {
      assert out[1..] == s[2..34];
      KeyScriptsReturn(keys, s);
    }
  }

  // ------------------------------------------------------------------------ on the stream

  function SerializedScript(keys: Keys, s: Script): seq<Byte> {
    match Compress(keys, s)
    case Some(compr) => compr
    case None => Encoded(|s| + nSpecialScripts) + s
  }

  /** Reads a script; None at the end of the data. */
  function ParseScript(keys: Keys, data: seq<Byte>): Option<(Script, seq<Byte>)> {
    match Parse(data, 0)
    case None => None
    case Some((nSize, rest)) =>
      if nSize < nSpecialScripts then
        var k := GetSpecialSize(nSize);
        if |rest| < k then None
        else
          match Decompress(keys, nSize, rest[..k])
          case Some(s) => Some((s, rest[k..]))
          case None => Some(([], rest[k..]))
      else
        var k := nSize - nSpecialScripts;
        if |rest| < k then None
        else Some((if k > MAX_SCRIPT_SIZE then [OP_RETURN] else rest[..k], rest[k..]))
  }

  lemma ParsesShortForm(keys: Keys, nSize: Byte, data: seq<Byte>, t: seq<Byte>, s: Script)
    requires nSize < nSpecialScripts && |data| == GetSpecialSize(nSize) && Decompress(keys, nSize, data) == Some(s)
    ensures ParseScript(keys, [nSize] + data + t) == Some((s, t))
  {
    hide Parse;
    hide Decompress;
    var rest := data + t;
    assert [nSize] + data + t == [nSize] + rest;
    ParseByte(nSize, rest, 0);
    assert rest[..|data|] == data;
    assert rest[|data|..] == t;
  }

  lemma ParsesPlainForm(keys: Keys, s: Script, t: seq<Byte>)
    requires |s| <= MAX_SCRIPT_SIZE
    ensures ParseScript(keys, Encoded(|s| + nSpecialScripts) + s + t) == Some((s, t))
  {
    hide Parse;
    hide Encoded;
    hide Decompress;
    var n, rest := |s| + nSpecialScripts, s + t;
    assert Encoded(n) + s + t == Encoded(n) + rest;
    ReadsBack(n, rest);
    assert rest[..|s|] == s;
    assert rest[|s|..] == t;
  }

  lemma ParsesScript(keys: Keys, s: Script, t: seq<Byte>)
    requires KeysAreSound(keys) && |s| <= MAX_SCRIPT_SIZE
    ensures ParseScript(keys, SerializedScript(keys, s) + t) == Some((s, t))
  {
    hide ParseScript;
    hide Compress;
    hide Decompress;
    hide Encoded;
    if Compress(keys, s).Some? {
      DecompressesScript(keys, s);
      var out := Compress(keys, s).value;
      assert out == [out[0]] + out[1..];
      ParsesShortForm(keys, out[0], out[1..], t, s);
    } else {
      ParsesPlainForm(keys, s, t);
    }
  }

  function SerializedOut(keys: Keys, out: TxOut): seq<Byte> {
    Encoded(Wrap64(Compressed(Wrap64(out.nValue)))) + SerializedScript(keys, out.scriptPubKey)
  }

  /** What an int64_t holds of 64 bits. */
  function Signed64(x: nat): int
    requires x < UINT64
  {
    if x < 0x8000_0000_0000_0000 then x else x - UINT64
  }

  function ParseOut(keys: Keys, data: seq<Byte>): Option<(TxOut, seq<Byte>)> {
    match Parse(data, 0)
    case None => None
    case Some((nVal, rest)) =>
      match ParseScript(keys, rest)
      case None => None
      case Some((script, rest)) => Some((TxOut(Signed64(Wrap64(Decompressed(nVal))), script), rest))
  }

  /** Outputs whose amount is money and whose script has an allowed size. */
  predicate InRange(out: TxOut) {
    0 <= out.nValue <= MAX_MONEY && |out.scriptPubKey| <= MAX_SCRIPT_SIZE
  }

  lemma ParsesOut(keys: Keys, out: TxOut, t: seq<Byte>)
    requires KeysAreSound(keys) && InRange(out)
    ensures ParseOut(keys, SerializedOut(keys, out) + t) == Some((out, t))
  {
    hide Parse;
    hide Encoded;
    hide ParseScript;
    hide SerializedScript;
    hide Compressed;
    hide Decompressed;
    var n := out.nValue;
    CompressedFits(n);
    DecompressesCompressed(n);
    var script := SerializedScript(keys, out.scriptPubKey);
    assert SerializedOut(keys, out) + t == Encoded(Compressed(n)) + (script + t);
    ReadsBack(Compressed(n), script + t);
    ParsesScript(keys, out.scriptPubKey, t);
  }
}
