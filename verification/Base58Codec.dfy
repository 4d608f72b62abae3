/**
 EncodeBase58, DecodeBase58 and the forms with a checksum.
 */
module Base58Codec {
  import opened Radix
  import opened Base58

  // ----------------------------------------------------------------------- multiplying

  lemma CarryStep(b: int, m: int, p: int, low: int, was: int, carry: int, d: int, ch: int, r: int, q: int)
    requires low + carry * p == was * m + ch && carry + m * d == q * b + r
    ensures low + r * p + q * (b * p) == (was + d * p) * m + ch
  {
    assert (carry + m * d) * p == (q * b + r) * p;
  }

  lemma CarryStaysSmall(b: int, m: int, carry: int, d: int)
    requires 0 < b && 0 <= carry < m && 0 <= d < b
    ensures 0 <= carry + m * d < m * b
  {
    assert m * d <= m * (b - 1) == m * b - m;
  }

  lemma QuotientIsSmall(b: int, m: int, x: int)
    requires 0 < b && 0 <= x < m * b
    ensures 0 <= x / b < m && x == x / b * b + x % b && 0 <= x % b < b
  {
  }

  lemma LowIsAll(b: nat, s: seq<int>, i: nat)
    requires i <= |s| && StartsWithZeros(s, |s| - i)
    ensures Value(b, s) == Low(b, s, i)
  {
    SplitValue(b, s, i);
    ZerosAreZero(b, s, |s| - i);
    assert 0 * Pow(b, i) == 0;
  }

  lemma NextDigit(b: nat, s: seq<int>, t: seq<int>, i: nat)
    requires i < |s| == |t| && t == s[|s| - 1 - i := t[|s| - 1 - i]]
    ensures Low(b, t, i + 1) == Low(b, s, i) + t[|s| - 1 - i] * Pow(b, i)
  {
    LowUnchanged(b, s, t, i);
  }

  /** The inner loop of both conversions: multiplies the number in the buffer by m
      and adds ch.  `length` digits are in use before, i after. */
  method MultiplyAdd(buf: array<int>, b: nat, m: nat, ch: int, length: nat) returns (carry: int, i: nat)
    requires 0 < b && 0 <= ch < m && AreDigits(b, buf[..])
    requires length <= buf.Length && StartsWithZeros(buf[..], buf.Length - length)
    modifies buf
    ensures AreDigits(b, buf[..]) && i <= buf.Length && StartsWithZeros(buf[..], buf.Length - i)
    ensures 0 <= carry < m && Value(b, buf[..]) + carry * Pow(b, buf.Length) == Value(b, old(buf[..])) * m + ch
  {
    hide Pow;
    hide Low;
    hide Value;
    ghost var s := buf[..];
    var n := buf.Length;
    carry, i := ch, 0;
    assert Low(b, s, 0) == 0 && Pow(b, 0) == 1 by {
      LowAtZero(b, s);
    }
    while (carry != 0 || i < length) && i < n
      invariant i <= n && 0 <= carry < m && AreDigits(b, buf[..])
      invariant forall k :: 0 <= k < n - i ==> buf[k] == s[k]
      invariant Low(b, buf[..], i) + carry * Pow(b, i) == Low(b, s, i) * m + ch
      decreases n - i
    {
      ghost var t := buf[..];
      var d := buf[n - 1 - i];
      CarryStaysSmall(b, m, carry, d);
      var x := carry + m * d;
      QuotientIsSmall(b, m, x);
      CarryStep(b, m, Pow(b, i), Low(b, t, i), Low(b, s, i), carry, d, ch, x % b, x / b);
      buf[n - 1 - i] := x % b;
      NextDigit(b, t, buf[..], i);
      NextDigit(b, s, s, i);
      NextPower(b, i);
      carry := x / b;
      i := i + 1;
    }
    LowIsAll(b, buf[..], i);
    LowIsAll(b, s, i);
  }

  lemma LowAtZero(b: nat, s: seq<int>)
    ensures Low(b, s, 0) == 0 && Pow(b, 0) == 1
  {
  }

  lemma NextPower(b: nat, i: nat)
    ensures Pow(b, i + 1) == b * Pow(b, i)
  {
  }

  // -------------------------------------------------------------------------- encoding

  /** A number below the buffer's capacity leaves no carry. */
  lemma NoCarry(value: nat, carry: nat, capacity: nat, total: nat)
    requires value + carry * capacity == total < capacity
    ensures carry == 0
  {
    if carry > 0 {
      Product(1, carry, capacity, capacity);
    }
  }

  lemma EncodingFits(v: seq<Byte>, k: nat, size: nat)
    requires k < |v| && size == |v| * 138 / 100 + 1
    ensures Value(256, v[..k]) * 256 + v[k] == Value(256, v[..k + 1]) < Pow(58, size)
  {
    assert v[..k + 1][..k] == v[..k];
    BytesAreDigits(v[..k + 1]);
    ValueBound(256, v[..k + 1]);
    PowGrows(256, k + 1, |v|);
    EncodeEstimateSuffices(|v|);
  }

  /** The base-58 digits of v; `length` of them are in use. */
  method ToBase58(v: seq<Byte>) returns (b58: array<int>, length: nat)
    ensures fresh(b58) && AreDigits(58, b58[..]) && Value(58, b58[..]) == Value(256, v)
    ensures length <= b58.Length && StartsWithZeros(b58[..], b58.Length - length)
  {
    hide Pow;
    hide Value;
    var size := |v| * 138 / 100 + 1;
    b58 := new int[size](_ => 0);
    length := 0;
    assert b58[..] == seq(size, _ => 0);
    AllZero(58, b58[..]);
    AllZero(256, v[..0]);
    for k := 0 to |v|
      invariant AreDigits(58, b58[..]) && Value(58, b58[..]) == Value(256, v[..k])
      invariant length <= b58.Length == size && StartsWithZeros(b58[..], b58.Length - length)
    {
      EncodingFits(v, k, size);
      var carry, i := MultiplyAdd(b58, 58, 256, v[k], length);
      ValueBound(58, b58[..]);
      NoCarry(Value(58, b58[..]), carry, Pow(58, size), Value(256, v[..k + 1]));
      assert carry == 0;
      length := i;
    }
    assert v[..|v|] == v;
  }

  lemma AllZero(b: nat, s: seq<int>)
    requires StartsWithZeros(s, |s|)
    ensures Value(b, s) == 0
  {
    ZerosAreZero(b, s, |s|);
    assert s[..|s|] == s;
  }

  function Zeros(n: nat): (z: seq<int>)
    ensures |z| == n && StartsWithZeros(z, n)
  {
    seq(n, _ => 0)
  }

  /** Replaces the leading zeros of a buffer by z others. */
  lemma WithZeros(b: nat, s: seq<int>, it: nat, z: nat)
    requires StartsWithZeros(s, it) && (it < |s| ==> s[it] != 0)
    ensures var r := Zeros(z) + s[it..]; LeadingZeros(r) == z && Value(b, r) == Value(b, s)
  {
    var r := Zeros(z) + s[it..];
    assert r[z..] == s[it..];
    LeadingZerosAre(r, z);
    ValueWithoutZeros(b, r, z);
    ValueWithoutZeros(b, s, it);
  }

  method EncodeBase58(v: seq<Byte>) returns (str: string)
    ensures IsEncoding(str, v)
  {
    hide Pow;
    hide Value;
    hide DigitOf;
    var zeroes := 0;
    while zeroes < |v| && v[zeroes] == 0
      invariant StartsWithZeros(v, zeroes)
    {
      zeroes := zeroes + 1;
    }
    LeadingZerosAre(v, zeroes);
    ValueWithoutZeros(256, v, zeroes);
    var b58, length := ToBase58(v[zeroes..]);
    var size := b58.Length;
    var it := size - length;
    while it < size && b58[it] == 0
      invariant size - length <= it <= size && StartsWithZeros(b58[..], it)
    {
      it := it + 1;
    }
    ghost var s, start := b58[..], it;
    WithZeros(58, s, it, zeroes);
    ghost var digits := Zeros(zeroes) + s[it..];
    assert AreDigits(58, digits);
    DigitOfLetter(0);
    str := seq(zeroes, _ => '1');
    while it < size
      invariant start <= it <= size && |str| == zeroes + (it - start) && b58[..] == s
      invariant forall i :: 0 <= i < |str| ==> DigitOf(str[i]) == digits[i]
    {
      assert digits[|str|] == s[it];
      DigitOfLetter(b58[it]);
      str := str + [pszBase58[b58[it]]];
      it := it + 1;
    }
    assert Digits(str) == digits;
  }

  // -------------------------------------------------------------------------- decoding

  /** isspace in the C locale. */
  predicate IsSpace(c: char) {
    c == ' ' || '\t' <= c <= '\r'
  }

  function StripFront(s: string): string {
    if s != "" && IsSpace(s[0]) then StripFront(s[1..]) else s
  }

  function StripBack(s: string): string {
    if s != "" && IsSpace(s[|s| - 1]) then StripBack(s[..|s| - 1]) else s
  }

  /** The text without surrounding white space. */
  function Strip(s: string): string {
    StripBack(StripFront(s))
  }

  lemma {:induction false} StripFrontIs(s: string, p: nat)
    requires p <= |s| && (forall i :: 0 <= i < p ==> IsSpace(s[i])) && (p < |s| ==> !IsSpace(s[p]))
    ensures StripFront(s) == s[p..]
  {
    if p > 0 {
      StripFrontIs(s[1..], p - 1);
      assert s[1..][p - 1..] == s[p..];
    } else {
      assert s[0..] == s;
    }
  }

  lemma {:induction false} StripBackIs(s: string, n: nat)
    requires n <= |s| && (forall i :: n <= i < |s| ==> IsSpace(s[i])) && (n > 0 ==> !IsSpace(s[n - 1]))
    ensures StripBack(s) == s[..n]
  {
    if n < |s| {
      StripBackIs(s[..|s| - 1], n);
      assert s[..|s| - 1][..n] == s[..n];
    } else {
      assert s[..n] == s;
    }
  }

  /** Only white space goes. */
  lemma {:induction false} StripBackKeeps(s: string, k: nat)
    requires k < |s| && !IsSpace(s[k])
    ensures k < |StripBack(s)| <= |s| && StripBack(s) == s[..|StripBack(s)|]
  {
    if IsSpace(s[|s| - 1]) {
      StripBackKeeps(s[..|s| - 1], k);
    }
  }

  lemma {:induction false} LettersAreNotSpace(c: char)
    requires DigitOf(c) >= 0
    ensures !IsSpace(c)
  {
    AlphabetAscends();
    LetterOfDigit(c);
    assert pszBase58[0] == '1';
  }

  /** A text without blanks is not changed. */
  lemma StripNothing(s: string)
    requires AllLetters(s)
    ensures Strip(s) == s
  {
    forall i | 0 <= i < |s| ensures !IsSpace(s[i]) {
      LettersAreNotSpace(s[i]);
    }
    StripFrontIs(s, 0);
    StripBackIs(s, |s|);
  }

  /** The accepted texts: blanks, letters up to q, blanks. */
  lemma AcceptedText(s: string, p: nat, q: nat)
    requires p <= q <= |s| && (forall i :: 0 <= i < p ==> IsSpace(s[i])) && AllLetters(s[p..q])
    requires (forall i :: q <= i < |s| ==> IsSpace(s[i])) && (p < |s| ==> !IsSpace(s[p]))
    ensures Strip(s) == s[p..q]
  {
    StripFrontIs(s, p);
    var t := s[p..];
    if q > p {
      assert s[p..q][q - p - 1] == t[q - p - 1];
      LettersAreNotSpace(t[q - p - 1]);
    }
    StripBackIs(t, q - p);
    assert t[..q - p] == s[p..q];
  }

  /** The others: at q stands no letter, and at r, not before q, no blank. */
  lemma RejectedText(s: string, p: nat, q: nat, r: nat)
    requires p <= q <= r < |s| && (forall i :: 0 <= i < p ==> IsSpace(s[i])) && !IsSpace(s[p])
    requires DigitOf(s[q]) < 0 && !IsSpace(s[r])
    ensures !AllLetters(Strip(s))
  {
    StripFrontIs(s, p);
    var t := s[p..];
    StripBackKeeps(t, r - p);
    assert StripBack(t)[q - p] == s[q];
  }

  lemma DecodingFits(str: string, k: nat, size: nat)
    requires k < |str| && AllLetters(str[..k + 1]) && size == |str| * 733 / 1000 + 1
    ensures 0 <= DigitOf(str[k]) < 58
    ensures Value(58, Digits(str[..k])) * 58 + DigitOf(str[k]) == Value(58, Digits(str[..k + 1])) < Pow(256, size)
  {
    var d := Digits(str[..k + 1]);
    assert d[..k] == Digits(str[..k]);
    LettersHaveDigits(str[..k + 1]);
    assert d[k] == DigitOf(str[k]);
    ValueBound(58, d);
    PowGrows(58, k + 1, |str|);
    DecodeEstimateSuffices(|str|);
  }

  /** The bytes of the number that the letters before the first blank stand for;
      `used` is how many letters there are, up to a blank, a foreign character or
      the end. */
  method FromBase58(str: string) returns (b256: array<int>, used: nat)
    ensures fresh(b256) && AreDigits(256, b256[..])
    ensures used <= |str| && AllLetters(str[..used]) && Value(256, b256[..]) == Value(58, Digits(str[..used]))
    ensures used < |str| ==> DigitOf(str[used]) < 0
  {
    hide Pow;
    hide Value;
    hide DigitOf;
    var size := |str| * 733 / 1000 + 1;
    b256 := new int[size](_ => 0);
    used := 0;
    assert b256[..] == seq(size, _ => 0);
    AllZero(256, b256[..]);
    AllZero(58, Digits(str[..0]));
    while used < |str| && !IsSpace(str[used])
      invariant used <= |str| && AllLetters(str[..used])
      invariant b256.Length == size && AreDigits(256, b256[..]) && Value(256, b256[..]) == Value(58, Digits(str[..used]))
    {
      var ch := DigitOf(str[used]);
      if ch < 0 {
        return;
      }
      assert str[..used + 1] == str[..used] + [str[used]];
      DecodingFits(str, used, size);
      var carry, _ := MultiplyAdd(b256, 256, 58, ch, size);
      ValueBound(256, b256[..]);
      NoCarry(Value(256, b256[..]), carry, Pow(256, size), Value(58, Digits(str[..used + 1])));
      assert carry == 0;
      used := used + 1;
    }
    if used < |str| && DigitOf(str[used]) >= 0 {
      LettersAreNotSpace(str[used]);
    }
  }

  lemma OnesAreZeros(core: string, z: nat)
    requires AllLetters(core) && z <= |core| && (forall i :: 0 <= i < z ==> core[i] == '1') && (z < |core| ==> core[z] != '1')
    ensures LeadingZeros(Digits(core)) == z && Value(58, Digits(core)) == Value(58, Digits(core[z..]))
  {
    hide DigitOf;
    DigitOfLetter(0);
    var d := Digits(core);
    if z < |core| {
      LetterOfDigit(core[z]);
    }
    assert d[z..] == Digits(core[z..]);
    LeadingZerosAre(d, z);
    ValueWithoutZeros(58, d, z);
  }

  /** A text decodes if and only if, blanks at either end aside, it is all letters. */
  method DecodeBase58(psz: string) returns (ok: bool, vch: seq<Byte>)
    ensures ok <==> AllLetters(Strip(psz))
    ensures ok ==> IsEncoding(Strip(psz), vch)
  {
    hide Pow;
    hide Value;
    hide DigitOf;
    hide Strip;
    var p := 0;
    while p < |psz| && IsSpace(psz[p])
      invariant p <= |psz| && forall i :: 0 <= i < p ==> IsSpace(psz[i])
    {
      p := p + 1;
    }
    var zeroes := 0;
    while p + zeroes < |psz| && psz[p + zeroes] == '1'
      invariant p + zeroes <= |psz| && forall i :: p <= i < p + zeroes ==> psz[i] == '1'
    {
      zeroes := zeroes + 1;
    }
    var b256, used := FromBase58(psz[p + zeroes..]);
    ghost var q := p + zeroes + used;
    var r := p + zeroes + used;
    while r < |psz| && IsSpace(psz[r])
      invariant q <= r <= |psz| && forall i :: q <= i < r ==> IsSpace(psz[i])
      invariant AreDigits(256, b256[..]) && Value(256, b256[..]) == Value(58, Digits(psz[p + zeroes..][..used]))
    {
      r := r + 1;
    }
    if r != |psz| {
      assert DigitOf(psz[q]) < 0;
      RejectedText(psz, p, q, r);
      return false, [];
    }
    CoreOf(psz, p, zeroes, used);
    AcceptedText(psz, p, q);
    OnesAreZeros(psz[p..q], zeroes);
    ghost var s := b256[..];
    var it := 0;
    while it < b256.Length && b256[it] == 0
      invariant it <= b256.Length && StartsWithZeros(s, it) && b256[..] == s
    {
      it := it + 1;
    }
    WithZeros(256, s, it, zeroes);
    assert forall i :: 0 <= i < |s[it..]| ==> 0 <= s[it..][i] < 256;
    ok, vch := true, Zeros(zeroes) + b256[it..];
  }

  lemma CoreOf(psz: string, p: nat, z: nat, used: nat)
    requires p + z + used <= |psz| && (forall i :: p <= i < p + z ==> psz[i] == '1') && AllLetters(psz[p + z..][..used])
    ensures var core := psz[p..p + z + used]; AllLetters(core) && core[z..] == psz[p + z..][..used]
    ensures var core := psz[p..p + z + used]; forall i :: 0 <= i < z ==> core[i] == '1'
  {
    hide DigitOf;
    DigitOfLetter(0);
    var core := psz[p..p + z + used];
    forall i | 0 <= i < |core| ensures DigitOf(core[i]) >= 0 {
      if i >= z {
        assert core[i] == psz[p + z..][..used][i - z];
      }
    }
  }

  // ----------------------------------------------------------------------- round trips

  method DecodeEncoded(v: seq<Byte>) returns (ok: bool, w: seq<Byte>)
    ensures ok && w == v
  {
    var str := EncodeBase58(v);
    StripNothing(str);
    ok, w := DecodeBase58(str);
    DecodingIsUnique(str, v, w);
  }

  /** Encoding a decoded text gives the text back, without the blanks around it. */
  method EncodeDecoded(psz: string) returns (ok: bool, str: string)
    ensures ok <==> AllLetters(Strip(psz))
    ensures ok ==> str == Strip(psz)
  {
    var v;
    ok, v := DecodeBase58(psz);
    str := EncodeBase58(v);
    if ok {
      EncodingIsUnique(str, Strip(psz), v);
    }
  }

  // -------------------------------------------------------------------------- checksums

  /** Hash gives at least four bytes for every input. */
  ghost predicate IsHash(Hash: seq<Byte> -> seq<Byte>) {
    forall v :: |Hash(v)| >= 4
  }

  method EncodeBase58Check(Hash: seq<Byte> -> seq<Byte>, vchIn: seq<Byte>) returns (str: string)
    requires IsHash(Hash)
    ensures IsEncoding(str, vchIn + Hash(vchIn)[..4])
  {
    str := EncodeBase58(vchIn + Hash(vchIn)[..4]);
  }

  /** Accepts exactly the encodings of bytes followed by the first four bytes of
      their hash. */
  method DecodeBase58Check(Hash: seq<Byte> -> seq<Byte>, psz: string) returns (ok: bool, vchRet: seq<Byte>)
    requires IsHash(Hash)
    ensures ok ==> IsEncoding(Strip(psz), vchRet + Hash(vchRet)[..4])
    ensures !ok ==> vchRet == []
    ensures forall v :: IsEncoding(Strip(psz), v + Hash(v)[..4]) ==> ok && v == vchRet
  {
    hide Value;
    hide LeadingZeros;
    var w;
    ok, w := DecodeBase58(psz);
    if ok {
      forall v | IsEncoding(Strip(psz), v + Hash(v)[..4]) ensures |w| >= 4 && v == w[..|w| - 4] && Hash(v)[..4] == w[|w| - 4..] {
        DecodingIsUnique(Strip(psz), v + Hash(v)[..4], w);
      }
    }
    if !ok || |w| < 4 {
      return false, [];
    }
    var n := |w| - 4;
    if Hash(w[..n])[..4] != w[n..] {
      return false, [];
    }
    vchRet := w[..n];
    assert vchRet + w[n..] == w;
  }

  method DecodeEncodedCheck(Hash: seq<Byte> -> seq<Byte>, v: seq<Byte>) returns (ok: bool, w: seq<Byte>)
    requires IsHash(Hash)
    ensures ok && w == v
  {
    var str := EncodeBase58Check(Hash, v);
    StripNothing(str);
    ok, w := DecodeBase58Check(Hash, str);
  }
}
