/**
 Base58 and Base58Check.  Both conversions multiply a digit buffer of an estimated
 size in place; the estimates suffice at every length, so no carry is ever lost.
 */
module Base58 {
  import opened Radix

  /** All digits and letters except 0, I, O and l. */
  const pszBase58: string := "123456789" + "ABCDEFGH" + "JKLMN" + "PQRSTUVWXYZ" + "abcdefghijk" + "mnopqrstuvwxyz"

  // ------------------------------------------------------------------- the alphabet

  /** strchr as an index; -1 where it returns NULL. */
  function IndexOf(s: string, c: char): int {
    if s == "" then -1
    else if s[0] == c then 0
    else
      var k := IndexOf(s[1..], c);
      if k < 0 then -1 else 1 + k
  }

  function DigitOf(c: char): int {
    IndexOf(pszBase58, c)
  }

  ghost predicate Ascending(s: string) {
    forall i, j :: 0 <= i < j < |s| ==> s[i] < s[j]
  }

  lemma {:induction false} IndexIsExact(s: string, c: char)
    ensures var k := IndexOf(s, c); if k == -1 then c !in s else 0 <= k < |s| && s[k] == c
  {
    if s != "" && s[0] != c {
      IndexIsExact(s[1..], c);
      assert s == [s[0]] + s[1..];
    }
  }

  lemma AscendingConcat(s: string, t: string)
    requires Ascending(s) && Ascending(t) && s != "" && t != "" && s[|s| - 1] < t[0]
    ensures Ascending(s + t)
  {
    var r := s + t;
    forall i, j | 0 <= i < j < |r| ensures r[i] < r[j] {
      if i < |s| <= j {
        assert s[i] <= s[|s| - 1] && t[0] <= t[j - |s|];
      }
    }
  }

  lemma DigitsAscend()
    ensures Ascending("123456789") && Ascending("ABCDEFGH")
  {
  }

  lemma CapitalsAscend()
    ensures Ascending("JKLMN") && Ascending("PQRSTUVWXYZ")
  {
  }

  lemma LettersAscend()
    ensures Ascending("abcdefghijk") && Ascending("mnopqrstuvwxyz")
  {
  }

  lemma AlphabetAscends()
    ensures |pszBase58| == 58 && Ascending(pszBase58)
  {
    hide Ascending;
    DigitsAscend();
    CapitalsAscend();
    LettersAscend();
    var a, b, c, d, e, f := "123456789", "ABCDEFGH", "JKLMN", "PQRSTUVWXYZ", "abcdefghijk", "mnopqrstuvwxyz";
    AscendingConcat(a, b);
    AscendingConcat(a + b, c);
    AscendingConcat(a + b + c, d);
    AscendingConcat(a + b + c + d, e);
    AscendingConcat(a + b + c + d + e, f);
  }

  lemma DigitOfLetter(d: nat)
    requires d < 58
    ensures |pszBase58| == 58 && DigitOf(pszBase58[d]) == d
  {
    AlphabetAscends();
    AscendingIndex(pszBase58, d);
  }

  lemma AscendingIndex(s: string, d: nat)
    requires d < |s| && Ascending(s)
    ensures IndexOf(s, s[d]) == d
  {
    IndexIsExact(s, s[d]);
  }

  lemma LetterOfDigit(c: char)
    ensures |pszBase58| == 58 && -1 <= DigitOf(c) < 58
    ensures DigitOf(c) >= 0 ==> pszBase58[DigitOf(c)] == c
  {
    AlphabetAscends();
    IndexIsExact(pszBase58, c);
  }

  predicate AllLetters(str: string) {
    forall i :: 0 <= i < |str| ==> DigitOf(str[i]) >= 0
  }

  function Digits(str: string): (d: seq<int>)
    ensures |d| == |str| && forall i :: 0 <= i < |str| ==> d[i] == DigitOf(str[i])
  {
    seq(|str|, i requires 0 <= i < |str| => DigitOf(str[i]))
  }

  /** str is the Base58 form of v: the same number, with as many leading zeros. */
  ghost predicate IsEncoding(str: string, v: seq<Byte>) {
    && AllLetters(str)
    && LeadingZeros(Digits(str)) == LeadingZeros(v)
    && Value(58, Digits(str)) == Value(256, v)
  }

  lemma LettersHaveDigits(str: string)
    requires AllLetters(str)
    ensures AreDigits(58, Digits(str))
  {
    forall i | 0 <= i < |str| ensures 0 <= Digits(str)[i] < 58 {
      LetterOfDigit(str[i]);
    }
  }

  lemma BytesAreDigits(v: seq<Byte>)
    ensures AreDigits(256, v)
  {
  }

  /** A byte string has one Base58 form. */
  lemma EncodingIsUnique(s: string, t: string, v: seq<Byte>)
    requires IsEncoding(s, v) && IsEncoding(t, v)
    ensures s == t
  {
    LettersHaveDigits(s);
    LettersHaveDigits(t);
    DigitsAreDetermined(58, Digits(s), Digits(t));
    forall i | 0 <= i < |s| ensures s[i] == t[i] {
      LetterOfDigit(s[i]);
      LetterOfDigit(t[i]);
      assert Digits(s)[i] == Digits(t)[i];
    }
  }

  /** A Base58 string stands for one byte string. */
  lemma DecodingIsUnique(s: string, v: seq<Byte>, w: seq<Byte>)
    requires IsEncoding(s, v) && IsEncoding(s, w)
    ensures v == w
  {
    BytesAreDigits(v);
    BytesAreDigits(w);
    DigitsAreDetermined(256, v, w);
  }

  // ------------------------------------------------------------------ buffer estimates

  /** n bytes fit into n * 138 / 100 + 1 base-58 digits. */
  lemma EncodeEstimateSuffices(n: nat)
    ensures Pow(256, n) <= Pow(58, n * 138 / 100 + 1)
  {
    assert Pow(256, 8) <= Pow(58, 11);
    hide Pow;
    DigitsSuffice(256, 58, 8, 11, n, n * 138 / 100 + 1);
  }

  lemma PowDouble(b: nat, n: nat, x: nat)
    requires Pow(b, n) == x
    ensures Pow(b, n + n) == x * x
  {
    PowAdd(b, n, n);
  }

  lemma LargePowers()
    ensures Pow(58, 71) <= Pow(256, 52)
  {
    assert Pow(58, 8) == 128063081718016 && Pow(58, 7) == 2207984167552;
    assert Pow(256, 4) == 4294967296;
    hide Pow;
    PowDouble(58, 8, 128063081718016);
    PowDouble(58, 16, 16400152899115243850138976256);
    PowDouble(58, 32, 268965015114358137726910587140455987105619365599731777536);
    PowAdd(58, 64, 7);
    PowDouble(256, 4, 4294967296);
    PowDouble(256, 8, 18446744073709551616);
    PowDouble(256, 16, 340282366920938463463374607431768211456);
    PowAdd(256, 32, 16);
    PowAdd(256, 48, 4);
  }

  /** n base-58 digits fit into n * 733 / 1000 + 1 bytes. */
  lemma DecodeEstimateSuffices(n: nat)
    ensures Pow(58, n) <= Pow(256, n * 733 / 1000 + 1)
  {
    LargePowers();
    hide Pow;
    DigitsSuffice(58, 256, 71, 52, n, n * 733 / 1000 + 1);
  }
}
