/**
 Variable-length integers: base 128, most significant digit first, one subtracted
 from all digits but the last, and the high bit set on all bytes but the last.
 */
module VarInt {
  import opened Radix
  import opened Wrappers

  /** The low seven bits. */
  function Digit(n: int): Byte {
    n % 128
  }

  /** A digit with another one to follow. */
  function Marked(n: int): Byte {
    0x80 + n % 128
  }

  function Next(n: nat): nat
    requires n > 0x7f
    ensures Next(n) < n
  {
    n / 128 - 1
  }

  /** All but the last byte of a number whose remaining part is n. */
  function Leading(n: nat): seq<Byte> {
    if n <= 0x7f then [Marked(n)] else Leading(Next(n)) + [Marked(n)]
  }

  /** The encoding.  A negative number is written as its low seven bits. */
  function Encoded(n: int): seq<Byte> {
    if n <= 0x7f then [Digit(n)] else Leading(Next(n)) + [Digit(n)]
  }

  /** Reading on after the digits in n; None when the bytes run out. */
  function Parse(s: seq<Byte>, n: nat): Option<(nat, seq<Byte>)> {
    if s == [] then None
    else
      var m := n * 128 + s[0] % 128;
      if s[0] >= 0x80 then Parse(s[1..], m + 1) else Some((m, s[1..]))
  }

  lemma ParseByte(b: Byte, t: seq<Byte>, n: nat)
    ensures var m := n * 128 + b % 128; Parse([b] + t, n) == if b >= 0x80 then Parse(t, m + 1) else Some((m, t))
  {
    assert ([b] + t)[1..] == t;
  }

  lemma {:induction false} ParseLeading(n: nat, t: seq<Byte>)
    ensures Parse(Leading(n) + t, 0) == Parse(t, n + 1)
    decreases n
  {
    hide Parse;
    if n <= 0x7f {
      ParseByte(Marked(n), t, 0);
    } else {
      var u := [Marked(n)] + t;
      assert Leading(n) + t == Leading(Next(n)) + u;
      ParseLeading(Next(n), u);
      ParseByte(Marked(n), t, Next(n) + 1);
    }
  }

  /** Reading back gives the number and stops exactly behind it, unless it is negative. */
  lemma ReadsBack(n: int, t: seq<Byte>)
    ensures Parse(Encoded(n) + t, 0) == Some((if n >= 0 then n else n % 128, t))
  {
    hide Parse;
    hide Leading;
    if n <= 0x7f {
      ParseByte(Digit(n), t, 0);
    } else {
      var u := [Digit(n)] + t;
      assert Encoded(n) + t == Leading(Next(n)) + u;
      ParseLeading(Next(n), u);
      ParseByte(Digit(n), t, Next(n) + 1);
    }
  }

  lemma DigitsGoOn(n: nat, b: Byte)
    ensures var k := n * 128 + b % 128; var before := if n == 0 then [] else Leading(n - 1);
            if b >= 0x80 then Leading(k) == before + [b] else Encoded(k) == before + [b]
  {
    var k := n * 128 + b % 128;
    assert k % 128 == b % 128 && k / 128 == n;
    if n == 0 {
      assert [] + [b] == [b];
    }
  }

  /** The digits that the bytes stand for: all but the last have been lowered by one. */
  function DigitsOf(s: seq<Byte>): (d: seq<int>)
    ensures |d| == |s|
  {
    seq(|s|, i requires 0 <= i < |s| => s[i] % 128 + (if i < |s| - 1 then 1 else 0))
  }

  function Raised(s: seq<Byte>): (d: seq<int>)
    ensures |d| == |s|
  {
    seq(|s|, i requires 0 <= i < |s| => s[i] % 128 + 1)
  }

  lemma {:induction false} LeadingMeans(n: nat)
    ensures Value(128, Raised(Leading(n))) == n + 1 && forall i :: 0 <= i < |Leading(n)| ==> Leading(n)[i] >= 0x80
  {
    var d := Raised(Leading(n));
    if n <= 0x7f {
      assert d[..0] == [];
    } else {
      LeadingMeans(Next(n));
      assert d[..|d| - 1] == Raised(Leading(Next(n)));
    }
  }

  /** The documented format: only the last byte has no high bit, and the digits are the
      numeral of n to the base 128. */
  lemma EncodedMeans(n: nat)
    ensures var s := Encoded(n);
            |s| > 0 && s[|s| - 1] < 0x80 && (forall i :: 0 <= i < |s| - 1 ==> s[i] >= 0x80) && Value(128, DigitsOf(s)) == n
  {
    var d := DigitsOf(Encoded(n));
    if n <= 0x7f {
      assert d[..0] == [];
    } else {
      LeadingMeans(Next(n));
      assert d[..|d| - 1] == Raised(Leading(Next(n)));
    }
  }

  lemma {:induction false} LeadingIsShort(n: nat, k: nat)
    requires k > 0 && n < Pow(128, k)
    ensures |Leading(n)| <= k
    decreases k
  {
    if n > 0x7f {
      assert Pow(128, 1) == 128 * Pow(128, 0);
      LeadingIsShort(Next(n), k - 1);
    }
  }

  /** A number of at most `bits` bits has at most (bits + 6) / 7 digits, which is the
      size of the buffer they are kept in. */
  lemma BufferSuffices(n: int, bits: nat)
    requires bits > 0 && n < Pow(2, bits)
    ensures |Encoded(n)| <= (bits + 6) / 7
  {
    if n > 0x7f {
      var k := (bits + 6) / 7;
      assert Pow(2, 7) == 128;
      PowTimes(2, 7, k);
      PowGrows(2, bits, 7 * k);
      LeadingIsShort(n, k);
    }
  }

  /** Whatever is read as n is the encoding of n: every number has exactly one. */
  lemma {:induction false} OneEncoding(s: seq<Byte>, n: nat)
    requires Parse(s, n).Some?
    ensures var (m, t) := Parse(s, n).value; (if n == 0 then [] else Leading(n - 1)) + s == Encoded(m) + t
  {
    var before := if n == 0 then [] else Leading(n - 1);
    assert s == [s[0]] + s[1..];
    DigitsGoOn(n, s[0]);
    hide Leading;
    hide Encoded;
    assert before + s == before + [s[0]] + s[1..];
    if s[0] >= 0x80 {
      OneEncoding(s[1..], n * 128 + s[0] % 128 + 1);
    }
  }

  method GetSizeOfVarInt(n: int) returns (nRet: nat)
    ensures nRet == |Encoded(n)|
  {
    nRet := 1;
    var m := n;
    while m > 0x7f
      invariant nRet >= 1 && (nRet == 1 ==> m == n) && (nRet > 1 ==> m >= 0 && nRet - 1 + |Leading(m)| == |Encoded(n)|)
      decreases m
    {
      m := Next(m);
      nRet := nRet + 1;
    }
  }

  function Reversed(s: seq<Byte>): seq<Byte> {
    if s == [] then [] else [s[|s| - 1]] + Reversed(s[..|s| - 1])
  }

  lemma ReversedAppend(s: seq<Byte>, b: Byte)
    ensures Reversed(s + [b]) == [b] + Reversed(s)
  {
    assert (s + [b])[..|s|] == s;
  }

  lemma WriteDigit(n: nat, r: seq<Byte>)
    ensures Leading(n) + r == if n <= 0x7f then [Marked(n)] + r else Leading(Next(n)) + ([Marked(n)] + r)
  {
  }

  lemma FirstDigit(n: int)
    ensures Reversed([Digit(n)]) == [Digit(n)]
    ensures Encoded(n) == if n <= 0x7f then [Digit(n)] else Leading(Next(n)) + [Digit(n)]
  {
    assert [Digit(n)][..0] == [];
  }

  /** The digits, last first. */
  method FindDigits(n: int) returns (tmp: seq<Byte>)
    ensures Reversed(tmp) == Encoded(n)
  {
    hide Reversed;
    hide Leading;
    hide Encoded;
    hide Digit;
    hide Marked;
    FirstDigit(n);
    tmp := [Digit(n)];
    var m := n;
    if m <= 0x7f {
      return;
    }
    m := Next(m);
    while true
      invariant m >= 0 && Encoded(n) == Leading(m) + Reversed(tmp)
      decreases m
    {
      WriteDigit(m, Reversed(tmp));
      ReversedAppend(tmp, Marked(m));
      tmp := tmp + [Marked(m)];
      if m <= 0x7f {
        return;
      }
      m := Next(m);
    }
  }

  method WriteVarInt(os: seq<Byte>, n: int) returns (out: seq<Byte>)
    ensures out == os + Encoded(n)
  {
    hide Encoded;
    var tmp := FindDigits(n);
    out := os;
    var len := |tmp|;
    assert tmp[..len] == tmp;
    while len > 0
      invariant len <= |tmp| && out + Reversed(tmp[..len]) == os + Encoded(n)
    {
      len := len - 1;
      assert tmp[..len + 1][..len] == tmp[..len];
      out := out + [tmp[len]];
    }
  }

  method ReadVarInt(s: seq<Byte>) returns (ok: bool, n: nat, rest: seq<Byte>)
    ensures Parse(s, 0) == if ok then Some((n, rest)) else None
  {
    n, rest := 0, s;
    while rest != []
      invariant Parse(rest, n) == Parse(s, 0)
      decreases |rest|
    {
      var chData := rest[0];
      n, rest := n * 128 + chData % 128, rest[1..];
      if chData >= 0x80 {
        n := n + 1;
      } else {
        return true, n, rest;
      }
    }
    return false, n, rest;
  }
}
