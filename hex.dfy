/** The Python built-ins the repository uses to move between integers, hex text and
    bytes: `format(v, "x")`, `int(s, 16)`, `bytes.hex()` and `bytes.fromhex(s)`.
    Byte strings are big-endian, as in Python. */
module Hex {
  import opened Common

  type Byte = x: int | 0 <= x < 256

  /** 2^(4k) == 16^k: a bit length divisible by four is a whole number of hex digits. */
  lemma {:induction false} PowTwoSixteen(k: nat)
    ensures Pow(2, 4 * k) == Pow(16, k)
  {
    if k > 0 {
      PowTwoSixteen(k - 1);
      calc {
        Pow(2, 4 * k);
        2 * Pow(2, 4 * k - 1);
        2 * (2 * Pow(2, 4 * k - 2));
        2 * (2 * (2 * Pow(2, 4 * k - 3)));
        2 * (2 * (2 * (2 * Pow(2, 4 * (k - 1)))));
      }
    }
  }

  /** 16^(2k) == 256^k: an even number of hex digits is a whole number of bytes. */
  lemma {:induction false} PowSixteenByte(k: nat)
    ensures Pow(16, 2 * k) == Pow(256, k)
  {
    if k > 0 {
      PowSixteenByte(k - 1);
      calc {
        Pow(16, 2 * k);
        16 * Pow(16, 2 * k - 1);
        16 * (16 * Pow(16, 2 * (k - 1)));
      }
    }
  }

  // ---------------------------------------------------------------------------
  // Hex digits

  predicate IsHexDigit(c: char)
  {
    '0' <= c <= '9' || 'a' <= c <= 'f' || 'A' <= c <= 'F'
  }

  predicate IsLowerHexDigit(c: char)
  {
    '0' <= c <= '9' || 'a' <= c <= 'f'
  }

  predicate IsHex(s: string)
  {
    forall i :: 0 <= i < |s| ==> IsHexDigit(s[i])
  }

  predicate IsLowerHex(s: string)
  {
    forall i :: 0 <= i < |s| ==> IsLowerHexDigit(s[i])
  }

  function DigitValue(c: char): (d: nat)
    requires IsHexDigit(c)
    ensures d < 16
  {
    if '0' <= c <= '9' then c as int - '0' as int
    else if 'a' <= c <= 'f' then c as int - 'a' as int + 10
    else c as int - 'A' as int + 10
  }

  /** The lower-case digit Python prints for a value below 16. */
  function Digit(d: nat): (c: char)
    requires d < 16
    ensures IsLowerHexDigit(c) && IsHexDigit(c) && DigitValue(c) == d
    ensures c == '0' <==> d == 0
  {
    if d < 10 then ('0' as int + d) as char else ('a' as int + d - 10) as char
  }

  /** The number a string of hex digits denotes, most significant digit first. */
  function HexValue(s: string): nat
    requires IsHex(s)
  {
    if s == [] then 0 else HexValue(s[..|s| - 1]) * 16 + DigitValue(s[|s| - 1])
  }

  function Zeros(n: nat): (z: string)
  {
    seq(n, _ => '0')
  }

  lemma {:induction false} HexValueBound(s: string)
    requires IsHex(s)
    ensures HexValue(s) < Pow(16, |s|)
  {
    if s != [] {
      HexValueBound(s[..|s| - 1]);
    }
  }

  /** Leading '0' digits do not change the value of a hex string. */
  lemma {:induction false} HexValueLeadingZeros(n: nat, s: string)
    requires IsHex(s)
    ensures IsHex(Zeros(n) + s)
    ensures HexValue(Zeros(n) + s) == HexValue(s)
  {
    var z := Zeros(n) + s;
    assert IsHex(z) by {
      forall i | 0 <= i < |z| ensures IsHexDigit(z[i]) {
        if i >= n { assert z[i] == s[i - n]; }
      }
    }
    if s == [] {
      assert z == Zeros(n);
      ZerosValue(n);
    } else {
      assert z[..|z| - 1] == Zeros(n) + s[..|s| - 1];
      HexValueLeadingZeros(n, s[..|s| - 1]);
    }
  }

  lemma {:induction false} ZerosValue(n: nat)
    ensures IsHex(Zeros(n)) && HexValue(Zeros(n)) == 0
  {
    if n > 0 {
      assert Zeros(n)[..n - 1] == Zeros(n - 1);
      ZerosValue(n - 1);
    }
  }

  // ---------------------------------------------------------------------------
  // format(v, "x")

  /** Python's format(v, "x") for a non-negative integer: lower-case digits, no
      leading zero except for the value 0 itself. */
  function FormatHex(v: nat): (s: string)
    ensures |s| >= 1 && IsLowerHex(s) && IsHex(s)
    ensures HexValue(s) == v
    ensures s[0] == '0' <==> v == 0
    decreases v
  {
    if v < 16 then [Digit(v)]
    else
      var prefix := FormatHex(v / 16);
      var s := prefix + [Digit(v % 16)];
      assert s[..|s| - 1] == prefix;
      s
  }

  /** A value below 16^k has at most k digits once formatted. */
  lemma {:induction false} FormatHexLength(v: nat, k: nat)
    requires k >= 1 && v < Pow(16, k)
    ensures |FormatHex(v)| <= k
    decreases v
  {
    if v >= 16 {
      assert k != 1;
      assert v / 16 < Pow(16, k - 1);
      FormatHexLength(v / 16, k - 1);
    }
  }

  /** format(v, "x") with more than k digits means v does not fit in k digits. */
  lemma {:induction false} FormatHexLengthBound(v: nat)
    ensures v < Pow(16, |FormatHex(v)|)
  {
    HexValueBound(FormatHex(v));
  }

  // ---------------------------------------------------------------------------
  // int(s, 16)

  /** Python's int(s, 16) on the strings the repository hands it: an empty string
      or a non-digit raises ValueError, modelled as None. */
  function ParseHex(s: string): (r: Option<nat>)
    ensures r.Some? <==> s != [] && IsHex(s)
    ensures r.Some? ==> r.value < Pow(16, |s|)
  {
    if s == [] || !IsHex(s) then None
    else
      HexValueBound(s);
      Some(HexValue(s))
  }

  lemma ParseFormatHex(v: nat)
    ensures ParseHex(FormatHex(v)) == Some(v)
  {
  }

  // ---------------------------------------------------------------------------
  // Big-endian byte strings, bytes.hex() and bytes.fromhex()

  /** The unsigned big-endian integer a byte string denotes. */
  function BigEndian(bs: seq<Byte>): nat
  {
    if bs == [] then 0 else BigEndian(bs[..|bs| - 1]) * 256 + bs[|bs| - 1]
  }

  lemma {:induction false} BigEndianBound(bs: seq<Byte>)
    ensures BigEndian(bs) < Pow(256, |bs|)
  {
    if bs != [] {
      BigEndianBound(bs[..|bs| - 1]);
    }
  }

  /** k bytes of 0xFF. */
  function AllOnes(k: nat): (bs: seq<Byte>)
    ensures |bs| == k
  {
    if k == 0 then [] else AllOnes(k - 1) + [255]
  }

  /** k bytes of 0xFF denote the largest k-byte value, 256^k - 1. */
  lemma {:induction false} BigEndianAllOnes(k: nat)
    ensures BigEndian(AllOnes(k)) == Pow(256, k) - 1
  {
    if k > 0 {
      var bs := AllOnes(k);
      assert bs[..k - 1] == AllOnes(k - 1);
      BigEndianAllOnes(k - 1);
    }
  }

  /** Two byte strings of one length with the same value are the same string. */
  lemma {:induction false} BigEndianInjective(a: seq<Byte>, b: seq<Byte>)
    requires |a| == |b| && BigEndian(a) == BigEndian(b)
    ensures a == b
  {
    if a != [] {
      var n := |a| - 1;
      var x, y := BigEndian(a[..n]), BigEndian(b[..n]);
      assert x * 256 + a[n] == y * 256 + b[n];
      assert a[n] == b[n] && x == y by {
        assert (x * 256 + a[n]) % 256 == a[n];
        assert (y * 256 + b[n]) % 256 == b[n];
        assert (x * 256 + a[n]) / 256 == x;
        assert (y * 256 + b[n]) / 256 == y;
      }
      BigEndianInjective(a[..n], b[..n]);
      assert a == a[..n] + [a[n]] && b == b[..n] + [b[n]];
    }
  }

  /** Python's bytes.hex(): two lower-case digits per byte. */
  function BytesToHex(bs: seq<Byte>): (s: string)
    ensures |s| == 2 * |bs| && IsLowerHex(s) && IsHex(s)
  {
    if bs == [] then []
    else
      var b := bs[|bs| - 1];
      BytesToHex(bs[..|bs| - 1]) + [Digit(b / 16), Digit(b % 16)]
  }

  /** The digits bytes.hex() writes denote the same number as the bytes. */
  lemma {:induction false} BytesToHexValue(bs: seq<Byte>)
    ensures HexValue(BytesToHex(bs)) == BigEndian(bs)
  {
    if bs != [] {
      var p := bs[..|bs| - 1];
      var b := bs[|bs| - 1];
      var s := BytesToHex(bs);
      assert s[..|s| - 1] == BytesToHex(p) + [Digit(b / 16)];
      assert s[..|s| - 1][..|s| - 2] == BytesToHex(p);
      BytesToHexValue(p);
    }
  }

  /** The bytes of an even-length string of hex digits, two digits per byte. */
  function HexPairs(s: string): (bs: seq<Byte>)
    requires IsHex(s) && |s| % 2 == 0
    ensures |bs| == |s| / 2
  {
    if s == [] then []
    else HexPairs(s[..|s| - 2]) + [DigitValue(s[|s| - 2]) * 16 + DigitValue(s[|s| - 1])]
  }

  /** Python's bytes.fromhex(s) on text without whitespace: an odd number of digits or a
      non-digit raises ValueError, modelled as None. */
  function FromHex(s: string): (r: Option<seq<Byte>>)
    ensures r.Some? <==> IsHex(s) && |s| % 2 == 0
    ensures r.Some? ==> |r.value| == |s| / 2
  {
    if |s| % 2 != 0 || !IsHex(s) then None else Some(HexPairs(s))
  }

  /** bytes.fromhex() keeps the number the digits denote. */
  lemma {:induction false} HexPairsValue(s: string)
    requires IsHex(s) && |s| % 2 == 0
    ensures BigEndian(HexPairs(s)) == HexValue(s)
  {
    if s != [] {
      var n := |s|;
      var p := s[..n - 2];
      var q := s[..n - 1];
      assert q[..n - 2] == p;
      var hi, lo := DigitValue(s[n - 2]), DigitValue(s[n - 1]);
      assert HexValue(q) == HexValue(p) * 16 + hi;
      assert HexValue(s) == HexValue(q) * 16 + lo;
      var bs := HexPairs(s);
      assert bs == HexPairs(p) + [hi * 16 + lo];
      assert bs[..|bs| - 1] == HexPairs(p);
      HexPairsValue(p);
      assert BigEndian(bs) == BigEndian(HexPairs(p)) * 256 + (hi * 16 + lo);
    }
  }

  lemma FromHexValue(s: string)
    requires FromHex(s).Some?
    ensures BigEndian(FromHex(s).value) == HexValue(s)
  {
    HexPairsValue(s);
  }

  /** bytes.fromhex(bs.hex()) == bs. */
  lemma FromHexBytesToHex(bs: seq<Byte>)
    ensures FromHex(BytesToHex(bs)) == Some(bs)
  {
    var s := BytesToHex(bs);
    HexPairsValue(s);
    BytesToHexValue(bs);
    BigEndianInjective(HexPairs(s), bs);
  }

  /** A lower-case digit is the digit of its own value. */
  lemma DigitOfValue(c: char)
    requires IsLowerHexDigit(c)
    ensures Digit(DigitValue(c)) == c
  {
  }

  /** The other direction: bytes.fromhex() of lower-case hex of even length, written
      back out with bytes.hex(), gives the same text. */
  lemma {:induction false} BytesToHexFromHex(s: string)
    requires IsLowerHex(s) && IsHex(s) && |s| % 2 == 0
    ensures FromHex(s).Some? && BytesToHex(FromHex(s).value) == s
  {
    if s != [] {
      var p := s[..|s| - 2];
      assert IsLowerHex(p) && IsHex(p) by {
        assert forall i :: 0 <= i < |p| ==> p[i] == s[i];
      }
      BytesToHexFromHex(p);
      BytesToHexPair(s);
    }
  }

  /** The inductive step of BytesToHexFromHex: one more pair of lower-case digits. */
  lemma BytesToHexPair(s: string)
    requires IsHex(s) && |s| % 2 == 0 && |s| >= 2
    requires IsLowerHexDigit(s[|s| - 2]) && IsLowerHexDigit(s[|s| - 1])
    requires BytesToHex(HexPairs(s[..|s| - 2])) == s[..|s| - 2]
    ensures BytesToHex(HexPairs(s)) == s
  {
    var n := |s|;
    var p := s[..n - 2];
    var bs := HexPairs(s);
    HexPairsLast(s);
    assert bs[..|bs| - 1] == HexPairs(p);
    BytesToHexLast(bs, s[n - 2], s[n - 1]);
    assert BytesToHex(bs) == p + [s[n - 2], s[n - 1]];
    LastTwo(s);
  }

  /** bytes.hex() writes a last byte made of two lower-case digits as those digits. */
  lemma BytesToHexLast(bs: seq<Byte>, hi: char, lo: char)
    requires |bs| >= 1 && IsLowerHexDigit(hi) && IsLowerHexDigit(lo)
    requires bs[|bs| - 1] == DigitValue(hi) * 16 + DigitValue(lo)
    ensures BytesToHex(bs) == BytesToHex(bs[..|bs| - 1]) + [hi, lo]
  {
    var b := bs[|bs| - 1];
    PairDigits(hi, lo);
    assert Digit(b / 16) == hi;
    assert Digit(b % 16) == lo;
    assert BytesToHex(bs) == BytesToHex(bs[..|bs| - 1]) + [Digit(b / 16), Digit(b % 16)];
  }

  /** The last byte of HexPairs(s) comes from the last two digits of s. */
  lemma HexPairsLast(s: string)
    requires IsHex(s) && |s| % 2 == 0 && |s| >= 2
    ensures |HexPairs(s)| >= 1
    ensures HexPairs(s)[..|HexPairs(s)| - 1] == HexPairs(s[..|s| - 2])
    ensures HexPairs(s)[|HexPairs(s)| - 1] == DigitValue(s[|s| - 2]) * 16 + DigitValue(s[|s| - 1])
  {
  }

  /** bytes.hex() writes the byte of two lower-case digits back as those digits. */
  lemma PairDigits(hi: char, lo: char)
    requires IsLowerHexDigit(hi) && IsLowerHexDigit(lo)
    ensures DigitValue(hi) * 16 + DigitValue(lo) < 256
    ensures Digit((DigitValue(hi) * 16 + DigitValue(lo)) / 16) == hi
    ensures Digit((DigitValue(hi) * 16 + DigitValue(lo)) % 16) == lo
  {
    var b := DigitValue(hi) * 16 + DigitValue(lo);
    assert b / 16 == DigitValue(hi) && b % 16 == DigitValue(lo);
    DigitOfValue(hi);
    DigitOfValue(lo);
  }


  /** int(bs.hex(), 16) is the big-endian value of bs; it fails only for empty bytes. */
  lemma ParseBytesToHex(bs: seq<Byte>)
    ensures ParseHex(BytesToHex(bs)) == if bs == [] then None else Some(BigEndian(bs))
  {
    BytesToHexValue(bs);
  }
}
