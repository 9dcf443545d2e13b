/** How bip39_ssss.py sizes everything from a mnemonic's word count: the entropy bit
    length (BIP39: 11 bits per word, one checksum bit per 32 entropy bits), the hex width
    that `safe_pad_hex` pads to, and the sharing modulus 2^b - 1. */
module EntropyWidth {
  import opened Common
  import opened Hex

  /** Bip39MnemonicConst.WORD_BIT_LEN. */
  const WORD_BIT_LEN: nat := 11

  /** The word counts BIP39 defines. */
  predicate IsStandardWordCount(w: nat)
  {
    w == 12 || w == 15 || w == 18 || w == 21 || w == 24
  }

  /** mnemonic_len_to_entropy_bit_len: all word bits less the checksum bits. For a word
      count divisible by three the result is a whole number of 32-bit units, and entropy
      plus one checksum bit per 32 entropy bits fills the words exactly. */
  function EntropyBitLen(w: nat): (b: nat)
    ensures b <= WORD_BIT_LEN * w
    ensures w % 3 == 0 ==> b % 32 == 0 && b + b / 32 == WORD_BIT_LEN * w
  {
    var k := w / 3;
    assert w % 3 == 0 ==> w == 3 * k && w * WORD_BIT_LEN - k == 32 * k;
    w * WORD_BIT_LEN - w / 3
  }

  /** The target width of safe_pad_hex: int(b / 4) hex digits, the whole number of hex
      digits that b bits fill (the remainder is dropped). */
  function HexWidth(w: nat): (width: nat)
    ensures 4 * width <= EntropyBitLen(w) < 4 * width + 4
  {
    EntropyBitLen(w) / 4
  }

  /** The `prime` argument both make_random_shares and recover_secret receive. Despite
      the name it is not a prime for any standard word count (ModulusDivisibleByThree). */
  function Modulus(w: nat): (p: int)
    ensures p + 1 == Pow(2, EntropyBitLen(w))
  {
    Pow(2, EntropyBitLen(w)) - 1
  }

  /** The five standard word counts give 128, 160, 192, 224 and 256 bits; the bit length
      is then a multiple of 32, so the hex width b / 4 loses nothing and is even. */
  lemma StandardWidths(w: nat)
    requires IsStandardWordCount(w)
    ensures EntropyBitLen(w) == 32 * (w / 3) && 128 <= EntropyBitLen(w) <= 256
    ensures 4 * HexWidth(w) == EntropyBitLen(w) && HexWidth(w) % 2 == 0
    ensures 32 <= HexWidth(w) <= 64
    ensures Pow(2, EntropyBitLen(w)) == Pow(16, HexWidth(w)) == Pow(256, HexWidth(w) / 2)
  {
    var b, width := EntropyBitLen(w), HexWidth(w);
    assert w % 3 == 0;
    assert b == 32 * (w / 3);
    assert b == 4 * width && width == 2 * (width / 2);
    PowTwoSixteen(width);
    PowSixteenByte(width / 2);
  }

  /** safe_pad_hex: left-pads with '0' up to the width the word count calls for. The
      result keeps the input as its suffix, preceded only by '0' digits, and is never
      shorter than the input: it never truncates. */
  function SafePadHex(hex: string, w: nat): (r: string)
    ensures |r| == if |hex| < HexWidth(w) then HexWidth(w) else |hex|
    ensures r[|r| - |hex|..] == hex
    ensures forall i :: 0 <= i < |r| - |hex| ==> r[i] == '0'
  {
    var width := HexWidth(w);
    if |hex| < width then Zeros(width - |hex|) + hex else hex
  }

  /** Padding keeps a hex string's value. */
  lemma SafePadHexValue(hex: string, w: nat)
    requires IsHex(hex)
    ensures IsHex(SafePadHex(hex, w)) && HexValue(SafePadHex(hex, w)) == HexValue(hex)
  {
    var r := SafePadHex(hex, w);
    assert r == Zeros(|r| - |hex|) + hex;
    HexValueLeadingZeros(|r| - |hex|, hex);
  }

  /** Padding a second time changes nothing. */
  lemma SafePadHexIdempotent(hex: string, w: nat)
    ensures SafePadHex(SafePadHex(hex, w), w) == SafePadHex(hex, w)
  {
  }

  /** The loop body of mnemonic_to_shares and the tail of shares_to_mnemonic, from field
      integer to entropy: bytes.fromhex(safe_pad_hex(format(v, "x"), w)). */
  function ValueToEntropy(v: nat, w: nat): Option<seq<Byte>>
  {
    FromHex(SafePadHex(FormatHex(v), w))
  }

  /** Width round trip: for a standard word count and any v < 2^b, the padded string has
      exactly the target width, int(.., 16) gives v back, and bytes.fromhex gives exactly
      b / 8 bytes denoting v. */
  lemma {:induction false} WidthRoundTrip(v: nat, w: nat)
    requires IsStandardWordCount(w) && v < Pow(2, EntropyBitLen(w))
    ensures |SafePadHex(FormatHex(v), w)| == HexWidth(w)
    ensures ParseHex(SafePadHex(FormatHex(v), w)) == Some(v)
    ensures ValueToEntropy(v, w).Some?
    ensures |ValueToEntropy(v, w).value| == EntropyBitLen(w) / 8
    ensures BigEndian(ValueToEntropy(v, w).value) == v
  {
    StandardWidths(w);
    FormatHexLength(v, HexWidth(w));
    var s := SafePadHex(FormatHex(v), w);
    SafePadHexValue(FormatHex(v), w);
    FromHexValue(s);
  }

  /** A field element (at most 2^b - 1) becomes exactly b / 8 bytes denoting it. */
  lemma FieldValueToEntropy(v: nat, w: nat)
    requires IsStandardWordCount(w) && v <= Modulus(w)
    ensures ValueToEntropy(v, w).Some? && ValueToEntropy(v, w).value != []
    ensures |ValueToEntropy(v, w).value| == EntropyBitLen(w) / 8
    ensures BigEndian(ValueToEntropy(v, w).value) == v
  {
    WidthRoundTrip(v, w);
    assert EntropyBitLen(w) / 8 > 0 by {
      StandardWidths(w);
    }
  }

  /** A value that needs more digits than the width is passed on unpadded, never cut
      down: no entropy of the expected b / 8 bytes comes out of it. */
  lemma {:induction false} WidthOverflowNotTruncated(v: nat, w: nat)
    requires IsStandardWordCount(w) && v >= Pow(2, EntropyBitLen(w))
    ensures SafePadHex(FormatHex(v), w) == FormatHex(v)
    ensures ValueToEntropy(v, w).Some? ==> |ValueToEntropy(v, w).value| > EntropyBitLen(w) / 8
  {
    StandardWidths(w);
    FormatHexLengthBound(v);
    if |FormatHex(v)| <= HexWidth(w) {
      PowMonotone(16, |FormatHex(v)|, HexWidth(w));
    }
  }

  /** Entropy round trip: entropy of the width a standard word count calls for survives
      int(e.hex(), 16) followed by the padded re-encoding unchanged, leading zero bytes
      included. */
  lemma EntropyRoundTrip(e: seq<Byte>, w: nat)
    requires IsStandardWordCount(w) && |e| == EntropyBitLen(w) / 8
    ensures ParseHex(BytesToHex(e)) == Some(BigEndian(e))
    ensures ValueToEntropy(BigEndian(e), w) == Some(e)
  {
    StandardWidths(w);
    assert |e| == HexWidth(w) / 2 && |e| > 0;
    ParseBytesToHex(e);
    BigEndianBound(e);
    assert BigEndian(e) < Pow(2, EntropyBitLen(w));
    WidthRoundTrip(BigEndian(e), w);
    var d := ValueToEntropy(BigEndian(e), w).value;
    BigEndianInjective(d, e);
  }

  /** The entropy of all 0xFF bytes, of a standard width, is read by int(e.hex(), 16) as
      exactly the modulus 2^b - 1: the secret mnemonic_to_shares hands the library can
      equal the modulus passed as `prime`, and nothing checks that it is below it. */
  lemma AllOnesSecretIsModulus(w: nat)
    requires IsStandardWordCount(w)
    ensures ParseHex(BytesToHex(AllOnes(EntropyBitLen(w) / 8))) == Some(Modulus(w))
  {
    AllOnesValue(w);
    ParseBytesToHex(AllOnes(EntropyBitLen(w) / 8));
  }

  /** b / 8 bytes of 0xFF denote 2^b - 1. */
  lemma AllOnesValue(w: nat)
    requires IsStandardWordCount(w)
    ensures EntropyBitLen(w) / 8 > 0
    ensures BigEndian(AllOnes(EntropyBitLen(w) / 8)) == Modulus(w)
  {
    StandardWidths(w);
    var b, half := EntropyBitLen(w), HexWidth(w) / 2;
    assert b == 8 * half;
    assert b / 8 == half;
    BigEndianAllOnes(half);
  }

  /** 2 to an even power is one more than a multiple of 3 (4 = 3 + 1). */
  lemma {:induction false} PowTwoEvenModThree(k: nat) returns (m: nat)
    ensures Pow(2, 2 * k) == 3 * m + 1
  {
    if k == 0 {
      m := 0;
    } else {
      var m' := PowTwoEvenModThree(k - 1);
      assert Pow(2, 2 * k - 1) == 2 * Pow(2, 2 * k - 2);
      assert Pow(2, 2 * k) == 2 * Pow(2, 2 * k - 1);
      m := 4 * m' + 1;
    }
  }

  /** 2^b - 1 for an even b of at least 4 is three times a number larger than 1. */
  lemma {:induction false} EvenPowTwoLessOne(b: nat) returns (m: nat)
    requires b % 2 == 0 && b >= 4
    ensures Pow(2, b) - 1 == 3 * m && m > 1
  {
    assert b == 2 * (b / 2);
    m := PowTwoEvenModThree(b / 2);
    PowMonotone(2, 3, b);
    assert Pow(2, 3) == 8;
  }

  /** The modulus 2^b - 1 of every standard word count is composite: b is even, so 3
      divides it, and it is larger than 3. */
  lemma ModulusDivisibleByThree(w: nat)
    requires IsStandardWordCount(w)
    ensures Modulus(w) % 3 == 0 && Modulus(w) > 3
  {
    var m := ModulusThirds(w);
  }

  /** The modulus of a standard word count as three times a number larger than 1. */
  lemma ModulusThirds(w: nat) returns (m: nat)
    requires IsStandardWordCount(w)
    ensures Modulus(w) == 3 * m && m > 1
  {
    var b := EntropyBitLen(w);
    assert b % 2 == 0 && b >= 4;
    m := EvenPowTwoLessOne(b);
  }

  /** So 3 has no inverse modulo 2^b - 1: no x makes 3 * x leave remainder 1. A Lagrange
      denominator of 3, such as 4 - 1 for share numbers 1 and 4, cannot be divided out. */
  lemma ThreeHasNoInverse(w: nat, x: int)
    requires IsStandardWordCount(w)
    ensures (3 * x) % Modulus(w) != 1
  {
    var m := ModulusThirds(w);
    MultipleOfThreeMod(m, x);
  }

  /** Modulo a multiple of 3, a multiple of 3 leaves a multiple of 3. */
  lemma MultipleOfThreeMod(m: int, x: int)
    requires m > 1
    ensures (3 * x) % (3 * m) != 1
  {
    var p := 3 * m;
    var q, r := (3 * x) / p, (3 * x) % p;
    assert 3 * x == p * q + r;
    var t := m * q;
    assert p * q == 3 * t;
    assert r == 3 * (x - t);
  }
}
