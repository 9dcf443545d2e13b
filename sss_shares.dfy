/** mnemonic_to_shares and shares_to_mnemonic of bip39_sss.py: the glue between BIP39
    entropy and the "<number>-<hex>" share strings of the secretsharing library. The
    library's two calls are parameters, and so is the bip_utils codec. */
module SssShares {
  import opened Common
  import opened Hex
  import opened Bip39Codec

  /** SecretSharer.split_secret(secret_hex, threshold, num_shares); None: it raised. */
  type StringSplitter = (string, int, int) -> Option<seq<string>>

  /** SecretSharer.recover_secret(share_strings): the secret as hex text; None: it raised. */
  type StringRecoverer = seq<string> -> Option<string>

  // ---------------------------------------------------------------------------
  // str.split and the share-string format

  /** Joins the parts with sep between neighbours ("sep".join(parts) in Python). */
  function JoinWith(parts: seq<string>, sep: char): string
    requires |parts| >= 1
  {
    if |parts| == 1 then parts[0]
    else JoinWith(parts[..|parts| - 1], sep) + [sep] + parts[|parts| - 1]
  }

  /** Python's s.split(sep) for a one-character separator: the runs between
      separators, always at least one (possibly empty) part. */
  function SplitOn(s: string, sep: char): (parts: seq<string>)
    ensures |parts| >= 1
  {
    if s == [] then [[]]
    else
      var init := SplitOn(s[..|s| - 1], sep);
      var n := |init| - 1;
      if s[|s| - 1] == sep then init + [[]]
      else init[..n] + [init[n] + [s[|s| - 1]]]
  }

  /** The parts hold no separator: SplitOn cuts at every separator. */
  lemma {:induction false} SplitOnParts(s: string, sep: char)
    ensures forall i :: 0 <= i < |SplitOn(s, sep)| ==> sep !in SplitOn(s, sep)[i]
  {
    if s != [] {
      var init := SplitOn(s[..|s| - 1], sep);
      SplitOnParts(s[..|s| - 1], sep);
      var c := s[|s| - 1];
      var n := |init| - 1;
      var parts := SplitOn(s, sep);
      if c != sep {
        assert parts == init[..n] + [init[n] + [c]];
        assert forall i :: 0 <= i < n ==> parts[i] == init[i];
      }
    }
  }

  /** Joining the parts again with the separator gives back the string: SplitOn cuts
      nowhere but at a separator, and drops nothing. */
  lemma {:induction false} SplitOnJoin(s: string, sep: char)
    ensures JoinWith(SplitOn(s, sep), sep) == s
  {
    if s != [] {
      var prefix := s[..|s| - 1];
      SplitOnJoin(prefix, sep);
      SplitOnJoinStep(prefix, s[|s| - 1], sep);
      LastOne(s);
    }
  }

  /** The inductive step of SplitOnJoin: appending one character to a string whose parts
      join back to it. */
  lemma SplitOnJoinStep(prefix: string, c: char, sep: char)
    requires JoinWith(SplitOn(prefix, sep), sep) == prefix
    ensures JoinWith(SplitOn(prefix + [c], sep), sep) == prefix + [c]
  {
    var s := prefix + [c];
    assert s[..|s| - 1] == prefix;
    var init := SplitOn(prefix, sep);
    var n := |init| - 1;
    var parts := SplitOn(s, sep);
    if c == sep {
      assert parts == init + [[]];
      assert parts[..|parts| - 1] == init;
    } else {
      var last := init[n] + [c];
      assert parts == init[..n] + [last];
      if n > 0 {
        assert parts[..n] == init[..n];
        assert JoinWith(parts, sep) == JoinWith(init[..n], sep) + [sep] + last;
      }
    }
  }

  /** share.split("-")[-1]: the text after the last '-' of the share string (all of it
      when the string has no '-'). */
  function ShareHex(share: string): (r: string)
    ensures '-' !in r && |r| <= |share| && share[|share| - |r|..] == r
    ensures |r| < |share| ==> share[|share| - |r| - 1] == '-'
  {
    var parts := SplitOn(share, '-');
    SplitOnParts(share, '-');
    SplitOnJoin(share, '-');
    var n := |parts| - 1;
    assert n > 0 ==> share == JoinWith(parts[..n], '-') + ['-'] + parts[n];
    parts[n]
  }

  predicate IsDecimal(s: string)
  {
    forall i :: 0 <= i < |s| ==> '0' <= s[i] <= '9'
  }

  /** The number a string of decimal digits denotes, most significant digit first. */
  function DecimalValue(s: string): nat
    requires IsDecimal(s)
  {
    if s == [] then 0 else DecimalValue(s[..|s| - 1]) * 10 + (s[|s| - 1] as int - '0' as int)
  }

  /** f"{n}" for a non-negative integer: decimal digits that denote n, with no leading
      zero except for 0 itself. */
  function NatDecimal(n: nat): (s: string)
    ensures |s| >= 1 && IsDecimal(s) && DecimalValue(s) == n
    ensures s[0] == '0' <==> n == 0
  {
    if n < 10 then [('0' as int + n) as char]
    else
      var p := NatDecimal(n / 10);
      var s := p + [('0' as int + n % 10) as char];
      assert s[..|s| - 1] == p;
      s
  }

  /** f"{n}" for any integer: a '-' exactly for a negative n, then the digits of |n|. */
  function Decimal(n: int): (s: string)
    ensures |s| >= 1 && '-' !in s[1..]
    ensures s[0] == '-' <==> n < 0
    ensures n < 0 ==> IsDecimal(s[1..]) && DecimalValue(s[1..]) == -n
    ensures n >= 0 ==> IsDecimal(s) && DecimalValue(s) == n
  {
    if n < 0 then
      var d := NatDecimal(-n);
      assert ("-" + d)[1..] == d;
      "-" + d
    else NatDecimal(n)
  }

  /** f"{n}" determines n. */
  lemma DecimalInjective(a: int, b: int)
    requires Decimal(a) == Decimal(b)
    ensures a == b
  {
    if a < 0 {
      assert Decimal(a)[1..] == Decimal(b)[1..];
    }
  }

  /** The share string shares_to_mnemonic builds: f"{share_num}-{share_hex}". */
  function FormatShare(shareNum: int, shareHex: string): string
  {
    Decimal(shareNum) + "-" + shareHex
  }

  /** Splitting `a + [sep] + b`, where b has no separator, ends with the part b. */
  lemma {:induction false} SplitOnLastPart(a: string, sep: char, b: string)
    requires sep !in b
    ensures var parts := SplitOn(a + [sep] + b, sep); parts[|parts| - 1] == b
    decreases |b|
  {
    var s := a + [sep] + b;
    if b != [] {
      var b' := b[..|b| - 1];
      assert s[..|s| - 1] == a + [sep] + b';
      SplitOnLastPart(a, sep, b');
    } else {
      assert s[..|s| - 1] == a;
    }
  }

  /** Taking the text after the last '-' undoes the share-string format, whatever the
      number, as long as the hex part has no '-' of its own. */
  lemma FormatShareRoundTrip(shareNum: int, shareHex: string)
    requires '-' !in shareHex
    ensures ShareHex(FormatShare(shareNum, shareHex)) == shareHex
  {
    assert FormatShare(shareNum, shareHex) == Decimal(shareNum) + ['-'] + shareHex;
    SplitOnLastPart(Decimal(shareNum), '-', shareHex);
  }

  /** A share string determines both its share number and its hex: different numbers
      (or different hex) never give the same "<number>-<hex>" string. */
  lemma FormatShareInjective(a: int, hexA: string, b: int, hexB: string)
    requires '-' !in hexA && '-' !in hexB
    requires FormatShare(a, hexA) == FormatShare(b, hexB)
    ensures a == b && hexA == hexB
  {
    FormatShareRoundTrip(a, hexA);
    FormatShareRoundTrip(b, hexB);
    FormatSharePrefix(a, hexA);
    FormatSharePrefix(b, hexB);
    assert |Decimal(a)| == |Decimal(b)|;
    DecimalInjective(a, b);
  }

  /** The share string starts with the number's digits, then one '-' and the hex. */
  lemma FormatSharePrefix(shareNum: int, shareHex: string)
    ensures |FormatShare(shareNum, shareHex)| == |Decimal(shareNum)| + 1 + |shareHex|
    ensures FormatShare(shareNum, shareHex)[..|Decimal(shareNum)|] == Decimal(shareNum)
  {
  }

  /** bytes.hex() never writes '-'. */
  lemma BytesToHexHasNoDash(bs: seq<Byte>)
    ensures '-' !in BytesToHex(bs)
  {
    var s := BytesToHex(bs);
    assert forall i :: 0 <= i < |s| ==> IsLowerHexDigit(s[i]);
  }

  // ---------------------------------------------------------------------------
  // Parity padding

  /** The padding in mnemonic_to_shares: an odd-length hex string gets one leading '0',
      an even-length one is left alone; the result has even length and keeps the input
      as its suffix. */
  function PadEven(hex: string): (r: string)
    ensures |r| % 2 == 0 && |r| == |hex| + |hex| % 2
    ensures r[|r| - |hex|..] == hex
    ensures |r| > |hex| ==> r[0] == '0'
  {
    if |hex| % 2 != 0 then "0" + hex else hex
  }

  /** The padding keeps the hex value. */
  lemma PadEvenValue(hex: string)
    requires IsHex(hex)
    ensures IsHex(PadEven(hex)) && HexValue(PadEven(hex)) == HexValue(hex)
  {
    var k := |hex| % 2;
    assert PadEven(hex) == Zeros(k) + hex;
    HexValueLeadingZeros(k, hex);
  }

  /** Parity padding of lower-case hex is lower-case hex. */
  lemma PadEvenLowerHex(hex: string)
    requires IsLowerHex(hex)
    ensures IsLowerHex(PadEven(hex)) && IsHex(PadEven(hex))
  {
    var r := PadEven(hex);
    assert forall i :: |r| - |hex| <= i < |r| ==> r[i] == hex[i - (|r| - |hex|)];
  }

  // ---------------------------------------------------------------------------
  // Splitting

  /** One pass of the loop in mnemonic_to_shares: the hex after the last '-', padded to
      even length, as bytes, as a mnemonic. */
  function ShareMnemonic<M>(codec: Codec<M>, share: string): Result<M>
  {
    match FromHex(PadEven(ShareHex(share)))
    case None => Err(MalformedHex)
    case Some(bs) =>
      match codec.fromEntropy(bs)
      case None => Err(EntropyRejected)
      case Some(m) => Ok(m)
  }

  /** The dict mnemonic_to_shares fills: key index + 1 for the share at position index. */
  function Numbered<M>(xs: seq<M>): map<int, M>
  {
    if xs == [] then map[]
    else Numbered(xs[..|xs| - 1])[|xs| := xs[|xs| - 1]]
  }

  /** The keys are exactly 1..N, and key k holds the k-th share. */
  lemma {:induction false} NumberedKeys<M>(xs: seq<M>)
    ensures forall k :: k in Numbered(xs) <==> 1 <= k <= |xs|
    ensures forall k :: 1 <= k <= |xs| ==> Numbered(xs)[k] == xs[k - 1]
  {
    if xs != [] {
      var init := xs[..|xs| - 1];
      NumberedKeys(init);
      assert forall i :: 0 <= i < |init| ==> init[i] == xs[i];
    }
  }

  lemma NumberedAppend<M>(xs: seq<M>, x: M)
    ensures Numbered(xs + [x]) == Numbered(xs)[|xs| + 1 := x]
  {
    assert (xs + [x])[..|xs|] == xs;
  }

  /** What the loop of mnemonic_to_shares produces from the library's share strings. */
  function ShareMnemonics<M>(codec: Codec<M>, shares: seq<string>): Result<map<int, M>>
  {
    match MapResults(s => ShareMnemonic(codec, s), shares)
    case Err(e) => Err(e)
    case Ok(mnemonics) => Ok(Numbered(mnemonics))
  }

  /** What mnemonic_to_shares returns or raises. */
  function SplitMnemonic<M>(codec: Codec<M>, split: StringSplitter, mnemonic: M,
                            shareThreshold: int, numShares: int): Result<map<int, M>>
  {
    if !codec.validate(mnemonic) then Err(InvalidMnemonic)
    else
      match codec.decode(mnemonic)
      case None => Err(InvalidMnemonic)
      case Some(entropy) =>
        match split(BytesToHex(entropy), shareThreshold, numShares)
        case None => Err(SplitFailed)
        case Some(shares) => ShareMnemonics(codec, shares)
  }

  /** The body of the loop of mnemonic_to_shares, for one share string. */
  method ShareToMnemonic<M>(codec: Codec<M>, share: string) returns (r: Result<M>)
    ensures r == ShareMnemonic(codec, share)
  {
    var shareHex := ShareHex(share);
    if |shareHex| % 2 != 0 {
      shareHex := "0" + shareHex;
    }
    var shareBytes := FromHex(shareHex);
    if shareBytes.None? {
      return Err(MalformedHex);
    }
    var shareMnemonic := codec.fromEntropy(shareBytes.value);
    if shareMnemonic.None? {
      return Err(EntropyRejected);
    }
    return Ok(shareMnemonic.value);
  }

  /** The loop of mnemonic_to_shares: each share string, by the text after its last '-'
      padded to even length, becomes a mnemonic keyed by its position plus one. */
  method SharesToMnemonicMap<M>(codec: Codec<M>, shares: seq<string>) returns (r: Result<map<int, M>>)
    ensures r == ShareMnemonics(codec, shares)
  {
    ghost var encode := s => ShareMnemonic(codec, s);
    ghost var done: seq<M> := [];
    var shareMnemonics: map<int, M> := map[];
    for index := 0 to |shares|
      invariant MapResults(encode, shares[..index]) == Ok(done)
      invariant shareMnemonics == Numbered(done) && |done| == index
    {
      assert shares[..index + 1][..index] == shares[..index];
      var shareMnemonic := ShareToMnemonic(codec, shares[index]);
      if shareMnemonic.Err? {
        MapResultsErrPrefix(encode, shares, index + 1);
        return Err(shareMnemonic.error);
      }
      NumberedAppend(done, shareMnemonic.value);
      shareMnemonics := shareMnemonics[index + 1 := shareMnemonic.value];
      done := done + [shareMnemonic.value];
    }
    assert shares[..|shares|] == shares;
    return Ok(shareMnemonics);
  }

  /** bip39_sss.mnemonic_to_shares. */
  method MnemonicToShares<M>(codec: Codec<M>, split: StringSplitter, mnemonic: M,
                             shareThreshold: int, numShares: int)
    returns (r: Result<map<int, M>>)
    ensures r == SplitMnemonic(codec, split, mnemonic, shareThreshold, numShares)
  {
    if !codec.validate(mnemonic) {
      return Err(InvalidMnemonic);
    }
    var mnemonicBytes := codec.decode(mnemonic);
    if mnemonicBytes.None? {
      return Err(InvalidMnemonic);
    }
    var mnemonicHex := BytesToHex(mnemonicBytes.value);
    var splitResult := split(mnemonicHex, shareThreshold, numShares);
    if splitResult.None? {
      return Err(SplitFailed);
    }
    r := SharesToMnemonicMap(codec, splitResult.value);
  }

  /** The shares are keyed 1..N by their position in the library's output, whatever
      numbers the library's own share strings carry. */
  lemma SplitNumbersByPosition<M>(codec: Codec<M>, split: StringSplitter, mnemonic: M,
                                  shareThreshold: int, numShares: int, shares: seq<string>,
                                  numbered: map<int, M>)
    requires codec.decode(mnemonic).Some?
    requires split(BytesToHex(codec.decode(mnemonic).value), shareThreshold, numShares) == Some(shares)
    requires SplitMnemonic(codec, split, mnemonic, shareThreshold, numShares) == Ok(numbered)
    ensures forall k :: k in numbered <==> 1 <= k <= |shares|
    ensures forall k :: 1 <= k <= |shares| ==> ShareMnemonic(codec, shares[k - 1]) == Ok(numbered[k])
  {
    var f := s => ShareMnemonic(codec, s);
    MapResultsOk(f, shares);
    NumberedKeys(MapResults(f, shares).value);
  }

  /** Unlike bip39_ssss.py, no width is imposed here: FromEntropy receives as many bytes
      as the share hex has digit pairs after parity padding, however many the secret had. */
  lemma ShareEntropyLength<M>(codec: Codec<M>, share: string)
    requires IsHex(ShareHex(share))
    ensures FromHex(PadEven(ShareHex(share))).Some?
    ensures |FromHex(PadEven(ShareHex(share))).value| == (|ShareHex(share)| + 1) / 2
    ensures ShareMnemonic(codec, share) ==
              match codec.fromEntropy(FromHex(PadEven(ShareHex(share))).value)
              case None => Err(EntropyRejected)
              case Some(m) => Ok(m)
  {
    PadEvenValue(ShareHex(share));
  }

  // ---------------------------------------------------------------------------
  // Recovering

  /** One pass of the loop in shares_to_mnemonic: the share string for a numbered share. */
  function ShareString<M>(codec: Codec<M>, share: (int, M)): Result<string>
  {
    match codec.decode(share.1)
    case None => Err(InvalidMnemonic)
    case Some(entropy) => Ok(FormatShare(share.0, BytesToHex(entropy)))
  }

  /** What the loop of shares_to_mnemonic builds: one share string per share, in order. */
  function ShareStrings<M>(codec: Codec<M>, shares: seq<(int, M)>): Result<seq<string>>
  {
    MapResults(s => ShareString(codec, s), shares)
  }

  /** What shares_to_mnemonic returns or raises; `shares` is the dict's items in order.
      The recovered hex goes to bytes.fromhex unpadded. */
  function RecoverMnemonic<M>(codec: Codec<M>, recover: StringRecoverer,
                              shares: seq<(int, M)>): Result<M>
  {
    match ShareStrings(codec, shares)
    case Err(e) => Err(e)
    case Ok(shareStrings) =>
      match recover(shareStrings)
      case None => Err(RecoverFailed)
      case Some(mnemonicHex) =>
        match FromHex(mnemonicHex)
        case None => Err(MalformedHex)
        case Some(bs) =>
          match codec.fromEntropy(bs)
          case None => Err(EntropyRejected)
          case Some(m) => Ok(m)
  }

  /** The loop of shares_to_mnemonic: each share becomes "<number>-<hex of its entropy>". */
  method BuildShareStrings<M>(codec: Codec<M>, shares: seq<(int, M)>) returns (r: Result<seq<string>>)
    ensures r == ShareStrings(codec, shares)
  {
    ghost var format := s => ShareString(codec, s);
    var sharesList := [];
    for i := 0 to |shares|
      invariant MapResults(format, shares[..i]) == Ok(sharesList)
    {
      assert shares[..i + 1][..i] == shares[..i];
      var (shareNum, share) := shares[i];
      var shareBytes := codec.decode(share);
      if shareBytes.None? {
        MapResultsErrPrefix(format, shares, i + 1);
        return Err(InvalidMnemonic);
      }
      var shareHex := BytesToHex(shareBytes.value);
      var shareStr := FormatShare(shareNum, shareHex);
      sharesList := sharesList + [shareStr];
    }
    assert shares[..|shares|] == shares;
    return Ok(sharesList);
  }

  /** bip39_sss.shares_to_mnemonic. */
  method SharesToMnemonic<M>(codec: Codec<M>, recover: StringRecoverer, shares: seq<(int, M)>)
    returns (r: Result<M>)
    ensures r == RecoverMnemonic(codec, recover, shares)
  {
    var sharesList := BuildShareStrings(codec, shares);
    if sharesList.Err? {
      return Err(sharesList.error);
    }
    var mnemonicHex := recover(sharesList.value);
    if mnemonicHex.None? {
      return Err(RecoverFailed);
    }
    var mnemonicBytes := FromHex(mnemonicHex.value);
    if mnemonicBytes.None? {
      return Err(MalformedHex);
    }
    var mnemonic := codec.fromEntropy(mnemonicBytes.value);
    if mnemonic.None? {
      return Err(EntropyRejected);
    }
    return Ok(mnemonic.value);
  }

  /** A share string built by shares_to_mnemonic, read back the way mnemonic_to_shares
      reads a share string (text after the last '-', parity-padded, bytes.fromhex),
      gives exactly the share's entropy bytes. */
  lemma ShareStringRoundTrip(shareNum: int, entropy: seq<Byte>)
    ensures ShareHex(FormatShare(shareNum, BytesToHex(entropy))) == BytesToHex(entropy)
    ensures PadEven(BytesToHex(entropy)) == BytesToHex(entropy)
    ensures FromHex(PadEven(ShareHex(FormatShare(shareNum, BytesToHex(entropy))))) == Some(entropy)
  {
    BytesToHexHasNoDash(entropy);
    FormatShareRoundTrip(shareNum, BytesToHex(entropy));
    FromHexBytesToHex(entropy);
  }

  /** The codec's decoder inverts its encoder on every entropy the encoder accepts. */
  ghost predicate DecodeInvertsFromEntropy<M>(codec: Codec<M>)
  {
    forall e: seq<Byte> :: codec.fromEntropy(e).Some? ==> codec.decode(codec.fromEntropy(e).value) == Some(e)
  }

  /** One share through both loops: the mnemonic made from a share string becomes, under
      number k, the string "k-<hex>" with the share's hex after parity padding. */
  lemma ShareStringOfShareMnemonic<M>(codec: Codec<M>, k: int, share: string, m: M)
    requires DecodeInvertsFromEntropy(codec)
    requires ShareMnemonic(codec, share) == Ok(m) && IsLowerHex(ShareHex(share))
    ensures ShareString(codec, (k, m)) == Ok(FormatShare(k, PadEven(ShareHex(share))))
  {
    var hex := PadEven(ShareHex(share));
    PadEvenLowerHex(ShareHex(share));
    BytesToHexFromHex(hex);
    var e := FromHex(hex).value;
    assert codec.fromEntropy(e) == Some(m);
    assert codec.decode(m) == Some(e);
  }

  /** Split, then rebuild the share strings: for the mnemonic keyed k, shares_to_mnemonic
      hands the library "k-<hex>", where <hex> is the library's own k-th share hex after
      parity padding. So a library share string "k-<hex>" with even-length lower-case hex
      comes back exactly as it was produced. */
  lemma SplitThenShareString<M>(codec: Codec<M>, split: StringSplitter, mnemonic: M,
                                shareThreshold: int, numShares: int, shares: seq<string>,
                                numbered: map<int, M>, k: int)
    requires DecodeInvertsFromEntropy(codec)
    requires codec.decode(mnemonic).Some?
    requires split(BytesToHex(codec.decode(mnemonic).value), shareThreshold, numShares) == Some(shares)
    requires SplitMnemonic(codec, split, mnemonic, shareThreshold, numShares) == Ok(numbered)
    requires 1 <= k <= |shares| && IsLowerHex(ShareHex(shares[k - 1]))
    ensures k in numbered
    ensures ShareString(codec, (k, numbered[k])) == Ok(FormatShare(k, PadEven(ShareHex(shares[k - 1]))))
    ensures shares[k - 1] == FormatShare(k, ShareHex(shares[k - 1])) && |ShareHex(shares[k - 1])| % 2 == 0 ==>
              ShareString(codec, (k, numbered[k])) == Ok(shares[k - 1])
  {
    SplitNumbersByPosition(codec, split, mnemonic, shareThreshold, numShares, shares, numbered);
    ShareStringOfShareMnemonic(codec, k, shares[k - 1], numbered[k]);
  }

  /** Recover after rebuilding: if the library's recovery returns the hex of the original
      entropy, shares_to_mnemonic returns the mnemonic the encoder makes of that entropy. */
  lemma RecoverRoundTrip<M>(codec: Codec<M>, recover: StringRecoverer, shares: seq<(int, M)>,
                            shareStrings: seq<string>, entropy: seq<Byte>)
    requires ShareStrings(codec, shares) == Ok(shareStrings)
    requires recover(shareStrings) == Some(BytesToHex(entropy))
    requires codec.fromEntropy(entropy).Some?
    ensures RecoverMnemonic(codec, recover, shares) == Ok(codec.fromEntropy(entropy).value)
  {
    FromHexBytesToHex(entropy);
  }
}
