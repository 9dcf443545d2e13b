/** mnemonic_to_shares and shares_to_mnemonic of bip39_ssss.py: the glue between BIP39
    entropy and the integers the ssss library splits and recovers. The library's two
    calls are parameters (the random coefficients of a split are folded into the
    splitter function); so is the bip_utils codec. */
module SsssShares {
  import opened Common
  import opened Hex
  import opened Bip39Codec
  import opened EntropyWidth

  /** A share as the library hands it over: (share number, field integer). */
  type DecShare = (int, nat)

  /** make_random_shares(secret, minimum, shares, prime); None: the library raised. */
  type Splitter = (nat, int, int, int) -> Option<seq<DecShare>>

  /** recover_secret(shares, prime); None: the library raised. */
  type Recoverer = (seq<DecShare>, int) -> Option<nat>

  // ---------------------------------------------------------------------------
  // Splitting

  /** One pass of the loop in mnemonic_to_shares: pad the share integer to the secret's
      hex width, turn it into bytes and encode them as a mnemonic, keeping the number. */
  function EncodeShare<M>(codec: Codec<M>, w: nat, share: DecShare): Result<(int, M)>
  {
    match ValueToEntropy(share.1, w)
    case None => Err(MalformedHex)
    case Some(bs) =>
      match codec.fromEntropy(bs)
      case None => Err(EntropyRejected)
      case Some(m) => Ok((share.0, m))
  }

  /** What the loop of mnemonic_to_shares produces from the library's shares. */
  function EncodeShares<M>(codec: Codec<M>, w: nat, decShares: seq<DecShare>): Result<seq<(int, M)>>
  {
    MapResults(s => EncodeShare(codec, w, s), decShares)
  }

  /** What mnemonic_to_shares returns or raises. */
  function SplitMnemonic<M>(codec: Codec<M>, split: Splitter, mnemonic: M,
                            shareThreshold: int, numShares: int): Result<seq<(int, M)>>
  {
    if !codec.validate(mnemonic) then Err(InvalidMnemonic)
    else
      match codec.decode(mnemonic)
      case None => Err(InvalidMnemonic)
      case Some(entropy) =>
        match ParseHex(BytesToHex(entropy))
        case None => Err(MalformedInteger)
        case Some(secret) =>
          var w := codec.wordsCount(mnemonic);
          match split(secret, shareThreshold, numShares, Modulus(w))
          case None => Err(SplitFailed)
          case Some(decShares) => EncodeShares(codec, w, decShares)
  }

  /** bip39_ssss.mnemonic_to_shares. */
  method MnemonicToShares<M>(codec: Codec<M>, split: Splitter, mnemonic: M,
                             shareThreshold: int, numShares: int)
    returns (r: Result<seq<(int, M)>>)
    ensures r == SplitMnemonic(codec, split, mnemonic, shareThreshold, numShares)
  {
    if !codec.validate(mnemonic) {
      return Err(InvalidMnemonic);
    }
    var mnemonicBytes := codec.decode(mnemonic);
    if mnemonicBytes.None? {
      return Err(InvalidMnemonic);
    }
    var mnemonicHex := BytesToHex(mnemonicBytes.value);
    var secret := ParseHex(mnemonicHex);
    if secret.None? {
      return Err(MalformedInteger);
    }
    var wordsCount := codec.wordsCount(mnemonic);
    var mnemonicEntropyLen := EntropyBitLen(wordsCount);
    var prime := Pow(2, mnemonicEntropyLen) - 1;
    assert prime == Modulus(wordsCount);
    var splitResult := split(secret.value, shareThreshold, numShares, prime);
    if splitResult.None? {
      return Err(SplitFailed);
    }
    r := EncodeShareList(codec, wordsCount, splitResult.value);
  }

  /** The loop of mnemonic_to_shares: each share integer, padded to the hex width of word
      count w, becomes a mnemonic under the same share number. */
  method EncodeShareList<M>(codec: Codec<M>, wordsCount: nat, decShares: seq<DecShare>)
    returns (r: Result<seq<(int, M)>>)
    ensures r == EncodeShares(codec, wordsCount, decShares)
  {
    ghost var encode := s => EncodeShare(codec, wordsCount, s);
    var mnemonicShares := [];
    for i := 0 to |decShares|
      invariant MapResults(encode, decShares[..i]) == Ok(mnemonicShares)
    {
      assert decShares[..i + 1][..i] == decShares[..i];
      var (shareNum, shareDec) := decShares[i];
      var shareHex := SafePadHex(FormatHex(shareDec), wordsCount);
      var shareBytes := FromHex(shareHex);
      if shareBytes.None? {
        MapResultsErrPrefix(encode, decShares, i + 1);
        return Err(MalformedHex);
      }
      var shareMnemonic := codec.fromEntropy(shareBytes.value);
      if shareMnemonic.None? {
        MapResultsErrPrefix(encode, decShares, i + 1);
        return Err(EntropyRejected);
      }
      mnemonicShares := mnemonicShares + [(shareNum, shareMnemonic.value)];
    }
    assert decShares[..|decShares|] == decShares;
    return Ok(mnemonicShares);
  }

  /** mnemonic_to_shares hands the library the entropy's big-endian value and the
      modulus 2^b - 1 for the mnemonic's word count, and then emits exactly one mnemonic
      share per library share, in the library's order, under the library's number. */
  lemma SplitKeepsShareNumbers<M>(codec: Codec<M>, split: Splitter, mnemonic: M,
                                  shareThreshold: int, numShares: int)
    requires SplitMnemonic(codec, split, mnemonic, shareThreshold, numShares).Ok?
    ensures codec.validate(mnemonic) && codec.decode(mnemonic).Some?
    ensures var w := codec.wordsCount(mnemonic);
            var secret := BigEndian(codec.decode(mnemonic).value);
            split(secret, shareThreshold, numShares, Modulus(w)).Some? &&
            var decShares := split(secret, shareThreshold, numShares, Modulus(w)).value;
            var shares := SplitMnemonic(codec, split, mnemonic, shareThreshold, numShares).value;
            |shares| == |decShares| &&
            forall i :: 0 <= i < |shares| ==>
              shares[i].0 == decShares[i].0 && EncodeShare(codec, w, decShares[i]) == Ok(shares[i])
  {
    var entropy := codec.decode(mnemonic).value;
    ParseBytesToHex(entropy);
    var w := codec.wordsCount(mnemonic);
    var decShares := split(BigEndian(entropy), shareThreshold, numShares, Modulus(w)).value;
    MapResultsOk(s => EncodeShare(codec, w, s), decShares);
  }

  /** Nothing keeps the secret below the modulus: for the all-0xFF entropy of a standard
      word count, mnemonic_to_shares hands the library the secret 2^b - 1, the very value
      it passes as `prime`, and goes on with whatever the library returns. */
  lemma ModulusSecretReachesSplit<M>(codec: Codec<M>, split: Splitter, mnemonic: M,
                                     shareThreshold: int, numShares: int)
    requires codec.validate(mnemonic) && IsStandardWordCount(codec.wordsCount(mnemonic))
    requires codec.decode(mnemonic) == Some(AllOnes(EntropyBitLen(codec.wordsCount(mnemonic)) / 8))
    ensures BigEndian(codec.decode(mnemonic).value) == Modulus(codec.wordsCount(mnemonic))
    ensures SplitMnemonic(codec, split, mnemonic, shareThreshold, numShares) ==
            match split(BigEndian(codec.decode(mnemonic).value), shareThreshold, numShares,
                        Modulus(codec.wordsCount(mnemonic)))
            case None => Err(SplitFailed)
            case Some(decShares) => EncodeShares(codec, codec.wordsCount(mnemonic), decShares)
  {
    AllOnesSecretIsModulus(codec.wordsCount(mnemonic));
    AllOnesValue(codec.wordsCount(mnemonic));
  }

  // ---------------------------------------------------------------------------
  // Recovering

  /** One pass of the loop in shares_to_mnemonic: decode the mnemonic's entropy and read
      it as an integer, keeping the number. */
  function DecodeShare<M>(codec: Codec<M>, share: (int, M)): Result<DecShare>
  {
    match codec.decode(share.1)
    case None => Err(InvalidMnemonic)
    case Some(entropy) =>
      match ParseHex(BytesToHex(entropy))
      case None => Err(MalformedInteger)
      case Some(v) => Ok((share.0, v))
  }

  /** The word count shares_to_mnemonic sizes everything by: the first share's, or the
      initial 0 when no share is given. */
  function FirstWordsCount<M>(codec: Codec<M>, shares: seq<(int, M)>): nat
  {
    if shares == [] then 0 else codec.wordsCount(shares[0].1)
  }

  /** What the loop of shares_to_mnemonic produces: every share as (number, integer). */
  function DecodeShares<M>(codec: Codec<M>, shares: seq<(int, M)>): Result<seq<DecShare>>
  {
    MapResults(s => DecodeShare(codec, s), shares)
  }

  /** What shares_to_mnemonic returns or raises. */
  function RecoverMnemonic<M>(codec: Codec<M>, recover: Recoverer, shares: seq<(int, M)>): Result<M>
  {
    var w := FirstWordsCount(codec, shares);
    match DecodeShares(codec, shares)
    case Err(e) => Err(e)
    case Ok(decShares) =>
      match recover(decShares, Modulus(w))
      case None => Err(RecoverFailed)
      case Some(secret) =>
        match ValueToEntropy(secret, w)
        case None => Err(MalformedHex)
        case Some(bs) =>
          match codec.fromEntropy(bs)
          case None => Err(EntropyRejected)
          case Some(m) => Ok(m)
  }

  /** The loop of shares_to_mnemonic: every share's mnemonic becomes its integer under the
      same number, and the word count and entropy bit length are taken from the first
      share (0 when there is none). */
  method DecodeShareList<M>(codec: Codec<M>, mnemonicShares: seq<(int, M)>)
    returns (r: Result<seq<DecShare>>, mnemonicEntropyLen: nat, mnemonicLen: nat)
    ensures r == DecodeShares(codec, mnemonicShares)
    ensures r.Ok? ==> mnemonicLen == FirstWordsCount(codec, mnemonicShares) &&
                      mnemonicEntropyLen == EntropyBitLen(mnemonicLen)
  {
    ghost var decode := s => DecodeShare(codec, s);
    var decShares := [];
    mnemonicEntropyLen, mnemonicLen := 0, 0;
    for index := 0 to |mnemonicShares|
      invariant MapResults(decode, mnemonicShares[..index]) == Ok(decShares)
      invariant mnemonicLen == FirstWordsCount(codec, mnemonicShares[..index])
      invariant mnemonicEntropyLen == EntropyBitLen(mnemonicLen)
    {
      assert mnemonicShares[..index + 1][..index] == mnemonicShares[..index];
      var (shareNum, shareMnemonic) := mnemonicShares[index];
      if index == 0 {
        mnemonicEntropyLen := EntropyBitLen(codec.wordsCount(shareMnemonic));
        mnemonicLen := codec.wordsCount(shareMnemonic);
      }
      var shareBytes := codec.decode(shareMnemonic);
      if shareBytes.None? {
        MapResultsErrPrefix(decode, mnemonicShares, index + 1);
        return Err(InvalidMnemonic), mnemonicEntropyLen, mnemonicLen;
      }
      var shareHex := BytesToHex(shareBytes.value);
      var shareDec := ParseHex(shareHex);
      if shareDec.None? {
        MapResultsErrPrefix(decode, mnemonicShares, index + 1);
        return Err(MalformedInteger), mnemonicEntropyLen, mnemonicLen;
      }
      decShares := decShares + [(shareNum, shareDec.value)];
    }
    assert mnemonicShares[..|mnemonicShares|] == mnemonicShares;
    r := Ok(decShares);
  }

  /** bip39_ssss.shares_to_mnemonic. */
  method SharesToMnemonic<M>(codec: Codec<M>, recover: Recoverer, mnemonicShares: seq<(int, M)>)
    returns (r: Result<M>)
    ensures r == RecoverMnemonic(codec, recover, mnemonicShares)
  {
    var decShares, mnemonicEntropyLen, mnemonicLen := DecodeShareList(codec, mnemonicShares);
    if decShares.Err? {
      return Err(decShares.error);
    }
    var prime := Pow(2, mnemonicEntropyLen) - 1;
    assert prime == Modulus(FirstWordsCount(codec, mnemonicShares));
    var secretDec := recover(decShares.value, prime);
    if secretDec.None? {
      return Err(RecoverFailed);
    }
    var secretHex := SafePadHex(FormatHex(secretDec.value), mnemonicLen);
    var secretBytes := FromHex(secretHex);
    if secretBytes.None? {
      return Err(MalformedHex);
    }
    var secretMnemonic := codec.fromEntropy(secretBytes.value);
    if secretMnemonic.None? {
      return Err(EntropyRejected);
    }
    return Ok(secretMnemonic.value);
  }

  /** shares_to_mnemonic reads the word count of the first share only: whatever word
      counts the other shares have, the outcome is the same. Shares of mixed lengths are
      not detected here. */
  lemma OnlyFirstShareSizesRecovery<M>(codec: Codec<M>, recover: Recoverer,
                                       shares: seq<(int, M)>, otherCounts: M -> nat)
    requires shares != [] && otherCounts(shares[0].1) == codec.wordsCount(shares[0].1)
    ensures RecoverMnemonic(codec.(wordsCount := otherCounts), recover, shares) ==
            RecoverMnemonic(codec, recover, shares)
  {
    var other := codec.(wordsCount := otherCounts);
    assert other.decode == codec.decode && other.fromEntropy == codec.fromEntropy;
    assert forall i :: 0 <= i < |shares| ==> DecodeShare(other, shares[i]) == DecodeShare(codec, shares[i]);
    MapResultsAgree(s => DecodeShare(other, s), s => DecodeShare(codec, s), shares);
    assert FirstWordsCount(other, shares) == FirstWordsCount(codec, shares);
  }

  // ---------------------------------------------------------------------------
  // Round trip through the glue

  /** The codec behaves as BIP39 does for word count w: every entropy of b / 8 bytes is
      encoded as a w-word mnemonic that decodes back to the same entropy. */
  ghost predicate CodecRoundTrips<M>(codec: Codec<M>, w: nat)
  {
    forall e: seq<Byte> :: |e| == EntropyBitLen(w) / 8 ==>
      codec.fromEntropy(e).Some? &&
      codec.decode(codec.fromEntropy(e).value) == Some(e) &&
      codec.wordsCount(codec.fromEntropy(e).value) == w
  }

  /** One share through the glue: a field integer below 2^b becomes a w-word mnemonic that
      shares_to_mnemonic reads back as the same (number, integer) pair. */
  lemma ShareRoundTrip<M>(codec: Codec<M>, w: nat, share: DecShare)
    requires IsStandardWordCount(w) && CodecRoundTrips(codec, w)
    requires share.1 <= Modulus(w)
    ensures EncodeShare(codec, w, share).Ok?
    ensures codec.wordsCount(EncodeShare(codec, w, share).value.1) == w
    ensures DecodeShare(codec, EncodeShare(codec, w, share).value) == Ok(share)
  {
    FieldValueToEntropy(share.1, w);
    var bs := ValueToEntropy(share.1, w).value;
    assert codec.fromEntropy(bs).Some?;
    var m := codec.fromEntropy(bs).value;
    assert EncodeShare(codec, w, share) == Ok((share.0, m));
    assert codec.decode(m) == Some(bs) && codec.wordsCount(m) == w;
    ParseBytesToHex(bs);
    assert ParseHex(BytesToHex(bs)) == Some(share.1);
  }

  /** The share-to-mnemonic loop and the mnemonic-to-share loop are inverse: every share
      list the splitter can return (integers reduced modulo 2^b - 1) comes back unchanged,
      numbers, values and order, and every share mnemonic has the secret's word count. */
  lemma {:induction false} SharesRoundTrip<M>(codec: Codec<M>, w: nat, decShares: seq<DecShare>)
    requires IsStandardWordCount(w) && CodecRoundTrips(codec, w)
    requires forall i :: 0 <= i < |decShares| ==> decShares[i].1 <= Modulus(w)
    ensures MapResults(s => EncodeShare(codec, w, s), decShares).Ok?
    ensures var shares := MapResults(s => EncodeShare(codec, w, s), decShares).value;
            |shares| == |decShares| &&
            (forall i :: 0 <= i < |shares| ==> codec.wordsCount(shares[i].1) == w) &&
            MapResults(s => DecodeShare(codec, s), shares) == Ok(decShares)
  {
    var encode := s => EncodeShare(codec, w, s);
    var decode := s => DecodeShare(codec, s);
    forall i | 0 <= i < |decShares|
      ensures encode(decShares[i]).Ok?
      ensures codec.wordsCount(encode(decShares[i]).value.1) == w
      ensures decode(encode(decShares[i]).value) == Ok(decShares[i])
    {
      ShareRoundTrip(codec, w, decShares[i]);
    }
    MapResultsOk(encode, decShares);
    var shares := MapResults(encode, decShares).value;
    MapResultsOk(decode, shares);
    var back := MapResults(decode, shares).value;
    assert back == decShares;
  }

  /** Split then recover: for a valid mnemonic of a standard word count and a faithful
      codec, if the library recovers the secret integer from some choice of the shares
      (any positions, any order), shares_to_mnemonic on the corresponding mnemonic shares
      returns a mnemonic of the same word count with exactly the original entropy. */
  lemma SplitThenRecover<M>(codec: Codec<M>, split: Splitter, recover: Recoverer,
                            mnemonic: M, shareThreshold: int, numShares: int,
                            w: nat, entropy: seq<Byte>, decShares: seq<DecShare>,
                            chosen: seq<nat>)
    requires codec.validate(mnemonic) && codec.decode(mnemonic) == Some(entropy)
    requires codec.wordsCount(mnemonic) == w && IsStandardWordCount(w)
    requires |entropy| == EntropyBitLen(w) / 8 && CodecRoundTrips(codec, w)
    requires split(BigEndian(entropy), shareThreshold, numShares, Modulus(w)) == Some(decShares)
    requires forall i :: 0 <= i < |decShares| ==> decShares[i].1 <= Modulus(w)
    requires chosen != [] && forall i :: 0 <= i < |chosen| ==> chosen[i] < |decShares|
    requires recover(Select(decShares, chosen), Modulus(w)) == Some(BigEndian(entropy))
    ensures SplitMnemonic(codec, split, mnemonic, shareThreshold, numShares).Ok?
    ensures var shares := SplitMnemonic(codec, split, mnemonic, shareThreshold, numShares).value;
            |shares| == |decShares| &&
            var recovered := RecoverMnemonic(codec, recover, Select(shares, chosen));
            recovered.Ok? && codec.fromEntropy(entropy) == Some(recovered.value) &&
            codec.decode(recovered.value) == Some(entropy) &&
            codec.wordsCount(recovered.value) == w
  {
    EntropyRoundTrip(entropy, w);
    SharesRoundTrip(codec, w, decShares);
    var shares := MapResults(s => EncodeShare(codec, w, s), decShares).value;
    assert SplitMnemonic(codec, split, mnemonic, shareThreshold, numShares) == Ok(shares);
    MapResultsSelect(s => DecodeShare(codec, s), shares, chosen);
    assert FirstWordsCount(codec, Select(shares, chosen)) == w;
  }
}
