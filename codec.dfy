/** The collaborators the repository calls but does not implement, and the error
    values that stand for the exceptions they and the Python built-ins raise.
    The BIP39 mnemonic type is left abstract (type parameter M): the repository only
    hands mnemonics to the bip_utils codec and back. */
module Bip39Codec {
  import opened Common
  import opened Hex

  datatype Error =
    | InvalidMnemonic     // Bip39MnemonicValidator.Validate or Bip39MnemonicDecoder.Decode raised
    | MalformedInteger    // int(s, 16) raised ValueError
    | MalformedHex        // bytes.fromhex raised ValueError
    | EntropyRejected     // Bip39MnemonicGenerator.FromEntropy raised (entropy of a non-BIP39 length)
    | SplitFailed         // the secret-sharing library's split raised
    | RecoverFailed       // the secret-sharing library's recovery raised

  datatype Result<T> = Ok(value: T) | Err(error: Error)

  /** The bip_utils calls the repository makes, as functions of their arguments. */
  datatype Codec<!M> = Codec(
    validate: M -> bool,                  // Bip39MnemonicValidator.Validate succeeds
    decode: M -> Option<seq<Byte>>,       // Bip39MnemonicDecoder.Decode: the entropy bytes
    wordsCount: M -> nat,                 // Bip39Mnemonic.WordsCount
    fromEntropy: seq<Byte> -> Option<M>)  // Bip39MnemonicGenerator.FromEntropy

  /** Applies f to every element in order, as a Python loop that appends each result and
      lets the first exception escape: the outcome is the list of results, or the error
      of the first element that fails. */
  function MapResults<A, B>(f: A -> Result<B>, xs: seq<A>): Result<seq<B>>
  {
    if xs == [] then Ok([])
    else
      match MapResults(f, xs[..|xs| - 1])
      case Err(e) => Err(e)
      case Ok(ys) =>
        match f(xs[|xs| - 1])
        case Err(e) => Err(e)
        case Ok(y) => Ok(ys + [y])
  }

  /** The loop succeeds exactly when every element succeeds; it then keeps length and
      order, element by element. */
  lemma {:induction false} MapResultsOk<A, B>(f: A -> Result<B>, xs: seq<A>)
    ensures MapResults(f, xs).Ok? <==> forall i :: 0 <= i < |xs| ==> f(xs[i]).Ok?
    ensures MapResults(f, xs).Ok? ==>
      |MapResults(f, xs).value| == |xs| &&
      forall i :: 0 <= i < |xs| ==> f(xs[i]) == Ok(MapResults(f, xs).value[i])
  {
    if xs != [] {
      var p := xs[..|xs| - 1];
      MapResultsOk(f, p);
      assert forall i :: 0 <= i < |p| ==> xs[i] == p[i];
    }
  }

  /** A failure is the error of the first failing element. */
  lemma {:induction false} MapResultsErr<A, B>(f: A -> Result<B>, xs: seq<A>)
    requires MapResults(f, xs).Err?
    ensures exists k :: 0 <= k < |xs| && f(xs[k]) == Err(MapResults(f, xs).error) &&
                        (forall j :: 0 <= j < k ==> f(xs[j]).Ok?)
  {
    var p := xs[..|xs| - 1];
    assert forall i :: 0 <= i < |p| ==> xs[i] == p[i];
    if MapResults(f, p).Err? {
      MapResultsErr(f, p);
      var k :| 0 <= k < |p| && f(p[k]) == Err(MapResults(f, p).error) &&
               (forall j :: 0 <= j < k ==> f(p[j]).Ok?);
      assert f(xs[k]) == Err(MapResults(f, xs).error);
    } else {
      MapResultsOk(f, p);
      var k := |xs| - 1;
      assert f(xs[k]) == Err(MapResults(f, xs).error);
    }
  }

  /** Once a prefix fails, the whole loop fails with the same error. */
  lemma {:induction false} MapResultsErrPrefix<A, B>(f: A -> Result<B>, xs: seq<A>, n: nat)
    requires n <= |xs| && MapResults(f, xs[..n]).Err?
    ensures MapResults(f, xs) == MapResults(f, xs[..n])
    decreases |xs|
  {
    if n < |xs| {
      var p := xs[..|xs| - 1];
      assert p[..n] == xs[..n];
      MapResultsErrPrefix(f, p, n);
    } else {
      assert xs[..n] == xs;
    }
  }

  /** Two element functions that agree give the same loop outcome. */
  lemma {:induction false} MapResultsAgree<A, B>(f: A -> Result<B>, g: A -> Result<B>, xs: seq<A>)
    requires forall i :: 0 <= i < |xs| ==> f(xs[i]) == g(xs[i])
    ensures MapResults(f, xs) == MapResults(g, xs)
  {
    if xs != [] {
      var p := xs[..|xs| - 1];
      assert forall i :: 0 <= i < |p| ==> p[i] == xs[i];
      MapResultsAgree(f, g, p);
    }
  }

  /** Running the loop on a selection of the elements gives the same selection of the
      results. */
  lemma MapResultsSelect<A, B>(f: A -> Result<B>, xs: seq<A>, positions: seq<nat>)
    requires MapResults(f, xs).Ok?
    requires forall i :: 0 <= i < |positions| ==> positions[i] < |xs|
    ensures |MapResults(f, xs).value| == |xs|
    ensures MapResults(f, Select(xs, positions)) == Ok(Select(MapResults(f, xs).value, positions))
  {
    MapResultsOk(f, xs);
    var picked := Select(xs, positions);
    MapResultsOk(f, picked);
    var ys := MapResults(f, xs).value;
    assert forall i :: 0 <= i < |picked| ==> f(picked[i]) == Ok(ys[positions[i]]);
    var zs := MapResults(f, picked).value;
    assert forall i :: 0 <= i < |zs| ==> zs[i] == Select(ys, positions)[i];
    assert zs == Select(ys, positions);
  }
}
