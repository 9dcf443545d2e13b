/** The threshold rule of the bip39_sss.py console, taken out of the prompts around it,
    and how it differs from the rule of bip39_ssss.py. Typed lines are a parameter. */
module SssConsole {
  import SsssConsole

  /** The split prompt's threshold rule (bip39_sss.py): at least 2, and strictly below
      the total number of shares. */
  predicate ThresholdAccepted(sharesThreshold: int, sharesTotal: int)
  {
    sharesThreshold >= 2 && sharesThreshold < sharesTotal
  }

  /** The "Enter shares threshold:" loop: reads entries until one is accepted. Returns
      whether one was, the threshold, and how many entries were read. Every entry read
      before the accepted one was refused; if none is accepted, all entries were read and
      refused (the console itself would keep prompting). */
  method ReadThreshold(entries: seq<int>, sharesTotal: int)
    returns (found: bool, sharesThreshold: int, consumed: nat)
    ensures consumed <= |entries|
    ensures found ==> consumed > 0 && sharesThreshold == entries[consumed - 1] &&
                      ThresholdAccepted(sharesThreshold, sharesTotal)
    ensures !found ==> consumed == |entries|
    ensures forall j :: 0 <= j < consumed - (if found then 1 else 0) ==>
              !ThresholdAccepted(entries[j], sharesTotal)
    ensures sharesTotal <= 2 ==> !found
  {
    found, sharesThreshold, consumed := false, 0, 0;
    while consumed < |entries|
      invariant consumed <= |entries|
      invariant forall j :: 0 <= j < consumed ==> !ThresholdAccepted(entries[j], sharesTotal)
    {
      sharesThreshold := entries[consumed];
      consumed := consumed + 1;
      if sharesThreshold >= 2 {
        if sharesThreshold < sharesTotal {
          found := true;
          return;
        }
      }
    }
  }

  /** The total is read with no lower bound, but only a total of at least 3 leaves a
      threshold to accept: for a total of 2 or less no typed integer ends the loop. */
  lemma ThresholdNeedsThreeShares(sharesTotal: int)
    ensures (exists t :: ThresholdAccepted(t, sharesTotal)) <==> sharesTotal >= 3
  {
    if sharesTotal >= 3 {
      assert ThresholdAccepted(2, sharesTotal);
    }
  }

  /** Every threshold this console accepts, the bip39_ssss.py console accepts too; the two
      disagree exactly on a threshold equal to the total (of at least 2), which only
      bip39_ssss.py lets through. */
  lemma StricterThanSsss(sharesThreshold: int, sharesTotal: int)
    ensures ThresholdAccepted(sharesThreshold, sharesTotal) ==>
              SsssConsole.ThresholdAllowed(sharesThreshold, sharesTotal)
    ensures (SsssConsole.ThresholdAllowed(sharesThreshold, sharesTotal) &&
             !ThresholdAccepted(sharesThreshold, sharesTotal)) <==>
            (sharesThreshold == sharesTotal && sharesTotal >= 2)
  {
  }
}
