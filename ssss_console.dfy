/** The input rules of the bip39_ssss.py console loop, taken out of the prompts around
    them: which share numbers the recovery prompt accepts, and which thresholds the
    split prompt lets through to mnemonic_to_shares. Typed lines are a parameter. */
module SsssConsole {
  import opened Common

  /** One line typed at "Which share number is this?": the integer int(input()) read,
      or None when it raised (the loop catches that and asks again). */
  type Entry = Option<int>

  /** The share numbers the prompt accepts from a run of entries, in order: an entry is
      accepted when it is a positive integer that was not accepted before. */
  function AcceptedNumbers(entries: seq<Entry>): seq<int>
  {
    if entries == [] then []
    else
      var previous := AcceptedNumbers(entries[..|entries| - 1]);
      var entry := entries[|entries| - 1];
      if entry.Some? && entry.value > 0 && entry.value !in previous
      then previous + [entry.value]
      else previous
  }

  /** The acceptance rule as a step of the state machine: a new entry n extends the
      accepted numbers by exactly n if and only if n > 0 and n was not accepted yet, and
      leaves them unchanged otherwise. */
  lemma AcceptStep(entries: seq<Entry>, n: int)
    ensures var before := AcceptedNumbers(entries);
            var after := AcceptedNumbers(entries + [Some(n)]);
            (after == before + [n] <==> n > 0 && n !in before) &&
            (after != before + [n] ==> after == before)
    ensures AcceptedNumbers(entries + [None]) == AcceptedNumbers(entries)
  {
    assert (entries + [Some(n)])[..|entries|] == entries;
    assert (entries + [None])[..|entries|] == entries;
  }

  /** Every accepted share number is positive, no number is accepted twice, and each one
      was typed in. */
  lemma {:induction false} AcceptedNumbersDistinct(entries: seq<Entry>)
    ensures forall i :: 0 <= i < |AcceptedNumbers(entries)| ==>
              AcceptedNumbers(entries)[i] > 0 && Some(AcceptedNumbers(entries)[i]) in entries
    ensures forall i, j :: 0 <= i < j < |AcceptedNumbers(entries)| ==>
              AcceptedNumbers(entries)[i] != AcceptedNumbers(entries)[j]
  {
    if entries != [] {
      var init := entries[..|entries| - 1];
      AcceptedNumbersDistinct(init);
      assert forall e :: e in init ==> e in entries;
      var previous := AcceptedNumbers(init);
      var entry := entries[|entries| - 1];
      if entry.Some? && entry.value > 0 && entry.value !in previous {
        var nums := previous + [entry.value];
        assert forall i :: 0 <= i < |previous| ==> nums[i] == previous[i] && nums[i] in previous;
        assert Some(nums[|previous|]) == entries[|entries| - 1];
        assert AcceptedNumbers(entries) == nums;
        forall i, j | 0 <= i < j < |nums| ensures nums[i] != nums[j] {
          if j == |previous| {
            assert nums[i] in previous;
          } else {
            assert previous[i] != previous[j];
          }
        }
      }
    }
  }

  /** One "Which share number is this?" prompt: reads entries from position start until
      one is accepted. Reports whether one was, the number, and where reading stopped;
      nothing before that position beyond start was accepted. */
  method ReadShareNumber(entries: seq<Entry>, start: nat, ghost nums: seq<int>, shareNums: set<int>)
    returns (accepted: bool, shareNum: int, consumed: nat)
    requires start <= |entries| && nums == AcceptedNumbers(entries[..start])
    requires forall n :: n in shareNums <==> n in nums
    ensures start <= consumed <= |entries|
    ensures accepted ==> consumed > start && shareNum > 0 && shareNum !in shareNums &&
                         AcceptedNumbers(entries[..consumed]) == nums + [shareNum]
    ensures !accepted ==> consumed == |entries| && AcceptedNumbers(entries[..consumed]) == nums
    ensures consumed > start ==> AcceptedNumbers(entries[..consumed - 1]) == nums
  {
    accepted, shareNum, consumed := false, 0, start;
    while consumed < |entries|
      invariant start <= consumed <= |entries| && AcceptedNumbers(entries[..consumed]) == nums
      invariant consumed > start ==> AcceptedNumbers(entries[..consumed - 1]) == nums
    {
      var entry := entries[consumed];
      assert entries[..consumed + 1][..consumed] == entries[..consumed];
      consumed := consumed + 1;
      if entry.Some? {
        shareNum := entry.value;
        if shareNum > 0 {
          if shareNum !in shareNums {
            accepted := true;
            return;
          }
        }
      }
    }
  }

  /** The recovery prompt's loop (bip39_ssss.py, "Which share number is this?"): for each
      of sharesTotal shares, read entries until one is accepted, recording it in the set
      share_nums. Returns the set, the accepted numbers in order, and how many entries
      were read. If the entries run out first, the result says so by being short; the
      console itself would keep prompting. */
  method ReadShareNumbers(entries: seq<Entry>, sharesTotal: nat)
    returns (shareNums: set<int>, nums: seq<int>, consumed: nat)
    ensures consumed <= |entries| && nums == AcceptedNumbers(entries[..consumed])
    ensures forall n :: n in shareNums <==> n in nums
    ensures |nums| <= sharesTotal
    ensures |nums| < sharesTotal ==> consumed == |entries|
    ensures consumed > 0 ==> |AcceptedNumbers(entries[..consumed - 1])| < sharesTotal
  {
    shareNums, nums, consumed := {}, [], 0;
    for i := 0 to sharesTotal
      invariant consumed <= |entries| && nums == AcceptedNumbers(entries[..consumed])
      invariant |nums| == i
      invariant forall n :: n in shareNums <==> n in nums
      invariant consumed > 0 ==> |AcceptedNumbers(entries[..consumed - 1])| < sharesTotal
    {
      var accepted, shareNum;
      accepted, shareNum, consumed := ReadShareNumber(entries, consumed, nums, shareNums);
      if !accepted {
        return;
      }
      shareNums := shareNums + {shareNum};
      nums := nums + [shareNum];
    }
  }

  /** The split prompt's threshold rule (bip39_ssss.py): below 2 is refused, above the
      total is refused, anything else goes on to mnemonic_to_shares. */
  predicate ThresholdAllowed(sharesThreshold: int, sharesTotal: int)
  {
    !(sharesThreshold < 2) && !(sharesThreshold > sharesTotal)
  }

  /** The "Enter shares needed to recover secret:" loop: reads thresholds until one passes
      the rule and mnemonic_to_shares succeeds with it (trySplit; None: it raised, and
      the loop asks again). Returns the shares, the threshold and how many entries were
      read; every earlier entry was refused by the rule or made the split raise. If the
      entries run out first, all were read and no shares are returned (the console itself
      would keep prompting). */
  method ReadThresholdAndSplit<S>(entries: seq<int>, sharesTotal: int, trySplit: int -> Option<S>)
    returns (shares: Option<S>, sharesThreshold: int, consumed: nat)
    ensures consumed <= |entries|
    ensures shares.Some? ==> consumed > 0 && sharesThreshold == entries[consumed - 1] &&
                             ThresholdAllowed(sharesThreshold, sharesTotal) &&
                             trySplit(sharesThreshold) == shares
    ensures shares.None? ==> consumed == |entries|
    ensures forall j :: 0 <= j < consumed - (if shares.Some? then 1 else 0) ==>
              !ThresholdAllowed(entries[j], sharesTotal) || trySplit(entries[j]).None?
  {
    shares, sharesThreshold, consumed := None, 0, 0;
    while consumed < |entries|
      invariant consumed <= |entries| && shares.None?
      invariant forall j :: 0 <= j < consumed ==>
                  !ThresholdAllowed(entries[j], sharesTotal) || trySplit(entries[j]).None?
    {
      sharesThreshold := entries[consumed];
      consumed := consumed + 1;
      if sharesThreshold < 2 {
        continue;
      }
      if sharesThreshold > sharesTotal {
        continue;
      }
      shares := trySplit(sharesThreshold);
      if shares.Some? {
        return;
      }
    }
  }
}
