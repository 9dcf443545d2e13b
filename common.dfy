/** Small generic definitions the other modules share: optional values, natural powers,
    and picking elements of a sequence by position. */
module Common {

  datatype Option<T> = None | Some(value: T)

  function Pow(base: nat, k: nat): nat
  {
    if k == 0 then 1 else base * Pow(base, k - 1)
  }

  lemma {:induction false} PowPositive(base: nat, k: nat)
    requires base >= 1
    ensures Pow(base, k) >= 1
  {
    if k > 0 {
      PowPositive(base, k - 1);
    }
  }

  lemma {:induction false} PowMonotone(base: nat, j: nat, k: nat)
    requires base >= 1 && j <= k
    ensures Pow(base, j) <= Pow(base, k)
  {
    if j < k {
      PowMonotone(base, j, k - 1);
      PowPositive(base, k - 1);
    }
  }

  /** The elements of a sequence at the given positions, in the order given. */
  function Select<T>(xs: seq<T>, positions: seq<nat>): (r: seq<T>)
    requires forall i :: 0 <= i < |positions| ==> positions[i] < |xs|
    ensures |r| == |positions| && forall i :: 0 <= i < |r| ==> r[i] == xs[positions[i]]
  {
    seq(|positions|, i requires 0 <= i < |positions| => xs[positions[i]])
  }

  /** A non-empty sequence is its prefix followed by its last element. */
  lemma LastOne<T>(s: seq<T>)
    requires |s| >= 1
    ensures s == s[..|s| - 1] + [s[|s| - 1]]
  {
  }

  /** A sequence of at least two elements is its prefix followed by its last two. */
  lemma LastTwo<T>(s: seq<T>)
    requires |s| >= 2
    ensures s == s[..|s| - 2] + [s[|s| - 2], s[|s| - 1]]
  {
  }
}
