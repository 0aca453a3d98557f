/** Searching in sequences, shared by the component models. */
module Sequences {
  /** The first position that holds x, or the length when none does. */
  function IndexOf<T(==)>(xs: seq<T>, x: T): (k: nat)
    ensures k <= |xs| && (k < |xs| <==> x in xs) && (k < |xs| ==> xs[k] == x)
    ensures x !in xs[..k]
  {
    if xs == [] || xs[0] == x then 0 else 1 + IndexOf(xs[1..], x)
  }

  lemma {:induction false} FirstIndex<T>(xs: seq<T>, x: T, k: nat)
    requires k < |xs| && xs[k] == x
    ensures IndexOf(xs, x) <= k
  {
    if xs[0] != x {
      FirstIndex(xs[1..], x, k - 1);
    }
  }
}
