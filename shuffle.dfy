/**
 * `std::shuffle` over the position index of the array engines. The
 * pseudo-random engine is abstracted into one draw per step, so the
 * shuffle is the Fisher-Yates exchange sequence those draws select; what
 * the engines rely on is that the result is an arrangement of its input.
 */
module Shuffle {
  import opened Sorting

  /**
   * Exchanges, for `i` from the last index down to 1, element `i` with an
   * element at or before it chosen by `draws[i]`.
   */
  method ShuffleInPlace(a: array<nat>, draws: seq<nat>)
    requires |draws| == a.Length
    modifies a
    ensures multiset(a[..]) == multiset(old(a[..]))
  {
    var i := a.Length;
    while i > 1
      invariant 0 <= i <= a.Length
      invariant multiset(a[..]) == multiset(old(a[..]))
    {
      i := i - 1;
      var j := draws[i] % (i + 1);
      Swap(a, i, j);
    }
  }
}
