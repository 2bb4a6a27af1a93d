/**
 * An operation of the volatile MwCAS benchmark (src/operation.hpp): a
 * fixed array of `kTargetNum` target word addresses, filled slot by slot
 * with a uniqueness check against the slots before it, and sorted by
 * address before execution.
 */
module PointerOperation {
  import opened Sorting

  /** A word address; 0 is the null pointer. */
  type Addr = nat

  const Null: Addr := 0

  class Operation {
    /** The target addresses; its length is the build constant kTargetNum. */
    const targets: array<Addr>

    /** An operation whose `targetNum` slots all hold the null pointer. */
    constructor (targetNum: nat)
      ensures fresh(targets)
      ensures targets.Length == targetNum
      ensures forall i :: 0 <= i < targetNum ==> targets[i] == Null
    {
      targets := new Addr[targetNum](_ => Null);
    }

    /** The address in slot `i`. */
    function GetAddr(i: nat): Addr
      reads targets
      requires i < targets.Length
    {
      targets[i]
    }

    /**
     * Stores `addr` in slot `i` unless one of the slots before `i` already
     * holds it; the store itself is unchecked, so `i` must be a slot.
     */
    method SetAddr(i: nat, addr: Addr) returns (ok: bool)
      requires i < targets.Length
      modifies targets
      ensures ok <==> addr !in old(targets[..i])
      ensures targets[..] == if ok then old(targets[..])[i := addr] else old(targets[..])
      ensures ok && Distinct(old(targets[..i])) ==> Distinct(targets[..i + 1])
    {
      if addr in targets[..i] {
        return false;
      }
      targets[i] := addr;
      assert targets[..i + 1] == old(targets[..i]) + [addr];
      ok := true;
    }

    /** Sorts the slots by address in ascending order. */
    method SortTargets()
      modifies targets
      ensures Sorted(targets[..]) && multiset(targets[..]) == multiset(old(targets[..]))
      ensures Distinct(old(targets[..])) ==> StrictlyAscending(targets[..])
    {
      ghost var before := targets[..];
      SortInPlace(targets);
      if Distinct(before) {
        DistinctPermutation(before, targets[..]);
        SortedDistinctIsStrict(targets[..]);
      }
    }
  }
}
