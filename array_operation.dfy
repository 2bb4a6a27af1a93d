/**
 * An operation of the array benchmark with a fixed number of targets
 * (src/array/operation.hpp): a zero-initialised array of `kTargetNum`
 * target positions, filled slot by slot with a uniqueness check against
 * the slots before it, and sorted before execution.
 */
module ArrayOperation {
  import opened Sorting
  import opened Wrappers

  /** The exception that `std::array::at` throws for an index past the end. */
  datatype Error = OutOfRange

  class Operation {
    /** The target positions; its length is the build constant kTargetNum. */
    const targets: array<nat>

    /** An operation whose `targetNum` slots all hold position 0. */
    constructor (targetNum: nat)
      ensures fresh(targets)
      ensures targets.Length == targetNum
      ensures forall i :: 0 <= i < targetNum ==> targets[i] == 0
    {
      targets := new nat[targetNum](_ => 0);
    }

    /** The position in slot `i`. */
    function GetPosition(i: nat): nat
      reads targets
      requires i < targets.Length
    {
      targets[i]
    }

    /**
     * Stores `pos` in slot `i` unless one of the slots before `i` already
     * holds it. Slot `i` itself is checked for range only when storing, so
     * a duplicate is reported even for `i == kTargetNum`.
     */
    method SetPositionIfUnique(i: nat, pos: nat) returns (r: Result<bool, Error>)
      requires i <= targets.Length
      modifies targets
      ensures pos in old(targets[..i]) ==> r == Success(false)
      ensures pos !in old(targets[..i]) && i == targets.Length ==> r == Failure(OutOfRange)
      ensures pos !in old(targets[..i]) && i < targets.Length ==> r == Success(true)
      ensures r == Success(true) ==> targets[..] == old(targets[..])[i := pos]
      ensures r != Success(true) ==> targets[..] == old(targets[..])
      ensures r == Success(true) && Distinct(old(targets[..i])) ==> Distinct(targets[..i + 1])
    {
      if pos in targets[..i] {
        return Success(false);
      }
      if i >= targets.Length {
        return Failure(OutOfRange);
      }
      targets[i] := pos;
      assert targets[..i + 1] == old(targets[..i]) + [pos];
      r := Success(true);
    }

    /** Sorts all slots in ascending order. */
    method SortTargets()
      modifies targets
      ensures Sorted(targets[..]) && multiset(targets[..]) == multiset(old(targets[..]))
      ensures Distinct(old(targets[..])) ==> StrictlyAscending(targets[..])
    {
      ghost var before := targets[..];
      SortInPlace(targets);
      if Distinct(before) {
        DistinctPermutation(before, targets[..]);
        SortedDistinctIsStrict(targets[..]);
      }
    }
  }
}
