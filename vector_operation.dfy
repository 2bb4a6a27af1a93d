/**
 * An operation of the array benchmark with a variable number of targets
 * (include/operation.hpp): the positions in the target array that one
 * PMwCAS updates, kept free of duplicates and sorted before execution.
 */
module VectorOperation {
  import opened Sorting

  class Operation {
    /** The target positions, in insertion order until sorted. */
    var targets: seq<nat>

    /** A position is never a target twice. */
    ghost predicate Valid()
      reads this
    {
      Distinct(targets)
    }

    /** An operation with no targets yet. */
    constructor ()
      ensures Valid() && targets == []
    {
      targets := [];
    }

    /** The target positions. */
    function GetPositions(): seq<nat>
      reads this
    {
      targets
    }

    /**
     * Appends `pos` unless it is already a target; reports whether it was
     * appended.
     */
    method SetPositionIfUnique(pos: nat) returns (ok: bool)
      requires Valid()
      modifies this
      ensures Valid()
      ensures ok <==> pos !in old(targets)
      ensures targets == if ok then old(targets) + [pos] else old(targets)
    {
      if pos in targets {
        return false;
      }
      targets := targets + [pos];
      ok := true;
    }

    /** Sorts the target positions in ascending order. */
    method SortTargets()
      requires Valid()
      modifies this
      ensures Valid()
      ensures Sorted(targets) && multiset(targets) == multiset(old(targets))
      ensures StrictlyAscending(targets)
    {
      var buf := new nat[|targets|](i requires 0 <= i < |targets| reads this => targets[i]);
      assert buf[..] == targets;
      SortInPlace(buf);
      DistinctPermutation(targets, buf[..]);
      targets := buf[..];
      SortedDistinctIsStrict(targets);
    }
  }
}
