/**
 * The target of the fixed-size array benchmark (src/array/pmwcas_target.hpp):
 * every operation adds one to each of its `kTargetNum` target words of the
 * persistent array, under the pool's lock in one transaction, or with one
 * persistent MwCAS retried until it succeeds (the PMwCAS library of the
 * benchmark's authors, or microsoft/pmwcas).
 *
 * The descriptor pools and the epoch protection of microsoft/pmwcas are
 * not part of this model; a descriptor behaves as `MwCAS.Execute` says.
 */
module ArrayTarget {
  import opened Words
  import opened Wrappers
  import opened MwCAS
  import opened Sorting
  import opened Increment
  import opened ArrayOperation
  import opened PmemArray

  /** The implementations this target compares (src/array/definition.hpp). */
  datatype Implementation = Lock | PMwCAS | MicrosoftPMwCAS

  class PMwCASTarget {
    const impl: Implementation

    /** The persistent array the target words live in. */
    const target: PmemArray

    /** A target on the array `target` (opened or created by the caller). */
    constructor (impl: Implementation, target: PmemArray)
      ensures this.impl == impl && this.target == target
    {
      this.impl := impl;
      this.target := target;
    }

    /**
     * Adds one (modulo 2^64) to the word at each slot's position: a
     * position named by two slots is incremented twice under the lock,
     * which the MwCAS implementations do not allow.
     */
    method Execute(ops: Operation)
      requires forall i :: 0 <= i < ops.targets.Length ==> ops.targets[i] < target.arr.Length
      requires impl != Lock ==> Distinct(ops.targets[..])
      modifies target.arr
      ensures target.arr[..] == IncrementEach(old(target.arr[..]), old(ops.targets[..]))
    {
      ghost var positions := ops.targets[..];
      if impl == Lock {
        ExecuteLock(ops);
      } else {
        ExecuteMwCAS(ops);
        IncrementEachDistinct(old(target.arr[..]), positions);
      }
    }

    /** The transaction: each slot's word incremented in slot order. */
    method ExecuteLock(ops: Operation)
      requires forall i :: 0 <= i < ops.targets.Length ==> ops.targets[i] < target.arr.Length
      modifies target.arr
      ensures target.arr[..] == IncrementEach(old(target.arr[..]), old(ops.targets[..]))
    {
      var arr := target.arr;
      ghost var positions := ops.targets[..];
      for i := 0 to ops.targets.Length
        invariant ops.targets[..] == positions
        invariant arr[..] == IncrementEach(old(arr[..]), positions[..i])
      {
        assert positions[..i + 1][..i] == positions[..i];
        var p := ops.GetPosition(i);
        arr[p] := Succ(arr[p]);
      }
      assert positions[..ops.targets.Length] == positions;
    }

    /**
     * One descriptor `(word, v, v + 1)` per slot, `v` read from the array,
     * executed until it succeeds.
     */
    method ExecuteMwCAS(ops: Operation)
      requires forall i :: 0 <= i < ops.targets.Length ==> ops.targets[i] < target.arr.Length
      requires Distinct(ops.targets[..])
      modifies target.arr
      ensures target.arr[..] == IncrementAt(old(target.arr[..]), old(ops.targets[..]))
    {
      var arr := target.arr;
      ghost var positions := ops.targets[..];
      var done := false;
      while !done
        invariant ops.targets[..] == positions
        invariant !done ==> arr[..] == old(arr[..])
        invariant done ==> arr[..] == IncrementAt(old(arr[..]), positions)
        decreases if done then 0 else 1
      {
        var es: seq<Entry<nat, Word>> := [];
        for i := 0 to ops.targets.Length
          invariant es == IncrementEntries(View(arr[..]), positions[..i])
        {
          var pos := ops.GetPosition(i);
          var oldVal := arr[pos];
          es := es + [Entry(pos, oldVal, Succ(oldVal))];
        }
        assert positions[..ops.targets.Length] == positions;
        IncrementSucceeds(View(arr[..]), positions);
        ghost var before := arr[..];
        done := OnArray(arr, es);
        ViewInjective(arr[..], IncrementAt(before, positions));
      }
    }
  }
}
