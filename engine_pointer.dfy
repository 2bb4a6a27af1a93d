/**
 * The operation generator of the volatile MwCAS benchmark
 * (src/operation_engine.hpp): each operation takes `kTargetNum` distinct
 * target fields, picked from the benchmark's field list by a skewed
 * distribution and redrawn whenever a field repeats, sorted by address.
 *
 * The random engine is abstracted into a finite draw sequence; when the
 * draws run out before an operation is complete the model reports None,
 * and only then.
 */
module PointerOperationEngine {
  import opened Sorting
  import opened Wrappers
  import opened Draws
  import PointerOperation

  class OperationEngine {
    /** The target word addresses shared with the benchmark target. */
    const targetFields: seq<PointerOperation.Addr>
    /** kTargetNum: the number of target slots of each operation. */
    const targetNum: nat

    constructor (targetFields: seq<PointerOperation.Addr>, targetNum: nat)
      ensures this.targetFields == targetFields && this.targetNum == targetNum
    {
      this.targetFields := targetFields;
      this.targetNum := targetNum;
    }

    /** The slots of a generated operation. */
    predicate Drawn(targets: seq<PointerOperation.Addr>) {
      && |targets| == targetNum
      && StrictlyAscending(targets)
      && forall x :: x in targets ==> x in targetFields
    }

    /**
     * `op` is an operation that the draws `draws[d..e]` make: its slots
     * are drawn as an operation's must be, and hold exactly the entries
     * those draws pick.
     */
    ghost predicate Made(op: PointerOperation.Operation, draws: seq<nat>, d: nat, e: nat)
      reads op.targets
    {
      Drawn(op.targets[..]) && Elements(op.targets[..]) == Picked(targetFields, draws, d, e)
    }

    /**
     * Draws fields from `draws[d..]` until one is new to the slots before
     * `j` and stores it in slot `j`; `next` is the first unused draw. Not
     * `found` means the draws ran out first. The draws before the one
     * stored, or all of them when none is, pick only fields already in the
     * slots.
     */
    method DrawUnique(ops: PointerOperation.Operation, j: nat, draws: seq<nat>, d: nat)
      returns (next: nat, found: bool)
      requires d <= |draws|
      requires forall k :: 0 <= k < |draws| ==> draws[k] < |targetFields|
      requires j < ops.targets.Length
      modifies ops.targets
      ensures d <= next <= |draws|
      ensures !found ==> next == |draws| && ops.targets[..] == old(ops.targets[..])
      ensures found ==> d < next
      ensures found ==> var addr := targetFields[draws[next - 1]];
        addr !in old(ops.targets[..j]) && ops.targets[..] == old(ops.targets[..])[j := addr]
      ensures Picked(targetFields, draws, d, if found then next - 1 else next) <= Elements(old(ops.targets[..j]))
      ensures found && Distinct(old(ops.targets[..j])) ==> Distinct(ops.targets[..j + 1])
    {
      next, found := d, false;
      while !found && next < |draws|
        invariant d <= next <= |draws|
        invariant !found ==> ops.targets[..] == old(ops.targets[..])
        invariant found ==> d < next
        invariant found ==> var addr := targetFields[draws[next - 1]];
          addr !in old(ops.targets[..j]) && ops.targets[..] == old(ops.targets[..])[j := addr]
        invariant Picked(targetFields, draws, d, if found then next - 1 else next) <= Elements(old(ops.targets[..j]))
        invariant found && Distinct(old(ops.targets[..j])) ==> Distinct(ops.targets[..j + 1])
        decreases |draws| - next, if found then 0 else 1
      {
        var addr := targetFields[draws[next]];
        PickedStep(targetFields, draws, d, next);
        next := next + 1;
        found := ops.SetAddr(j, addr);
      }
    }

    /**
     * Generates `n` operations, each of `targetNum` distinct target fields
     * in ascending address order, each from the shortest run of the draws
     * after the one before that picks `targetNum` distinct fields;
     * `ends[k]` to `ends[k + 1]` are the draws of operation `k`, and
     * `next` is the first unused draw. None means the draws ran out first,
     * and generating any operation needs at least `targetNum` distinct
     * fields.
     */
    method Generate(n: nat, draws: seq<nat>) returns (r: Option<seq<PointerOperation.Operation>>, next: nat, ghost ends: seq<nat>)
      requires forall k :: 0 <= k < |draws| ==> draws[k] < |targetFields|
      ensures next <= |draws|
      ensures r.Some? <==> Batches(targetFields, draws, targetNum, 0, n).Some?
      ensures r.Some? ==> next == Batches(targetFields, draws, targetNum, 0, n).value
      ensures r.None? ==> next == |draws|
      ensures r.Some? ==> |r.value| == n
      ensures r.Some? ==> |ends| == n + 1 && ends[0] == 0 && ends[n] == next
      ensures r.Some? ==> forall k :: 0 <= k < n ==>
        && ends[k] <= |draws|
        && FillEnd(targetFields, draws, targetNum, ends[k], ends[k]) == Some(ends[k + 1])
      ensures r.Some? ==> forall k :: 0 <= k < n ==>
        fresh(r.value[k].targets) && Made(r.value[k], draws, ends[k], ends[k + 1])
      ensures r.Some? && n > 0 ==> targetNum <= |Elements(targetFields)|
    {
      var operations: seq<PointerOperation.Operation> := [];
      next, ends := 0, [0];
      var i := 0;
      while i < n
        invariant 0 <= i <= n && |operations| == i
        invariant next <= |draws|
        invariant |ends| == i + 1 && ends[0] == 0 && ends[i] == next
        invariant forall k :: 0 <= k < i ==>
          && ends[k] <= |draws|
          && FillEnd(targetFields, draws, targetNum, ends[k], ends[k]) == Some(ends[k + 1])
        invariant Batches(targetFields, draws, targetNum, 0, n) == Batches(targetFields, draws, targetNum, next, n - i)
        invariant forall k :: 0 <= k < i ==>
          fresh(operations[k].targets) && Made(operations[k], draws, ends[k], ends[k + 1])
        invariant i > 0 ==> targetNum <= |Elements(targetFields)|
      {
        var ops;
        ops, next := GenerateOne(draws, next);
        if ops.None? {
          return None, next, ends;
        }
        operations, ends := operations + [ops.value], ends + [next];
        i := i + 1;
      }
      r := Some(operations);
    }

    /**
     * Generates one operation from `draws[d..]`: fills each of its
     * `targetNum` slots with a field address new to it, then sorts them;
     * `next` is the first unused draw. The operation takes the fields that
     * the shortest run of draws picking `targetNum` distinct ones picks;
     * None means the draws ran out first.
     */
    method GenerateOne(draws: seq<nat>, d: nat) returns (r: Option<PointerOperation.Operation>, next: nat)
      requires d <= |draws|
      requires forall k :: 0 <= k < |draws| ==> draws[k] < |targetFields|
      ensures d <= next <= |draws|
      ensures FillEnd(targetFields, draws, targetNum, d, d) == if r.Some? then Some(next) else None
      ensures r.None? ==> next == |draws|
      ensures r.Some? ==> fresh(r.value.targets) && Drawn(r.value.targets[..])
      ensures r.Some? ==> Elements(r.value.targets[..]) == Picked(targetFields, draws, d, next)
      ensures r.Some? ==> targetNum <= |Elements(targetFields)|
    {
      var ops := new PointerOperation.Operation(targetNum);
      var found;
      next, found := FillTargets(ops, draws, d);
      if !found {
        return None, next;
      }
      DistinctCardinality(ops.targets[..]);
      SubsetCardinality(Elements(ops.targets[..]), Elements(targetFields));
      ghost var drawn := ops.targets[..];
      ops.SortTargets();
      forall x ensures x in ops.targets[..] <==> x in drawn {
        assert x in ops.targets[..] <==> x in multiset(ops.targets[..]);
        assert x in drawn <==> x in multiset(drawn);
      }
      assert Elements(ops.targets[..]) == Elements(drawn);
      r := Some(ops);
    }

    /**
     * Fills every slot of `ops` in turn by DrawUnique, from `draws[d..]`
     * on. When the draws do not run out, the slots hold distinct
     * addresses, exactly the fields that the shortest run of draws picking
     * `targetNum` distinct ones picks, and `next` ends that run.
     */
    method FillTargets(ops: PointerOperation.Operation, draws: seq<nat>, d: nat) returns (next: nat, found: bool)
      requires d <= |draws|
      requires forall k :: 0 <= k < |draws| ==> draws[k] < |targetFields|
      requires ops.targets.Length == targetNum
      modifies ops.targets
      ensures d <= next <= |draws|
      ensures FillEnd(targetFields, draws, targetNum, d, d) == if found then Some(next) else None
      ensures !found ==> next == |draws|
      ensures found ==> Distinct(ops.targets[..]) && forall x :: x in ops.targets[..] ==> x in targetFields
      ensures found ==> Elements(ops.targets[..]) == Picked(targetFields, draws, d, next)
    {
      next, found := d, true;
      var j := 0;
      PickedNone(targetFields, draws, d);
      while j < targetNum
        invariant 0 <= j <= targetNum
        invariant d <= next <= |draws|
        invariant Distinct(ops.targets[..j])
        invariant Elements(ops.targets[..j]) == Picked(targetFields, draws, d, next)
        invariant FillEnd(targetFields, draws, targetNum, d, d) == FillEnd(targetFields, draws, targetNum, d, next)
      {
        ghost var before, a := ops.targets[..], next;
        DistinctCardinality(ops.targets[..j]);
        next, found := DrawUnique(ops, j, draws, next);
        if !found {
          RunsOutAfter(targetFields, draws, targetNum, d, a);
          return;
        }
        FillsOneMore(targetFields, draws, targetNum, d, a, next, before[..j]);
        assert ops.targets[..j + 1] == before[..j] + [targetFields[draws[next - 1]]];
        j := j + 1;
      }
      assert ops.targets[..] == ops.targets[..targetNum];
      DistinctCardinality(ops.targets[..]);
      forall x | x in ops.targets[..]
        ensures x in targetFields
      {
        PickedWithin(targetFields, draws, d, next, x);
      }
    }
  }
}
