/**
 * The operation generator of the array benchmark with a fixed number of
 * targets (src/array/operation_engine.hpp): like the variable-size
 * generator, but over the build constants `kElementNum` positions and
 * `kTargetNum` target slots, filling slot `j` of each operation in turn.
 *
 * That file calls `SetAddrIfUnique(j, pos)`, which the operation of
 * src/array/operation.hpp does not declare; the model calls the operation's
 * `SetPositionIfUnique(j, pos)`, the only member with that meaning.
 *
 * The random engines are abstracted into finite draw sequences; when the
 * draws run out before an operation is complete the model reports None,
 * and only then.
 */
module ArrayOperationEngine {
  import opened Sorting
  import opened Shuffle
  import opened Wrappers
  import opened Draws
  import ArrayOperation

  class OperationEngine {
    /** kElementNum: the number of elements of the target array. */
    const elementNum: nat
    /** kTargetNum: the number of target slots of each operation. */
    const targetNum: nat
    /** The positions 0 .. elementNum - 1 in shuffled order. */
    var posIndex: seq<nat>

    ghost predicate Valid()
      reads this
    {
      |posIndex| == elementNum && multiset(posIndex) == multiset(Iota(elementNum))
    }

    /** The slots of a generated operation. */
    ghost predicate Drawn(targets: seq<nat>)
      reads this
    {
      && |targets| == targetNum
      && StrictlyAscending(targets)
      && forall x :: x in targets ==> x < elementNum
    }

    /**
     * `op` is an operation that the draws `draws[d..e]` make: its slots
     * are drawn as an operation's must be, and hold exactly the entries
     * those draws pick.
     */
    ghost predicate Made(op: ArrayOperation.Operation, draws: seq<nat>, d: nat, e: nat)
      reads this, op.targets
    {
      Drawn(op.targets[..]) && Elements(op.targets[..]) == Picked(posIndex, draws, d, e)
    }

    /**
     * Fills the position index with 0 .. elementNum - 1 and shuffles it
     * with the given draws.
     */
    constructor (elementNum: nat, targetNum: nat, shuffleDraws: seq<nat>)
      requires |shuffleDraws| == elementNum
      ensures Valid()
      ensures this.elementNum == elementNum && this.targetNum == targetNum
    {
      this.elementNum := elementNum;
      this.targetNum := targetNum;
      var index: seq<nat> := [];
      var i := 0;
      while i < elementNum
        invariant 0 <= i <= elementNum
        invariant index == Iota(i)
      {
        index := index + [i];
        i := i + 1;
      }
      var buf := new nat[elementNum](k requires 0 <= k < elementNum => index[k]);
      assert buf[..] == Iota(elementNum);
      ShuffleInPlace(buf, shuffleDraws);
      posIndex := buf[..];
    }

    /**
     * Draws positions from `draws[d..]` until one is new to the slots
     * before `j` and stores it in slot `j`; `next` is the first unused
     * draw. Not `found` means the draws ran out first. The draws before the
     * one stored, or all of them when none is, pick only positions already
     * in the slots.
     */
    method DrawUnique(ops: ArrayOperation.Operation, j: nat, draws: seq<nat>, d: nat)
      returns (next: nat, found: bool)
      requires Valid()
      requires d <= |draws|
      requires forall k :: 0 <= k < |draws| ==> draws[k] < elementNum
      requires j < ops.targets.Length
      modifies ops.targets
      ensures d <= next <= |draws|
      ensures !found ==> next == |draws| && ops.targets[..] == old(ops.targets[..])
      ensures found ==> d < next
      ensures found ==> var pos := posIndex[draws[next - 1]];
        pos < elementNum && pos !in old(ops.targets[..j]) && ops.targets[..] == old(ops.targets[..])[j := pos]
      ensures Picked(posIndex, draws, d, if found then next - 1 else next) <= Elements(old(ops.targets[..j]))
      ensures found && Distinct(old(ops.targets[..j])) ==> Distinct(ops.targets[..j + 1])
    {
      next, found := d, false;
      while !found && next < |draws|
        invariant d <= next <= |draws|
        invariant !found ==> ops.targets[..] == old(ops.targets[..])
        invariant found ==> d < next
        invariant found ==> var pos := posIndex[draws[next - 1]];
          pos < elementNum && pos !in old(ops.targets[..j]) && ops.targets[..] == old(ops.targets[..])[j := pos]
        invariant Picked(posIndex, draws, d, if found then next - 1 else next) <= Elements(old(ops.targets[..j]))
        invariant found && Distinct(old(ops.targets[..j])) ==> Distinct(ops.targets[..j + 1])
        decreases |draws| - next, if found then 0 else 1
      {
        var pos := posIndex[draws[next]];
        ArrangementOfIotaBelow(posIndex, elementNum, pos);
        PickedStep(posIndex, draws, d, next);
        next := next + 1;
        var r := ops.SetPositionIfUnique(j, pos);
        found := r == Success(true);
      }
    }

    /**
     * Generates `n` operations, each of `targetNum` distinct positions in
     * ascending order, each from the shortest run of the draws after the
     * one before that picks `targetNum` distinct positions; `ends[k]` to
     * `ends[k + 1]` are the draws of operation `k`, and `next` is the
     * first unused draw. None means the draws ran out first, and
     * generating any operation needs `targetNum <= elementNum`.
     */
    method Generate(n: nat, draws: seq<nat>) returns (r: Option<seq<ArrayOperation.Operation>>, next: nat, ghost ends: seq<nat>)
      requires Valid()
      requires forall k :: 0 <= k < |draws| ==> draws[k] < elementNum
      ensures next <= |draws|
      ensures r.Some? <==> Batches(posIndex, draws, targetNum, 0, n).Some?
      ensures r.Some? ==> next == Batches(posIndex, draws, targetNum, 0, n).value
      ensures r.None? ==> next == |draws|
      ensures r.Some? ==> |r.value| == n
      ensures r.Some? ==> |ends| == n + 1 && ends[0] == 0 && ends[n] == next
      ensures r.Some? ==> forall k :: 0 <= k < n ==>
        && ends[k] <= |draws|
        && FillEnd(posIndex, draws, targetNum, ends[k], ends[k]) == Some(ends[k + 1])
      ensures r.Some? ==> forall k :: 0 <= k < n ==>
        fresh(r.value[k].targets) && Made(r.value[k], draws, ends[k], ends[k + 1])
      ensures r.Some? && n > 0 ==> targetNum <= elementNum
    {
      var operations: seq<ArrayOperation.Operation> := [];
      next, ends := 0, [0];
      var i := 0;
      while i < n
        invariant 0 <= i <= n && |operations| == i
        invariant next <= |draws|
        invariant |ends| == i + 1 && ends[0] == 0 && ends[i] == next
        invariant forall k :: 0 <= k < i ==>
          && ends[k] <= |draws|
          && FillEnd(posIndex, draws, targetNum, ends[k], ends[k]) == Some(ends[k + 1])
        invariant Batches(posIndex, draws, targetNum, 0, n) == Batches(posIndex, draws, targetNum, next, n - i)
        invariant forall k :: 0 <= k < i ==>
          fresh(operations[k].targets) && Made(operations[k], draws, ends[k], ends[k + 1])
        invariant i > 0 ==> targetNum <= elementNum
      {
        var ops;
        ops, next := GenerateOne(draws, next);
        if ops.None? {
          return None, next, ends;
        }
        operations, ends := operations + [ops.value], ends + [next];
        i := i + 1;
      }
      r := Some(operations);
    }

    /**
     * Generates one operation from `draws[d..]`: fills each of its
     * `targetNum` slots with a position new to it, then sorts them; `next`
     * is the first unused draw. The operation takes the positions that the
     * shortest run of draws picking `targetNum` distinct ones picks; None
     * means the draws ran out first.
     */
    method GenerateOne(draws: seq<nat>, d: nat) returns (r: Option<ArrayOperation.Operation>, next: nat)
      requires Valid()
      requires d <= |draws|
      requires forall k :: 0 <= k < |draws| ==> draws[k] < elementNum
      ensures d <= next <= |draws|
      ensures FillEnd(posIndex, draws, targetNum, d, d) == if r.Some? then Some(next) else None
      ensures r.None? ==> next == |draws|
      ensures r.Some? ==> fresh(r.value.targets) && Drawn(r.value.targets[..])
      ensures r.Some? ==> Elements(r.value.targets[..]) == Picked(posIndex, draws, d, next)
      ensures r.Some? ==> targetNum <= elementNum
    {
      var ops := new ArrayOperation.Operation(targetNum);
      var found;
      next, found := FillTargets(ops, draws, d);
      if !found {
        return None, next;
      }
      DistinctBelowBound(ops.targets[..], elementNum);
      ghost var drawn := ops.targets[..];
      ops.SortTargets();
      forall x ensures x in ops.targets[..] <==> x in drawn {
        assert x in ops.targets[..] <==> x in multiset(ops.targets[..]);
        assert x in drawn <==> x in multiset(drawn);
      }
      assert Elements(ops.targets[..]) == Elements(drawn);
      r := Some(ops);
    }

    /**
     * Fills every slot of `ops` in turn by DrawUnique, from `draws[d..]`
     * on. When the draws do not run out, the slots hold distinct
     * positions, exactly those that the shortest run of draws picking
     * `targetNum` distinct ones picks, and `next` ends that run.
     */
    method FillTargets(ops: ArrayOperation.Operation, draws: seq<nat>, d: nat) returns (next: nat, found: bool)
      requires Valid()
      requires d <= |draws|
      requires forall k :: 0 <= k < |draws| ==> draws[k] < elementNum
      requires ops.targets.Length == targetNum
      modifies ops.targets
      ensures d <= next <= |draws|
      ensures FillEnd(posIndex, draws, targetNum, d, d) == if found then Some(next) else None
      ensures !found ==> next == |draws|
      ensures found ==> Distinct(ops.targets[..]) && forall x :: x in ops.targets[..] ==> x < elementNum
      ensures found ==> Elements(ops.targets[..]) == Picked(posIndex, draws, d, next)
    {
      next, found := d, true;
      var j := 0;
      PickedNone(posIndex, draws, d);
      while j < targetNum
        invariant 0 <= j <= targetNum
        invariant d <= next <= |draws|
        invariant Distinct(ops.targets[..j])
        invariant Elements(ops.targets[..j]) == Picked(posIndex, draws, d, next)
        invariant FillEnd(posIndex, draws, targetNum, d, d) == FillEnd(posIndex, draws, targetNum, d, next)
      {
        ghost var before, a := ops.targets[..], next;
        DistinctCardinality(ops.targets[..j]);
        next, found := DrawUnique(ops, j, draws, next);
        if !found {
          RunsOutAfter(posIndex, draws, targetNum, d, a);
          return;
        }
        FillsOneMore(posIndex, draws, targetNum, d, a, next, before[..j]);
        assert ops.targets[..j + 1] == before[..j] + [posIndex[draws[next - 1]]];
        j := j + 1;
      }
      assert ops.targets[..] == ops.targets[..targetNum];
      DistinctCardinality(ops.targets[..]);
      forall x | x in ops.targets[..]
        ensures x < elementNum
      {
        PickedWithin(posIndex, draws, d, next, x);
        ArrangementOfIotaBelow(posIndex, elementNum, x);
      }
    }
  }
}
