/**
 * The operation generator of the array benchmark with a variable number
 * of targets (include/array/operation_engine.hpp). It shuffles the array
 * positions once, and then builds each operation from `target_num`
 * distinct positions picked from the shuffled index by a skewed
 * distribution, redrawing whenever a position repeats.
 *
 * The random engines are abstracted into finite draw sequences: the
 * generator's draws and the shuffle's draws are inputs. The source draws
 * until it finds a new position; when the given draws run out first, and
 * only then, the model reports None.
 */
module VectorOperationEngine {
  import opened Sorting
  import opened Shuffle
  import opened Wrappers
  import opened Draws
  import VectorOperation

  class OperationEngine {
    /** The number of target words of each operation. */
    const targetNum: nat
    /** The capacity of the target array. */
    const arrayCap: nat
    /** The positions 0 .. arrayCap - 1 in shuffled order. */
    var posIndex: seq<nat>

    ghost predicate Valid()
      reads this
    {
      |posIndex| == arrayCap && multiset(posIndex) == multiset(Iota(arrayCap))
    }

    /** The targets of a generated operation. */
    ghost predicate Drawn(targets: seq<nat>)
      reads this
    {
      && |targets| == targetNum
      && StrictlyAscending(targets)
      && forall x :: x in targets ==> x < arrayCap
    }

    /**
     * `op` is an operation that the draws `draws[d..e]` make: its slots
     * are drawn as an operation's must be, and hold exactly the entries
     * those draws pick.
     */
    ghost predicate Made(op: VectorOperation.Operation, draws: seq<nat>, d: nat, e: nat)
      reads this, op
    {
      Drawn(op.targets) && Elements(op.targets) == Picked(posIndex, draws, d, e)
    }

    /**
     * Fills the position index with 0 .. arrayCap - 1 and shuffles it with
     * the given draws.
     */
    constructor (targetNum: nat, arrayCap: nat, shuffleDraws: seq<nat>)
      requires |shuffleDraws| == arrayCap
      ensures Valid()
      ensures this.targetNum == targetNum && this.arrayCap == arrayCap
    {
      this.targetNum := targetNum;
      this.arrayCap := arrayCap;
      var index: seq<nat> := [];
      var i := 0;
      while i < arrayCap
        invariant 0 <= i <= arrayCap
        invariant index == Iota(i)
      {
        index := index + [i];
        i := i + 1;
      }
      var buf := new nat[arrayCap](k requires 0 <= k < arrayCap => index[k]);
      assert buf[..] == Iota(arrayCap);
      ShuffleInPlace(buf, shuffleDraws);
      posIndex := buf[..];
    }

    /**
     * Draws positions from `draws[d..]` until one is new to `ops` and adds
     * it; `next` is the first unused draw. Not `found` means the draws ran
     * out first. The draws before the one added, or all of them when none
     * is, pick only positions `ops` already has.
     */
    method DrawUnique(ops: VectorOperation.Operation, draws: seq<nat>, d: nat) returns (next: nat, found: bool)
      requires Valid()
      requires d <= |draws|
      requires forall k :: 0 <= k < |draws| ==> draws[k] < arrayCap
      requires ops.Valid()
      modifies ops
      ensures d <= next <= |draws|
      ensures ops.Valid()
      ensures !found ==> next == |draws| && ops.targets == old(ops.targets)
      ensures found ==> d < next
      ensures found ==> var pos := posIndex[draws[next - 1]];
        pos < arrayCap && pos !in old(ops.targets) && ops.targets == old(ops.targets) + [pos]
      ensures Picked(posIndex, draws, d, if found then next - 1 else next) <= Elements(old(ops.targets))
    {
      next, found := d, false;
      while !found && next < |draws|
        invariant d <= next <= |draws|
        invariant ops.Valid()
        invariant !found ==> ops.targets == old(ops.targets)
        invariant found ==> d < next
        invariant found ==> var pos := posIndex[draws[next - 1]];
          pos < arrayCap && pos !in old(ops.targets) && ops.targets == old(ops.targets) + [pos]
        invariant Picked(posIndex, draws, d, if found then next - 1 else next) <= Elements(old(ops.targets))
        decreases |draws| - next, if found then 0 else 1
      {
        var pos := posIndex[draws[next]];
        ArrangementOfIotaBelow(posIndex, arrayCap, pos);
        PickedStep(posIndex, draws, d, next);
        next := next + 1;
        found := ops.SetPositionIfUnique(pos);
      }
    }

    /**
     * Generates `n` operations, each of `targetNum` distinct positions of
     * the array in ascending order, each from the shortest run of the
     * draws after the one before that picks `targetNum` distinct
     * positions; `ends[k]` to `ends[k + 1]` are the draws of operation
     * `k`, and `next` is the first unused draw. None means the draws ran
     * out first. Since the positions of one operation are distinct,
     * generating any operation at all needs `targetNum` to be at most the
     * array capacity; otherwise the source draws forever.
     */
    method Generate(n: nat, draws: seq<nat>) returns (r: Option<seq<VectorOperation.Operation>>, next: nat, ghost ends: seq<nat>)
      requires Valid()
      requires forall k :: 0 <= k < |draws| ==> draws[k] < arrayCap
      ensures next <= |draws|
      ensures r.Some? <==> Batches(posIndex, draws, targetNum, 0, n).Some?
      ensures r.Some? ==> next == Batches(posIndex, draws, targetNum, 0, n).value
      ensures r.None? ==> next == |draws|
      ensures r.Some? ==> |r.value| == n
      ensures r.Some? ==> |ends| == n + 1 && ends[0] == 0 && ends[n] == next
      ensures r.Some? ==> forall k :: 0 <= k < n ==>
        && ends[k] <= |draws|
        && FillEnd(posIndex, draws, targetNum, ends[k], ends[k]) == Some(ends[k + 1])
      ensures r.Some? ==> forall k :: 0 <= k < n ==>
        fresh(r.value[k]) && r.value[k].Valid() && Made(r.value[k], draws, ends[k], ends[k + 1])
      ensures r.Some? && n > 0 ==> targetNum <= arrayCap
    {
      var operations: seq<VectorOperation.Operation> := [];
      next, ends := 0, [0];
      var i := 0;
      while i < n
        invariant 0 <= i <= n && |operations| == i
        invariant next <= |draws|
        invariant |ends| == i + 1 && ends[0] == 0 && ends[i] == next
        invariant forall k :: 0 <= k < i ==>
          && ends[k] <= |draws|
          && FillEnd(posIndex, draws, targetNum, ends[k], ends[k]) == Some(ends[k + 1])
        invariant Batches(posIndex, draws, targetNum, 0, n) == Batches(posIndex, draws, targetNum, next, n - i)
        invariant forall k :: 0 <= k < i ==>
          fresh(operations[k]) && operations[k].Valid() && Made(operations[k], draws, ends[k], ends[k + 1])
        invariant i > 0 ==> targetNum <= arrayCap
      {
        var ops;
        ops, next := GenerateOne(draws, next);
        if ops.None? {
          return None, next, ends;
        }
        operations, ends := operations + [ops.value], ends + [next];
        i := i + 1;
      }
      r := Some(operations);
    }

    /**
     * Generates one operation from `draws[d..]`: adds `targetNum`
     * positions new to it, each by DrawUnique, then sorts them; `next` is
     * the first unused draw. The operation takes the positions that the
     * shortest run of draws picking `targetNum` distinct ones picks; None
     * means the draws ran out first.
     */
    method GenerateOne(draws: seq<nat>, d: nat) returns (r: Option<VectorOperation.Operation>, next: nat)
      requires Valid()
      requires d <= |draws|
      requires forall k :: 0 <= k < |draws| ==> draws[k] < arrayCap
      ensures d <= next <= |draws|
      ensures FillEnd(posIndex, draws, targetNum, d, d) == if r.Some? then Some(next) else None
      ensures r.None? ==> next == |draws|
      ensures r.Some? ==> fresh(r.value) && r.value.Valid() && Drawn(r.value.targets)
      ensures r.Some? ==> Elements(r.value.targets) == Picked(posIndex, draws, d, next)
      ensures r.Some? ==> targetNum <= arrayCap
    {
      var ops := new VectorOperation.Operation();
      next := d;
      var j := 0;
      PickedNone(posIndex, draws, d);
      while j < targetNum
        invariant 0 <= j <= targetNum
        invariant d <= next <= |draws|
        invariant fresh(ops)
        invariant ops.Valid() && |ops.targets| == j
        invariant forall x :: x in ops.targets ==> x < arrayCap
        invariant Elements(ops.targets) == Picked(posIndex, draws, d, next)
        invariant FillEnd(posIndex, draws, targetNum, d, d) == FillEnd(posIndex, draws, targetNum, d, next)
      {
        ghost var before, a := ops.targets, next;
        DistinctCardinality(ops.targets);
        var found;
        next, found := DrawUnique(ops, draws, next);
        if !found {
          RunsOutAfter(posIndex, draws, targetNum, d, a);
          return None, next;
        }
        AddsLastDraw(posIndex, draws, targetNum, d, a, next);
        assert Elements(ops.targets) == Elements(before) + {ops.targets[j]};
        j := j + 1;
      }
      DistinctCardinality(ops.targets);
      DistinctBelowBound(ops.targets, arrayCap);
      ghost var drawn := ops.targets;
      ops.SortTargets();
      forall x ensures x in ops.targets <==> x in drawn {
        assert x in ops.targets <==> x in multiset(ops.targets);
        assert x in drawn <==> x in multiset(drawn);
      }
      assert Elements(ops.targets) == Elements(drawn);
      assert |ops.targets| == |multiset(ops.targets)| == |multiset(drawn)| == targetNum;
      r := Some(ops);
    }
  }
}
