/**
 * The operation generator of the queue benchmarks
 * (src/queue/operation_engine.hpp): each operation is a push of a random
 * value when the value's lowest bit is clear, and a pop otherwise.
 *
 * The pseudo-random engine is abstracted into the sequence of values it
 * returns; one value is drawn per operation.
 */
module QueueOperationEngine {
  import opened Words
  import opened Wrappers

  /** `kMask`: the bit that chooses between a push and a pop. */
  const Mask: bv64 := 1

  /** An operation: Some(v) pushes `v`, None pops. */
  type QueueOperation = Option<Word>

  /** The lowest bit of `v`, which is `v & kMask` on 64-bit words. */
  function LowBit(v: Word): (b: nat)
    ensures b == ((v as bv64) & Mask) as int
  {
    v % 2
  }

  /**
   * Generates `n` operations from the first `n` random values: operation
   * `i` pushes `values[i]` when it is even and pops otherwise.
   */
  method Generate(n: nat, values: seq<Word>) returns (operations: seq<QueueOperation>)
    requires |values| >= n
    ensures |operations| == n
    ensures forall i :: 0 <= i < n ==> (operations[i].Some? <==> values[i] % 2 == 0)
    ensures forall i :: 0 <= i < n && operations[i].Some? ==> operations[i].value == values[i]
  {
    operations := [];
    var i := 0;
    while i < n
      invariant 0 <= i <= n && |operations| == i
      invariant forall k :: 0 <= k < i ==> (operations[k].Some? <==> values[k] % 2 == 0)
      invariant forall k :: 0 <= k < i && operations[k].Some? ==> operations[k].value == values[k]
    {
      var value := values[i];
      if LowBit(value) == 0 {
        operations := operations + [Some(value)];
      } else {
        operations := operations + [None];
      }
      i := i + 1;
    }
  }
}
