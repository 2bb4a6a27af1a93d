/**
 * The persistent target array of the fixed-size array benchmark
 * (src/array/pmem_array.hpp): a pool whose root object holds a mutex and
 * `kElementNum` words, opened if its file exists and created otherwise,
 * and zero-filled in transactions of at most `kN` words each.
 *
 * Opening an existing pool yields the words last stored there, which are
 * an input of the model. The transactions' atomicity is recorded as the
 * ghost list of chunks each transaction wrote.
 */
module PmemArray {
  import opened Words
  import opened Common
  import opened Wrappers

  /** `kN`: the number of words one transaction initialises at most. */
  const ChunkSize: nat := 10000

  /**
   * `kSize`: the size of a new pool for a root object of `rootSize` bytes,
   * the root size rounded down to whole minimum pools plus two more.
   */
  function PoolSize(rootSize: nat): nat {
    ((rootSize / MinPoolSize) + 2) * MinPoolSize
  }

  /**
   * A new pool is a whole number of minimum pools and leaves more than one
   * minimum pool of room beside the root object, and at most two.
   */
  lemma PoolSizeBounds(rootSize: nat)
    ensures PoolSize(rootSize) % MinPoolSize == 0
    ensures rootSize + MinPoolSize < PoolSize(rootSize) <= rootSize + 2 * MinPoolSize
  {
    var q := rootSize / MinPoolSize;
    assert rootSize == q * MinPoolSize + rootSize % MinPoolSize;
    assert PoolSize(rootSize) == q * MinPoolSize + 2 * MinPoolSize;
  }

  /** The words one transaction of Initialize writes: `size` from `offset`. */
  datatype Chunk = Chunk(offset: nat, size: nat)

  /**
   * The chunks split 0 .. n - 1 into consecutive runs of `ChunkSize` words,
   * the last one possibly shorter.
   */
  ghost predicate Partitions(chunks: seq<Chunk>, n: nat) {
    && (forall k :: 0 <= k < |chunks| ==> chunks[k].offset == k * ChunkSize)
    && (forall k :: 0 <= k < |chunks| ==> 1 <= chunks[k].size <= ChunkSize)
    && (forall k :: 0 <= k < |chunks| - 1 ==> chunks[k].size == ChunkSize)
    && (if chunks == [] then n == 0 else chunks[|chunks| - 1].offset + chunks[|chunks| - 1].size == n)
  }

  /** Every word belongs to exactly one chunk. */
  lemma PartitionCovers(chunks: seq<Chunk>, n: nat, i: nat)
    requires Partitions(chunks, n)
    requires i < n
    ensures exists k :: 0 <= k < |chunks| && chunks[k].offset <= i < chunks[k].offset + chunks[k].size
    ensures forall k, l :: 0 <= k < l < |chunks| ==> chunks[k].offset + chunks[k].size <= chunks[l].offset
  {
    var k := i / ChunkSize;
    assert i == k * ChunkSize + i % ChunkSize;
    var last := |chunks| - 1;
    assert i < chunks[last].offset + chunks[last].size <= (last + 1) * ChunkSize;
    assert k <= last by {
      if k > last {
        assert false;
      }
    }
    assert chunks[k].offset <= i < chunks[k].offset + chunks[k].size;
    forall k, l | 0 <= k < l < |chunks|
      ensures chunks[k].offset + chunks[k].size <= chunks[l].offset
    {
      assert (k + 1) * ChunkSize <= l * ChunkSize;
    }
  }

  class PmemArray {
    /** `root->arr`: the target words. */
    const arr: array<Word>

    /**
     * Opens the pool when it exists (`existing` holds its words) and
     * creates a zeroed one otherwise.
     */
    constructor (elementNum: nat, existing: Option<seq<Word>>)
      requires existing.Some? ==> |existing.value| == elementNum
      ensures fresh(arr) && arr.Length == elementNum
      ensures existing.Some? ==> arr[..] == existing.value
      ensures existing.None? ==> forall i :: 0 <= i < elementNum ==> arr[i] == 0
    {
      match existing
      case Some(words) =>
        arr := new Word[elementNum](i requires 0 <= i < elementNum => words[i]);
      case None =>
        arr := new Word[elementNum](_ => 0);
    }

    /**
     * Zero-fills the array, `ChunkSize` words per transaction; `chunks`
     * lists the transactions in order.
     */
    method Initialize() returns (ghost chunks: seq<Chunk>)
      modifies arr
      ensures forall i :: 0 <= i < arr.Length ==> arr[i] == 0
      ensures Partitions(chunks, arr.Length)
    {
      var n := arr.Length;
      chunks := [];
      var offset := 0;
      while offset < n
        invariant offset == |chunks| * ChunkSize
        invariant forall i :: 0 <= i < offset && i < n ==> arr[i] == 0
        invariant forall k :: 0 <= k < |chunks| ==> chunks[k].offset == k * ChunkSize
        invariant forall k :: 0 <= k < |chunks| ==> 1 <= chunks[k].size <= ChunkSize
        invariant forall k :: 0 <= k < |chunks| - 1 ==> chunks[k].size == ChunkSize
        invariant chunks == [] ==> offset == 0
        invariant chunks != [] ==> chunks[|chunks| - 1].offset + chunks[|chunks| - 1].size == if offset < n then offset else n
        invariant chunks != [] && offset < n ==> chunks[|chunks| - 1].size == ChunkSize
      {
        var size := if offset + ChunkSize < n then ChunkSize else n - offset;
        // one transaction
        var i := 0;
        while i < size
          invariant 0 <= i <= size
          invariant forall j :: 0 <= j < offset + i ==> arr[j] == 0
        {
          arr[offset + i] := 0;
          i := i + 1;
        }
        chunks := chunks + [Chunk(offset, size)];
        offset := offset + ChunkSize;
      }
    }
  }
}
