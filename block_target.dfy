/**
 * The array benchmark target whose words are spread over fixed-size memory
 * blocks (src/pmwcas_target.cpp with include/pmwcas_target.hpp): word `pos`
 * is the first word of block `pos`, found by shifting `pos` left by the
 * logarithm of the block size. The pool is created with one spare block,
 * and the root offset is rounded up to a block boundary.
 *
 * Memory is a map from byte addresses to words. The pool library's word
 * primitives (`PLoad`, `PCAS`) and the descriptor libraries are abstracted
 * by their single-word and multi-word compare-and-swap contracts.
 */
module BlockTarget {
  import opened Words
  import opened Common
  import opened MwCAS
  import opened Increment
  import opened Sorting
  import opened Wrappers
  import opened Competitor
  import VectorOperation

  /** The sizes and root address that Initialize settles on. */
  datatype Layout = Layout(arraySize: nat, poolSize: nat, rootAddr: nat)

  /** The pool could not be created (`pmemobj_create` returned null). */
  datatype Error = PoolCreationFailed

  /** `(x + mask) & ~mask` with `mask = blockSize - 1`: `x` rounded up to a block boundary. */
  function AlignUp(x: nat, blockSize: nat): nat
    requires blockSize >= 1
  {
    var y := x + (blockSize - 1);
    y - y % blockSize
  }

  /** A multiple of `b` leaves no remainder. */
  lemma MultipleMod(q: nat, b: nat)
    requires b >= 1
    ensures (q * b) % b == 0
  {
    var x := q * b;
    var k, m := x / b, x % b;
    assert x == k * b + m;
    assert (q - k) * b == m;
    if q - k >= 1 {
      assert false;
    } else if q - k <= -1 {
      assert false;
    }
  }

  /** Rounding up gives the nearest block boundary at or above `x`. */
  lemma AlignUpBounds(x: nat, blockSize: nat)
    requires blockSize >= 1
    ensures AlignUp(x, blockSize) % blockSize == 0
    ensures x <= AlignUp(x, blockSize) < x + blockSize
  {
    var y := x + (blockSize - 1);
    var q := y / blockSize;
    assert y == q * blockSize + y % blockSize;
    assert AlignUp(x, blockSize) == q * blockSize;
    MultipleMod(q, blockSize);
  }

  /**
   * The pool layout for `arrayCap` words with one word per block:
   * `blockSize * (arrayCap + 1)` bytes of root object in a pool that many
   * bytes larger than the minimum pool, the root offset rounded up to a
   * block boundary. `created` is the root offset the pool library returns,
   * or None when it cannot create the pool, which is an error. Addresses
   * are offsets in the pool: the root address is the aligned offset, which
   * stands for the pointer `pmemobj_direct` gives for it.
   */
  function Initialize(arrayCap: nat, blockSize: nat, created: Option<nat>): (r: Result<Layout, Error>)
    requires IsPowerOfTwo(blockSize)
    ensures created.None? <==> r == Failure(PoolCreationFailed)
    ensures r.Success? ==>
      && r.value.arraySize == blockSize * (arrayCap + 1)
      && r.value.poolSize == r.value.arraySize + MinPoolSize
      && r.value.rootAddr % blockSize == 0
      && created.value <= r.value.rootAddr < created.value + blockSize
  {
    match created
    case None => Failure(PoolCreationFailed)
    case Some(off) =>
      var arraySize := blockSize * (arrayCap + 1);
      PowerOfTwoIsPow2(blockSize);
      AlignUpBounds(off, blockSize);
      Success(Layout(arraySize, arraySize + MinPoolSize, AlignUp(off, blockSize)))
  }

  /**
   * Every word of the array lies inside the root object: with blocks of at
   * least one word, the word of block `pos < arrayCap`, counted from the
   * aligned root, ends within `arraySize` bytes of the unaligned offset.
   */
  lemma BlocksFitInRoot(arrayCap: nat, blockSize: nat, off: nat, pos: nat)
    requires IsPowerOfTwo(blockSize) && blockSize >= WordSize
    requires pos < arrayCap
    ensures Initialize(arrayCap, blockSize, Some(off)).Success?
    ensures var l := Initialize(arrayCap, blockSize, Some(off)).value;
      off <= l.rootAddr + pos * blockSize
      && l.rootAddr + pos * blockSize + WordSize <= off + l.arraySize
  {
    var l := Initialize(arrayCap, blockSize, Some(off)).value;
    BlockInRoot(off, l.rootAddr, blockSize, arrayCap, pos);
  }

  /**
   * The arithmetic of BlocksFitInRoot: a root at most one block above the
   * offset, and `cap + 1` blocks from the offset on.
   */
  lemma BlockInRoot(off: nat, root: nat, blockSize: nat, cap: nat, pos: nat)
    requires off <= root < off + blockSize
    requires blockSize >= WordSize && pos < cap
    ensures off <= root + pos * blockSize
    ensures root + pos * blockSize + WordSize <= off + blockSize * (cap + 1)
  {
    var p := pos * blockSize;
    assert (pos + 1) * blockSize == p + blockSize;
    MulMonotone(pos + 1, cap, blockSize);
    assert blockSize * (cap + 1) == cap * blockSize + blockSize;
  }

  /** Multiplying by a natural number keeps the order. */
  lemma MulMonotone(a: nat, b: nat, c: nat)
    requires a <= b
    ensures a * c <= b * c
  {
    assert b * c == a * c + (b - a) * c;
  }

  /** Words of different blocks do not overlap. */
  lemma BlocksDisjoint(root: nat, blockSize: nat, p: nat, q: nat)
    requires blockSize >= WordSize
    requires p < q
    ensures root + p * blockSize + WordSize <= root + q * blockSize
  {
    assert q * blockSize == p * blockSize + (q - p) * blockSize;
  }

  class PMwCASTarget {
    const impl: Implementation
    const arrayCap: nat
    const blockSize: nat
    /** `Log2(block_size_)`, the shift that replaces a multiplication. */
    const shiftNum: nat
    /** The block-aligned address of the first block. */
    const rootAddr: nat

    /** The words of persistent memory, by byte address. */
    var mem: map<nat, Word>

    ghost predicate Valid()
      reads this
    {
      && IsPowerOfTwo(blockSize)
      && blockSize >= WordSize
      && shiftNum == Log2(blockSize)
      && forall pos :: 0 <= pos < arrayCap ==> GetAddr(pos) in mem
    }

    /**
     * A target over the layout Initialize produced; the root object is
     * zero-filled by the pool library.
     */
    constructor (impl: Implementation, arrayCap: nat, blockSize: nat, layout: Layout)
      requires IsPowerOfTwo(blockSize) && blockSize >= WordSize
      ensures Valid()
      ensures this.impl == impl && this.arrayCap == arrayCap && this.blockSize == blockSize
      ensures rootAddr == layout.rootAddr
      ensures forall pos :: 0 <= pos < arrayCap ==> GetValue(pos) == 0
    {
      this.impl := impl;
      this.arrayCap := arrayCap;
      this.blockSize := blockSize;
      shiftNum := Log2(blockSize);
      rootAddr := layout.rootAddr;
      new;
      mem := map pos | 0 <= pos < arrayCap :: GetAddr(pos) := 0;
    }

    /** `root_addr_ + (pos << shift_num_)`: the address of block `pos`. */
    function GetAddr(pos: nat): (r: nat)
      ensures IsPowerOfTwo(blockSize) && shiftNum == Log2(blockSize) ==> r == rootAddr + pos * blockSize
    {
      var r := rootAddr + ShiftLeft(pos, shiftNum);
      if IsPowerOfTwo(blockSize) then ShiftByLog2IsMultiply(pos, blockSize); r else r
    }

    /** Distinct blocks have distinct addresses. */
    lemma GetAddrInjective(p: nat, q: nat)
      requires Valid()
      requires p != q
      ensures GetAddr(p) != GetAddr(q)
    {
      if p < q {
        BlocksDisjoint(rootAddr, blockSize, p, q);
      } else {
        BlocksDisjoint(rootAddr, blockSize, q, p);
      }
    }

    /** The current value of word `pos`, the word `pos` blocks past the root. */
    function GetValue(pos: nat): (r: Word)
      reads this
      requires Valid() && pos < arrayCap
      ensures rootAddr + pos * blockSize in mem && r == mem[rootAddr + pos * blockSize]
    {
      mem[GetAddr(pos)]
    }

    /** The addresses of the given positions. */
    function Addrs(positions: seq<nat>): (r: seq<nat>)
      ensures |r| == |positions|
      ensures forall k :: 0 <= k < |positions| ==> r[k] == GetAddr(positions[k])
    {
      seq(|positions|, k requires 0 <= k < |positions| => GetAddr(positions[k]))
    }

    /** Distinct positions have distinct addresses. */
    lemma AddrsDistinct(positions: seq<nat>)
      requires Valid()
      requires Distinct(positions)
      ensures Distinct(Addrs(positions))
    {
      forall i, j | 0 <= i < j < |positions|
        ensures Addrs(positions)[i] != Addrs(positions)[j]
      {
        GetAddrInjective(positions[i], positions[j]);
      }
    }

    /**
     * Increments the words of every target position of `ops` atomically and
     * returns the number of executed operations (1). With PCAS an
     * operation has a single target.
     */
    method Execute(ops: VectorOperation.Operation) returns (n: nat)
      requires Valid()
      requires ops.Valid()
      requires forall k :: 0 <= k < |ops.targets| ==> ops.targets[k] < arrayCap
      requires impl == PCAS ==> |ops.targets| == 1
      modifies this
      ensures Valid()
      ensures n == 1
      ensures mem == IncrementAll(old(mem), Addrs(ops.targets))
    {
      var positions := ops.GetPositions();
      AddrsDistinct(positions);
      if impl == PCAS {
        ExecutePCAS(GetAddr(positions[0]));
        assert forall l :: l in Addrs(positions) <==> l == GetAddr(positions[0]);
      } else {
        // PMwCAS and Microsoft PMwCAS issue the same descriptor; the
        // latter also holds an epoch guard around its retries.
        ExecuteMwCAS(Addrs(positions));
      }
      n := 1;
    }

    /** Loads the word and retries a CAS from it to its successor until one succeeds. */
    method ExecutePCAS(addr: nat)
      requires addr in mem
      modifies this`mem
      ensures mem == old(mem)[addr := Succ(old(mem)[addr])]
    {
      var oldVal := mem[addr];
      var done := false;
      while !done
        invariant !done ==> mem == old(mem) && oldVal == mem[addr]
        invariant done ==> mem == old(mem)[addr := Succ(old(mem)[addr])]
        decreases if done then 0 else 1
      {
        done, oldVal := CompareExchange(addr, oldVal, Succ(oldVal));
      }
    }

    /** Builds the increment descriptor and retries it until it succeeds. */
    method ExecuteMwCAS(addrs: seq<nat>)
      requires Distinct(addrs)
      requires forall k :: 0 <= k < |addrs| ==> addrs[k] in mem
      modifies this`mem
      ensures mem == IncrementAll(old(mem), addrs)
    {
      var done := false;
      while !done
        invariant !done ==> mem == old(mem)
        invariant done ==> mem == IncrementAll(old(mem), addrs)
        decreases if done then 0 else 1
      {
        var es: seq<Entry<nat, Word>> := [];
        var k := 0;
        while k < |addrs|
          invariant 0 <= k <= |addrs|
          invariant es == IncrementEntries(mem, addrs[..k])
        {
          var oldVal := mem[addrs[k]];
          es := es + [Entry(addrs[k], oldVal, Succ(oldVal))];
          k := k + 1;
        }
        assert addrs[..k] == addrs;
        IncrementSucceeds(mem, addrs);
        var outcome := MwCAS.Execute(mem, es);
        mem, done := outcome.mem, outcome.succeeded;
      }
    }

    /**
     * A single-word compare-and-swap: installs `desired` if the word at
     * `addr` holds `expected`; `current` is the value it held.
     */
    method CompareExchange(addr: nat, expected: Word, desired: Word) returns (ok: bool, current: Word)
      requires addr in mem
      modifies this`mem
      ensures current == old(mem[addr])
      ensures ok <==> current == expected
      ensures mem == if ok then old(mem)[addr := desired] else old(mem)
    {
      current := mem[addr];
      ok := current == expected;
      if ok {
        mem := mem[addr := desired];
      }
    }
  }
}
