/**
 * The target of the volatile MwCAS benchmark (src/pmwcas_target.hpp): a
 * vector of `total_field_num` heap words, allocated zeroed by
 * `init_thread_num` threads that take the indices round robin, and an
 * operation that adds one to each of an operation's target words, with one
 * MwCAS (the authors' MwCAS, microsoft/pmwcas, or AOPT) retried until it
 * succeeds, or with a separate single-word CAS per target.
 *
 * The heap is the map `mem` from the fields' addresses to their words;
 * the addresses `new` returns are an input of the constructor. The threads
 * write disjoint indices, so running them one after another gives the same
 * vector.
 */
module MwCASTarget {
  import opened Words
  import opened MwCAS
  import opened Sorting
  import opened Increment
  import opened PointerOperation
  import Validators

  /** The implementations this target compares (src/common.hpp). */
  datatype Implementation = MwCAS | PMwCAS | AOPT | SingleCAS

  /** `n` for thread `i`: the number of indices below `total` it initialises. */
  function Share(total: nat, threads: nat, i: nat): nat
    requires i < threads
  {
    (total + (threads - 1 - i)) / threads
  }

  /** For a positive divisor, `k` is below the quotient when `k + 1` copies fit. */
  lemma DivBound(k: nat, m: nat, t: nat)
    requires t > 0
    ensures k < m / t <==> (k + 1) * t <= m
  {
    var q := m / t;
    assert m == q * t + m % t;
    if k < q {
      assert (k + 1) * t <= q * t;
    } else {
      assert (q + 1) * t <= (k + 1) * t;
    }
  }

  /**
   * Thread `i` initialises exactly the indices `i + k * threads` below
   * `total`, so the threads together cover each index once.
   */
  lemma ShareCovers(total: nat, threads: nat, i: nat, k: nat)
    requires i < threads
    ensures k < Share(total, threads, i) <==> i + k * threads < total
  {
    DivBound(k, total + (threads - 1 - i), threads);
  }

  /** Index `i + k * threads` belongs to thread `i`, as its `k`-th index. */
  lemma RoundRobinIndex(threads: nat, i: nat, k: nat)
    requires i < threads
    ensures (i + k * threads) % threads == i
    ensures (i + k * threads) / threads == k
  {
    var id := i + k * threads;
    var q, r := id / threads, id % threads;
    assert id == q * threads + r;
    if k > q {
      assert (k - q) * threads == k * threads - q * threads;
      ProductStep(k - q, threads);
      assert false;
    } else if k < q {
      assert (q - k) * threads == q * threads - k * threads;
      ProductStep(q - k, threads);
      assert false;
    }
  }

  /** At least one copy of `t` in `d * t` for positive `d`. */
  lemma ProductStep(d: nat, t: nat)
    requires d >= 1
    ensures d * t >= t
  {
    assert d * t == t + (d - 1) * t;
  }

  /** An index is determined by its quotient and remainder. */
  lemma SameIndex(a: nat, b: nat, threads: nat)
    requires threads > 0
    requires a % threads == b % threads && a / threads == b / threads
    ensures a == b
  {
    assert a == (a / threads) * threads + a % threads;
    assert b == (b / threads) * threads + b % threads;
  }

  /** Zeroed words at the non-null addresses of `fields`. */
  function Zeroed(fields: seq<Addr>): (m: map<Addr, Word>)
    ensures forall a :: a in m <==> a in fields && a != Null
    ensures forall a :: a in m ==> m[a] == 0
  {
    map a | a in fields && a != Null :: 0
  }

  /** Filling a null slot adds its address to the zeroed words. */
  lemma ZeroedFill(fields: seq<Addr>, id: nat, a: Addr)
    requires id < |fields| && fields[id] == Null && a != Null
    ensures Zeroed(fields[id := a]) == Zeroed(fields)[a := 0]
  {
    var f := fields[id := a];
    forall x | x in fields && x != Null
      ensures x in f
    {
      var j :| 0 <= j < |fields| && fields[j] == x;
      assert f[j] == x;
    }
    assert f[id] == a;
  }

  /** Index `id`, of thread `id % threads`, has been initialised. */
  predicate Initialised(id: nat, threads: nat, i: nat, k: nat) {
    threads > 0 && (id % threads < i || (id % threads == i && id / threads < k))
  }

  /**
   * The driver's check on `num_init_thread`: for the fields the
   * constructor leaves, with thread `id % threads` having put `alloc[id]`
   * in each field it initialised, the number passes ValidateNonZero
   * exactly when no field is left null.
   */
  lemma AcceptedInitThreadsCoverFields(alloc: seq<Addr>, fields: seq<Addr>, threads: nat)
    requires |fields| == |alloc| > 0
    requires forall id :: 0 <= id < |alloc| ==> alloc[id] != Null
    requires forall id :: 0 <= id < |fields| ==>
      fields[id] == if Initialised(id, threads, threads, 0) then alloc[id] else Null
    ensures Validators.ValidateNonZero(threads)
      <==> forall id :: 0 <= id < |fields| ==> fields[id] != Null
  {
    if threads == 0 {
      assert fields[0] == Null;
    } else {
      forall id | 0 <= id < |fields|
        ensures fields[id] != Null
      {
        assert Initialised(id, threads, threads, 0);
      }
    }
  }

  /**
   * Initialising index `i + k * threads`, the `k`-th of thread `i`, takes
   * the fields and words initialised before it to those initialised up to it.
   */
  lemma InitialiseStep(fields: seq<Addr>, words: map<Addr, Word>, alloc: seq<Addr>, threads: nat, i: nat, k: nat)
    requires i < threads && |alloc| == |fields|
    requires k < Share(|fields|, threads, i)
    requires forall id :: 0 <= id < |fields| ==> alloc[id] != Null
    requires forall id :: 0 <= id < |fields| ==>
      fields[id] == if Initialised(id, threads, i, k) then alloc[id] else Null
    requires words == Zeroed(fields)
    ensures i + k * threads < |fields|
    ensures forall id :: 0 <= id < |fields| ==>
      fields[i + k * threads := alloc[i + k * threads]][id]
      == if Initialised(id, threads, i, k + 1) then alloc[id] else Null
    ensures Zeroed(fields[i + k * threads := alloc[i + k * threads]])
      == words[alloc[i + k * threads] := 0]
  {
    var id := i + k * threads;
    ShareCovers(|fields|, threads, i, k);
    RoundRobinIndex(threads, i, k);
    ZeroedFill(fields, id, alloc[id]);
    forall j | 0 <= j < |fields| && j % threads == i && j / threads == k
      ensures j == id
    {
      SameIndex(j, id, threads);
    }
  }

  /** After its last index, thread `i` has initialised all of its indices. */
  lemma InitialiseDone(fields: seq<Addr>, alloc: seq<Addr>, threads: nat, i: nat)
    requires i < threads && |alloc| == |fields|
    requires forall id :: 0 <= id < |fields| ==>
      fields[id] == if Initialised(id, threads, i, Share(|fields|, threads, i)) then alloc[id] else Null
    ensures forall id :: 0 <= id < |fields| ==>
      fields[id] == if Initialised(id, threads, i + 1, 0) then alloc[id] else Null
  {
    forall id | 0 <= id < |fields| && id % threads == i
      ensures id / threads < Share(|fields|, threads, i)
    {
      ShareCovers(|fields|, threads, i, id / threads);
    }
  }

  /**
   * Thread `i` of `threads`: allocates its indices `i`, `i + threads`, ...
   * below `|fields|`, each at the address `alloc` gives it.
   */
  method InitialiseThread(fields: seq<Addr>, words: map<Addr, Word>, alloc: seq<Addr>, threads: nat, i: nat)
    returns (fields': seq<Addr>, words': map<Addr, Word>)
    requires i < threads && |alloc| == |fields|
    requires forall id :: 0 <= id < |fields| ==> alloc[id] != Null
    requires forall id :: 0 <= id < |fields| ==>
      fields[id] == if Initialised(id, threads, i, 0) then alloc[id] else Null
    requires words == Zeroed(fields)
    ensures |fields'| == |fields|
    ensures forall id :: 0 <= id < |fields| ==>
      fields'[id] == if Initialised(id, threads, i + 1, 0) then alloc[id] else Null
    ensures words' == Zeroed(fields')
  {
    fields', words' := fields, words;
    var n := Share(|fields|, threads, i);
    var k, id := 0, i;
    while k < n
      invariant 0 <= k <= n && id == i + k * threads
      invariant |fields'| == |fields|
      invariant forall id :: 0 <= id < |fields| ==>
        fields'[id] == if Initialised(id, threads, i, k) then alloc[id] else Null
      invariant words' == Zeroed(fields')
    {
      InitialiseStep(fields', words', alloc, threads, i, k);
      fields' := fields'[id := alloc[id]];
      words' := words'[alloc[id] := 0];
      k, id := k + 1, id + threads;
    }
    InitialiseDone(fields', alloc, threads, i);
  }

  class MwCASTarget {
    const impl: Implementation

    /** `target_fields_`: the address of each target word. */
    var targetFields: seq<Addr>

    /** The heap words the fields point to. */
    var mem: map<Addr, Word>

    /**
     * Allocates the `totalFieldNum` zeroed words, thread `i` taking the
     * indices `i`, `i + initThreadNum`, ... ; `alloc[id]` is the address
     * `new` returns for index `id`, a fresh one for each. With no thread,
     * every field stays null.
     */
    constructor (impl: Implementation, totalFieldNum: nat, initThreadNum: nat, alloc: seq<Addr>)
      requires |alloc| == totalFieldNum
      requires forall id :: 0 <= id < totalFieldNum ==> alloc[id] != Null
      requires Distinct(alloc)
      ensures this.impl == impl
      ensures initThreadNum > 0 ==> targetFields == alloc && Distinct(targetFields)
      ensures initThreadNum == 0 ==> targetFields == seq(totalFieldNum, _ => Null)
      ensures mem == Zeroed(targetFields)
      ensures totalFieldNum > 0 ==>
        (Validators.ValidateNonZero(initThreadNum) <==> forall id :: 0 <= id < totalFieldNum ==> targetFields[id] != Null)
    {
      var fields := seq(totalFieldNum, _ => Null);
      var words: map<Addr, Word> := map[];
      var threads := initThreadNum;
      for i := 0 to threads
        invariant |fields| == totalFieldNum
        invariant forall id :: 0 <= id < totalFieldNum ==>
          fields[id] == if Initialised(id, threads, i, 0) then alloc[id] else Null
        invariant words == Zeroed(fields)
      {
        fields, words := InitialiseThread(fields, words, alloc, threads, i);
      }
      if totalFieldNum > 0 {
        AcceptedInitThreadsCoverFields(alloc, fields, threads);
      }
      this.impl := impl;
      targetFields := fields;
      mem := words;
    }

    /** `ReferTargetFields`: the fields, for drawing operations from. */
    function ReferTargetFields(): seq<Addr>
      reads this
    {
      targetFields
    }

    /**
     * Adds one (modulo 2^64) to each target word; with single-word CASes
     * a target named twice is incremented twice, which the MwCAS
     * implementations do not allow.
     */
    method Execute(ops: Operation)
      requires forall i :: 0 <= i < ops.targets.Length ==> ops.targets[i] in mem
      requires impl != SingleCAS ==> Distinct(ops.targets[..])
      modifies this`mem
      ensures AddedCounts(old(mem), mem, ops.targets[..])
    {
      if impl == SingleCAS {
        ExecuteSingleCAS(ops);
      } else {
        ExecuteMwCAS(ops);
        IncrementAllCounts(old(mem), ops.targets[..]);
      }
    }

    /**
     * One descriptor `(addr, v, v + 1)` per target, `v` read from memory,
     * executed until it succeeds.
     */
    method ExecuteMwCAS(ops: Operation)
      requires forall i :: 0 <= i < ops.targets.Length ==> ops.targets[i] in mem
      requires Distinct(ops.targets[..])
      modifies this`mem
      ensures mem == IncrementAll(old(mem), ops.targets[..])
    {
      var addrs := ops.targets[..];
      var done := false;
      while !done
        invariant !done ==> mem == old(mem)
        invariant done ==> mem == IncrementAll(old(mem), addrs)
        decreases if done then 0 else 1
      {
        var es: seq<Entry<Addr, Word>> := [];
        for i := 0 to ops.targets.Length
          invariant es == IncrementEntries(mem, addrs[..i])
        {
          var addr := ops.GetAddr(i);
          var oldVal := mem[addr];
          es := es + [Entry(addr, oldVal, Succ(oldVal))];
        }
        assert addrs[..ops.targets.Length] == addrs;
        IncrementSucceeds(mem, addrs);
        var r := MwCAS.Execute(mem, es);
        done := r.succeeded;
        if done {
          mem := r.mem;
        }
      }
    }

    /**
     * A single-word compare-and-swap: installs `desired` if the word at
     * `addr` holds `expected`; `current` is the value it held.
     */
    method CompareExchange(addr: Addr, expected: Word, desired: Word) returns (ok: bool, current: Word)
      requires addr in mem
      modifies this`mem
      ensures current == old(mem[addr])
      ensures ok <==> current == expected
      ensures mem == if ok then old(mem)[addr := desired] else old(mem)
    {
      current := mem[addr];
      ok := current == expected;
      if ok {
        mem := mem[addr := desired];
      }
    }

    /**
     * Each target in turn: read it, then CAS it from the value last seen
     * to that value's successor until the CAS succeeds.
     */
    method ExecuteSingleCAS(ops: Operation)
      requires forall i :: 0 <= i < ops.targets.Length ==> ops.targets[i] in mem
      modifies this`mem
      ensures AddedCounts(old(mem), mem, ops.targets[..])
    {
      var addrs := ops.targets[..];
      for i := 0 to ops.targets.Length
        invariant AddedCounts(old(mem), mem, addrs[..i])
      {
        var target := ops.GetAddr(i);
        ghost var start := mem;
        var oldVal := mem[target];
        var newVal := Succ(oldVal);
        var done := false;
        while !done
          invariant !done ==> mem == start && newVal == Succ(oldVal)
          invariant done ==> mem == start[target := Succ(start[target])]
          decreases if done then 0 else if mem[target] == oldVal then 1 else 2
        {
          var current;
          done, current := CompareExchange(target, oldVal, newVal);
          if !done {
            oldVal := current;
            newVal := Succ(oldVal);
          }
        }
        assert addrs[..i + 1] == addrs[..i] + [target];
        AddedCountsStep(old(mem), start, addrs[..i], target);
      }
      assert addrs[..ops.targets.Length] == addrs;
    }
  }
}
