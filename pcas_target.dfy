/**
 * The array benchmark target over a plain word array in persistent memory
 * (src/array/pmwcas_target.cpp with its header), executed with one of
 * three implementations: the PMwCAS library, the Microsoft PMwCAS
 * library, or a single-word persistent CAS (PCAS) written out here.
 *
 * PCAS keeps a word durable with the dirty flag: a new value is first
 * installed with bit 63 set, then flushed, then the flag is cleared; a
 * reader that meets a dirty word flushes it and clears the flag itself
 * before using the value. Flushes (`pmem_persist`) are recorded in a ghost
 * log so that the contracts can say what was made durable.
 */
module PcasTarget {
  import opened Words
  import opened MwCAS
  import opened Increment
  import opened Sorting
  import opened Competitor
  import VectorOperation

  /** One flush of a word to persistent memory, with the content flushed. */
  datatype Flush = Flush(addr: nat, content: Word)

  /** The words `start` after `e` increments of the `targets`. */
  ghost predicate IncrementedBy(s: seq<Word>, start: seq<Word>, targets: seq<nat>, e: nat) {
    |s| == |start|
    && forall i :: 0 <= i < |start| ==>
      s[i] == if i in targets then (start[i] + e) % WordLimit else start[i]
  }

  /** One atomic increment of all targets adds one to the count. */
  lemma IncrementStep(start: seq<Word>, prev: seq<Word>, next: seq<Word>, targets: seq<nat>, e: nat)
    requires IncrementedBy(prev, start, targets, e)
    requires |next| == |prev|
    requires forall i :: 0 <= i < |prev| ==> next[i] == if i in targets then Succ(prev[i]) else prev[i]
    ensures IncrementedBy(next, start, targets, e + 1)
  {
    forall i | 0 <= i < |start|
      ensures next[i] == if i in targets then (start[i] + e + 1) % WordLimit else start[i]
    {
      IncrementOne(start[i], prev[i], next[i], e, i in targets);
    }
  }

  /** One word of IncrementStep: a target `e` increments on gets one more. */
  lemma IncrementOne(w: Word, prev: Word, next: Word, e: nat, target: bool)
    requires prev == if target then (w + e) % WordLimit else w
    requires next == if target then Succ(prev) else prev
    ensures next == if target then (w + e + 1) % WordLimit else w
  {
    if target {
      SuccOfSum(w, e);
    }
  }

  /** One PCAS increment of a clean single target adds one to the count. */
  lemma PcasStep(start: seq<Word>, prev: seq<Word>, next: seq<Word>, targets: seq<nat>, e: nat)
    requires IncrementedBy(prev, start, targets, e)
    requires |targets| == 1 && targets[0] < |prev|
    requires start[targets[0]] + e + 1 < DirtyFlag
    requires next == prev[targets[0] := Succ(Clean(prev[targets[0]]))]
    ensures IncrementedBy(next, start, targets, e + 1)
  {
    var p := targets[0];
    assert forall i :: i in targets <==> i == p;
    assert prev[p] == start[p] + e;
    SuccOfSum(start[p], e);
  }

  class PMwCASTarget {
    const impl: Implementation

    /** The array of `array_cap` target words (the pool's root object). */
    const arr: array<Word>

    /** Every flush so far, oldest first. */
    ghost var flushes: seq<Flush>

    /** A target over `arrayCap` words, zeroed as the pool's root object is. */
    constructor (impl: Implementation, arrayCap: nat)
      ensures this.impl == impl
      ensures fresh(arr) && arr.Length == arrayCap
      ensures forall i :: 0 <= i < arrayCap ==> arr[i] == 0
      ensures flushes == []
    {
      this.impl := impl;
      arr := new Word[arrayCap](_ => 0);
      flushes := [];
    }

    /** The current value of the word at `pos`. */
    function GetValue(pos: nat): Word
      reads arr
      requires pos < arr.Length
    {
      arr[pos]
    }

    /**
     * `compare_exchange_strong`: installs `desired` if the word holds
     * `expected`; `current` is the value the word held.
     */
    method CompareExchange(addr: nat, expected: Word, desired: Word) returns (ok: bool, current: Word)
      requires addr < arr.Length
      modifies arr
      ensures current == old(arr[addr])
      ensures ok <==> current == expected
      ensures arr[..] == if ok then old(arr[..])[addr := desired] else old(arr[..])
    {
      current := arr[addr];
      ok := current == expected;
      if ok {
        arr[addr] := desired;
      }
    }

    /** `f` is one of the flushes after the first `n`. */
    ghost predicate FlushedSince(n: nat, f: Flush)
      reads this
    {
      exists k :: n <= k < |flushes| && flushes[k] == f
    }

    /** `pmem_persist` of one word: its current content becomes durable. */
    ghost method Persist(addr: nat)
      requires addr < arr.Length
      modifies this`flushes
      ensures flushes == old(flushes) + [Flush(addr, arr[addr])]
    {
      flushes := flushes + [Flush(addr, arr[addr])];
    }

    /**
     * Given `word`, a value read from `addr`: if it is dirty, makes the
     * word's current value durable, clears its flag in memory, and returns
     * the clean value. A clean `word` is returned as it is.
     */
    method PersistDirtyValueIfNeeded(addr: nat, word: Word) returns (r: Word)
      requires addr < arr.Length
      modifies arr, this`flushes
      ensures !IsDirty(r)
      ensures !IsDirty(word) ==> r == word && arr[..] == old(arr[..]) && flushes == old(flushes)
      ensures IsDirty(word) ==> r == Clean(old(arr[addr])) && arr[..] == old(arr[..])[addr := r]
      ensures IsDirty(word) && IsDirty(old(arr[addr])) ==>
        FlushedSince(|old(flushes)|, Flush(addr, old(arr[addr])))
      ensures old(flushes) <= flushes
    {
      var dirty := word;
      r := word;
      while IsDirty(r)
        invariant r == dirty
        invariant arr[..] == old(arr[..])
        invariant old(flushes) <= flushes
        invariant !IsDirty(word) ==> r == word && flushes == old(flushes)
        invariant r == word || (r == old(arr[addr]) && FlushedSince(|old(flushes)|, Flush(addr, r)))
        decreases if arr[addr] == dirty then 0 else 1
      {
        Persist(addr);
        assert flushes[|flushes| - 1] == Flush(addr, old(arr[addr]));
        r := Clean(r);
        var ok, current := CompareExchange(addr, dirty, r);
        if ok {
          break;
        }
        dirty := current;
        r := dirty;
      }
    }

    /** Reads the word at `addr`, making a dirty value durable first. */
    method PCASRead(addr: nat) returns (r: Word)
      requires addr < arr.Length
      modifies arr, this`flushes
      ensures r == Clean(old(arr[addr]))
      ensures arr[..] == old(arr[..])[addr := r]
      ensures IsDirty(old(arr[addr])) ==> FlushedSince(|old(flushes)|, Flush(addr, old(arr[addr])))
      ensures old(flushes) <= flushes
    {
      var word := arr[addr];
      r := PersistDirtyValueIfNeeded(addr, word);
    }

    /**
     * Persistent compare-and-swap of one word. It succeeds when the word
     * holds `expected`, directly or as a dirty value; the new value is then
     * installed dirty, flushed, and published clean. Otherwise `actual` is
     * the clean value found, which differs from `expected`.
     */
    method PersistentCAS(addr: nat, expected: Word, desired: Word) returns (ok: bool, actual: Word)
      requires addr < arr.Length
      modifies arr, this`flushes
      ensures ok <==> old(arr[addr]) == expected || Clean(old(arr[addr])) == expected
      ensures ok ==> actual == expected && arr[..] == old(arr[..])[addr := desired]
      ensures ok ==> |flushes| > 0 && flushes[|flushes| - 1] == Flush(addr, Mark(desired))
      ensures !ok ==> actual == Clean(old(arr[addr])) && actual != expected
      ensures !ok ==> arr[..] == old(arr[..])[addr := actual]
      ensures old(flushes) <= flushes
    {
      var dirtyV := Mark(desired);
      var exp := expected;
      while true
        invariant exp == expected
        invariant old(flushes) <= flushes
        invariant arr[..] == old(arr[..])
          || (IsDirty(old(arr[addr])) && Clean(old(arr[addr])) == expected
              && arr[..] == old(arr[..])[addr := expected])
        decreases if arr[addr] == exp then 0 else 1
      {
        var swapped, current := CompareExchange(addr, exp, dirtyV);
        if swapped {
          break;
        }
        exp := PersistDirtyValueIfNeeded(addr, current);
        if exp != expected {
          return false, exp;
        }
      }
      Persist(addr);
      var _, _ := CompareExchange(addr, dirtyV, desired);
      ok, actual := true, expected;
    }

    /**
     * Increments every target position of `ops` atomically and returns the
     * number of executed operations (1). With PCAS an operation has a
     * single target, whose value is read clean before it is incremented.
     */
    method Execute(ops: VectorOperation.Operation) returns (n: nat)
      requires ops.Valid()
      requires forall k :: 0 <= k < |ops.targets| ==> ops.targets[k] < arr.Length
      requires impl == PCAS ==> |ops.targets| == 1
      modifies arr, this`flushes
      ensures n == 1
      ensures impl != PCAS ==> arr[..] == IncrementAt(old(arr[..]), ops.targets)
      ensures impl == PCAS ==>
        arr[..] == old(arr[..])[ops.targets[0] := Succ(Clean(old(arr[ops.targets[0]])))]
      ensures old(flushes) <= flushes
    {
      if impl == PCAS {
        ExecutePCAS(ops.GetPositions()[0]);
      } else {
        // PMwCAS and Microsoft PMwCAS issue the same descriptor; the
        // latter also holds an epoch guard around its retries.
        ExecuteMwCAS(ops.GetPositions());
      }
      n := 1;
    }

    /**
     * The test driver's loop: `count` executions of one operation leave
     * every target `count` increments later and every other word unchanged.
     * PCAS needs its target to stay below the dirty flag throughout.
     */
    method ExecuteRepeatedly(ops: VectorOperation.Operation, count: nat) returns (executed: nat)
      requires ops.Valid()
      requires forall k :: 0 <= k < |ops.targets| ==> ops.targets[k] < arr.Length
      requires impl == PCAS ==> |ops.targets| == 1 && arr[ops.targets[0]] + count < DirtyFlag
      modifies arr, this`flushes
      ensures executed == count
      ensures IncrementedBy(arr[..], old(arr[..]), ops.targets, count)
    {
      ghost var start := arr[..];
      ghost var targets := ops.targets;
      executed := 0;
      while executed < count
        invariant executed <= count
        invariant ops.targets == targets && ops.Valid()
        invariant IncrementedBy(arr[..], start, targets, executed)
      {
        ghost var prev := arr[..];
        var n := Execute(ops);
        if impl == PCAS {
          PcasStep(start, prev, arr[..], targets, executed);
        } else {
          IncrementStep(start, prev, arr[..], targets, executed);
        }
        executed := executed + n;
      }
    }

    /** Builds the increment descriptor and retries it until it succeeds. */
    method ExecuteMwCAS(positions: seq<nat>)
      requires Distinct(positions)
      requires forall k :: 0 <= k < |positions| ==> positions[k] < arr.Length
      modifies arr
      ensures arr[..] == IncrementAt(old(arr[..]), positions)
    {
      var done := false;
      while !done
        invariant !done ==> arr[..] == old(arr[..])
        invariant done ==> arr[..] == IncrementAt(old(arr[..]), positions)
        decreases if done then 0 else 1
      {
        var es: seq<Entry<nat, Word>> := [];
        var k := 0;
        while k < |positions|
          invariant 0 <= k <= |positions|
          invariant es == IncrementEntries(View(arr[..]), positions[..k])
        {
          var pos := positions[k];
          var oldVal := arr[pos];
          es := es + [Entry(pos, oldVal, Succ(oldVal))];
          k := k + 1;
        }
        assert positions[..k] == positions;
        IncrementSucceeds(View(arr[..]), positions);
        ghost var before := arr[..];
        done := OnArray(arr, es);
        ViewInjective(arr[..], IncrementAt(before, positions));
      }
    }

    /**
     * Reads the target clean and retries a persistent CAS from the value
     * read to its successor until one succeeds.
     */
    method ExecutePCAS(pos: nat)
      requires pos < arr.Length
      modifies arr, this`flushes
      ensures arr[..] == old(arr[..])[pos := Succ(Clean(old(arr[pos])))]
      ensures old(flushes) <= flushes
    {
      var oldVal := PCASRead(pos);
      var done := false;
      while !done
        invariant !done ==> arr[..] == old(arr[..])[pos := oldVal] && oldVal == Clean(old(arr[pos]))
        invariant done ==> arr[..] == old(arr[..])[pos := Succ(Clean(old(arr[pos])))]
        invariant old(flushes) <= flushes
        decreases if done then 0 else 1
      {
        done, oldVal := PersistentCAS(pos, oldVal, Succ(oldVal));
      }
    }
  }
}
