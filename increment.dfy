/**
 * The operation every array and word benchmark target performs: add one
 * to each target word, atomically across the targets. This module gives
 * the descriptor the targets build for it and proves that, executed on
 * the memory it was read from, the descriptor succeeds and increments
 * exactly its targets.
 */
module Increment {
  import opened Words
  import opened MwCAS
  import opened Sorting

  /** Each target word after one increment; every other word unchanged. */
  function IncrementAll<L(==)>(mem: map<L, Word>, addrs: seq<L>): map<L, Word>
  {
    map l | l in mem :: if l in addrs then Succ(mem[l]) else mem[l]
  }

  /** The descriptor `(addr, v, v + 1)` for each target, `v` read from `mem`. */
  function IncrementEntries<L(==)>(mem: map<L, Word>, addrs: seq<L>): (es: seq<Entry<L, Word>>)
    requires forall k :: 0 <= k < |addrs| ==> addrs[k] in mem
    ensures |es| == |addrs|
    ensures forall k :: 0 <= k < |addrs| ==>
      es[k] == Entry(addrs[k], mem[addrs[k]], Succ(mem[addrs[k]]))
  {
    seq(|addrs|, k requires 0 <= k < |addrs| => Entry(addrs[k], mem[addrs[k]], Succ(mem[addrs[k]])))
  }

  /**
   * A descriptor read from the current memory, on distinct targets,
   * succeeds and leaves every target incremented and every other word as
   * it was.
   */
  lemma IncrementSucceeds<L>(mem: map<L, Word>, addrs: seq<L>)
    requires forall k :: 0 <= k < |addrs| ==> addrs[k] in mem
    requires Distinct(addrs)
    ensures DistinctAddrs(IncrementEntries(mem, addrs))
    ensures Execute(mem, IncrementEntries(mem, addrs)) == Outcome(true, IncrementAll(mem, addrs))
  {
    var es := IncrementEntries(mem, addrs);
    var r := Execute(mem, es);
    assert r.succeeded;
    forall l | l in mem
      ensures r.mem[l] == IncrementAll(mem, addrs)[l]
    {
      if l in addrs {
        var k :| 0 <= k < |addrs| && addrs[k] == l;
        assert es[k].addr == l;
      } else {
        assert !Targets(es, l);
      }
    }
  }

  /** Increments the listed positions of a sequence of words. */
  function IncrementAt(s: seq<Word>, positions: seq<nat>): (r: seq<Word>)
    ensures |r| == |s|
    ensures forall i :: 0 <= i < |s| ==> r[i] == if i in positions then Succ(s[i]) else s[i]
    ensures View(r) == IncrementAll(View(s), positions)
  {
    seq(|s|, i requires 0 <= i < |s| => if i in positions then Succ(s[i]) else s[i])
  }

  /**
   * The words after incrementing the listed positions one after another,
   * as a lock-protected loop does; a position listed twice is incremented
   * twice.
   */
  function IncrementEach(s: seq<Word>, positions: seq<nat>): (r: seq<Word>)
    requires forall k :: 0 <= k < |positions| ==> positions[k] < |s|
    ensures |r| == |s|
    decreases |positions|
  {
    if positions == [] then s
    else
      var t := IncrementEach(s, positions[..|positions| - 1]);
      var p := positions[|positions| - 1];
      t[p := Succ(t[p])]
  }

  /**
   * Incrementing one after another adds to each word, modulo 2^64, the
   * number of times its position is listed.
   */
  lemma {:induction false} IncrementEachCounts(s: seq<Word>, positions: seq<nat>, i: nat)
    requires forall k :: 0 <= k < |positions| ==> positions[k] < |s|
    requires i < |s|
    ensures IncrementEach(s, positions)[i] == (s[i] + multiset(positions)[i]) % WordLimit
    decreases |positions|
  {
    if positions != [] {
      var init, p := positions[..|positions| - 1], positions[|positions| - 1];
      assert positions == init + [p];
      assert multiset(positions) == multiset(init) + multiset{p};
      IncrementEachCounts(s, init, i);
      if p == i {
        var before: multiset<nat> := multiset(init);
        SuccOfSum(s[i], before[i]);
      }
    }
  }

  /**
   * On distinct positions, incrementing one after another gives the same
   * words as incrementing all positions at once.
   */
  lemma IncrementEachDistinct(s: seq<Word>, positions: seq<nat>)
    requires forall k :: 0 <= k < |positions| ==> positions[k] < |s|
    requires Distinct(positions)
    ensures IncrementEach(s, positions) == IncrementAt(s, positions)
  {
    DistinctMultiplicity(positions);
    forall i | 0 <= i < |s|
      ensures IncrementEach(s, positions)[i] == IncrementAt(s, positions)[i]
    {
      IncrementEachCounts(s, positions, i);
      assert multiset(positions)[i] == if i in positions then 1 else 0;
    }
  }

  /**
   * `after` holds the words of `before`, each increased modulo 2^64 by the
   * number of times its address is listed.
   */
  ghost predicate AddedCounts<L>(before: map<L, Word>, after: map<L, Word>, addrs: seq<L>) {
    && after.Keys == before.Keys
    && forall l :: l in before ==> after[l] == (before[l] + multiset(addrs)[l]) % WordLimit
  }

  /** Incrementing distinct addresses at once adds one to each of them. */
  lemma IncrementAllCounts<L>(mem: map<L, Word>, addrs: seq<L>)
    requires Distinct(addrs)
    ensures AddedCounts(mem, IncrementAll(mem, addrs), addrs)
  {
    DistinctMultiplicity(addrs);
    forall l | l in mem
      ensures IncrementAll(mem, addrs)[l] == (mem[l] + multiset(addrs)[l]) % WordLimit
    {
      assert multiset(addrs)[l] == if l in addrs then 1 else 0;
    }
  }

  /** One more increment of a listed address keeps the count exact. */
  lemma AddedCountsStep<L>(before: map<L, Word>, mid: map<L, Word>, addrs: seq<L>, a: L)
    requires AddedCounts(before, mid, addrs)
    requires a in mid
    ensures AddedCounts(before, mid[a := Succ(mid[a])], addrs + [a])
  {
    assert multiset(addrs + [a]) == multiset(addrs) + multiset{a};
    var counts: multiset<L> := multiset(addrs);
    SuccOfSum(before[a], counts[a]);
  }
}
