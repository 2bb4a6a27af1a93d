/**
 * The random draws the operation generators consume. A generator builds
 * each operation from the entries of a table (the target fields, or the
 * shuffled positions) that a skewed distribution picks, redrawing whenever
 * an entry repeats, so an operation is complete once its draws have picked
 * as many distinct entries as it has targets.
 *
 * The random engine is abstracted into a finite sequence of drawn table
 * indices. The functions here say which entries a run of draws picks,
 * where the shortest run picking `count` distinct entries ends, and where
 * the draws of `n` operations, taken one after another, end.
 */
module Draws {
  import opened Wrappers
  import opened Sorting

  /** The table entries that the draws `draws[d..e]` pick. */
  ghost function Picked<T>(table: seq<T>, draws: seq<nat>, d: nat, e: nat): set<T>
  {
    set k | d <= k < e && k < |draws| && draws[k] < |table| :: table[draws[k]]
  }

  /** No draws pick nothing. */
  lemma PickedNone<T>(table: seq<T>, draws: seq<nat>, d: nat)
    ensures Picked(table, draws, d, d) == {}
  {
  }

  /** Splitting a run of draws at `e` splits what it picks. */
  lemma PickedSplit<T>(table: seq<T>, draws: seq<nat>, d: nat, e: nat, f: nat)
    requires d <= e <= f
    ensures Picked(table, draws, d, f) == Picked(table, draws, d, e) + Picked(table, draws, e, f)
  {
    forall x | x in Picked(table, draws, d, f)
      ensures x in Picked(table, draws, d, e) + Picked(table, draws, e, f)
    {
      var k :| d <= k < f && k < |draws| && draws[k] < |table| && table[draws[k]] == x;
      if k < e {
        assert x in Picked(table, draws, d, e);
      } else {
        assert x in Picked(table, draws, e, f);
      }
    }
  }

  /** One draw picks the entry at its index. */
  lemma PickedOne<T>(table: seq<T>, draws: seq<nat>, e: nat)
    requires e < |draws| && draws[e] < |table|
    ensures Picked(table, draws, e, e + 1) == {table[draws[e]]}
  {
    assert table[draws[e]] in Picked(table, draws, e, e + 1);
  }

  /** One more draw adds the entry it picks. */
  lemma PickedStep<T>(table: seq<T>, draws: seq<nat>, d: nat, e: nat)
    requires d <= e < |draws| && draws[e] < |table|
    ensures Picked(table, draws, d, e + 1) == Picked(table, draws, d, e) + {table[draws[e]]}
  {
    PickedSplit(table, draws, d, e, e + 1);
    PickedOne(table, draws, e);
  }

  /** A longer run picks at least the entries a shorter one does. */
  lemma PickedGrows<T>(table: seq<T>, draws: seq<nat>, d: nat, e: nat, f: nat)
    requires d <= e <= f
    ensures Picked(table, draws, d, e) <= Picked(table, draws, d, f)
    ensures |Picked(table, draws, d, e)| <= |Picked(table, draws, d, f)|
  {
    PickedSplit(table, draws, d, e, f);
    SubsetCardinality(Picked(table, draws, d, e), Picked(table, draws, d, f));
  }

  /**
   * The end of the shortest run of draws from `d` on that picks `count`
   * distinct entries, looking from `e` on; None when the draws run out
   * first.
   */
  ghost function FillEnd<T>(table: seq<T>, draws: seq<nat>, count: nat, d: nat, e: nat): (r: Option<nat>)
    requires d <= e <= |draws|
    ensures r.Some? ==> e <= r.value <= |draws| && |Picked(table, draws, d, r.value)| >= count
    decreases |draws| - e
  {
    if |Picked(table, draws, d, e)| >= count then Some(e)
    else if e == |draws| then None
    else FillEnd(table, draws, count, d, e + 1)
  }

  /**
   * The run found is the shortest: every run from `d` that ends before it,
   * and at or after `e`, picks fewer than `count` entries.
   */
  lemma {:induction false} FillEndIsShortest<T>(table: seq<T>, draws: seq<nat>, count: nat, d: nat, e: nat)
    requires d <= e <= |draws|
    ensures FillEnd(table, draws, count, d, e).Some? ==>
      forall f :: e <= f < FillEnd(table, draws, count, d, e).value ==> |Picked(table, draws, d, f)| < count
    decreases |draws| - e
  {
    if |Picked(table, draws, d, e)| < count && e < |draws| {
      FillEndIsShortest(table, draws, count, d, e + 1);
    }
  }

  /** The draws run out first exactly when all of them pick fewer than `count` entries. */
  lemma {:induction false} FillEndRunsOut<T>(table: seq<T>, draws: seq<nat>, count: nat, d: nat, e: nat)
    requires d <= e <= |draws|
    ensures FillEnd(table, draws, count, d, e).None? <==> |Picked(table, draws, d, |draws|)| < count
    decreases |draws| - e
  {
    PickedGrows(table, draws, d, e, |draws|);
    if |Picked(table, draws, d, e)| < count && e < |draws| {
      FillEndRunsOut(table, draws, count, d, e + 1);
    }
  }

  /**
   * Draws that add no new entry do not move the end: when the run to `a`
   * picks fewer than `count` entries and the draws from `a` to `b` pick
   * only entries it has, looking from `a` or from `b` finds the same end.
   */
  lemma {:induction false} FillEndSkips<T>(table: seq<T>, draws: seq<nat>, count: nat, d: nat, a: nat, b: nat)
    requires d <= a <= b <= |draws|
    requires |Picked(table, draws, d, a)| < count
    requires Picked(table, draws, a, b) <= Picked(table, draws, d, a)
    ensures FillEnd(table, draws, count, d, a) == FillEnd(table, draws, count, d, b)
    decreases b - a
  {
    if a < b {
      PickedSplit(table, draws, d, a, a + 1);
      PickedSplit(table, draws, a, a + 1, b);
      assert Picked(table, draws, d, a + 1) == Picked(table, draws, d, a);
      FillEndSkips(table, draws, count, d, a + 1, b);
    }
  }

  /**
   * Draws from `a` on that add no new entry to the fewer than `count` the
   * run to `a` picks leave the run incomplete when they run out.
   */
  lemma RunsOutAfter<T>(table: seq<T>, draws: seq<nat>, count: nat, d: nat, a: nat)
    requires d <= a <= |draws|
    requires |Picked(table, draws, d, a)| < count
    requires Picked(table, draws, a, |draws|) <= Picked(table, draws, d, a)
    ensures FillEnd(table, draws, count, d, a) == None
  {
    FillEndSkips(table, draws, count, d, a, |draws|);
    PickedSplit(table, draws, d, a, |draws|);
    assert Picked(table, draws, d, |draws|) == Picked(table, draws, d, a);
  }

  /**
   * Draws from `a` to `b - 1` that add no new entry to the fewer than
   * `count` the run to `a` picks, and then draw `b - 1`, add the entry of
   * that last draw alone and do not move the end.
   */
  lemma AddsLastDraw<T>(table: seq<T>, draws: seq<nat>, count: nat, d: nat, a: nat, b: nat)
    requires d <= a < b <= |draws| && draws[b - 1] < |table|
    requires |Picked(table, draws, d, a)| < count
    requires Picked(table, draws, a, b - 1) <= Picked(table, draws, d, a)
    ensures FillEnd(table, draws, count, d, a) == FillEnd(table, draws, count, d, b)
    ensures Picked(table, draws, d, b) == Picked(table, draws, d, a) + {table[draws[b - 1]]}
  {
    FillEndSkips(table, draws, count, d, a, b - 1);
    PickedSplit(table, draws, d, a, b - 1);
    assert Picked(table, draws, d, b - 1) == Picked(table, draws, d, a);
    assert FillEnd(table, draws, count, d, b - 1) == FillEnd(table, draws, count, d, b);
    PickedStep(table, draws, d, b - 1);
  }

  /** Every entry a run of draws picks is an entry of the table. */
  lemma PickedWithin<T>(table: seq<T>, draws: seq<nat>, d: nat, e: nat, x: T)
    requires x in Picked(table, draws, d, e)
    ensures x in table
  {
  }

  /**
   * One more slot filled: slots `s` holding the fewer than `count` entries
   * the run to `a` picks, joined by the entry of draw `b - 1` after draws
   * that picked only entries already in `s`, hold what the run to `b`
   * picks, and the end is not moved.
   */
  lemma FillsOneMore<T>(table: seq<T>, draws: seq<nat>, count: nat, d: nat, a: nat, b: nat, s: seq<T>)
    requires d <= a < b <= |draws| && draws[b - 1] < |table|
    requires Elements(s) == Picked(table, draws, d, a) && |Elements(s)| < count
    requires Picked(table, draws, a, b - 1) <= Elements(s)
    ensures FillEnd(table, draws, count, d, a) == FillEnd(table, draws, count, d, b)
    ensures Elements(s + [table[draws[b - 1]]]) == Picked(table, draws, d, b)
  {
    AddsLastDraw(table, draws, count, d, a, b);
    assert Elements(s + [table[draws[b - 1]]]) == Elements(s) + {table[draws[b - 1]]};
  }

  /**
   * Where the draws of `n` operations end, each operation taking the
   * shortest run that completes it from the draws after the one before;
   * None when the draws run out first.
   */
  ghost function Batches<T>(table: seq<T>, draws: seq<nat>, count: nat, d: nat, n: nat): Option<nat>
    requires d <= |draws|
    decreases n
  {
    if n == 0 then Some(d)
    else match FillEnd(table, draws, count, d, d)
      case None => None
      case Some(e) => Batches(table, draws, count, e, n - 1)
  }
}
