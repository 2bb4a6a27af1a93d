/**
 * Sorting as the operations use it (`std::sort` over target positions or
 * target addresses): an in-place ascending sort on an array, specified by
 * sortedness and by preserving the multiset of elements.
 */
module Sorting {
  /** Ascending order. */
  predicate Sorted(s: seq<nat>) {
    forall i, j :: 0 <= i < j < |s| ==> s[i] <= s[j]
  }

  /** Strictly ascending order. */
  predicate StrictlyAscending(s: seq<nat>) {
    forall i, j :: 0 <= i < j < |s| ==> s[i] < s[j]
  }

  /** No element occurs twice. */
  predicate Distinct<T(==)>(s: seq<T>) {
    forall i, j :: 0 <= i < j < |s| ==> s[i] != s[j]
  }

  /** A sequence without duplicates holds every value at most once. */
  lemma {:induction false} DistinctMultiplicity<T>(s: seq<T>)
    ensures Distinct(s) <==> forall v :: multiset(s)[v] <= 1
  {
    if s != [] {
      var init, last := s[..|s| - 1], s[|s| - 1];
      assert s == init + [last];
      DistinctMultiplicity(init);
      if Distinct(s) {
        assert last !in init by {
          forall k | 0 <= k < |init| ensures init[k] != last {
            assert init[k] == s[k];
          }
        }
        assert Distinct(init) by {
          forall i, j | 0 <= i < j < |init| ensures init[i] != init[j] {
            assert init[i] == s[i] && init[j] == s[j];
          }
        }
      } else {
        var i, j :| 0 <= i < j < |s| && s[i] == s[j];
        if j < |s| - 1 {
          assert init[i] == init[j];
          assert !Distinct(init);
          var v :| multiset(init)[v] > 1;
          assert multiset(s)[v] > 1;
        } else {
          assert s[i] in init by {
            assert init[i] == s[i];
          }
          assert multiset(s)[last] == multiset(init)[last] + 1;
        }
      }
    }
  }

  /** Reordering a sequence without duplicates keeps it without duplicates. */
  lemma DistinctPermutation<T>(s: seq<T>, t: seq<T>)
    requires multiset(s) == multiset(t)
    requires Distinct(s)
    ensures Distinct(t)
  {
    DistinctMultiplicity(s);
    DistinctMultiplicity(t);
  }

  /** A sorted sequence without duplicates is strictly ascending. */
  lemma SortedDistinctIsStrict(s: seq<nat>)
    requires Sorted(s) && Distinct(s)
    ensures StrictlyAscending(s)
  {
  }

  /**
   * A sorted arrangement of a multiset is unique: two sorted sequences
   * with the same elements are equal.
   */
  lemma {:induction false} SortedPermutationUnique(s: seq<nat>, t: seq<nat>)
    requires Sorted(s) && Sorted(t)
    requires multiset(s) == multiset(t)
    ensures s == t
    decreases |s|
  {
    if s != [] && t != [] {
      SortedSameHead(s, t);
      SortedPermutationUnique(s[1..], t[1..]);
      assert s == [s[0]] + s[1..] && t == [t[0]] + t[1..];
    } else if s != [] || t != [] {
      assert |multiset(s)| == |s| && |multiset(t)| == |t|;
    }
  }

  /**
   * Two non-empty sorted sequences with the same elements start with the
   * same element, and their tails are sorted with the same elements.
   */
  lemma SortedSameHead(s: seq<nat>, t: seq<nat>)
    requires Sorted(s) && Sorted(t) && s != [] && t != []
    requires multiset(s) == multiset(t)
    ensures s[0] == t[0]
    ensures Sorted(s[1..]) && Sorted(t[1..])
    ensures multiset(s[1..]) == multiset(t[1..])
  {
    assert s[0] in multiset(t);
    assert t[0] in multiset(s);
    SortedHeadIsLeast(t, s[0]);
    SortedHeadIsLeast(s, t[0]);
    MultisetOfTail(s);
    MultisetOfTail(t);
    SortedTail(s);
    SortedTail(t);
  }

  /** The first element of a sorted sequence is at most each of its elements. */
  lemma SortedHeadIsLeast(s: seq<nat>, x: nat)
    requires Sorted(s) && x in s
    ensures s[0] <= x
  {
  }

  /** The tail of a sorted sequence is sorted. */
  lemma SortedTail(s: seq<nat>)
    requires Sorted(s) && s != []
    ensures Sorted(s[1..])
  {
    forall i, j | 0 <= i < j < |s| - 1 ensures s[1..][i] <= s[1..][j] {
      assert s[1..][i] == s[i + 1] && s[1..][j] == s[j + 1];
    }
  }

  /** The elements of a sequence are its first element and those of its tail. */
  lemma MultisetOfTail<T>(s: seq<T>)
    requires s != []
    ensures multiset(s[1..]) == multiset(s) - multiset{s[0]}
  {
    assert s == [s[0]] + s[1..];
    assert multiset(s) == multiset{s[0]} + multiset(s[1..]);
  }

  /** The identity sequence 0, 1, ..., n - 1. */
  function Iota(n: nat): (r: seq<nat>)
    ensures |r| == n
    ensures forall i :: 0 <= i < n ==> r[i] == i
  {
    seq(n, i => i)
  }

  /**
   * Sorting any arrangement of the positions 0 .. n - 1 gives the identity
   * sequence back.
   */
  lemma SortedArrangementOfIota(s: seq<nat>, n: nat)
    requires multiset(s) == multiset(Iota(n))
    requires Sorted(s)
    ensures s == Iota(n)
  {
    SortedPermutationUnique(s, Iota(n));
  }

  /** The set of elements of a sequence. */
  function Elements<T>(s: seq<T>): set<T> {
    set x | x in s
  }

  /** The elements of a sequence without duplicates are as many as its length. */
  lemma {:induction false} DistinctCardinality<T>(s: seq<T>)
    requires Distinct(s)
    ensures |Elements(s)| == |s|
  {
    if s != [] {
      var init, last := s[..|s| - 1], s[|s| - 1];
      assert Distinct(init) by {
        forall i, j | 0 <= i < j < |init| ensures init[i] != init[j] {
          assert init[i] == s[i] && init[j] == s[j];
        }
      }
      DistinctCardinality(init);
      assert last !in init by {
        forall k | 0 <= k < |init| ensures init[k] != last {
          assert init[k] == s[k];
        }
      }
      assert s == init + [last];
      assert Elements(s) == Elements(init) + {last};
    }
  }

  /** A subset has no more elements than its superset. */
  lemma {:induction false} SubsetCardinality<T>(a: set<T>, b: set<T>)
    requires a <= b
    ensures |a| <= |b|
    decreases |a|
  {
    if a != {} {
      var x :| x in a;
      SubsetCardinality(a - {x}, b - {x});
    }
  }

  /**
   * Pigeonhole: a sequence without duplicates whose elements are all below
   * `bound` has at most `bound` elements.
   */
  lemma DistinctBelowBound(s: seq<nat>, bound: nat)
    requires Distinct(s)
    requires forall x :: x in s ==> x < bound
    ensures |s| <= bound
  {
    DistinctCardinality(s);
    DistinctCardinality(Iota(bound));
    forall k | 0 <= k < |s| ensures s[k] in Iota(bound) {
      assert s[k] in s;
      assert Iota(bound)[s[k]] == s[k];
    }
    SubsetCardinality(Elements(s), Elements(Iota(bound)));
  }

  /** Every element of an arrangement of 0 .. n - 1 is below n. */
  lemma ArrangementOfIotaBelow(s: seq<nat>, n: nat, x: nat)
    requires multiset(s) == multiset(Iota(n))
    requires x in s
    ensures x < n
  {
    assert x in multiset(Iota(n));
  }

  /** Exchanges two elements of `a`. */
  method Swap(a: array<nat>, p: nat, q: nat)
    requires p < a.Length && q < a.Length
    modifies a
    ensures a[..] == old(a[..])[p := old(a[q])][q := old(a[p])]
    ensures multiset(a[..]) == multiset(old(a[..]))
  {
    a[p], a[q] := a[q], a[p];
  }

  /**
   * Moves `a[i]` left into the sorted prefix `a[..i]`, so that `a[..i + 1]`
   * is sorted; the elements after `i` stay where they are.
   */
  method InsertIntoPrefix(a: array<nat>, i: nat)
    requires i < a.Length
    requires Sorted(a[..i])
    modifies a
    ensures Sorted(a[..i + 1])
    ensures a[i + 1..] == old(a[i + 1..])
    ensures multiset(a[..]) == multiset(old(a[..]))
  {
    var j := i;
    while j > 0 && a[j - 1] > a[j]
      invariant 0 <= j <= i
      invariant forall m, n :: 0 <= m < n <= i && m != j && n != j ==> a[m] <= a[n]
      invariant forall n :: j < n <= i ==> a[j] <= a[n]
      invariant a[i + 1..] == old(a[i + 1..])
      invariant multiset(a[..]) == multiset(old(a[..]))
    {
      Swap(a, j - 1, j);
      j := j - 1;
    }
  }

  /** Sorts `a` in place into ascending order. */
  method SortInPlace(a: array<nat>)
    modifies a
    ensures Sorted(a[..])
    ensures multiset(a[..]) == multiset(old(a[..]))
  {
    var i := 0;
    while i < a.Length
      invariant 0 <= i <= a.Length
      invariant Sorted(a[..i])
      invariant multiset(a[..]) == multiset(old(a[..]))
    {
      InsertIntoPrefix(a, i);
      i := i + 1;
    }
    assert a[..a.Length] == a[..];
  }
}
