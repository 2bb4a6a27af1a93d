/**
 * The multi-word compare-and-swap that every MwCAS-based target calls.
 *
 * The descriptor libraries themselves (the volatile MwCAS, the persistent
 * PMwCAS, the Microsoft PMwCAS, and the AOPT variant) are not part of this
 * model; what they promise their caller is modelled once, here: a
 * descriptor is a sequence of (address, expected, desired) entries, and
 * executing it either finds every address holding its expected value, and
 * then installs every desired value and reports success, or changes nothing
 * and reports failure.
 */
module MwCAS {
  /** One target word of a descriptor. */
  datatype Entry<L, W> = Entry(addr: L, expected: W, desired: W)

  /** The result of executing a descriptor: success and the new memory. */
  datatype Outcome<L, W> = Outcome(succeeded: bool, mem: map<L, W>)

  /** No address is named twice (the libraries reject duplicates). */
  predicate DistinctAddrs<L(==), W>(es: seq<Entry<L, W>>) {
    forall i, j :: 0 <= i < j < |es| ==> es[i].addr != es[j].addr
  }

  /** `l` is one of the descriptor's addresses. */
  predicate Targets<L(==), W>(es: seq<Entry<L, W>>, l: L) {
    exists k :: 0 <= k < |es| && es[k].addr == l
  }

  /** Every address is present in memory and holds its expected value. */
  predicate Matches<L, W(==)>(mem: map<L, W>, es: seq<Entry<L, W>>) {
    forall k :: 0 <= k < |es| ==> es[k].addr in mem && mem[es[k].addr] == es[k].expected
  }

  /** The memory after writing each desired value in turn. */
  function Install<L, W>(mem: map<L, W>, es: seq<Entry<L, W>>): map<L, W>
    decreases |es|
  {
    if es == [] then mem
    else Install(mem, es[..|es| - 1])[es[|es| - 1].addr := es[|es| - 1].desired]
  }

  /** Installing writes every target address with its desired value. */
  lemma {:induction false} InstallWritesTargets<L, W>(mem: map<L, W>, es: seq<Entry<L, W>>, k: nat)
    requires DistinctAddrs(es)
    requires k < |es|
    ensures es[k].addr in Install(mem, es)
    ensures Install(mem, es)[es[k].addr] == es[k].desired
    decreases |es|
  {
    if k < |es| - 1 {
      var init := es[..|es| - 1];
      assert init[k] == es[k];
      InstallWritesTargets(mem, init, k);
    }
  }

  /** Installing leaves every address that is not a target as it was. */
  lemma {:induction false} InstallKeepsOthers<L, W>(mem: map<L, W>, es: seq<Entry<L, W>>, l: L)
    requires !Targets(es, l)
    ensures l in Install(mem, es) <==> l in mem
    ensures l in mem ==> Install(mem, es)[l] == mem[l]
    decreases |es|
  {
    if es != [] {
      var init := es[..|es| - 1];
      forall k | 0 <= k < |init|
        ensures init[k].addr != l
      {
        assert init[k] == es[k];
      }
      assert es[|es| - 1].addr != l;
      InstallKeepsOthers(mem, init, l);
    }
  }

  /** Installing into a memory that holds every target adds no address. */
  lemma {:induction false} InstallKeepsDomain<L, W>(mem: map<L, W>, es: seq<Entry<L, W>>)
    requires forall k :: 0 <= k < |es| ==> es[k].addr in mem
    ensures Install(mem, es).Keys == mem.Keys
    decreases |es|
  {
    if es != [] {
      InstallKeepsDomain(mem, es[..|es| - 1]);
    }
  }

  /**
   * Executing a descriptor is all-or-nothing: it succeeds exactly when
   * every target holds its expected value; then every target holds its
   * desired value and every other word is unchanged, and otherwise memory
   * is unchanged.
   */
  function Execute<L, W(==)>(mem: map<L, W>, es: seq<Entry<L, W>>): (r: Outcome<L, W>)
    requires DistinctAddrs(es)
    ensures r.succeeded <==> Matches(mem, es)
    ensures !r.succeeded ==> r.mem == mem
    ensures r.succeeded ==> r.mem.Keys == mem.Keys
    ensures r.succeeded ==> forall k :: 0 <= k < |es| ==> r.mem[es[k].addr] == es[k].desired
    ensures r.succeeded ==> forall l :: l in mem && !Targets(es, l) ==> r.mem[l] == mem[l]
  {
    if Matches(mem, es) then
      var m := Install(mem, es);
      InstallKeepsDomain(mem, es);
      assert forall k :: 0 <= k < |es| ==> m[es[k].addr] == es[k].desired by {
        forall k | 0 <= k < |es| {
          InstallWritesTargets(mem, es, k);
        }
      }
      assert forall l :: l in mem && !Targets(es, l) ==> m[l] == mem[l] by {
        forall l | l in mem && !Targets(es, l) {
          InstallKeepsOthers(mem, es, l);
        }
      }
      Outcome(true, m)
    else
      Outcome(false, mem)
  }

  /** The words of an array as a memory indexed by position. */
  function View<W>(s: seq<W>): (m: map<nat, W>)
    ensures forall i: nat :: i in m <==> i < |s|
    ensures forall i :: 0 <= i < |s| ==> m[i] == s[i]
  {
    map i | 0 <= i < |s| :: s[i]
  }

  /** Two arrays with the same view are equal. */
  lemma ViewInjective<W>(s: seq<W>, t: seq<W>)
    requires View(s) == View(t)
    ensures s == t
  {
    assert |s| in View(s) <==> |s| in View(t);
    assert |t| in View(s) <==> |t| in View(t);
    forall i | 0 <= i < |s| ensures s[i] == t[i] {
      assert View(s)[i] == View(t)[i];
    }
  }

  /** Updating one element of an array updates its view at that index. */
  lemma ViewUpdate<W>(s: seq<W>, i: nat, v: W)
    requires i < |s|
    ensures View(s[i := v]) == View(s)[i := v]
  {
  }

  /**
   * A descriptor executed on the words of an array: an array position is
   * an address. The new array is the one `Execute` gives.
   */
  method OnArray<W(==)>(a: array<W>, es: seq<Entry<nat, W>>) returns (ok: bool)
    requires DistinctAddrs(es)
    modifies a
    ensures ok == Execute(View(old(a[..])), es).succeeded
    ensures View(a[..]) == Execute(View(old(a[..])), es).mem
  {
    ghost var before := View(a[..]);
    var k := 0;
    ok := true;
    while k < |es|
      invariant 0 <= k <= |es|
      invariant a[..] == old(a[..])
      invariant ok == Matches(before, es[..k])
    {
      var e := es[k];
      if !(e.addr < a.Length && a[e.addr] == e.expected) {
        ok := false;
      }
      k := k + 1;
    }
    assert es[..|es|] == es;
    if ok {
      k := 0;
      while k < |es|
        invariant 0 <= k <= |es|
        invariant View(a[..]) == Install(before, es[..k])
      {
        var e := es[k];
        assert es[..k + 1][..k] == es[..k];
        ViewUpdate(a[..], e.addr, e.desired);
        a[e.addr] := e.desired;
        k := k + 1;
      }
    }
  }
}
