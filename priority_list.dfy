/**
 * The sorted linked list the two priority queues share
 * (src/queue/priority_queue_pmwcas.hpp and
 * src/priority_queue/priority_queue_microsoft_pmwcas.hpp).
 *
 * The head word names the first node, or is null when the queue is empty;
 * there is no dummy. The values run from the largest down: a push walks
 * past every node whose value is greater than the new one and links the
 * new node in front of the first node that is not, so a pop of the first
 * node returns a largest value. Both record the node in the caller's
 * temporary slot in the same MwCAS as the link, as the FIFO queues do.
 */
module PriorityList {
  import opened Words
  import opened MwCAS
  import opened Sorting
  import opened QueueHeap

  /** Every value is at least every value after it. */
  ghost predicate NonIncreasing(s: seq<Word>) {
    forall i, j :: 0 <= i < j < |s| ==> s[i] >= s[j]
  }

  /** `s` with `v` put in front of its first element that is not greater than `v`. */
  function Insert(s: seq<Word>, v: Word): (r: seq<Word>)
    ensures |r| == |s| + 1
  {
    if s == [] then [v]
    else if s[0] > v then [s[0]] + Insert(s[1..], v)
    else [v] + s
  }

  /** Inserting adds `v` and removes nothing. */
  lemma {:induction false} InsertMultiset(s: seq<Word>, v: Word)
    ensures multiset(Insert(s, v)) == multiset(s) + multiset{v}
  {
    if s != [] && s[0] > v {
      InsertMultiset(s[1..], v);
      assert s == [s[0]] + s[1..];
    }
  }

  /**
   * Insert puts `v` at index `k` when everything before `k` is greater than
   * `v` and the element at `k`, if any, is not.
   */
  lemma {:induction false} InsertAt(s: seq<Word>, v: Word, k: nat)
    requires k <= |s|
    requires forall j :: 0 <= j < k ==> s[j] > v
    requires k < |s| ==> s[k] <= v
    ensures Insert(s, v) == s[..k] + [v] + s[k..]
  {
    if k > 0 {
      InsertAt(s[1..], v, k - 1);
      assert s[1..][..k - 1] == s[1..k];
      assert s[..k] == [s[0]] + s[1..k];
      assert s[1..][k - 1..] == s[k..];
    }
  }

  /** Inserting a value no greater than `b` into values no greater than `b` keeps them so. */
  lemma {:induction false} InsertBounded(s: seq<Word>, v: Word, b: Word)
    requires forall i :: 0 <= i < |s| ==> s[i] <= b
    requires v <= b
    ensures forall i :: 0 <= i < |Insert(s, v)| ==> Insert(s, v)[i] <= b
  {
    if s != [] && s[0] > v {
      InsertBounded(s[1..], v, b);
    }
  }

  /** Insert keeps a non-increasing sequence non-increasing. */
  lemma {:induction false} InsertKeepsOrder(s: seq<Word>, v: Word)
    requires NonIncreasing(s)
    ensures NonIncreasing(Insert(s, v))
  {
    var r := Insert(s, v);
    if s != [] && s[0] > v {
      var t := s[1..];
      assert NonIncreasing(t) by {
        forall i, j | 0 <= i < j < |t| ensures t[i] >= t[j] {
          assert t[i] == s[i + 1] && t[j] == s[j + 1];
        }
      }
      InsertKeepsOrder(t, v);
      InsertBounded(t, v, s[0]);
      var u := Insert(t, v);
      assert r == [s[0]] + u;
      forall i, j | 0 <= i < j < |r| ensures r[i] >= r[j] {
        assert r[j] == u[j - 1];
        if i > 0 {
          assert r[i] == u[i - 1];
        }
      }
    } else {
      assert r == [v] + s;
      forall i, j | 0 <= i < j < |r| ensures r[i] >= r[j] {
        assert r[j] == s[j - 1];
        if i > 0 {
          assert r[i] == s[i - 1];
        }
      }
    }
  }

  /** What is left after removing the first value is still non-increasing. */
  lemma DropKeepsOrder(s: seq<Word>)
    requires NonIncreasing(s) && s != []
    ensures NonIncreasing(s[1..])
  {
    var t := s[1..];
    forall i, j | 0 <= i < j < |t| ensures t[i] >= t[j] {
      assert t[i] == s[i + 1] && t[j] == s[j + 1];
    }
  }

  /** The first value of a non-increasing sequence is a largest one. */
  lemma FrontIsMaximum(s: seq<Word>)
    requires NonIncreasing(s) && s != []
    ensures forall x :: x in s ==> s[0] >= x
  {
    forall x | x in s ensures s[0] >= x {
      var m :| 0 <= m < |s| && s[m] == x;
      if m > 0 {
        assert s[0] >= s[m];
      }
    }
  }

  /**
   * Push's search stops at index `k`: every node before it holds a value
   * greater than `v`, and the node at `k`, if there is one, does not.
   */
  ghost predicate StopsAt(values: map<Ptr, Word>, nodes: seq<Ptr>, k: nat, v: Word) {
    && k <= |nodes|
    && (forall j :: 0 <= j < k ==> nodes[j] in values && values[nodes[j]] > v)
    && (k < |nodes| ==> nodes[k] in values && values[nodes[k]] <= v)
  }

  /**
   * The values after a push whose search stopped at index `k`, past every
   * greater value and at the first value that is not: they are the old
   * values with `v` inserted, still non-increasing, and one `v` more.
   */
  lemma InsertedValues(values: map<Ptr, Word>, nodes: seq<Ptr>, p: Ptr, v: Word, k: nat)
    requires forall i :: 0 <= i < |nodes| ==> nodes[i] in values
    requires p !in nodes && StopsAt(values, nodes, k, v)
    requires NonIncreasing(Values(values, nodes))
    ensures Values(values[p := v], nodes[..k] + [p] + nodes[k..]) == Insert(Values(values, nodes), v)
    ensures NonIncreasing(Values(values[p := v], nodes[..k] + [p] + nodes[k..]))
    ensures multiset(Values(values[p := v], nodes[..k] + [p] + nodes[k..])) == multiset(Values(values, nodes)) + multiset{v}
  {
    var vs := Values(values, nodes);
    InsertAt(vs, v, k);
    ValuesInsert(values, nodes, p, v, k);
    InsertKeepsOrder(vs, v);
    InsertMultiset(vs, v);
  }

  /** The head names the first node, or null, and the list is linked. */
  ghost predicate Shape(mem: Memory, nodes: seq<Ptr>) {
    && Linked(mem, nodes)
    && Head in mem
    && mem[Head] == First(nodes)
  }

  /** The whole persistent state: well-shaped, allocated, with `slotNum` slots. */
  ghost predicate Heap<T>(mem: Memory, values: map<Ptr, T>, nodes: seq<Ptr>, brk: Ptr, slotNum: nat) {
    && Shape(mem, nodes)
    && Allocated(mem, values, nodes, brk)
    && forall s: nat :: s < slotNum ==> Tmp(s) in mem
  }

  /** The word that links to the `k`-th node: the head, or the `next` of node `k - 1`. */
  function LinkAddr(nodes: seq<Ptr>, k: nat): Loc
    requires k <= |nodes|
  {
    if k == 0 then Head else Next(nodes[k - 1])
  }

  /** Each link word holds the node it links to, or null at the end. */
  lemma LinkAddrReads(mem: Memory, nodes: seq<Ptr>, k: nat)
    requires Shape(mem, nodes) && k <= |nodes|
    ensures LinkAddr(nodes, k) in mem && mem[LinkAddr(nodes, k)] == First(nodes[k..])
  {
    if k > 0 {
      assert mem[Next(nodes[k - 1])] == Successor(nodes, k - 1);
    }
  }

  /** Every link word of the list holds the node it links to, or null at the end. */
  ghost predicate LinksRead(mem: Memory, nodes: seq<Ptr>) {
    forall k :: 0 <= k <= |nodes| ==> LinkAddr(nodes, k) in mem && mem[LinkAddr(nodes, k)] == First(nodes[k..])
  }

  /** A linked list reads as a list through its link words. */
  lemma ShapeLinksRead(mem: Memory, nodes: seq<Ptr>)
    requires Shape(mem, nodes)
    ensures LinksRead(mem, nodes)
  {
    forall k | 0 <= k <= |nodes|
      ensures LinkAddr(nodes, k) in mem && mem[LinkAddr(nodes, k)] == First(nodes[k..])
    {
      LinkAddrReads(mem, nodes, k);
    }
  }

  /**
   * Push's descriptor: the link word from the node it held to the new
   * node, the slot from the new node to null.
   */
  function InsertEntries(at: Loc, next: Ptr, newNode: Ptr, tmp: Loc): seq<Entry<Loc, Ptr>> {
    [Entry(at, next, newNode), Entry(tmp, newNode, Null)]
  }

  /**
   * Pop's descriptor: the head from the first node to the second, the first
   * node's `next` kept as it is (so no push can link behind a node being
   * removed), the slot from null to the first node.
   */
  function RemoveEntries(oldHead: Ptr, newHead: Ptr, tmp: Loc): seq<Entry<Loc, Ptr>> {
    [Entry(Head, oldHead, newHead), Entry(Next(oldHead), newHead, newHead), Entry(tmp, Null, oldHead)]
  }

  /** The words after making the new node and storing its `next`, before the descriptor runs. */
  function Stored(mem: Memory, brk: Ptr, slot: nat, next: Ptr): Memory {
    Made(mem, brk, slot)[Next(brk) := next]
  }

  /**
   * After making node `brk` in slot `slot`, every link word of the list
   * reads as before, and none of them is the new node's `next`.
   */
  lemma MadeReads<T>(mem: Memory, values: map<Ptr, T>, nodes: seq<Ptr>, brk: Ptr, slotNum: nat, slot: nat, v: T)
    requires Heap(mem, values, nodes, brk, slotNum) && slot < slotNum
    ensures brk != Null && brk !in nodes
    ensures Shape(Made(mem, brk, slot), nodes)
    ensures Allocated(Made(mem, brk, slot), values[brk := v], nodes, brk + 1)
    ensures forall k :: 0 <= k <= |nodes| ==> LinkAddr(nodes, k) != Next(brk)
  {
    Allocate(mem, values, nodes, brk, v);
    LinkedFrame(mem, Made(mem, brk, slot), nodes);
  }

  /**
   * A whole push whose search stopped at index `k`: with the new node's
   * `next` set to the node at `k`, the descriptor succeeds and the new node
   * sits at index `k`, the slot is cleared and every other slot is kept.
   */
  lemma InsertStep<T>(mem: Memory, values: map<Ptr, T>, nodes: seq<Ptr>, brk: Ptr, slotNum: nat, slot: nat, v: T, k: nat)
    requires Heap(mem, values, nodes, brk, slotNum) && slot < slotNum && k <= |nodes|
    ensures DistinctAddrs(InsertEntries(LinkAddr(nodes, k), First(nodes[k..]), brk, Tmp(slot)))
    ensures Execute(Stored(mem, brk, slot, First(nodes[k..])), InsertEntries(LinkAddr(nodes, k), First(nodes[k..]), brk, Tmp(slot))).succeeded
    ensures var m := Execute(Stored(mem, brk, slot, First(nodes[k..])), InsertEntries(LinkAddr(nodes, k), First(nodes[k..]), brk, Tmp(slot))).mem;
      && Heap(m, values[brk := v], nodes[..k] + [brk] + nodes[k..], brk + 1, slotNum)
      && m[Tmp(slot)] == Null
      && OtherSlotsKept(mem, m, Tmp(slot))
    ensures Values(values[brk := v], nodes[..k] + [brk] + nodes[k..])
      == Values(values, nodes)[..k] + [v] + Values(values, nodes)[k..]
  {
    MadeReads(mem, values, nodes, brk, slotNum, slot, v);
    var next := First(nodes[k..]);
    var stored := Stored(mem, brk, slot, next);
    LinkedFrame(Made(mem, brk, slot), stored, nodes);
    InsertSucceeds(stored, nodes, k, brk, Tmp(slot));
    var m := Execute(stored, InsertEntries(LinkAddr(nodes, k), next, brk, Tmp(slot))).mem;
    InsertKeepsAllocated(m, values, nodes, brk, v, k);
    ValuesInsert(values, nodes, brk, v, k);
  }

  /**
   * On a list where the new node `p` is made with its `next` holding the
   * node at index `k`, and the slot `tmp` holds `p`, the insert descriptor
   * read from memory succeeds: `p` is linked in at index `k`, the slot is
   * cleared, and no other word changes.
   */
  lemma InsertSucceeds(stored: Memory, nodes: seq<Ptr>, k: nat, p: Ptr, tmp: Loc)
    requires Shape(stored, nodes) && k <= |nodes|
    requires p != Null && p !in nodes
    requires Next(p) in stored && stored[Next(p)] == First(nodes[k..])
    requires tmp.Tmp? && tmp in stored && stored[tmp] == p
    ensures DistinctAddrs(InsertEntries(LinkAddr(nodes, k), First(nodes[k..]), p, tmp))
    ensures Execute(stored, InsertEntries(LinkAddr(nodes, k), First(nodes[k..]), p, tmp)).succeeded
    ensures var m := Execute(stored, InsertEntries(LinkAddr(nodes, k), First(nodes[k..]), p, tmp)).mem;
      && Shape(m, nodes[..k] + [p] + nodes[k..])
      && m.Keys == stored.Keys
      && m[tmp] == Null
      && OtherSlotsKept(stored, m, tmp)
  {
    var next := First(nodes[k..]);
    var at := LinkAddr(nodes, k);
    LinkAddrReads(stored, nodes, k);
    var es := InsertEntries(at, next, p, tmp);
    assert Matches(stored, es);
    var m := Execute(stored, es).mem;
    assert es[0].addr == at && es[1].addr == tmp;
    forall l | l in stored && l != at && l != tmp
      ensures m[l] == stored[l]
    {
      assert !Targets(es, l);
    }
    forall i | 0 <= i < |nodes| && i != k - 1
      ensures Next(nodes[i]) in m && m[Next(nodes[i])] == stored[Next(nodes[i])]
    {
      assert Next(nodes[i]) != at;
    }
    assert m[Next(p)] == next;
    LinkedInsert(stored, nodes, k, p, m);
    var ext := nodes[..k] + [p] + nodes[k..];
    assert m[Head] == First(ext);
  }

  /** Linking the new node `brk` in at index `k` keeps every node allocated. */
  lemma InsertKeepsAllocated<T>(m: Memory, values: map<Ptr, T>, nodes: seq<Ptr>, brk: Ptr, v: T, k: nat)
    requires brk > Null && k <= |nodes|
    requires forall i :: 0 <= i < |nodes| ==> nodes[i] < brk && nodes[i] in values
    requires forall p: Ptr :: Next(p) in m ==> p < brk + 1
    ensures Allocated(m, values[brk := v], nodes[..k] + [brk] + nodes[k..], brk + 1)
  {
    var ext := nodes[..k] + [brk] + nodes[k..];
    forall i | 0 <= i < |ext| ensures ext[i] < brk + 1 && ext[i] in values[brk := v] {
      if i < k {
        assert ext[i] == nodes[i];
      } else if i > k {
        assert ext[i] == nodes[i - 1];
      }
    }
  }

  /** The values of the list with node `p` linked in at index `k`. */
  lemma ValuesInsert<T>(values: map<Ptr, T>, nodes: seq<Ptr>, p: Ptr, v: T, k: nat)
    requires forall i :: 0 <= i < |nodes| ==> nodes[i] in values
    requires p !in nodes && k <= |nodes|
    ensures Values(values[p := v], nodes[..k] + [p] + nodes[k..])
      == Values(values, nodes)[..k] + [v] + Values(values, nodes)[k..]
  {
    var ext := nodes[..k] + [p] + nodes[k..];
    var vs, ws := Values(values, nodes), Values(values[p := v], ext);
    forall i | 0 <= i < |ws| ensures ws[i] == (vs[..k] + [v] + vs[k..])[i] {
      if i < k {
        assert ext[i] == nodes[i];
      } else if i > k {
        assert ext[i] == nodes[i - 1];
      }
    }
  }

  /**
   * A whole push on a sorted list: when the search stopped at index `k`,
   * past every greater value and at the first value that is not, the
   * descriptor leaves a sorted list with the new node at `k`, holding the
   * old values with `v` inserted, the slot cleared and every other slot
   * kept.
   */
  lemma PushStep(mem: Memory, values: map<Ptr, Word>, nodes: seq<Ptr>, brk: Ptr, slotNum: nat, slot: nat, v: Word, k: nat,
                  m: Memory, values': map<Ptr, Word>, nodes': seq<Ptr>)
    requires Heap(mem, values, nodes, brk, slotNum) && slot < slotNum && k <= |nodes|
    requires NonIncreasing(Values(values, nodes))
    requires values' == values[brk := v] && nodes' == nodes[..k] + [brk] + nodes[k..]
    requires StopsAt(values, nodes, k, v)
    requires DistinctAddrs(InsertEntries(LinkAddr(nodes, k), First(nodes[k..]), brk, Tmp(slot)))
    requires m == Execute(Stored(mem, brk, slot, First(nodes[k..])), InsertEntries(LinkAddr(nodes, k), First(nodes[k..]), brk, Tmp(slot))).mem
    ensures Heap(m, values', nodes', brk + 1, slotNum)
    ensures m[Tmp(slot)] == Null
    ensures OtherSlotsKept(mem, m, Tmp(slot))
    ensures Values(values', nodes') == Insert(Values(values, nodes), v)
    ensures NonIncreasing(Values(values', nodes'))
    ensures multiset(Values(values', nodes')) == multiset(Values(values, nodes)) + multiset{v}
  {
    MadeReads(mem, values, nodes, brk, slotNum, slot, v);
    InsertStep(mem, values, nodes, brk, slotNum, slot, v, k);
    InsertedValues(values, nodes, brk, v, k);
  }

  /**
   * A whole pop: after nulling slot `slot`, the head is null exactly when
   * the queue is empty; otherwise the descriptor built from the words read
   * succeeds and leaves the queue without its first value, with the removed
   * node in the slot and every other slot as before.
   */
  lemma RemoveStep<T>(mem: Memory, values: map<Ptr, T>, nodes: seq<Ptr>, brk: Ptr, slotNum: nat, slot: nat)
    requires Heap(mem, values, nodes, brk, slotNum) && slot < slotNum
    ensures Heap(mem[Tmp(slot) := Null], values, nodes, brk, slotNum)
    ensures mem[Tmp(slot) := Null][Head] == First(nodes)
    ensures First(nodes) == Null <==> nodes == []
    ensures nodes != [] ==>
      && mem[Tmp(slot) := Null][Next(nodes[0])] == First(nodes[1..])
      && DistinctAddrs(RemoveEntries(nodes[0], First(nodes[1..]), Tmp(slot)))
      && Execute(mem[Tmp(slot) := Null], RemoveEntries(nodes[0], First(nodes[1..]), Tmp(slot))).succeeded
      && var m := Execute(mem[Tmp(slot) := Null], RemoveEntries(nodes[0], First(nodes[1..]), Tmp(slot))).mem;
         && Heap(m, values, nodes[1..], brk, slotNum)
         && m[Tmp(slot)] == nodes[0]
         && OtherSlotsKept(mem, m, Tmp(slot))
         && Values(values, nodes[1..]) == Values(values, nodes)[1..]
  {
    var m0 := mem[Tmp(slot) := Null];
    LinkedFrame(mem, m0, nodes);
    assert Heap(m0, values, nodes, brk, slotNum);
    if nodes != [] {
      assert m0[Next(nodes[0])] == Successor(nodes, 0);
      var es := RemoveEntries(nodes[0], First(nodes[1..]), Tmp(slot));
      assert Matches(m0, es);
      var m := Execute(m0, es).mem;
      assert es[0].addr == Head && es[1].addr == Next(nodes[0]) && es[2].addr == Tmp(slot);
      forall l | l in m0 && l != Head && l != Next(nodes[0]) && l != Tmp(slot)
        ensures m[l] == m0[l]
      {
        assert !Targets(es, l);
      }
      LinkedDrop(m0, nodes);
      LinkedFrame(m0, m, nodes[1..]);
      assert Allocated(m, values, nodes[1..], brk);
    }
  }
}
