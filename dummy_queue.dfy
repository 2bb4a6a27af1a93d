/**
 * The dummy-node FIFO queue the two MwCAS-based queues share
 * (src/queue/queue_pmwcas.hpp and src/queue/queue_microsoft_pmwcas.hpp).
 *
 * The head word names a dummy node whose value is not part of the queue;
 * the values of the nodes after it, up to the tail, are the contents. A
 * push links a new node after the tail and advances the tail in one MwCAS;
 * a pop moves the head to the dummy's successor, which becomes the new
 * dummy and whose value is returned. Both record the node in the caller's
 * temporary slot (push clears it, pop sets it to the old dummy) in the same
 * MwCAS, so a crash cannot leak the node.
 */
module DummyQueue {
  import opened MwCAS
  import opened Sorting
  import opened QueueHeap

  /** The head names the dummy, the tail the last node, and the list is linked. */
  ghost predicate Shape(mem: Memory, nodes: seq<Ptr>) {
    && |nodes| >= 1
    && Linked(mem, nodes)
    && Head in mem && Tail in mem
    && mem[Head] == nodes[0]
    && mem[Tail] == Last(nodes)
  }

  /**
   * Push's descriptor: the old tail's `next` from null to the new node, the
   * tail from the old tail to the new node, the slot from the new node to null.
   */
  function PushEntries(oldTail: Ptr, newNode: Ptr, tmp: Loc): seq<Entry<Loc, Ptr>> {
    [Entry(Next(oldTail), Null, newNode), Entry(Tail, oldTail, newNode), Entry(tmp, newNode, Null)]
  }

  /**
   * Pop's descriptor: the head from the old dummy to its successor, the
   * slot from null to the old dummy.
   */
  function PopEntries(oldHead: Ptr, newHead: Ptr, tmp: Loc): seq<Entry<Loc, Ptr>> {
    [Entry(Head, oldHead, newHead), Entry(tmp, Null, oldHead)]
  }

  /**
   * On a well-shaped queue, with the new node made (null `next`) and held
   * in the slot, the push descriptor read from memory succeeds: the node
   * is linked after the old tail and is the new tail, the slot is cleared,
   * and no other word changes.
   */
  lemma PushSucceeds(mem: Memory, nodes: seq<Ptr>, p: Ptr, tmp: Loc)
    requires Shape(mem, nodes)
    requires p != Null && p !in nodes
    requires Next(p) in mem && mem[Next(p)] == Null
    requires tmp.Tmp? && tmp in mem && mem[tmp] == p
    ensures DistinctAddrs(PushEntries(Last(nodes), p, tmp))
    ensures Execute(mem, PushEntries(Last(nodes), p, tmp)).succeeded
    ensures Shape(Execute(mem, PushEntries(Last(nodes), p, tmp)).mem, nodes + [p])
    ensures Execute(mem, PushEntries(Last(nodes), p, tmp)).mem.Keys == mem.Keys
    ensures Execute(mem, PushEntries(Last(nodes), p, tmp)).mem[tmp] == Null
    ensures OtherSlotsKept(mem, Execute(mem, PushEntries(Last(nodes), p, tmp)).mem, tmp)
  {
    var last := Last(nodes);
    var es := PushEntries(last, p, tmp);
    assert mem[Next(nodes[|nodes| - 1])] == Successor(nodes, |nodes| - 1);
    assert Matches(mem, es);
    var m := Execute(mem, es).mem;
    assert es[0].addr == Next(last) && es[1].addr == Tail && es[2].addr == tmp;
    assert m[Next(last)] == p && m[Tail] == p && m[tmp] == Null;
    forall l | l in mem && l != Next(last) && l != Tail && l != tmp
      ensures m[l] == mem[l]
    {
      assert !Targets(es, l);
    }
    forall i | 0 <= i < |nodes| - 1
      ensures Next(nodes[i]) in m && m[Next(nodes[i])] == mem[Next(nodes[i])]
    {
      assert nodes[i] != last;
    }
    assert m[Next(p)] == Null by {
      assert Next(p) != Next(last);
    }
    LinkedAppend(mem, nodes, p, m);
    assert (nodes + [p])[0] == nodes[0];
  }

  /**
   * On a well-shaped queue whose dummy has a successor, with the slot
   * null, the pop descriptor read from memory succeeds: the successor is
   * the new dummy, the slot holds the old one, and no other word changes.
   */
  lemma PopSucceeds(mem: Memory, nodes: seq<Ptr>, tmp: Loc)
    requires Shape(mem, nodes) && |nodes| >= 2
    requires tmp.Tmp? && tmp in mem && mem[tmp] == Null
    ensures mem[Next(nodes[0])] == nodes[1]
    ensures DistinctAddrs(PopEntries(nodes[0], nodes[1], tmp))
    ensures Execute(mem, PopEntries(nodes[0], nodes[1], tmp)).succeeded
    ensures Shape(Execute(mem, PopEntries(nodes[0], nodes[1], tmp)).mem, nodes[1..])
    ensures Execute(mem, PopEntries(nodes[0], nodes[1], tmp)).mem.Keys == mem.Keys
    ensures Execute(mem, PopEntries(nodes[0], nodes[1], tmp)).mem[tmp] == nodes[0]
    ensures OtherSlotsKept(mem, Execute(mem, PopEntries(nodes[0], nodes[1], tmp)).mem, tmp)
  {
    assert mem[Next(nodes[0])] == Successor(nodes, 0);
    var es := PopEntries(nodes[0], nodes[1], tmp);
    assert Matches(mem, es);
    var m := Execute(mem, es).mem;
    assert es[0].addr == Head && es[1].addr == tmp;
    assert m[Head] == nodes[1] && m[tmp] == nodes[0];
    forall l | l in mem && l != Head && l != tmp
      ensures m[l] == mem[l]
    {
      assert !Targets(es, l);
    }
    LinkedDrop(mem, nodes);
    LinkedFrame(mem, m, nodes[1..]);
    assert Last(nodes[1..]) == Last(nodes);
  }

  /** A queue whose dummy has no successor is empty. */
  lemma EmptyWhenDummyAlone(mem: Memory, nodes: seq<Ptr>)
    requires Shape(mem, nodes)
    ensures mem[Next(nodes[0])] == Null <==> |nodes| == 1
  {
    assert mem[Next(nodes[0])] == Successor(nodes, 0);
  }

  /**
   * The whole persistent state of a dummy-node queue: well-shaped, every
   * node made by the allocator, and `slotNum` temporary slots in the root.
   */
  ghost predicate Heap<T>(mem: Memory, values: map<Ptr, T>, nodes: seq<Ptr>, brk: Ptr, slotNum: nat) {
    && Shape(mem, nodes)
    && Allocated(mem, values, nodes, brk)
    && forall s: nat :: s < slotNum ==> Tmp(s) in mem
  }

  /**
   * A whole push: the new node is the allocator's next offset; after making
   * it, the descriptor built from the tail read from memory succeeds, and
   * the queue then has the new node last, the value appended to the
   * values, the slot cleared and every other slot as before.
   */
  lemma PushStep<T>(mem: Memory, values: map<Ptr, T>, nodes: seq<Ptr>, brk: Ptr, slotNum: nat, slot: nat, v: T)
    requires Heap(mem, values, nodes, brk, slotNum) && slot < slotNum
    ensures Made(mem, brk, slot)[Tail] == Last(nodes)
    ensures DistinctAddrs(PushEntries(Last(nodes), brk, Tmp(slot)))
    ensures Execute(Made(mem, brk, slot), PushEntries(Last(nodes), brk, Tmp(slot))).succeeded
    ensures var m := Execute(Made(mem, brk, slot), PushEntries(Last(nodes), brk, Tmp(slot))).mem;
      && Heap(m, values[brk := v], nodes + [brk], brk + 1, slotNum)
      && m[Tmp(slot)] == Null
      && OtherSlotsKept(mem, m, Tmp(slot))
    ensures Values(values[brk := v], nodes + [brk]) == Values(values, nodes) + [v]
  {
    Allocate(mem, values, nodes, brk, v);
    var made := Made(mem, brk, slot);
    LinkedFrame(mem, made, nodes);
    PushSucceeds(made, nodes, brk, Tmp(slot));
    var m := Execute(made, PushEntries(Last(nodes), brk, Tmp(slot))).mem;
    assert Allocated(m, values[brk := v], nodes + [brk], brk + 1);
  }

  /**
   * A whole pop: after nulling slot `slot`, the head still names the dummy,
   * whose `next` is null exactly when the queue is empty; otherwise the
   * descriptor built from the words read succeeds and leaves the queue
   * without its first value, with the old dummy in the slot and every
   * other slot as before.
   */
  lemma PopStep<T>(mem: Memory, values: map<Ptr, T>, nodes: seq<Ptr>, brk: Ptr, slotNum: nat, slot: nat)
    requires Heap(mem, values, nodes, brk, slotNum) && slot < slotNum
    ensures Heap(mem[Tmp(slot) := Null], values, nodes, brk, slotNum)
    ensures mem[Tmp(slot) := Null][Head] == nodes[0]
    ensures mem[Tmp(slot) := Null][Next(nodes[0])] == Null <==> |nodes| == 1
    ensures |nodes| >= 2 ==>
      && mem[Tmp(slot) := Null][Next(nodes[0])] == nodes[1]
      && DistinctAddrs(PopEntries(nodes[0], nodes[1], Tmp(slot)))
      && Execute(mem[Tmp(slot) := Null], PopEntries(nodes[0], nodes[1], Tmp(slot))).succeeded
      && var m := Execute(mem[Tmp(slot) := Null], PopEntries(nodes[0], nodes[1], Tmp(slot))).mem;
         && Heap(m, values, nodes[1..], brk, slotNum)
         && m[Tmp(slot)] == nodes[0]
         && OtherSlotsKept(mem, m, Tmp(slot))
         && Values(values, nodes[1..]) == Values(values, nodes)[1..]
  {
    var m0 := mem[Tmp(slot) := Null];
    LinkedFrame(mem, m0, nodes);
    assert Heap(m0, values, nodes, brk, slotNum);
    EmptyWhenDummyAlone(m0, nodes);
    if |nodes| >= 2 {
      PopUnlinks(m0, values, nodes, brk, slotNum, Tmp(slot));
      var m := Execute(m0, PopEntries(nodes[0], nodes[1], Tmp(slot))).mem;
      assert OtherSlotsKept(mem, m, Tmp(slot)) by {
        assert OtherSlotsKept(m0, m, Tmp(slot));
      }
    }
  }

  /**
   * The successful attempt of a pop, on a queue with at least one value
   * whose slot `tmp` is null: the queue loses its first value, and the
   * slot receives the old dummy node.
   */
  lemma PopUnlinks<T>(mem: Memory, values: map<Ptr, T>, nodes: seq<Ptr>, brk: Ptr, slotNum: nat, tmp: Loc)
    requires Heap(mem, values, nodes, brk, slotNum) && |nodes| >= 2
    requires tmp.Tmp? && tmp.slot < slotNum && mem[tmp] == Null
    ensures mem[Next(nodes[0])] == nodes[1]
    ensures DistinctAddrs(PopEntries(nodes[0], nodes[1], tmp))
    ensures Execute(mem, PopEntries(nodes[0], nodes[1], tmp)).succeeded
    ensures var m := Execute(mem, PopEntries(nodes[0], nodes[1], tmp)).mem;
      && Heap(m, values, nodes[1..], brk, slotNum)
      && m[tmp] == nodes[0]
      && OtherSlotsKept(mem, m, tmp)
      && Values(values, nodes[1..]) == Values(values, nodes)[1..]
  {
    PopSucceeds(mem, nodes, tmp);
    var m := Execute(mem, PopEntries(nodes[0], nodes[1], tmp)).mem;
    assert Allocated(m, values, nodes[1..], brk);
  }
}
