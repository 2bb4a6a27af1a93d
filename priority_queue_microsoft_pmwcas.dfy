/**
 * The persistent priority queue on Microsoft's PMwCAS
 * (src/priority_queue/priority_queue_microsoft_pmwcas.hpp): the same sorted
 * linked list and descriptors as the priority queue on the authors' PMwCAS;
 * it differs in the descriptor library, which adds an epoch guard around
 * each attempt, and in taking a node page back from the garbage collector
 * when one is free.
 *
 * The descriptor library, its epoch guards, the garbage collector (and so
 * the reuse of a reclaimed page, which here is a fresh allocation) and the
 * recovery of an existing pool are not part of this model; a descriptor
 * behaves as `MwCAS.Execute` says.
 */
module PriorityQueueMicrosoftPMwCAS {
  import opened Words
  import opened Wrappers
  import opened MwCAS
  import opened QueueHeap
  import opened PriorityList
  import opened Reservation

  class PriorityQueueWithMicrosoftPMwCAS {
    /** The pool's pointer words. */
    var mem: Memory

    /** The value of each node made. */
    var values: map<Ptr, Word>

    /** The allocator's next free offset. */
    var brk: Ptr

    /** The nodes from the head, largest value first. */
    ghost var nodes: seq<Ptr>

    /** `reserve_arr_`: which temporary slots a thread has claimed. */
    const reserveArr: array<bool>

    /** The calling thread's `thread_local` holder of its temporary slot. */
    var cache: ElementHolder?<Loc>

    ghost predicate Valid()
      reads this, reserveArr
    {
      && Heap(mem, values, nodes, brk, reserveArr.Length)
      && NonIncreasing(Values(values, nodes))
      && reserveArr.Length > 0
      && (forall s :: 0 <= s < reserveArr.Length ==> reserveArr[s] == (cache != null && cache.pos == s))
      && (cache != null ==>
            cache.reservedArr == reserveArr && cache.pos < reserveArr.Length && cache.Get() == Tmp(cache.pos))
    }

    /** The values from the head, largest first. */
    ghost function Contents(): seq<Word>
      reads this, reserveArr
      requires Valid()
    {
      Values(values, nodes)
    }

    /**
     * `CreateQueuePool`: a new pool whose head is null; all `maxThreadNum`
     * slots are null and unclaimed.
     */
    constructor (maxThreadNum: nat)
      requires maxThreadNum > 0
      ensures Valid() && Contents() == []
      ensures mem[Head] == Null
      ensures fresh(reserveArr) && reserveArr.Length == maxThreadNum
    {
      mem := (map l | l in Slots(maxThreadNum) :: Null)[Head := Null];
      values := map[];
      brk := 1;
      nodes := [];
      reserveArr := new bool[maxThreadNum](_ => false);
      cache := null;
    }

    /**
     * The caller's temporary slot: the cached one, or else the first
     * unclaimed slot, which is claimed and cached.
     */
    method ReserveNodeAddress() returns (tmp: Loc)
      requires Valid()
      modifies this, reserveArr
      ensures Valid()
      ensures cache != null && tmp == Tmp(cache.pos)
      ensures old(cache) != null ==> cache == old(cache)
      ensures mem == old(mem) && values == old(values) && brk == old(brk) && nodes == old(nodes)
    {
      assert !reserveArr[0] || cache != null;
      var holder := Reservation.ReserveNodeAddress(reserveArr, Slots(reserveArr.Length), cache);
      cache := holder;
      tmp := holder.Get();
    }

    /**
     * Makes a node for `value` in the caller's slot, walks from the head
     * past every node whose value is greater, sets the new node's `next` to
     * the node reached, and links the new node in with one Microsoft PMwCAS that also
     * clears the slot, retried from the same link word until it succeeds.
     */
    method Push(value: Word)
      requires Valid()
      modifies this, reserveArr
      ensures Valid()
      ensures Contents() == Insert(old(Contents()), value)
      ensures multiset(Contents()) == multiset(old(Contents())) + multiset{value}
      ensures cache != null && mem[Tmp(cache.pos)] == Null
      ensures OtherSlotsKept(old(mem), mem, Tmp(cache.pos))
    {
      var tmp := ReserveNodeAddress();
      PushNode(tmp, value);
    }

    /** Push once the caller's slot `tmp` is known. */
    method PushNode(tmp: Loc, value: Word)
      requires Heap(mem, values, nodes, brk, reserveArr.Length) && NonIncreasing(Values(values, nodes))
      requires tmp.Tmp? && tmp.slot < reserveArr.Length
      modifies this`mem, this`values, this`brk, this`nodes
      ensures Heap(mem, values, nodes, brk, reserveArr.Length) && NonIncreasing(Values(values, nodes))
      ensures Values(values, nodes) == Insert(old(Values(values, nodes)), value)
      ensures multiset(Values(values, nodes)) == multiset(old(Values(values, nodes))) + multiset{value}
      ensures mem[tmp] == Null
      ensures OtherSlotsKept(old(mem), mem, tmp)
    {
      ghost var before, before_values, slot := mem, values, tmp.slot;
      var newPtr := brk;
      mem, values, brk := mem[Next(newPtr) := Null][tmp := newPtr], values[newPtr := value], brk + 1;
      MadeReads(before, before_values, nodes, newPtr, reserveArr.Length, slot, value);
      ghost var k := LinkNode(newPtr, tmp, value, before);
      ghost var inserted := nodes[..k] + [newPtr] + nodes[k..];
      PushStep(before, before_values, nodes, newPtr, reserveArr.Length, slot, value, k, mem, values, inserted);
      nodes := inserted;
    }

    /**
     * The link step of Push: searches from the link word reached so far,
     * stores the node found there as the new node's `next`, and runs the
     * descriptor that links the new node into that word and clears its
     * slot, searching again from the same word until the descriptor
     * succeeds. `k` is the index the search stopped at.
     */
    method LinkNode(newPtr: Ptr, tmp: Loc, value: Word, ghost before: Memory) returns (ghost k: nat)
      requires Shape(mem, nodes) && Next(newPtr) in mem
      requires tmp.Tmp? && mem == Made(before, newPtr, tmp.slot)
      requires forall i :: 0 <= i < |nodes| ==> nodes[i] != Null && nodes[i] in values
      requires forall j :: 0 <= j <= |nodes| ==> LinkAddr(nodes, j) != Next(newPtr)
      modifies this`mem
      ensures StopsAt(values, nodes, k, value)
      ensures DistinctAddrs(InsertEntries(LinkAddr(nodes, k), First(nodes[k..]), newPtr, tmp))
      ensures mem == Execute(Stored(before, newPtr, tmp.slot, First(nodes[k..])),
                             InsertEntries(LinkAddr(nodes, k), First(nodes[k..]), newPtr, tmp)).mem
    {
      ShapeLinksRead(mem, nodes);
      var at := Head;
      k := 0;
      var done := false;
      while !done
        invariant k <= |nodes| && at == LinkAddr(nodes, k)
        invariant forall j :: 0 <= j < k ==> values[nodes[j]] > value
        invariant !done ==> mem == old(mem)
        invariant done ==>
          && StopsAt(values, nodes, k, value)
          && DistinctAddrs(InsertEntries(LinkAddr(nodes, k), First(nodes[k..]), newPtr, tmp))
          && mem == Execute(old(mem)[Next(newPtr) := First(nodes[k..])],
                            InsertEntries(LinkAddr(nodes, k), First(nodes[k..]), newPtr, tmp)).mem
        decreases if done then 0 else 1
      {
        var next;
        at, next, k := FindPosition(at, k, value);
        assert at != Next(newPtr) && mem[tmp] == newPtr;
        done := TryLink(at, next, newPtr, tmp);
      }
      assert old(mem)[Next(newPtr) := First(nodes[k..])] == Stored(before, newPtr, tmp.slot, First(nodes[k..]));
    }

    /**
     * One attempt of Push's link: stores `next` as the new node's `next`,
     * then runs the descriptor that moves link word `at` from `next` to
     * the new node and the slot from the new node to null. It succeeds,
     * and changes only those three words, when `at` holds `next` and the
     * slot holds the new node.
     */
    method TryLink(at: Loc, next: Ptr, newPtr: Ptr, tmp: Loc) returns (ok: bool)
      requires at != tmp && at != Next(newPtr) && tmp != Next(newPtr)
      requires at in mem && tmp in mem
      modifies this`mem
      ensures DistinctAddrs(InsertEntries(at, next, newPtr, tmp))
      ensures ok <==> old(mem)[at] == next && old(mem)[tmp] == newPtr
      ensures mem == Execute(old(mem)[Next(newPtr) := next], InsertEntries(at, next, newPtr, tmp)).mem
    {
      mem := mem[Next(newPtr) := next];
      var es := InsertEntries(at, next, newPtr, tmp);
      assert Matches(mem, es) <==> mem[at] == next && mem[tmp] == newPtr by {
        assert es[0].addr == at && es[1].addr == tmp;
      }
      var r := Execute(mem, es);
      ok := r.succeeded;
      mem := r.mem;
    }

    /**
     * The search of Push: from link word `from`, the `k0`-th, skips every
     * node whose value is greater than `value`, and returns the link word
     * reached, the node it holds (null at the end) and its index.
     */
    method FindPosition(from: Loc, ghost k0: nat, value: Word) returns (at: Loc, next: Ptr, ghost k: nat)
      requires LinksRead(mem, nodes) && forall i :: 0 <= i < |nodes| ==> nodes[i] != Null && nodes[i] in values
      requires k0 <= |nodes| && from == LinkAddr(nodes, k0)
      requires forall j :: 0 <= j < k0 ==> values[nodes[j]] > value
      ensures k0 <= k && StopsAt(values, nodes, k, value)
      ensures at == LinkAddr(nodes, k) && next == First(nodes[k..])
    {
      at, k := from, k0;
      next := mem[at];
      while next != Null && values[next] > value
        invariant k0 <= k <= |nodes| && at == LinkAddr(nodes, k) && next == First(nodes[k..])
        invariant forall j :: 0 <= j < k ==> values[nodes[j]] > value
        decreases |nodes| - k
      {
        assert nodes[k..][0] == nodes[k];
        at := Next(next);
        k := k + 1;
        assert at == LinkAddr(nodes, k);
        next := mem[at];
      }
      if k < |nodes| {
        assert nodes[k..][0] == nodes[k];
      }
    }

    /**
     * Nulls the caller's slot, then, unless the head is null, moves the
     * head to the first node's successor, pins that node's `next` and
     * records the node in the slot in one Microsoft PMwCAS, retried until it
     * succeeds, and returns the node's value, a largest one.
     */
    method Pop() returns (ret: Option<Word>)
      requires Valid()
      modifies this, reserveArr
      ensures Valid()
      ensures old(Contents()) == [] ==>
        ret == None && nodes == old(nodes) && cache != null && mem == old(mem)[Tmp(cache.pos) := Null]
      ensures old(Contents()) != [] ==>
        && ret == Some(old(Contents())[0])
        && (forall x :: x in old(Contents()) ==> ret.value >= x)
        && Contents() == old(Contents())[1..]
        && cache != null && mem[Tmp(cache.pos)] == old(nodes[0])
        && OtherSlotsKept(old(mem), mem, Tmp(cache.pos))
    {
      var tmp := ReserveNodeAddress();
      RemoveStep(mem, values, nodes, brk, reserveArr.Length, cache.pos);
      mem := mem[tmp := Null];
      ghost var pending, holder := mem, cache;
      ret := None;
      var done := false;
      while !done
        modifies this
        invariant values == old(values) && brk == old(brk) && cache == holder
        invariant !done ==> mem == pending && ret == None && nodes == old(nodes)
        invariant done && old(nodes) == [] ==> mem == pending && ret == None && nodes == old(nodes)
        invariant done && old(nodes) != [] ==>
          && mem == Execute(pending, RemoveEntries(old(nodes)[0], First(old(nodes)[1..]), tmp)).mem
          && ret == Some(old(Contents())[0])
          && nodes == old(nodes)[1..]
        decreases if done then 0 else 1
      {
        var oldPtr := mem[Head];
        if oldPtr == Null {
          done := true;
        } else {
          var newPtr := mem[Next(oldPtr)];
          var r := Execute(mem, RemoveEntries(oldPtr, newPtr, tmp));
          if r.succeeded {
            mem := r.mem;
            ret := Some(values[oldPtr]);
            nodes := nodes[1..];
            done := true;
          }
        }
      }
      if old(nodes) != [] {
        FrontIsMaximum(old(Contents()));
        DropKeepsOrder(old(Contents()));
      }
    }
  }
}
