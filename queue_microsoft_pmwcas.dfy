/**
 * The persistent FIFO queue on Microsoft's PMwCAS
 * (src/queue/queue_microsoft_pmwcas.hpp): the same dummy-node linked list
 * and descriptors as the queue on the authors' PMwCAS; it differs in the
 * descriptor library, which adds an epoch guard around each attempt, and
 * in creating its pool inside the constructor.
 *
 * The descriptor library, its epoch guards, the garbage collector and the
 * reopening of an existing pool are not part of this model; a descriptor
 * behaves as `MwCAS.Execute` says.
 */
module QueueMicrosoftPMwCAS {
  import opened Words
  import opened Wrappers
  import opened MwCAS
  import opened Sorting
  import opened QueueHeap
  import opened DummyQueue
  import opened Reservation

  class QueueWithMicrosoftPMwCAS {
    /** The pool's pointer words. */
    var mem: Memory

    /** The value of each node made. */
    var values: map<Ptr, Word>

    /** The allocator's next free offset. */
    var brk: Ptr

    /** The dummy, then the nodes holding the contents. */
    ghost var nodes: seq<Ptr>

    /** `reserve_arr_`: which temporary slots a thread has claimed. */
    const reserveArr: array<bool>

    /** The calling thread's `thread_local` holder of its temporary slot. */
    var cache: ElementHolder?<Loc>

    ghost predicate Valid()
      reads this, reserveArr
    {
      Heap(mem, values, nodes, brk, reserveArr.Length) && Claimed()
    }

    /** The flags mark exactly the slot of the cached holder, if any. */
    ghost predicate Claimed()
      reads this`cache, reserveArr
    {
      && reserveArr.Length > 0
      && (forall s :: 0 <= s < reserveArr.Length ==> reserveArr[s] == (cache != null && cache.pos == s))
      && (cache != null ==>
            cache.reservedArr == reserveArr && cache.pos < reserveArr.Length && cache.Get() == Tmp(cache.pos))
    }

    /** The values after the dummy, oldest first. */
    ghost function Contents(): seq<Word>
      reads this, reserveArr
      requires Valid()
    {
      Values(values, nodes)[1..]
    }

    /**
     * A new pool whose head and tail both name a dummy
     * node with value 0 and a null `next`; all `maxThreadNum` slots are
     * null and unclaimed.
     */
    constructor (maxThreadNum: nat)
      requires maxThreadNum > 0
      ensures Valid() && Contents() == []
      ensures mem[Head] == mem[Tail] != Null && mem[Next(mem[Head])] == Null
      ensures fresh(reserveArr) && reserveArr.Length == maxThreadNum
    {
      var dummy: Ptr := 1;
      mem := (map l | l in Slots(maxThreadNum) :: Null)[Head := dummy][Tail := dummy][Next(dummy) := Null];
      values := map[dummy := 0];
      brk := dummy + 1;
      nodes := [dummy];
      reserveArr := new bool[maxThreadNum](_ => false);
      cache := null;
    }

    /**
     * The caller's temporary slot: the cached one, or else the first
     * unclaimed slot, which is claimed and cached.
     */
    method ReserveNodeAddress() returns (tmp: Loc)
      requires Valid()
      modifies this, reserveArr
      ensures Valid()
      ensures cache != null && tmp == Tmp(cache.pos)
      ensures old(cache) != null ==> cache == old(cache)
      ensures mem == old(mem) && values == old(values) && brk == old(brk) && nodes == old(nodes)
    {
      assert !reserveArr[0] || cache != null;
      var holder := Reservation.ReserveNodeAddress(reserveArr, Slots(reserveArr.Length), cache);
      cache := holder;
      tmp := holder.Get();
    }

    /**
     * Makes a node for `value` in the caller's slot, then links it after
     * the tail, advances the tail and clears the slot in one Microsoft PMwCAS,
     * retried from a fresh read of the tail until it succeeds.
     */
    method Push(value: Word)
      requires Valid()
      modifies this, reserveArr
      ensures Valid()
      ensures Contents() == old(Contents()) + [value]
      ensures cache != null && mem[Tmp(cache.pos)] == Null
      ensures OtherSlotsKept(old(mem), mem, Tmp(cache.pos))
    {
      var tmp := ReserveNodeAddress();
      PushNode(tmp, value);
    }

    /** Push once the caller's slot `tmp` is known. */
    method PushNode(tmp: Loc, value: Word)
      requires Heap(mem, values, nodes, brk, reserveArr.Length)
      requires tmp.Tmp? && tmp.slot < reserveArr.Length
      modifies this`mem, this`values, this`brk, this`nodes
      ensures Heap(mem, values, nodes, brk, reserveArr.Length)
      ensures Values(values, nodes) == old(Values(values, nodes)) + [value]
      ensures mem[tmp] == Null
      ensures OtherSlotsKept(old(mem), mem, tmp)
    {
      PushStep(mem, values, nodes, brk, reserveArr.Length, tmp.slot, value);
      ghost var made := Made(mem, brk, tmp.slot);
      ghost var es := PushEntries(Last(nodes), brk, tmp);
      var newPtr := brk;
      mem, values, brk := mem[Next(newPtr) := Null][tmp := newPtr], values[newPtr := value], brk + 1;
      assert mem == made;
      LinkNode(Last(nodes), newPtr, tmp);
      assert mem == Execute(made, es).mem;
      nodes := nodes + [newPtr];
    }

    /**
     * Links the node in the caller's slot after the tail, advances the tail
     * and clears the slot in one descriptor, retried from a fresh read of
     * the tail until it succeeds.
     */
    method LinkNode(ghost last: Ptr, newPtr: Ptr, tmp: Loc)
      requires Tail in mem && mem[Tail] == last
      requires DistinctAddrs(PushEntries(last, newPtr, tmp))
      requires Execute(mem, PushEntries(last, newPtr, tmp)).succeeded
      modifies this`mem
      ensures mem == Execute(old(mem), PushEntries(last, newPtr, tmp)).mem
    {
      var done := false;
      while !done
        invariant !done ==> mem == old(mem)
        invariant done ==> mem == Execute(old(mem), PushEntries(last, newPtr, tmp)).mem
        decreases if done then 0 else 1
      {
        var oldPtr := mem[Tail];
        var r := Execute(mem, PushEntries(oldPtr, newPtr, tmp));
        done := r.succeeded;
        if done {
          mem := r.mem;
        }
      }
    }

    /**
     * Nulls the caller's slot, then, unless the dummy has no successor,
     * moves the head to the successor and records the old dummy in the slot
     * in one Microsoft PMwCAS, retried until it succeeds, and returns the successor's
     * value.
     */
    method Pop() returns (ret: Option<Word>)
      requires Valid()
      modifies this, reserveArr
      ensures Valid()
      ensures old(Contents()) == [] ==>
        ret == None && nodes == old(nodes) && cache != null && mem == old(mem)[Tmp(cache.pos) := Null]
      ensures old(Contents()) != [] ==>
        && ret == Some(old(Contents())[0])
        && Contents() == old(Contents())[1..]
        && cache != null && mem[Tmp(cache.pos)] == old(nodes[0])
        && OtherSlotsKept(old(mem), mem, Tmp(cache.pos))
    {
      var tmp := ReserveNodeAddress();
      PopStep(mem, values, nodes, brk, reserveArr.Length, cache.pos);
      mem := mem[tmp := Null];
      ghost var pending := mem;
      ret := None;
      ghost var holder := cache;
      var done := false;
      while !done
        modifies this
        invariant values == old(values) && brk == old(brk) && cache == holder
        invariant !done ==> mem == pending && ret == None && nodes == old(nodes)
        invariant done && |old(nodes)| == 1 ==> mem == pending && ret == None && nodes == old(nodes)
        invariant done && |old(nodes)| >= 2 ==>
          && mem == Execute(pending, PopEntries(old(nodes)[0], old(nodes)[1], tmp)).mem
          && ret == Some(old(Contents())[0])
          && nodes == old(nodes)[1..]
        decreases if done then 0 else 1
      {
        var oldPtr := mem[Head];
        var newPtr := mem[Next(oldPtr)];
        if newPtr == Null {
          done := true;
        } else {
          var r := Execute(mem, PopEntries(oldPtr, newPtr, tmp));
          if r.succeeded {
            mem := r.mem;
            ret := Some(values[newPtr]);
            nodes := nodes[1..];
            done := true;
          }
        }
      }
    }
  }
}
