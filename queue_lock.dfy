/**
 * The lock-based persistent FIFO queue (src/queue/queue_lock.hpp): a
 * singly linked list with head and tail pointers in the pool's root. Each
 * operation is one transaction under the root's mutex, so it takes effect
 * entirely or not at all; a `Push` appends a node at the tail, a `Pop`
 * unlinks and frees the head node.
 *
 * The queue's contents are the values of the nodes from head to tail.
 */
module QueueLock {
  import opened Wrappers
  import opened Sorting
  import opened QueueHeap

  class QueueWithLock<T> {
    /** The root's head and tail words and every node's `next` word. */
    var mem: Memory

    /** The value of each allocated node. */
    var values: map<Ptr, T>

    /** The allocator's next free offset. */
    var brk: Ptr

    /** The nodes from head to tail. */
    ghost var nodes: seq<Ptr>

    /** The list is linked from head to tail, and a null head means a null tail. */
    ghost predicate Valid()
      reads this
    {
      Chain(mem, values, nodes, brk)
    }

    /** The values from head to tail. */
    ghost function Contents(): seq<T>
      reads this
      requires Valid()
    {
      Values(values, nodes)
    }

    /** A new pool: head and tail are null, so the queue is empty. */
    constructor ()
      ensures Valid() && Contents() == []
    {
      mem := map[Head := Null, Tail := Null];
      values := map[];
      brk := 1;
      nodes := [];
    }

    /**
     * Appends `value`: a new node with a null `next` becomes the tail, and
     * also the head when the queue was empty.
     */
    method Push(value: T)
      requires Valid()
      modifies this
      ensures Valid()
      ensures Contents() == old(Contents()) + [value]
      ensures mem[Tail] != Null && mem[Next(mem[Tail])] == Null
      ensures old(mem[Head]) == Null ==> mem[Head] == mem[Tail]
      ensures (mem[Head] == Null) <==> (mem[Tail] == Null)
    {
      ghost var before, before_values := mem, values;
      var n := brk;
      mem, values, brk := mem[Next(n) := Null], values[n := value], brk + 1;
      if mem[Head] == Null {
        mem := mem[Head := n][Tail := n];
      } else {
        var t := mem[Tail];
        mem := mem[Next(t) := n][Tail := n];
      }
      AppendStep(before, before_values, nodes, n, value, mem);
      nodes := nodes + [n];
    }

    /**
     * Removes the head node and returns its value; the tail becomes null
     * too when that was the last node. An empty queue is left as it is.
     */
    method Pop() returns (ret: Option<T>)
      requires Valid()
      modifies this
      ensures Valid()
      ensures old(Contents()) == [] ==> ret == None && mem == old(mem) && nodes == old(nodes)
      ensures old(Contents()) != [] ==> ret == Some(old(Contents())[0]) && Contents() == old(Contents())[1..]
      ensures (mem[Head] == Null) <==> (mem[Tail] == Null)
    {
      ret := None;
      var h := mem[Head];
      if h != Null {
        ret := Some(values[h]);
        var n := mem[Next(h)];
        ghost var before, before_values := mem, values;
        // delete_persistent frees the head node
        mem, values := mem - {Next(h)}, values - {h};
        mem := mem[Head := n];
        if n == Null {
          mem := mem[Tail := Null];
        }
        DropStep(before, before_values, nodes, brk, mem);
        nodes := nodes[1..];
      }
    }
  }
}
