/**
 * The persistent FIFO queue of the libpmemobj++ example
 * (src/queue/pmem_queue.hpp): a singly linked list of `long long` values
 * with head and tail pointers, each operation one transaction. Popping an
 * empty queue throws "Nothing to pop", which aborts the transaction;
 * `show` renders the values from head to tail, one per line.
 */
module PmemQueue {
  import opened Common
  import opened Wrappers
  import opened Sorting
  import opened QueueHeap

  /** A C++ `long long`. */
  type LongLong = x: int | -0x8000_0000_0000_0000 <= x < 0x8000_0000_0000_0000

  /** The exception a `pop` of an empty queue throws. */
  datatype PopError = RuntimeError(what: string)

  const NothingToPop: string := "Nothing to pop"

  /** `os << n` for an integer: a minus sign for a negative value, then its digits. */
  function Decimal(n: int): (s: string)
    ensures '\n' !in s
  {
    if n < 0 then "-" + Digits(-n) else Digits(n)
  }

  /** One line per value, each value followed by a newline. */
  function Lines(vs: seq<int>): string
  {
    if vs == [] then "" else Decimal(vs[0]) + "\n" + Lines(vs[1..])
  }

  /** The newlines of the rendering are one per value. */
  lemma {:induction false} LinesCount(vs: seq<int>)
    ensures multiset(Lines(vs))['\n'] == |vs|
  {
    if vs != [] {
      LinesCount(vs[1..]);
      var d := Decimal(vs[0]);
      assert multiset(d)['\n'] == 0;
      assert Lines(vs) == d + "\n" + Lines(vs[1..]);
    }
  }

  /** Rendering a concatenation concatenates the renderings. */
  lemma {:induction false} LinesAppend(vs: seq<int>, ws: seq<int>)
    ensures Lines(vs + ws) == Lines(vs) + Lines(ws)
  {
    if vs == [] {
      assert vs + ws == ws;
    } else {
      assert (vs + ws)[1..] == vs[1..] + ws;
      LinesAppend(vs[1..], ws);
    }
  }

  /** Rendering one more node of a chain appends that node's line. */
  lemma LinesStep(values: map<Ptr, LongLong>, nodes: seq<Ptr>, k: nat)
    requires k < |nodes|
    requires forall i :: 0 <= i < |nodes| ==> nodes[i] in values
    ensures Lines(Values(values, nodes[..k + 1])) ==
      Lines(Values(values, nodes[..k])) + Decimal(values[nodes[k]]) + "\n"
  {
    var shown, v := Values(values, nodes[..k]), values[nodes[k]];
    assert Values(values, nodes[..k + 1]) == shown + [v];
    LinesAppend(shown, [v]);
    assert [v][1..] == [];
  }

  class PmemQueue {
    /** The head and tail words and every node's `next` word. */
    var mem: Memory

    /** The value of each allocated node. */
    var values: map<Ptr, LongLong>

    /** The allocator's next free offset. */
    var brk: Ptr

    /** The nodes from head to tail. */
    ghost var nodes: seq<Ptr>

    /** The list is linked from head to tail, and a null head means a null tail. */
    ghost predicate Valid()
      reads this
    {
      Chain(mem, values, nodes, brk)
    }

    /** The values from head to tail. */
    ghost function Contents(): seq<LongLong>
      reads this
      requires Valid()
    {
      Values(values, nodes)
    }

    /** An empty queue: head and tail are null. */
    constructor ()
      ensures Valid() && Contents() == []
    {
      mem := map[Head := Null, Tail := Null];
      values := map[];
      brk := 1;
      nodes := [];
    }

    /** Appends `value` in a new tail node, which is also the head of an empty queue. */
    method Push(value: LongLong)
      requires Valid()
      modifies this
      ensures Valid()
      ensures Contents() == old(Contents()) + [value]
      ensures (mem[Head] == Null) <==> (mem[Tail] == Null)
    {
      ghost var before, before_values := mem, values;
      var n := brk;
      mem, values, brk := mem[Next(n) := Null], values[n := value], brk + 1;
      if mem[Head] == Null {
        mem := mem[Head := n][Tail := n];
      } else {
        var t := mem[Tail];
        mem := mem[Next(t) := n][Tail := n];
      }
      AppendStep(before, before_values, nodes, n, value, mem);
      nodes := nodes + [n];
    }

    /**
     * Removes the head node and returns its value. An empty queue throws
     * "Nothing to pop" and the aborted transaction changes nothing.
     */
    method Pop() returns (r: Result<LongLong, PopError>)
      requires Valid()
      modifies this
      ensures Valid()
      ensures old(Contents()) == [] ==>
        r == Failure(RuntimeError(NothingToPop)) && mem == old(mem) && values == old(values) && nodes == old(nodes)
      ensures old(Contents()) != [] ==> r == Success(old(Contents())[0]) && Contents() == old(Contents())[1..]
      ensures (mem[Head] == Null) <==> (mem[Tail] == Null)
    {
      var h := mem[Head];
      if h == Null {
        return Failure(RuntimeError(NothingToPop));
      }
      var ret := values[h];
      var n := mem[Next(h)];
      ghost var before, before_values := mem, values;
      mem, values := mem - {Next(h)}, values - {h};
      mem := mem[Head := n];
      if n == Null {
        mem := mem[Tail := Null];
      }
      DropStep(before, before_values, nodes, brk, mem);
      nodes := nodes[1..];
      r := Success(ret);
    }

    /** Renders the values from head to tail, one per line, changing nothing. */
    method Show() returns (s: string)
      requires Valid()
      ensures s == Lines(Contents())
    {
      s := "";
      var n := mem[Head];
      ghost var k := 0;
      while n != Null
        invariant 0 <= k <= |nodes|
        invariant n == First(nodes[k..])
        invariant s == Lines(Values(values, nodes[..k]))
        decreases |nodes| - k
      {
        assert nodes[k..][0] == nodes[k];
        assert mem[Next(nodes[k])] == Successor(nodes, k);
        LinesStep(values, nodes, k);
        s := s + Decimal(values[n]) + "\n";
        n := mem[Next(n)];
        k := k + 1;
        if k < |nodes| {
          assert nodes[k..][0] == nodes[k];
        }
      }
      assert nodes[..k] == nodes;
    }
  }

  /**
   * Values come out of a new queue in the order they went in: after
   * `push(v)` and `push(w)`, the first `pop()` gives `v` and the second `w`.
   */
  method PushPopRoundTrip(v: LongLong, w: LongLong) returns (first: Result<LongLong, PopError>, second: Result<LongLong, PopError>)
    ensures first == Success(v) && second == Success(w)
  {
    var q := new PmemQueue();
    q.Push(v);
    q.Push(w);
    first := q.Pop();
    second := q.Pop();
  }
}
