/**
 * The persistent heap the queue benchmarks link their nodes in.
 *
 * Every pointer the queues store is the offset of a node in its pool, with
 * 0 as the null pointer; the words holding them are the head and tail of
 * the root object, the `next` word of each node, and the root's temporary
 * slots, one per reserving thread. A node's value is written once, when the
 * node is made, and kept apart in `values`. A new node's offset is the
 * allocator's bump pointer `brk`, which is above every offset handed out
 * before.
 *
 * A chain is the sequence of nodes reached from a first node by following
 * `next` words up to a null one.
 */
module QueueHeap {
  import opened Sorting

  type Ptr = nat

  const Null: Ptr := 0

  /** The pointer words: the root's head and tail, a node's next, a temporary slot. */
  datatype Loc = Head | Tail | Next(node: Ptr) | Tmp(slot: nat)

  type Memory = map<Loc, Ptr>

  /** The first node of a chain, or null for the empty chain. */
  function First(nodes: seq<Ptr>): Ptr {
    if nodes == [] then Null else nodes[0]
  }

  /** The last node of a chain, or null for the empty chain. */
  function Last(nodes: seq<Ptr>): Ptr {
    if nodes == [] then Null else nodes[|nodes| - 1]
  }

  /**
   * `nodes` are distinct, non-null, and each node's `next` word holds the
   * node after it, or null for the last one.
   */
  ghost predicate Linked(mem: Memory, nodes: seq<Ptr>) {
    && Distinct(nodes)
    && forall i :: 0 <= i < |nodes| ==>
         nodes[i] != Null && Next(nodes[i]) in mem && mem[Next(nodes[i])] == Successor(nodes, i)
  }

  /** The node after the `i`-th one, or null after the last. */
  function Successor(nodes: seq<Ptr>, i: nat): Ptr
    requires i < |nodes|
  {
    if i + 1 < |nodes| then nodes[i + 1] else Null
  }

  /** Every node and every `next` word belongs to an offset below `brk`. */
  ghost predicate Allocated<T>(mem: Memory, values: map<Ptr, T>, nodes: seq<Ptr>, brk: Ptr) {
    && brk > Null
    && (forall i :: 0 <= i < |nodes| ==> nodes[i] < brk && nodes[i] in values)
    && (forall p: Ptr :: Next(p) in mem ==> p < brk)
  }

  /** The values of a chain's nodes, in order. */
  function Values<T>(values: map<Ptr, T>, nodes: seq<Ptr>): (vs: seq<T>)
    requires forall i :: 0 <= i < |nodes| ==> nodes[i] in values
    ensures |vs| == |nodes|
    ensures forall i :: 0 <= i < |nodes| ==> vs[i] == values[nodes[i]]
  {
    seq(|nodes|, i requires 0 <= i < |nodes| => values[nodes[i]])
  }

  /** The root's temporary slots, one per thread. */
  function Slots(n: nat): (r: seq<Loc>)
    ensures |r| == n && forall i :: 0 <= i < n ==> r[i] == Tmp(i)
  {
    seq(n, i requires 0 <= i < n => Tmp(i))
  }

  /** The words after making node `brk` with a null `next` and recording it in slot `slot`. */
  function Made(mem: Memory, brk: Ptr, slot: nat): Memory {
    mem[Next(brk) := Null][Tmp(slot) := brk]
  }

  /** The temporary slots other than `tmp` hold what they held in `mem`. */
  ghost predicate OtherSlotsKept(mem: Memory, mem': Memory, tmp: Loc) {
    forall s :: Tmp(s) in mem && Tmp(s) != tmp ==> Tmp(s) in mem' && mem'[Tmp(s)] == mem[Tmp(s)]
  }

  /** A chain stays linked when no `next` word of its nodes changes. */
  lemma LinkedFrame(mem: Memory, mem': Memory, nodes: seq<Ptr>)
    requires Linked(mem, nodes)
    requires forall i :: 0 <= i < |nodes| ==> Next(nodes[i]) in mem' && mem'[Next(nodes[i])] == mem[Next(nodes[i])]
    ensures Linked(mem', nodes)
  {
  }

  /** Dropping the first node of a chain leaves a chain. */
  lemma LinkedDrop(mem: Memory, nodes: seq<Ptr>)
    requires Linked(mem, nodes) && nodes != []
    ensures Linked(mem, nodes[1..])
    ensures First(nodes[1..]) == mem[Next(nodes[0])]
  {
    var rest := nodes[1..];
    forall i | 0 <= i < |rest|
      ensures rest[i] != Null && Next(rest[i]) in mem && mem[Next(rest[i])] == Successor(rest, i)
    {
      assert rest[i] == nodes[i + 1];
      assert mem[Next(nodes[i + 1])] == Successor(nodes, i + 1);
      if i + 1 < |rest| {
        assert rest[i + 1] == nodes[i + 2];
      }
    }
    assert mem[Next(nodes[0])] == Successor(nodes, 0);
    if |nodes| > 1 {
      assert rest[0] == nodes[1];
    }
  }

  /**
   * A freshly made node at the allocator's bump pointer is new: no chain
   * node and no `next` word uses its offset; after making it, with a null
   * `next` word and value `v`, the allocation invariant holds of the
   * node-extended state.
   */
  lemma Allocate<T>(mem: Memory, values: map<Ptr, T>, nodes: seq<Ptr>, brk: Ptr, v: T)
    requires Allocated(mem, values, nodes, brk)
    ensures brk != Null && brk !in nodes && Next(brk) !in mem
    ensures Allocated(mem[Next(brk) := Null], values[brk := v], nodes, brk + 1)
  {
  }

  /**
   * Linking a new node `p` after the last node of a chain: the old last
   * node's `next` word becomes `p` and `p`'s `next` word is null.
   */
  lemma LinkedAppend(mem: Memory, nodes: seq<Ptr>, p: Ptr, mem': Memory)
    requires Linked(mem, nodes)
    requires p != Null && p !in nodes
    requires Next(p) in mem' && mem'[Next(p)] == Null
    requires nodes != [] ==> Next(Last(nodes)) in mem' && mem'[Next(Last(nodes))] == p
    requires forall i :: 0 <= i < |nodes| - 1 ==> Next(nodes[i]) in mem' && mem'[Next(nodes[i])] == mem[Next(nodes[i])]
    ensures Linked(mem', nodes + [p])
  {
    var ext := nodes + [p];
    forall i, j | 0 <= i < j < |ext|
      ensures ext[i] != ext[j]
    {
      if j == |nodes| {
        assert ext[i] in nodes;
      }
    }
    forall i | 0 <= i < |ext|
      ensures ext[i] != Null && Next(ext[i]) in mem' && mem'[Next(ext[i])] == Successor(ext, i)
    {
      if i < |nodes| - 1 {
        assert ext[i] == nodes[i];
      }
    }
  }

  /**
   * A linked list with head and tail words: the chain of `nodes` starts at
   * the head word and ends at the tail word, and its nodes are allocated.
   */
  ghost predicate Chain<T>(mem: Memory, values: map<Ptr, T>, nodes: seq<Ptr>, brk: Ptr) {
    && Linked(mem, nodes)
    && Allocated(mem, values, nodes, brk)
    && Head in mem && Tail in mem
    && mem[Head] == First(nodes)
    && mem[Tail] == Last(nodes)
  }

  /**
   * Appending a node made at the bump pointer, in one transaction: its
   * `next` word is null, and it becomes the tail, linked from the old tail
   * or, in an empty list, from the head word. The list is then the old one
   * with the new node's value at its end, and its tail node ends the chain.
   */
  lemma AppendStep<T>(mem: Memory, values: map<Ptr, T>, nodes: seq<Ptr>, brk: Ptr, v: T, mem': Memory)
    requires Chain(mem, values, nodes, brk)
    requires mem' == if mem[Head] == Null then mem[Next(brk) := Null][Head := brk][Tail := brk]
                     else mem[Next(brk) := Null][Next(mem[Tail]) := brk][Tail := brk]
    ensures Chain(mem', values[brk := v], nodes + [brk], brk + 1)
    ensures Values(values[brk := v], nodes + [brk]) == Values(values, nodes) + [v]
    ensures mem'[Tail] != Null && mem'[Next(mem'[Tail])] == Null
    ensures mem[Head] == Null ==> mem'[Head] == mem'[Tail]
    ensures (mem'[Head] == Null) <==> (mem'[Tail] == Null)
  {
    Allocate(mem, values, nodes, brk, v);
    LinkedAppend(mem[Next(brk) := Null], nodes, brk, mem');
    ValuesAppend(values, nodes, brk, v);
  }

  /** A new node's value follows the values of a chain it is appended to. */
  lemma ValuesAppend<T>(values: map<Ptr, T>, nodes: seq<Ptr>, p: Ptr, v: T)
    requires forall i :: 0 <= i < |nodes| ==> nodes[i] in values
    requires p !in nodes
    ensures Values(values[p := v], nodes + [p]) == Values(values, nodes) + [v]
  {
    var ws := Values(values[p := v], nodes + [p]);
    forall i | 0 <= i < |nodes| ensures ws[i] == Values(values, nodes)[i] {
      assert (nodes + [p])[i] == nodes[i];
    }
  }

  /**
   * Unlinking and freeing the head node of a non-empty list, in one
   * transaction: the head word takes the head's successor, the tail word
   * becomes null when that was the last node, and the node's `next` word
   * and value are freed. The list is then the old one less its first node.
   */
  lemma DropStep<T>(mem: Memory, values: map<Ptr, T>, nodes: seq<Ptr>, brk: Ptr, mem': Memory)
    requires Chain(mem, values, nodes, brk) && nodes != []
    requires var h := mem[Head]; var n := mem[Next(h)];
      mem' == if n == Null then (mem - {Next(h)})[Head := n][Tail := Null] else (mem - {Next(h)})[Head := n]
    ensures Chain(mem', values - {nodes[0]}, nodes[1..], brk)
    ensures Values(values - {nodes[0]}, nodes[1..]) == Values(values, nodes)[1..]
    ensures (mem'[Head] == Null) <==> (mem'[Tail] == Null)
  {
    var h, rest := nodes[0], nodes[1..];
    LinkedDrop(mem, nodes);
    assert h !in rest;
    forall i | 0 <= i < |rest| ensures rest[i] in values - {h} && Next(rest[i]) != Next(h) {
      assert rest[i] == nodes[i + 1];
    }
    LinkedFrame(mem, mem', rest);
    if |nodes| > 1 {
      assert Last(rest) == Last(nodes);
    }
  }

  /**
   * Linking a new node `p` between the first `k` nodes of a chain and the
   * rest: the `k`-th node's `next` word (or the head word, for `k == 0`)
   * becomes `p`, and `p`'s `next` word holds the node that followed.
   */
  lemma LinkedInsert(mem: Memory, nodes: seq<Ptr>, k: nat, p: Ptr, mem': Memory)
    requires Linked(mem, nodes) && k <= |nodes|
    requires p != Null && p !in nodes
    requires Next(p) in mem' && mem'[Next(p)] == First(nodes[k..])
    requires k > 0 ==> Next(nodes[k - 1]) in mem' && mem'[Next(nodes[k - 1])] == p
    requires forall i :: 0 <= i < |nodes| && i != k - 1 ==> Next(nodes[i]) in mem' && mem'[Next(nodes[i])] == mem[Next(nodes[i])]
    ensures Linked(mem', nodes[..k] + [p] + nodes[k..])
  {
    var ext := nodes[..k] + [p] + nodes[k..];
    assert |ext| == |nodes| + 1;
    assert forall i :: 0 <= i < k ==> ext[i] == nodes[i];
    assert ext[k] == p;
    assert forall i :: k < i < |ext| ==> ext[i] == nodes[i - 1];
    forall i, j | 0 <= i < j < |ext|
      ensures ext[i] != ext[j]
    {
      if i == k {
        assert ext[j] in nodes;
      } else if j == k {
        assert ext[i] in nodes;
      }
    }
    forall i | 0 <= i < |ext|
      ensures ext[i] != Null && Next(ext[i]) in mem' && mem'[Next(ext[i])] == Successor(ext, i)
    {
      if i == k {
        if k < |nodes| {
          assert nodes[k..][0] == nodes[k];
        }
      } else if i < k {
        assert ext[i] == nodes[i];
        if i + 1 < k {
          assert ext[i + 1] == nodes[i + 1];
        }
      } else {
        assert ext[i] == nodes[i - 1];
        if i + 1 < |ext| {
          assert ext[i + 1] == nodes[i];
        }
      }
    }
  }
}
