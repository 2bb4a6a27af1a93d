/**
 * Temporary-slot reservation for the queue benchmarks: the shared array of
 * reservation flags, the holder that owns one slot and frees it when it is
 * destroyed (src/element_holder.hpp), and the scan each queue's
 * `ReserveNodeAddress` runs to give a thread its slot.
 *
 * The holder a thread caches in its `thread_local` variable is the
 * `cached` argument and result of the scan. The flag CAS of the scan is
 * sequential here and succeeds on a flag it has just seen false.
 */
module Reservation {
  class ElementHolder<T> {
    /** The position of the reserved slot. */
    const pos: nat

    /** The shared array of reservation flags. */
    const reservedArr: array<bool>

    /** The element the slot stands for. */
    const element: T

    /** A holder of slot `pos`; position, flags and element are fixed. */
    constructor (pos: nat, reservedArr: array<bool>, element: T)
      ensures this.pos == pos && this.reservedArr == reservedArr
      ensures Get() == element
    {
      this.pos := pos;
      this.reservedArr := reservedArr;
      this.element := element;
    }

    /** The element stored at construction. */
    function Get(): T {
      element
    }

    /** The destructor: clears this slot's flag and no other. */
    method Release()
      requires pos < reservedArr.Length
      modifies reservedArr
      ensures reservedArr[..] == old(reservedArr[..])[pos := false]
    {
      reservedArr[pos] := false;
    }
  }

  /** `i` is the first slot whose flag is clear. */
  ghost predicate FirstFree(flags: seq<bool>, i: nat) {
    i < |flags| && !flags[i] && forall j :: 0 <= j < i ==> flags[j]
  }

  /** `compare_exchange_strong` on one flag. */
  method CompareExchangeFlag(flags: array<bool>, i: nat, expected: bool, desired: bool) returns (ok: bool)
    requires i < flags.Length
    modifies flags
    ensures ok <==> old(flags[i]) == expected
    ensures flags[..] == if ok then old(flags[..])[i := desired] else old(flags[..])
  {
    ok := flags[i] == expected;
    if ok {
      flags[i] := desired;
    }
  }

  /**
   * A thread's slot: the cached holder if the thread has one; otherwise
   * the first slot whose flag is clear is claimed, its flag set and a new
   * holder made for `slots[i]`. With every flag set there is none (the
   * source keeps scanning until another thread frees one).
   */
  method ReserveNodeAddress<T>(flags: array<bool>, slots: seq<T>, cached: ElementHolder?<T>)
    returns (holder: ElementHolder?<T>)
    requires |slots| == flags.Length
    modifies flags
    ensures cached != null ==> holder == cached && flags[..] == old(flags[..])
    ensures cached == null && (forall i :: 0 <= i < flags.Length ==> old(flags[i])) ==>
      holder == null && flags[..] == old(flags[..])
    ensures cached == null && holder != null ==>
      && fresh(holder)
      && FirstFree(old(flags[..]), holder.pos)
      && holder.reservedArr == flags
      && holder.Get() == slots[holder.pos]
      && flags[..] == old(flags[..])[holder.pos := true]
    ensures cached == null && (exists i :: 0 <= i < flags.Length && !old(flags[i])) ==> holder != null
  {
    if cached != null {
      return cached;
    }
    holder := null;
    var i := 0;
    while i < flags.Length
      invariant 0 <= i <= flags.Length
      invariant flags[..] == old(flags[..])
      invariant forall j :: 0 <= j < i ==> flags[j]
    {
      var isReserved := flags[i];
      if !isReserved {
        var ok := CompareExchangeFlag(flags, i, false, true);
        if ok {
          holder := new ElementHolder(i, flags, slots[i]);
          return;
        }
      }
      i := i + 1;
    }
  }
}
