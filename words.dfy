/**
 * 64-bit words of persistent memory as the benchmark targets see them.
 *
 * A word is an unsigned 64-bit integer. Bit 63 is the "dirty" flag of the
 * persistent CAS: a word whose flag is set holds a value that has been
 * stored but not yet flushed to persistent memory. The bit operations of
 * the source (`w & kDirtyFlag`, `w & ~kDirtyFlag`, `w | kDirtyFlag`) are
 * written here arithmetically on the unbounded integers.
 */
module Words {
  /** 2^64: one more than the largest unsigned 64-bit value. */
  const WordLimit: int := 0x1_0000_0000_0000_0000

  type Word = w: int | 0 <= w < WordLimit

  /** The dirty flag, bit 63 of a word. */
  const DirtyFlag: int := 0x8000_0000_0000_0000

  /** The size of a word in bytes. */
  const WordSize: nat := 8

  /** Bit 63 is set. */
  predicate IsDirty(w: Word) {
    w >= DirtyFlag
  }

  /** The word with bit 63 cleared (`w & ~kDirtyFlag`). */
  function Clean(w: Word): (r: Word)
    ensures !IsDirty(r)
    ensures r == w || r + DirtyFlag == w
  {
    if IsDirty(w) then w - DirtyFlag else w
  }

  /** The word with bit 63 set (`w | kDirtyFlag`). */
  function Mark(w: Word): (r: Word)
    ensures IsDirty(r)
    ensures Clean(r) == Clean(w)
  {
    if IsDirty(w) then w else w + DirtyFlag
  }

  /** Unsigned 64-bit increment, wrapping to zero after the largest word. */
  function Succ(w: Word): (r: Word)
    ensures r == (w + 1) % WordLimit
  {
    if w == WordLimit - 1 then 0 else w + 1
  }

  /** Incrementing a sum taken modulo 2^64 adds one to the sum. */
  lemma SuccOfSum(w: Word, e: nat)
    ensures Succ((w + e) % WordLimit) == (w + e + 1) % WordLimit
  {
    var x := w + e;
    var q, r := x / WordLimit, x % WordLimit;
    assert x == q * WordLimit + r;
    if r + 1 < WordLimit {
      assert x + 1 == q * WordLimit + (r + 1);
    } else {
      assert x + 1 == (q + 1) * WordLimit;
    }
  }

  /** Marking and then cleaning a clean word gives the word back. */
  lemma CleanMarkRoundTrip(w: Word)
    requires !IsDirty(w)
    ensures Clean(Mark(w)) == w
  {
  }

  /**
   * Succ does not keep a word clean: the successor of the largest clean
   * word, 2^63 - 1, has bit 63 set, so it reads back as a dirty value.
   */
  lemma SuccCanSetDirtyFlag()
    ensures !IsDirty(DirtyFlag - 1) && IsDirty(Succ(DirtyFlag - 1))
  {
  }
}
