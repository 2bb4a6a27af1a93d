/**
 * The constants and arithmetic helpers shared by the benchmark targets
 * and drivers: the smallest persistent pool, the integer base-2
 * logarithm used to turn a block index into a byte offset with a shift,
 * and the decimal digits of a number and their value, which
 * the queue's rendering prints and the seed parser reads.
 */
module Common {
  /** `PMEMOBJ_MIN_POOL`, the smallest pool libpmemobj creates: 8 MiB. */
  const MinPoolSize: nat := 0x80_0000

  /** 2^k. */
  function Pow2(k: nat): (r: nat)
    ensures r >= 1
  {
    if k == 0 then 1 else 2 * Pow2(k - 1)
  }

  /**
   * The source's recursive logarithm: 0 for 0 and 1, and otherwise one
   * more than the logarithm of the value shifted right by one bit.
   */
  function Log2(val: nat): nat
  {
    if val == 0 || val == 1 then 0 else Log2(val / 2) + 1
  }

  /** Shift left by `s` bits on unbounded integers. */
  function ShiftLeft(x: nat, s: nat): nat
  {
    x * Pow2(s)
  }

  /** A power of two, defined by repeated halving. */
  predicate IsPowerOfTwo(v: nat)
    decreases v
  {
    v == 1 || (v >= 2 && v % 2 == 0 && IsPowerOfTwo(v / 2))
  }

  /** Log2 is the floor of the base-2 logarithm for every positive value. */
  lemma {:induction false} Log2Bounds(val: nat)
    requires val >= 1
    ensures Pow2(Log2(val)) <= val < Pow2(Log2(val) + 1)
  {
    if val > 1 {
      Log2Bounds(val / 2);
    }
  }

  /** Log2 inverts Pow2. */
  lemma {:induction false} Log2OfPow2(k: nat)
    ensures Log2(Pow2(k)) == k
  {
    if k > 0 {
      Log2OfPow2(k - 1);
      assert Pow2(k) / 2 == Pow2(k - 1);
    }
  }

  /** The powers of two are exactly the values that Pow2 produces. */
  lemma {:induction false} PowerOfTwoIsPow2(v: nat)
    ensures IsPowerOfTwo(v) <==> v >= 1 && Pow2(Log2(v)) == v
  {
    if v >= 2 {
      PowerOfTwoIsPow2(v / 2);
      if v % 2 == 1 {
        Log2Bounds(v);
        assert Pow2(Log2(v)) == 2 * Pow2(Log2(v / 2));
      }
    }
  }

  /**
   * For a power-of-two block size, shifting a block index by the logarithm
   * of the block size is the same as multiplying it by the block size.
   */
  lemma ShiftByLog2IsMultiply(pos: nat, blockSize: nat)
    requires IsPowerOfTwo(blockSize)
    ensures ShiftLeft(pos, Log2(blockSize)) == pos * blockSize
  {
    PowerOfTwoIsPow2(blockSize);
  }

  /** The value of a string of decimal digits, most significant first. */
  function DigitsValue(s: string): nat
    requires forall i :: 0 <= i < |s| ==> '0' <= s[i] <= '9'
  {
    if s == [] then 0 else 10 * DigitsValue(s[..|s| - 1]) + (s[|s| - 1] as int - '0' as int)
  }

  /** The character of a decimal digit. */
  function DigitChar(d: nat): (c: char)
    requires d < 10
    ensures '0' <= c <= '9'
    ensures c as int - '0' as int == d
  {
    ('0' as int + d) as char
  }

  /** The decimal digits of `n`, most significant first, without leading zeros. */
  function Digits(n: nat): (s: string)
    ensures |s| >= 1
    ensures forall i :: 0 <= i < |s| ==> '0' <= s[i] <= '9'
    ensures n >= 10 ==> s[0] != '0'
  {
    if n < 10 then [DigitChar(n)] else Digits(n / 10) + [DigitChar(n % 10)]
  }

  /** Reading the digits back gives the number. */
  lemma {:induction false} DigitsRoundTrip(n: nat)
    ensures DigitsValue(Digits(n)) == n
  {
    if n >= 10 {
      var q, d := n / 10, n % 10;
      DigitsRoundTrip(q);
      var s := Digits(n);
      assert s == Digits(q) + [DigitChar(d)];
      assert s[..|s| - 1] == Digits(q);
      assert n == 10 * q + d;
    }
  }
}
