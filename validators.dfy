/**
 * The command-line validators of the benchmark drivers
 * (include/validaters.hpp; src/clo_validaters.hpp holds the same three
 * number and seed checks without the block-size one). Each answers whether
 * a flag's value is acceptable; the message printed on rejection is left
 * out.
 *
 * The C++ library's `std::stoul` is not part of this model: what it does
 * with a seed is a parameter.
 */
module Validators {
  import opened Common
  import opened Words

  /**
   * `ValidatePositiveVal`: the value is not negative. The driver applies
   * it to the `double` flag `skew_parameter`.
   */
  function ValidatePositiveVal(value: real): bool
  {
    value >= 0.0
  }

  /** `ValidateNonZero`: the value is not zero. */
  function ValidateNonZero(value: int): bool
  {
    value != 0
  }

  /** The bitwise AND of two unsigned integers, bit by bit from the lowest. */
  function BitAnd(a: nat, b: nat): (r: nat)
    ensures r <= a && r <= b
  {
    if a == 0 || b == 0 then 0
    else 2 * BitAnd(a / 2, b / 2) + (if a % 2 == 1 && b % 2 == 1 then 1 else 0)
  }

  /** A value ANDed with itself is the value. */
  lemma {:induction false} BitAndSelf(a: nat)
    ensures BitAnd(a, a) == a
  {
    if a > 0 {
      BitAndSelf(a / 2);
    }
  }

  /**
   * `v & (v - 1)` clears the lowest set bit of `v`, so it is zero exactly
   * when `v` has one bit set, that is, when `v` is a power of two.
   */
  lemma {:induction false} ClearLowestBitIsZero(v: nat)
    requires v >= 1
    ensures BitAnd(v, v - 1) == 0 <==> IsPowerOfTwo(v)
    decreases v
  {
    if v == 1 {
    } else if v % 2 == 0 {
      assert (v - 1) / 2 == v / 2 - 1;
      ClearLowestBitIsZero(v / 2);
    } else {
      assert (v - 1) / 2 == v / 2;
      BitAndSelf(v / 2);
    }
  }

  /**
   * `ValidateBlockSize`: rejects a value below 8, then rejects a value
   * with `value & (value - 1)` non-zero, and accepts the rest.
   */
  function ValidateBlockSize(value: nat): bool
  {
    if value < 8 then false
    else if BitAnd(value, value - 1) != 0 then false
    else true
  }

  /** The block sizes accepted are exactly the powers of two from 8 on. */
  lemma ValidateBlockSizeAccepts(value: nat)
    ensures ValidateBlockSize(value) <==> value >= 8 && IsPowerOfTwo(value)
  {
    if value >= 8 {
      ClearLowestBitIsZero(value);
    }
  }

  /**
   * Every accepted block size is one the block-aligned target can be
   * built with: a power of two that holds a whole word.
   */
  lemma AcceptedBlockSizeHoldsWord(value: nat)
    requires ValidateBlockSize(value)
    ensures IsPowerOfTwo(value) && value >= WordSize
  {
    ValidateBlockSizeAccepts(value);
  }

  /**
   * What `std::stoul` does with a string: it converts it to an `unsigned
   * long`, or throws `invalid_argument` when no conversion can be made, or
   * throws `out_of_range` when the value does not fit.
   */
  datatype Conversion = Converted(value: nat) | InvalidArgument | OutOfRange

  /**
   * How a call of a validator ends: it accepts the value, or rejects it,
   * or an exception it does not catch leaves it and ends the program.
   */
  datatype Verdict = Accept | Reject | Terminate

  /**
   * `ValidateRandomSeed`: the empty seed is accepted (a random one is used);
   * any other is parsed, and rejected when parsing throws
   * `invalid_argument`. The validator does not catch `out_of_range`.
   */
  function ValidateRandomSeed(seed: string, stoul: string -> Conversion): Verdict
  {
    if seed == [] then Accept
    else match stoul(seed)
      case Converted(_) => Accept
      case InvalidArgument => Reject
      case OutOfRange => Terminate
  }
}
