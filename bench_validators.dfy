/**
 * The seed validator of the array benchmark driver (src/pmwcas_bench.cpp),
 * which scans the seed instead of parsing it: the empty seed is accepted,
 * and otherwise every character must be a decimal digit. Its number checks
 * are those of `Validators`.
 */
module BenchValidators {
  import opened Common
  import opened Words
  import Validators

  /** `std::isdigit` in the default locale. */
  predicate IsDigit(c: char) {
    '0' <= c <= '9'
  }

  /** Every character of `s` is a decimal digit. */
  ghost predicate DigitsOnly(s: string) {
    forall i :: 0 <= i < |s| ==> IsDigit(s[i])
  }

  /**
   * Scans the seed from the front and rejects it at the first character
   * that is not a digit.
   */
  method ValidateRandomSeed(seed: string) returns (ok: bool)
    ensures ok <==> DigitsOnly(seed)
  {
    if seed == [] {
      return true;
    }
    for i := 0 to |seed|
      invariant forall j :: 0 <= j < i ==> IsDigit(seed[j])
    {
      if !IsDigit(seed[i]) {
        return false;
      }
    }
    return true;
  }

  /**
   * `std::stoul` on a string of decimal digits, with the 64-bit `unsigned
   * long` of the Linux targets: it converts the string to its value, and
   * throws `out_of_range` when the value exceeds 2^64 - 1.
   */
  ghost predicate ConvertsDigits(stoul: string -> Validators.Conversion) {
    forall s: string :: s != [] && DigitsOnly(s) ==>
      stoul(s) == if DigitsValue(s) < WordLimit then Validators.Converted(DigitsValue(s)) else Validators.OutOfRange
  }

  /**
   * `std::stoul` reads the leading digits of a string and ignores what
   * follows them.
   */
  ghost predicate ParsesLeadingDigits(stoul: string -> Validators.Conversion) {
    forall t: string, u: string :: t != [] && DigitsOnly(t) && u != [] && !IsDigit(u[0]) ==> stoul(t + u) == stoul(t)
  }

  /**
   * Every seed the scan accepts, the parsing validator accepts too, unless
   * its value exceeds 2^64 - 1: then `std::stoul` throws `out_of_range`,
   * which neither validator catches, and the program ends. The driver
   * parses the accepted seed with `std::stoul` again, so such a seed ends
   * it there.
   */
  lemma DigitSeedsParse(seed: string, stoul: string -> Validators.Conversion)
    requires ConvertsDigits(stoul)
    requires DigitsOnly(seed)
    ensures Validators.ValidateRandomSeed(seed, stoul)
      == if seed != [] && DigitsValue(seed) >= WordLimit then Validators.Terminate else Validators.Accept
  {
  }

  /**
   * A seed the scan accepts and the parser does not: the digits of 2^64.
   */
  lemma OverlongSeedTerminates(stoul: string -> Validators.Conversion)
    requires ConvertsDigits(stoul)
    ensures DigitsOnly(Digits(WordLimit)) && DigitsValue(Digits(WordLimit)) == WordLimit
    ensures Validators.ValidateRandomSeed(Digits(WordLimit), stoul) == Validators.Terminate
  {
    DigitsRoundTrip(WordLimit);
  }

  /**
   * The parsing validator does not imply the scan either: `std::stoul`
   * converts the leading digit of "1a" and ignores the rest, so the
   * parsing validator accepts a seed the scan rejects.
   */
  lemma ParsedSeedNeedNotBeDigits(stoul: string -> Validators.Conversion)
    requires ConvertsDigits(stoul) && ParsesLeadingDigits(stoul)
    ensures Validators.ValidateRandomSeed("1a", stoul) == Validators.Accept && !DigitsOnly("1a")
  {
    assert "1a" == "1" + "a";
    assert DigitsValue("1") == 1;
    assert !IsDigit("1a"[1]);
  }
}
