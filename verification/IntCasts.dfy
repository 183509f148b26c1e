/**
 The casts to int in the exact conversion: for which digits every exponent and shift it
 computes from them is the number it stands for.
*/
module IntCasts {
  import opened Arithmetic
  import opened Decimals
  import opened Formats
  import opened Naturals

  /** The exact conversion is right for this many significant digits. */
  const DIGIT_LIMIT: nat := 644_000_000

  ghost function Numerator(digits: Significant): nat
    requires Digits(digits.integer) && Digits(digits.fraction)
  {
    DigitsValue(digits.integer + digits.fraction) * Pow(5, Positive(digits.exponent))
  }

  ghost function Denominator(digits: Significant): nat {
    Pow(5, Positive(-digits.exponent))
  }

  ghost function LengthDifference(numerator: nat, denominator: nat): int {
    (BitWidth(numerator) as int) - BitWidth(denominator)
  }

  /** A shift count and its negation are ints. */
  predicate ShiftFits(shift: int) {
    -0x8000_0000 < shift < 0x8000_0000
  }

  /** The cast bit lengths differ by as much as the lengths, and by an int. */
  ghost predicate LengthsFitInt(numerator: nat, denominator: nat) {
    && ToInt32(BitWidth(numerator)) - ToInt32(BitWidth(denominator)) == LengthDifference(numerator, denominator)
    && ShiftFits(LengthDifference(numerator, denominator))
  }

  /**
   Where the conversion computes with the digits, its casts do no harm: the estimate of the
   binary exponent is right, and so are the shifts for it and for one less.
  */
  ghost predicate FitsInt(format: Format, digits: Significant)
    requires Digits(digits.integer) && Digits(digits.fraction)
  {
    digits.count > 0 && -330 <= digits.exponent + digits.count <= 310 ==>
      && LengthsFitInt(Numerator(digits), Denominator(digits))
      && var e := LengthDifference(Numerator(digits), Denominator(digits)) + digits.exponent;
      ShiftFits(digits.exponent - Scale(format, e)) && ShiftFits(digits.exponent - Scale(format, e - 1))
  }

  lemma BitWidthBelow(n: nat, bits: nat)
    requires n < Pow(2, bits)
    ensures BitWidth(n) <= bits
  {
    if n > 0 { PowReflects(2, BitWidth(n) - 1, bits); }
  }

  lemma BitWidthAbove(n: nat, bits: nat)
    requires n >= Pow(2, bits)
    ensures BitWidth(n) > bits
  {
    PowReflects(2, bits, BitWidth(n));
  }

  /** Three decimal digits take less than ten binary ones, three factors of five less than seven. */
  lemma DigitsInBits(m: nat)
    ensures Pow(10, 3 * m) <= Pow(2, 10 * m)
    ensures Pow(5, 3 * m) <= Pow(2, 7 * m)
  {
    assert Pow(10, 3) == 1000 && Pow(2, 10) == 1024 && Pow(5, 3) == 125 && Pow(2, 7) == 128;
    PowPower(10, 3, m);
    PowPower(2, 10, m);
    PowBases(Pow(10, 3), Pow(2, 10), m);
    PowPower(5, 3, m);
    PowPower(2, 7, m);
    PowBases(Pow(5, 3), Pow(2, 7), m);
  }

  /** 2^93 <= 10^28 and 2^65 <= 5^28. */
  lemma ManyDigits(m: nat)
    ensures Pow(2, 93 * m) <= Pow(10, 28 * m) && Pow(2, 65 * m) <= Pow(5, 28 * m)
  {
    assert Pow(2, 8) == 256 && Pow(2, 5) == 32 && Pow(2, 1) == 2 && Pow(5, 7) == 78_125;
    PowAdd(2, 8, 8);
    PowAdd(2, 16, 16);
    PowAdd(2, 32, 32);
    PowAdd(2, 64, 1);
    PowAdd(2, 64, 16);
    PowAdd(2, 80, 8);
    PowAdd(2, 88, 5);
    PowAdd(5, 7, 7);
    PowAdd(5, 14, 14);
    PowDistributes(2, 5, 28);
    PowAdd(2, 16, 8);
    PowAdd(2, 24, 3);
    assert Pow(2, 3) == 8;
    PowAdd(2, 27, 1);
    hide Pow;
    PowPower(2, 93, m);
    PowPower(10, 28, m);
    PowBases(Pow(2, 93), Pow(10, 28), m);
    PowPower(2, 65, m);
    PowPower(5, 28, m);
    PowBases(Pow(2, 65), Pow(5, 28), m);
  }

  // ---- how long the two numbers are ----

  lemma NumeratorAtMost(digits: Significant)
    requires Trimmed(digits) && digits.count > 0
    ensures BitWidth(Numerator(digits)) <= 10 * ((digits.count + Positive(digits.exponent) + 2) / 3)
  {
    hide Pow, BitWidth, DigitsValue;
    var n, x := DigitsValue(digits.integer + digits.fraction), digits.exponent;
    var k := digits.count + Positive(x);
    DigitsValueBelow(digits.integer + digits.fraction);
    PowBases(5, 10, Positive(x));
    PowAdd(10, digits.count, Positive(x));
    PowPositive(5, Positive(x));
    MulStrict(Pow(5, Positive(x)), n, Pow(10, digits.count));
    MulMonotone(Pow(10, digits.count), Pow(5, Positive(x)), Pow(10, Positive(x)));
    var m := (k + 2) / 3;
    PowMonotone(10, k, 3 * m);
    DigitsInBits(m);
    BitWidthBelow(Numerator(digits), 10 * m);
  }

  lemma NumeratorAbove(digits: Significant)
    requires Trimmed(digits) && digits.count > 0
    ensures BitWidth(Numerator(digits)) > 93 * ((digits.count - 1) / 28)
  {
    hide Pow, BitWidth, DigitsValue;
    var n, m := DigitsValue(digits.integer + digits.fraction), (digits.count - 1) / 28;
    DigitsValueAtLeast(digits.integer + digits.fraction);
    PowPositive(5, Positive(digits.exponent));
    MulMonotone(n, 1, Pow(5, Positive(digits.exponent)));
    ManyDigits(m);
    PowMonotone(10, 28 * m, digits.count - 1);
    BitWidthAbove(Numerator(digits), 93 * m);
  }

  lemma DenominatorAtMost(digits: Significant)
    ensures BitWidth(Denominator(digits)) <= 7 * ((Positive(-digits.exponent) + 2) / 3) + 1
  {
    hide Pow, BitWidth;
    var k := Positive(-digits.exponent);
    var m := (k + 2) / 3;
    PowMonotone(5, k, 3 * m);
    DigitsInBits(m);
    PowStrict(2, 7 * m, 7 * m + 1);
    BitWidthBelow(Denominator(digits), 7 * m + 1);
  }

  lemma DenominatorAbove(digits: Significant)
    ensures BitWidth(Denominator(digits)) > 65 * (Positive(-digits.exponent) / 28)
  {
    hide Pow, BitWidth;
    var m := Positive(-digits.exponent) / 28;
    ManyDigits(m);
    PowMonotone(5, 28 * m, Positive(-digits.exponent));
    BitWidthAbove(Denominator(digits), 65 * m);
  }

  lemma PowPositive(b: nat, n: nat)
    requires b > 0
    ensures Pow(b, n) > 0
  {
  }

  // ---- what the casts make of the lengths ----

  lemma CastOf(n: nat)
    ensures n < 0x8000_0000 ==> ToInt32(n) == n
    ensures 0x8000_0000 <= n < 0x1_8000_0000 ==> ToInt32(n) == n - 0x1_0000_0000
  {
  }

  /** Not too many digits make ints of the shifts of the division. */
  lemma ShiftsFit(format: Format, x: int, count: nat, difference: int)
    requires Supported(format) && count <= 2_000_000_000 && -330 <= x + count <= 310
    requires -2_147_000_000 <= difference < 0x8000_0000
    ensures ShiftFits(x - Scale(format, difference + x)) && ShiftFits(x - Scale(format, difference + x - 1))
  {
    SupportedAreInterchange(format);
  }

  /** Up to the limit every bit length is an int. */
  lemma ShortDigitsFit(format: Format, digits: Significant)
    requires Supported(format) && Trimmed(digits) && digits.count <= DIGIT_LIMIT
    ensures FitsInt(format, digits)
  {
    hide Pow, BitWidth, DigitsValue, Numerator, Denominator, ToInt32, Supported, Scale;
    if digits.count > 0 && -330 <= digits.exponent + digits.count <= 310 {
      NumeratorAtMost(digits);
      DenominatorAtMost(digits);
      CastOf(BitWidth(Numerator(digits)));
      CastOf(BitWidth(Denominator(digits)));
      ShiftsFit(format, digits.exponent, digits.count, LengthDifference(Numerator(digits), Denominator(digits)));
    }
  }

  /**
   A little beyond the limit the bit length of the numerator is no int, that of the denominator
   still is one, and the estimate of the exponent is off by 2^32.
  */
  lemma LongDigitsDoNotFit(format: Format, digits: Significant)
    requires Trimmed(digits) && digits.count >= 646_554_245
    ensures ToInt32(BitWidth(Numerator(digits))) != BitWidth(Numerator(digits))
    ensures digits.count <= 920_000_000 && -330 <= digits.exponent + digits.count <= 310 ==> !FitsInt(format, digits)
  {
    hide Pow, BitWidth, DigitsValue, Numerator, Denominator, ToInt32, Scale;
    NumeratorAbove(digits);
    NumeratorAtMost(digits);
    DenominatorAtMost(digits);
    CastOf(BitWidth(Numerator(digits)));
    CastOf(BitWidth(Denominator(digits)));
    LengthIsExactExactlyWhen(Numerator(digits));
  }

  /** Further on both bit lengths are off by 2^32, and the estimate is right again. */
  lemma LongerDigitsFitAgain(format: Format, digits: Significant)
    requires Supported(format) && Trimmed(digits) && 930_000_000 <= digits.count <= 1_900_000_000
    ensures FitsInt(format, digits)
  {
    hide Pow, BitWidth, DigitsValue, Numerator, Denominator, ToInt32, Supported, Scale;
    if -330 <= digits.exponent + digits.count <= 310 {
      NumeratorAbove(digits);
      NumeratorAtMost(digits);
      DenominatorAbove(digits);
      DenominatorAtMost(digits);
      CastOf(BitWidth(Numerator(digits)));
      CastOf(BitWidth(Denominator(digits)));
      ShiftsFit(format, digits.exponent, digits.count, LengthDifference(Numerator(digits), Denominator(digits)));
    }
  }
}
