/** A rounded literal as a binary64 value, which holds every finite value of the formats exactly. */
module RealLiterals {
  import opened Arithmetic
  import opened Bits
  import opened Conversion
  import opened Decimals
  import opened ExactRounding
  import opened Formats
  import opened IntCasts
  import opened Options

  /** The fields of an encoding: sign, biased exponent and trailing significand. */
  lemma FieldsOf(format: Format, negative: bool, code: nat)
    requires Interchange(format) && code < InfinityCode(format)
    ensures var bits, h := SignedBits(format, negative, code), Hidden(format);
            && bits / h % Pow(2, format.width - format.precision) == code / h && bits % h == code % h
            && bits / Pow(2, format.width - 1) == if negative then 1 else 0
  {
    hide Pow, Hidden;
    var h, e := Hidden(format), Pow(2, format.width - format.precision);
    PowAdd(2, format.width - format.precision, format.precision - 1);
    HiddenIsPower(format);
    DivBelow(code, h, 2 * format.maxExponent + 1);
    SplitFields(h, e, if negative then 1 else 0, code);
  }

  lemma DivBelow(n: nat, h: nat, k: nat)
    requires h > 0 && n < k * h
    ensures n / h < k
  {
    assert n == h * (n / h) + n % h;
    MulCancel(h, k, n / h);
  }

  lemma DivPositive(n: nat, h: nat)
    requires 0 < h <= n
    ensures n / h > 0
  {
    assert n == h * (n / h) + n % h;
    MulCancel(h, n / h, 0);
  }

  lemma SplitFields(h: nat, e: nat, s: nat, code: nat)
    requires h > 0 && code / h < e && s <= 1
    ensures var bits := (if s == 1 then e * h else 0) + code;
            bits / h % e == code / h && bits % h == code % h && bits / (e * h) == s
  {
    var bits, b, t := s * (e * h) + code, code / h, code % h;
    assert code == b * h + t;
    MulAssoc(s, e, h);
    assert (s * e + b) * h == s * e * h + b * h;
    DivUnique(bits, h, s * e + b, t);
    DivUnique(s * e + b, e, s, b);
    MulMonotone(h, b + 1, e);
    assert (b + 1) * h == b * h + h;
    DivUnique(bits, e * h, s, code);
  }

  /** The significand and the power of two of a code's value. */
  lemma UnitsOfFields(format: Format, code: nat)
    requires format.precision >= 2
    ensures var h := Hidden(format);
            Units(format, code) == (if code / h != 0 then h + code % h else code % h)
                                   * Pow(2, (if code / h != 0 then code / h else 1) - 1)
  {
    var h := Hidden(format);
    if code < h {
      DivUnique(code, h, 0, code);
    } else {
      DivPositive(code, h);
    }
  }

  /** Scaling by a power of two, rounded once; the significand itself is a binary64 value. */
  function LoadExponent(significand: nat, exponent: int): nat
    requires exponent >= -UnitShift(BINARY64)
  {
    Nearest(BINARY64, significand * Pow(2, exponent + UnitShift(BINARY64)), 1)
  }

  /** binary64 has the smallest units, the longest significand and the largest values. */
  lemma Binary64IsWidest(format: Format)
    requires Supported(format)
    ensures Interchange(BINARY64) && UnitShift(BINARY64) == 1074
    ensures UnitShift(format) <= UnitShift(BINARY64) && Hidden(format) <= Hidden(BINARY64)
    ensures format.maxExponent <= BINARY64.maxExponent && 0 <= UnitShift(format)
  {
    SupportedAreInterchange(BINARY64);
    PowMonotone(2, format.precision - 1, BINARY64.precision - 1);
  }

  /** A value of a narrower format is a value of binary64. */
  lemma ScalingIsExact(format: Format, code: nat, m: nat, s: nat)
    requires Supported(format) && Interchange(format) && code < InfinityCode(format)
    requires Units(format, code) == m * Pow(2, s) && m <= 2 * Hidden(format)
    ensures 0 <= UnitShift(format) <= UnitShift(BINARY64)
    ensures var value := LoadExponent(m, (s as int) - UnitShift(format));
            && value < InfinityCode(BINARY64)
            && Units(BINARY64, value) == Units(format, code) * Pow(2, UnitShift(BINARY64) - UnitShift(format))
  {
    Binary64IsWidest(format);
    hide Pow, Units, Hidden, InfinityCode, Nearest, Supported, Interchange;
    var k := UnitShift(BINARY64) - UnitShift(format);
    var units := m * Pow(2, s + k);
    PowAdd(2, s, k);
    MulAssoc(m, Pow(2, s), Pow(2, k));
    TopOfFormats(format, code);
    var c := Representable(m, s + k);
    NearestOfValue(BINARY64, units, 1, c);
  }

  lemma Representable(m: nat, t: nat) returns (c: nat)
    requires Interchange(BINARY64) && m <= 2 * Hidden(BINARY64)
    requires m * Pow(2, t) < Units(BINARY64, InfinityCode(BINARY64))
    ensures c < InfinityCode(BINARY64) && Units(BINARY64, c) == m * Pow(2, t)
  {
    hide Pow, Units, Hidden, InfinityCode;
    c := 0;
    InfinityIsEven(BINARY64);
    UnitsAt(BINARY64, 0, 0);
    if m > 0 {
      c := CodeOfSignificand(BINARY64, m, t);
      if c >= InfinityCode(BINARY64) { UnitsOrder(BINARY64, InfinityCode(BINARY64), c); }
    }
  }

  /** Finite values of a format stay below the infinity of binary64. */
  lemma TopOfFormats(format: Format, code: nat)
    requires Supported(format) && Interchange(format) && code < InfinityCode(format)
    requires UnitShift(format) <= UnitShift(BINARY64)
    ensures Units(format, code) * Pow(2, UnitShift(BINARY64) - UnitShift(format)) < Units(BINARY64, InfinityCode(BINARY64))
  {
    Binary64IsWidest(format);
    hide Pow, Units, InfinityCode, Supported;
    var k := UnitShift(BINARY64) - UnitShift(format);
    UnitsIncrease(format, code, InfinityCode(format));
    UnitsOfInfinity(format);
    UnitsOfInfinity(BINARY64);
    PowAdd(2, format.maxExponent + 1 + UnitShift(format), k);
    PowMonotone(2, format.maxExponent + 1 + UnitShift(BINARY64), BINARY64.maxExponent + 1 + UnitShift(BINARY64));
    PowMonotone(2, 0, k);
    MulStrict(Pow(2, k), Units(format, code), Units(format, InfinityCode(format)));
  }

  /** The mask of the low k bits. */
  function Mask(k: nat): nat {
    Pow(2, k) - 1
  }

  /** A shift to the right by k bits. */
  function Shifted(bits: nat, k: nat): nat {
    bits / Pow(2, k)
  }

  /** The masks and shifts of the decoder give the fields. */
  lemma MasksGiveFields(format: Format, negative: bool, code: nat)
    requires Interchange(format) && code < InfinityCode(format)
    ensures var bits, h := SignedBits(format, negative, code), Hidden(format);
            && And(Shifted(bits, format.precision - 1), Mask(format.width - format.precision)) == code / h
            && And(bits, Mask(format.precision - 1)) == code % h && Or(code % h, h) == h + code % h
            && (And(Shifted(bits, format.width - 1), 1) == 1 <==> negative)
  {
    hide Pow, And, Or, SignedBits;
    var bits := SignedBits(format, negative, code);
    FieldsOf(format, negative, code);
    AndMask(Shifted(bits, format.precision - 1), format.width - format.precision);
    AndMask(bits, format.precision - 1);
    AndMask(Shifted(bits, format.width - 1), 1);
    OrDisjoint(1, code % Hidden(format), format.precision - 1);
    PowOne();
  }

  /** Biased exponent and significand of a code, loaded into binary64. */
  lemma LoadedExactly(format: Format, code: nat, biased: nat, significand: nat)
    requires Supported(format) && Interchange(format) && code < InfinityCode(format)
    requires biased == code / Hidden(format)
    requires significand == if biased != 0 then Hidden(format) + code % Hidden(format) else code % Hidden(format)
    ensures var exponent := (if biased != 0 then biased else 1) - format.maxExponent - (format.precision - 1);
            && 0 <= UnitShift(format) <= UnitShift(BINARY64) && exponent >= -UnitShift(BINARY64)
            && LoadExponent(significand, exponent) < InfinityCode(BINARY64)
            && Units(BINARY64, LoadExponent(significand, exponent))
               == Units(format, code) * Pow(2, UnitShift(BINARY64) - UnitShift(format))
  {
    UnitsOfFields(format, code);
    Binary64IsWidest(format);
    hide Pow, Units, InfinityCode, Supported, LoadExponent, Hidden;
    ScalingIsExact(format, code, significand, (if biased != 0 then biased else 1) - 1);
  }

  /** Decodes a finite result; the binary64 value is the same number. */
  method Binary64Value(bits: nat, format: Format, ghost negative: bool, ghost code: nat) returns (minus: bool, value: nat)
    requires Supported(format) && Interchange(format)
    requires bits == SignedBits(format, negative, code) && code < InfinityCode(format)
    ensures minus == negative && value < InfinityCode(BINARY64) && UnitShift(format) <= UnitShift(BINARY64)
    ensures Units(BINARY64, value) == Units(format, code) * Pow(2, UnitShift(BINARY64) - UnitShift(format))
  {
    hide Pow, And, Or, Units, InfinityCode, SignedBits, Supported, LoadExponent, Mask, Shifted;
    MasksGiveFields(format, negative, code);
    var fractionBits := format.precision - 1;
    var biased := And(Shifted(bits, fractionBits), Mask(format.width - 1 - fractionBits));
    var significand := And(bits, Mask(fractionBits));
    if biased != 0 { significand := Or(significand, Pow(2, fractionBits)); }
    var exponent := (if biased != 0 then biased else 1) - format.maxExponent - fractionBits;
    LoadedExactly(format, code, biased, significand);
    value := LoadExponent(significand, exponent);
    minus := And(Shifted(bits, format.width - 1), 1) == 1;
  }

  /**
   The value of a literal in a fixed-width real type, as sign and binary64 code: none exactly
   without a format, outside the grammar, or when the rounded value is not finite.
  */
  method RealLiteralValue(spelling: string, format: Option<Format>, available: bool)
    returns (value: Option<(bool, nat)>)
    requires format.Some? ==> Supported(format.value) && Interchange(format.value)
    requires format.Some? ==> TextFitsInt(format.value, spelling)
    ensures IsDecimalText(spelling) ==> SpelledParts(spelling).WellFormed() && SpelledParts(spelling).Text() == spelling
    ensures value.None? <==>
              || format.None? || !IsDecimalText(spelling)
              || ReadCode(format.value, spelling) == InfinityCode(format.value)
    ensures value.Some? ==>
              && value.value.0 == (SpelledParts(spelling).sign == "-")
              && UnitShift(format.value) <= UnitShift(BINARY64)
              && Units(BINARY64, value.value.1)
                 == Units(format.value, ReadCode(format.value, spelling))
                    * Pow(2, UnitShift(BINARY64) - UnitShift(format.value))
  {
    SpelledPartsSpell(spelling);
    hide Pow, Units, ExactCode, IsDecimalText, Parts.Text, Parts.WellFormed, InfinityCode, SpelledParts;
    if format.None? { return None; }
    var ok, rounded;
    ghost var parts;
    ok, rounded, parts := ParseAndRound(spelling, format.value, available);
    if !ok || rounded.overflow { return None; }
    ghost var code := ExactCode(format.value, TextDigits(parts), ReadExponent(parts));
    CodeInRange(format.value, TextDigits(parts), ReadExponent(parts));
    var minus, magnitude := Binary64Value(rounded.bits, format.value, parts.sign == "-", code);
    value := Some((minus, magnitude));
  }

  /** The code of the value that is read from a decimal text, rounded once. */
  ghost function ReadCode(format: Format, text: string): nat
    requires Interchange(format) && SpelledParts(text).WellFormed()
  {
    ExactCode(format, TextDigits(SpelledParts(text)), ReadExponent(SpelledParts(text)))
  }

  /** Below 10^14 characters it is the code of the value the text spells. */
  lemma ReadCodeIsSpelled(format: Format, text: string)
    requires Supported(format) && Interchange(format) && IsDecimalText(text) && |text| < 100_000_000_000_000
    ensures SpelledParts(text).WellFormed()
    ensures ReadCode(format, text) == ExactCode(format, TextDigits(SpelledParts(text)), TextExponent(SpelledParts(text)))
  {
    hide ExactCode;
    SpelledPartsSpell(text);
    ClampIsHarmless(format, SpelledParts(text));
  }

  lemma SpelledPartsSpell(text: string)
    ensures IsDecimalText(text) ==> SpelledParts(text).WellFormed() && SpelledParts(text).Text() == text
    ensures forall p: Parts :: p.WellFormed() && p.Text() == text ==> p == SpelledParts(text)
  {
    hide Parts.Text, Parts.WellFormed, SpelledParts;
    forall p: Parts | p.WellFormed() && p.Text() == text
      ensures p == SpelledParts(text)
    {
      SpelledIsAccepted(p);
    }
  }

  lemma CodeInRange(format: Format, n: nat, x: int)
    requires Interchange(format)
    ensures ExactCode(format, n, x) <= InfinityCode(format)
  {
    hide Nearest, Units, UnitsOver, Closer, InfinityCode;
    NearestIsCorrect(format, UnitsOver(format, n, x), UnitsUnder(x));
  }
}
