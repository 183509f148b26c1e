/**
 Exact conversion of significant decimal digits to a binary format: integer arithmetic on
 arbitrary-size naturals, one rounding.
*/
module ExactRounding {
  import opened Arithmetic
  import opened Bits
  import opened Decimals
  import opened Formats
  import opened IntCasts
  import opened Naturals

  datatype Rounded = Rounded(bits: nat, overflow: bool, underflowToZero: bool)

  // ---- the exact value, and what a correct result is ----

  /** n * 10^x in units of the format is UnitsOver / UnitsUnder. */
  ghost function UnitsOver(format: Format, n: nat, x: int): nat
    requires UnitShift(format) >= 0
  {
    n * Pow(10, Positive(x)) * Pow(2, UnitShift(format))
  }

  ghost function UnitsUnder(x: int): (d: nat)
    ensures d > 0
  {
    Pow(10, Positive(-x))
  }

  /** The code of n * 10^x rounded once, exactly. */
  ghost function ExactCode(format: Format, n: nat, x: int): nat
    requires Interchange(format)
  {
    Nearest(format, UnitsOver(format, n, x), UnitsUnder(x))
  }

  /** The encoding of a code with a sign. */
  function SignedBits(format: Format, negative: bool, code: nat): nat
    requires format.width >= 1
  {
    (if negative then Pow(2, format.width - 1) else 0) + code
  }

  ghost predicate IsRounded(format: Format, negative: bool, n: nat, x: int, result: Rounded)
    requires Interchange(format)
  {
    var code := ExactCode(format, n, x);
    && result.bits == SignedBits(format, negative, code)
    && (result.overflow <==> code == InfinityCode(format))
    && (result.underflowToZero <==> n > 0 && code == 0)
  }

  /** Moving factors of ten between digits and exponent changes nothing. */
  lemma ExactCodeOfScaledDigits(format: Format, n: nat, m: nat, x: int, t: nat)
    requires Interchange(format) && n == m * Pow(10, t)
    ensures ExactCode(format, n, x) == ExactCode(format, m, x + t)
  {
    hide Nearest, Pow;
    var u := Pow(2, UnitShift(format));
    var p, q := Pow(10, Positive(x)), Pow(10, Positive(x + t));
    var r, s := Pow(10, Positive(-x)), Pow(10, Positive(-x - t));
    var w := Pow(10, t);
    assert w * p * s == q * r by {
      PowAdd(10, t, Positive(x));
      PowAdd(10, t + Positive(x), Positive(-x - t));
      PowAdd(10, Positive(x + t), Positive(-x));
    }
    assert (m * w * p * u) * s == (m * q * u) * r by { Regroup(m, w, p, u, s, q, r); }
    NearestOfEqualFractions(format, UnitsOver(format, n, x), UnitsUnder(x),
                            UnitsOver(format, m, x + t), UnitsUnder(x + t));
  }

  lemma Regroup(m: nat, w: nat, p: nat, u: nat, s: nat, q: nat, r: nat)
    requires w * p * s == q * r
    ensures (m * w * p * u) * s == (m * q * u) * r
  {
    calc {
      (m * w * p * u) * s;
      { MulAssoc(m * w * p, u, s); MulAssoc(m * w * p, s, u); }
      (m * w * p) * s * u;
      { MulAssoc(m, w, p); MulAssoc(m, w * p, s); }
      m * (w * p * s) * u;
      m * (q * r) * u;
      { MulAssoc(m, q, r); MulAssoc(m * q, r, u); MulAssoc(m * q, u, r); }
      (m * q * u) * r;
    }
  }

  // ---- encoding ----

  method Encode(format: Format, negative: bool, significand: nat, biasedExponent: nat) returns (bits: nat)
    requires Interchange(format) && biasedExponent < 2 * (format.maxExponent + 1)
    ensures bits == SignedBits(format, negative, biasedExponent * Hidden(format) + significand % Hidden(format))
    ensures bits < Pow(2, format.width)
  {
    hide Pow, Or, And;
    var fractionBits := format.precision - 1;
    var sign := if negative then Pow(2, format.width - 1) else 0;
    bits := Or(Or(sign, biasedExponent * Pow(2, fractionBits)), And(significand, Pow(2, fractionBits) - 1));
    AndMask(significand, fractionBits);
    FieldsDoNotOverlap(format, negative, biasedExponent, significand % Hidden(format));
  }

  lemma FieldsDoNotOverlap(format: Format, negative: bool, biased: nat, trailing: nat)
    requires Interchange(format)
    requires biased < 2 * (format.maxExponent + 1) && trailing < Hidden(format)
    ensures var sign := if negative then Pow(2, format.width - 1) else 0;
            var code := biased * Hidden(format) + trailing;
            && Or(Or(sign, biased * Hidden(format)), trailing) == sign + code
            && sign + code < Pow(2, format.width)
  {
    hide Pow, Or;
    var h, e := Hidden(format), Pow(2, format.width - format.precision);
    PowAdd(2, format.width - format.precision, format.precision - 1);
    assert Pow(2, format.width) == 2 * (e * h) by { PowSucc(format.width - 1); }
    var s := if negative then 1 else 0;
    FieldBound(biased, trailing, h, e);
    OrDisjoint(s, biased * h, format.width - 1);
    OrDisjoint(s * e + biased, trailing, format.precision - 1);
    SignField(s, e, h, biased);
  }

  lemma PowOne()
    ensures Pow(2, 1) == 2
  {
  }

  lemma FieldBound(biased: nat, trailing: nat, h: nat, e: nat)
    requires biased < e && trailing < h
    ensures biased * h + trailing < e * h
  {
    MulMonotone(h, biased + 1, e);
  }

  lemma SignField(s: nat, e: nat, h: nat, biased: nat)
    requires s <= 1
    ensures s * (e * h) == if s == 1 then e * h else 0
    ensures (s * e + biased) * h == s * (e * h) + biased * h
  {
    MulAssoc(s, e, h);
  }

  method InfinityBits(format: Format, negative: bool) returns (bits: nat)
    requires Interchange(format)
    ensures bits == SignedBits(format, negative, InfinityCode(format))
  {
    bits := Encode(format, negative, 0, 2 * format.maxExponent + 1);
  }

  // ---- comparing a fraction with a power of two ----

  /** num / den < 2^t. */
  ghost predicate Below(num: nat, den: nat, t: int) {
    num * Pow(2, Positive(-t)) < den * Pow(2, Positive(t))
  }

  lemma BelowAt(num: nat, den: nat, t: int, m: nat)
    requires m + t >= 0
    ensures Below(num, den, t) <==> num * Pow(2, m) < den * Pow(2, m + t)
  {
    hide Pow;
    var k := m - Positive(-t);
    PowAdd(2, Positive(-t), k);
    PowAdd(2, Positive(t), k);
    var w := Pow(2, k);
    MulAssoc(num, Pow(2, Positive(-t)), w);
    MulAssoc(den, Pow(2, Positive(t)), w);
    MulCancel(w, den * Pow(2, Positive(t)), num * Pow(2, Positive(-t)));
  }

  lemma BelowMonotone(num: nat, den: nat, s: int, t: int)
    requires Below(num, den, s) && s <= t
    ensures Below(num, den, t)
  {
    hide Pow, Below;
    var m := Positive(-s);
    BelowAt(num, den, s, m);
    BelowAt(num, den, t, m);
    PowMonotone(2, m + s, m + t);
    MulMonotone(den, Pow(2, m + s), Pow(2, m + t));
  }

  /** Bit lengths place the quotient of two positive numbers within two binades. */
  lemma BitWidthsEstimate(num: nat, den: nat)
    requires num > 0 && den > 0
    ensures var t := (BitWidth(num) as int) - BitWidth(den); Below(num, den, t + 1) && !Below(num, den, t - 1)
  {
    hide Pow, Below, BitWidth;
    BitWidthsUpper(num, den);
    BitWidthsLower(num, den);
  }

  lemma BitWidthsUpper(num: nat, den: nat)
    requires num > 0 && den > 0
    ensures Below(num, den, (BitWidth(num) as int) - BitWidth(den) + 1)
  {
    hide Pow, Below, BitWidth;
    var n, d := BitWidth(num), BitWidth(den);
    ProductOrder(num, Pow(2, n), Pow(2, d - 1), den);
    BelowAt(num, den, (n as int) - d + 1, d - 1);
  }

  lemma BitWidthsLower(num: nat, den: nat)
    requires num > 0 && den > 0
    ensures !Below(num, den, (BitWidth(num) as int) - BitWidth(den) - 1)
  {
    hide Pow, Below, BitWidth;
    var n, d := BitWidth(num), BitWidth(den);
    ProductOrder(den, Pow(2, d), Pow(2, n - 1), num);
    BelowAt(num, den, (n as int) - d - 1, d);
  }

  lemma ProductOrder(x: nat, y: nat, a: nat, b: nat)
    requires x < y && 0 < a <= b
    ensures x * a < b * y
  {
    MulStrict(a, x, y);
    MulMonotone(y, a, b);
  }

  /** The e with 2^e <= (numerator / denominator) * 2^exponent2 < 2^(e + 1). */
  method BinaryExponent(numerator: Natural, denominator: Natural, exponent2: int) returns (e: int)
    requires numerator.Valid() && denominator.Valid()
    requires numerator.Value() > 0 && denominator.Value() > 0
    requires LengthsFitInt(numerator.Value(), denominator.Value())
    ensures Below(numerator.Value(), denominator.Value(), e - exponent2 + 1)
    ensures !Below(numerator.Value(), denominator.Value(), e - exponent2)
    ensures e - exponent2 == LengthDifference(numerator.Value(), denominator.Value())
            || e - exponent2 == LengthDifference(numerator.Value(), denominator.Value()) - 1
  {
    hide Pow, Below, BitWidth;
    ghost var num, den := numerator.Value(), denominator.Value();
    BitWidthsEstimate(num, den);
    var numeratorBits := numerator.BitLength();
    var denominatorBits := denominator.BitLength();
    e := numeratorBits - denominatorBits + exponent2;
    var left := new Natural.Copy(numerator);
    var right := new Natural.Copy(denominator);
    var shift := e - exponent2;
    if shift >= 0 { right.ShiftLeft(ToInt32(shift)); } else { left.ShiftLeft(ToInt32(-shift)); }
    BelowAt(num, den, shift, Positive(-shift));
    TimesOne(num, den);
    var order := Compare(left, right);
    if order < 0 { e := e - 1; }
  }

  lemma TimesOne(x: nat, y: nat)
    ensures Pow(2, 0) == 1 && x * Pow(2, 0) == x && y * Pow(2, 0) == y
  {
  }

  // ---- the bit-by-bit division ----

  /** One bit of the quotient: whole is the dividend, m the quotient bits found so far. */
  lemma DivisionStep(whole: nat, divisor: nat, m: nat, rest: nat, bit: nat)
    requires whole == (m * Pow(2, bit + 1)) * divisor + rest && rest < divisor * Pow(2, bit + 1)
    ensures Or(m * Pow(2, bit + 1), Pow(2, bit)) == (2 * m + 1) * Pow(2, bit)
    ensures (2 * m) * Pow(2, bit) == m * Pow(2, bit + 1)
    ensures var step := divisor * Pow(2, bit);
            rest >= step ==>
              && rest - step < step
              && whole == ((2 * m + 1) * Pow(2, bit)) * divisor + (rest - step)
  {
    var w := Pow(2, bit);
    assert Pow(2, bit + 1) == 2 * w;
    OrDisjoint(m, w, bit + 1);
    hide Pow;
    TakenBit(m, w, divisor);
  }

  lemma TakenBit(m: nat, w: nat, divisor: nat)
    ensures (2 * m) * w == m * (2 * w)
    ensures (2 * m + 1) * w == m * (2 * w) + w
    ensures ((2 * m + 1) * w) * divisor == (m * (2 * w)) * divisor + divisor * w
    ensures divisor * (2 * w) == 2 * (divisor * w)
  {
    MulAssoc(m, 2, w);
    assert (m * (2 * w) + w) * divisor == (m * (2 * w)) * divisor + w * divisor;
  }

  /**
   The division loop: from a dividend in remainder and a divisor d already shifted into step
   by precision bits, the quotient, leaving the remainder.
  */
  method Divide(remainder: Natural, step: Natural, precision: nat, ghost d: nat) returns (q: u64)
    requires remainder.Valid() && step.Valid() && remainder != step && d > 0 && precision <= 63
    requires step.Value() == d * Pow(2, precision) && remainder.Value() < step.Value()
    modifies remainder, step
    ensures remainder.Valid() && remainder.Value() < d && q < Pow(2, precision) && q < 0x8000_0000_0000_0000
    ensures old(remainder.Value()) == q * d + remainder.Value()
  {
    hide Pow, Or;
    ghost var whole := remainder.Value();
    q := 0;
    ghost var m: nat := 0;
    var bit: int := precision;
    DoubledBound(whole, d, precision);
    while bit >= 0
      invariant -1 <= bit <= precision && remainder.Valid() && step.Valid()
      invariant bit >= 0 ==> step.Value() == d * Pow(2, bit)
      invariant q == m * Pow(2, bit + 1) && whole == q * d + remainder.Value()
      invariant remainder.Value() < d * Pow(2, bit + 1)
    {
      DivisionStep(whole, d, m, remainder.Value(), bit);
      var order := Compare(remainder, step);
      if order >= 0 {
        QuotientBound(whole, d, (2 * m + 1) * Pow(2, bit), remainder.Value() - step.Value(), precision);
        remainder.Subtract(step);
        m := 2 * m + 1;
        q := Or(q, Pow(2, bit));
      } else {
        m := 2 * m;
      }
      step.ShiftRightOne();
      if bit > 0 { HalvedStep(d, bit); }
      bit := bit - 1;
    }
    TimesOne(d, m);
    QuotientBound(whole, d, q, remainder.Value(), precision);
  }

  /** Quotient and remainder of (numerator / denominator) * 2^shift when the quotient has at most precision bits. */
  method ScaledDivision(numerator: Natural, denominator: Natural, shift: int, precision: nat)
    returns (q: u64, remainder: Natural, divisor: Natural)
    requires numerator.Valid() && denominator.Valid() && denominator.Value() > 0 && precision <= 63
    requires Below(numerator.Value(), denominator.Value(), precision - shift) && -0x8000_0000 < shift < 0x8000_0000
    ensures fresh(remainder) && fresh(divisor) && remainder != divisor && remainder.Valid() && divisor.Valid()
    ensures divisor.Value() == denominator.Value() * Pow(2, Positive(-shift))
    ensures numerator.Value() * Pow(2, Positive(shift)) == q * divisor.Value() + remainder.Value()
    ensures remainder.Value() < divisor.Value() && q < Pow(2, precision) && q < 0x8000_0000_0000_0000
  {
    hide Pow, Below;
    ghost var num, den := numerator.Value(), denominator.Value();
    TimesOne(num, den);
    QuotientFits(num, den, shift, precision);
    remainder := new Natural.Copy(numerator);
    divisor := new Natural.Copy(denominator);
    if shift >= 0 { remainder.ShiftLeft(ToInt32(shift)); } else { divisor.ShiftLeft(ToInt32(-shift)); }
    ghost var d := divisor.Value();
    assert d > 0 by { MulStrict(Pow(2, Positive(-shift)), 0, den); }
    var step := new Natural.Copy(divisor);
    step.ShiftLeft(precision);
    q := Divide(remainder, step, precision, d);
  }

  lemma QuotientFits(num: nat, den: nat, shift: int, precision: nat)
    ensures Below(num, den, precision - shift)
            <==> num * Pow(2, Positive(shift)) < (den * Pow(2, Positive(-shift))) * Pow(2, precision)
  {
    hide Pow, Below;
    BelowAt(num, den, precision - shift, Positive(shift));
    PowAdd(2, Positive(-shift), precision);
    MulAssoc(den, Pow(2, Positive(-shift)), Pow(2, precision));
  }

  lemma DoubledBound(whole: nat, d: nat, precision: nat)
    requires whole < d * Pow(2, precision)
    ensures whole < d * Pow(2, precision + 1)
  {
    MulAssoc(d, 2, Pow(2, precision));
  }

  lemma HalvedStep(d: nat, bit: nat)
    requires bit > 0
    ensures d * Pow(2, bit) / 2 == d * Pow(2, bit - 1)
  {
    MulAssoc(d, 2, Pow(2, bit - 1));
  }

  lemma QuotientBound(whole: nat, d: nat, q: nat, rest: nat, precision: nat)
    requires d > 0 && precision <= 63 && whole == q * d + rest && whole < d * Pow(2, precision)
    ensures q < Pow(2, precision) <= 0x8000_0000_0000_0000
  {
    hide Pow;
    SmallPower(precision);
    MulCancel(d, Pow(2, precision), q);
  }

  lemma SmallPower(bits: nat)
    requires bits <= 63
    ensures Pow(2, bits) <= 0x8000_0000_0000_0000
  {
    hide Pow;
    PowMonotone(2, bits, 63);
    PowAdd(2, 32, 31);
    WordIsPowerOfTwo();
  }

  // ---- the quotient decides the code ----

  /** The scaled fraction is the exact value: both sides are n * 10^x in units. */
  lemma ScaledFraction(format: Format, n: nat, x: int, e: int)
    requires Interchange(format)
    ensures var shift := x - Scale(format, e);
            var r := n * Pow(5, Positive(x)) * Pow(2, Positive(shift));
            var d := Pow(5, Positive(-x)) * Pow(2, Positive(-shift));
            var s := Scale(format, e) + UnitShift(format);
            s >= 0 && UnitsOver(format, n, x) * d == (r * Pow(2, s)) * UnitsUnder(x)
  {
    hide Pow;
    var shift := x - Scale(format, e);
    var s, u := Scale(format, e) + UnitShift(format), UnitShift(format);
    PowDistributes(2, 5, Positive(x));
    PowDistributes(2, 5, Positive(-x));
    PowAdd(2, Positive(x), u);
    PowAdd(2, Positive(x) + u, Positive(-shift));
    PowAdd(2, Positive(shift), s);
    PowAdd(2, Positive(shift) + s, Positive(-x));
    RegroupScaled(n, Pow(5, Positive(x)), Pow(5, Positive(-x)), Pow(2, Positive(x)), Pow(2, u), Pow(2, Positive(-shift)),
                  Pow(2, Positive(shift)), Pow(2, s), Pow(2, Positive(-x)));
  }

  lemma RegroupScaled(n: nat, f: nat, g: nat, a: nat, b: nat, c: nat, a': nat, b': nat, c': nat)
    requires a * b * c == a' * b' * c'
    ensures (n * (a * f) * b) * (g * c) == (n * f * a' * b') * (c' * g)
  {
    var k := n * f * g;
    calc {
      (n * (a * f) * b) * (g * c);
      { assert n * (a * f) == (n * f) * a; Shuffle((n * f) * a, b, g, c); Shuffle(n * f, a, g, 1); }
      (k * a) * (b * c);
      { MulAssoc(k, a, b * c); MulAssoc(a, b, c); }
      k * (a * b * c);
      k * (a' * b' * c');
      { MulAssoc(k, a' * b', c'); MulAssoc(k, a', b'); }
      k * a' * b' * c';
      { Reorder(n * f, g, a', b', c'); }
      (n * f * a' * b') * (c' * g);
    }
  }

  lemma Reorder(m: nat, g: nat, a: nat, b: nat, c: nat)
    ensures m * g * a * b * c == (m * a * b) * (c * g)
  {
    calc {
      m * g * a * b * c;
      { MulAssoc(m, g, a); MulAssoc(m, a, g); }
      m * a * g * b * c;
      { MulAssoc(m * a, g, b); MulAssoc(m * a, b, g); }
      m * a * b * g * c;
      { MulAssoc(m * a * b, g, c); }
      (m * a * b) * (c * g);
    }
  }

  /** What the scaled division of n * 10^x at binary exponent e delivers. */
  ghost predicate Divided(format: Format, n: nat, x: int, e: int, d: nat, q: nat, rest: nat) {
    var num, den := n * Pow(5, Positive(x)), Pow(5, Positive(-x));
    var shift := x - Scale(format, e);
    && rest < d == den * Pow(2, Positive(-shift))
    && num * Pow(2, Positive(shift)) == q * d + rest
    && Below(num, den, e - x + 1) && !Below(num, den, e - x)
  }

  /** The quotient is a significand, normalized above the subnormal range. */
  lemma QuotientInRange(format: Format, n: nat, x: int, e: int, d: nat, q: nat, rest: nat)
    requires Interchange(format) && d > 0 && Divided(format, n, x, e, d, q, rest)
    ensures var s := Scale(format, e) + UnitShift(format);
            s >= 0 && q < 2 * Hidden(format) && (s > 0 ==> q >= Hidden(format))
  {
    hide Pow, Below, Hidden;
    var num, den := n * Pow(5, Positive(x)), Pow(5, Positive(-x));
    var shift, h := x - Scale(format, e), Hidden(format);
    BelowMonotone(num, den, e - x + 1, format.precision - shift);
    QuotientFits(num, den, shift, format.precision);
    MulCancel(d, 2 * h, q);
    if Scale(format, e) + UnitShift(format) > 0 {
      assert format.precision - 1 - shift == e - x;
      QuotientFits(num, den, shift, format.precision - 1);
      HiddenIsPower(format);
      MulCancel(d, q + 1, h);
    }
  }

  /** The code from quotient and remainder. */
  lemma QuotientDecides(format: Format, n: nat, x: int, e: int, d: nat, q: nat, rest: nat)
    requires Interchange(format) && d > 0 && Divided(format, n, x, e, d, q, rest)
    ensures var s := Scale(format, e) + UnitShift(format);
            && s >= 0
            && var code := s * Hidden(format) + PickBy(2 * rest, d, q);
            ExactCode(format, n, x) == if code < InfinityCode(format) then code else InfinityCode(format)
  {
    hide Pow, Below, Nearest, InfinityCode, Hidden, PickBy;
    QuotientInRange(format, n, x, e, d, q, rest);
    var s, h := Scale(format, e) + UnitShift(format), Hidden(format);
    var r := q * d + rest;
    DivUnique(r, d, q, rest);
    QuotientTimes(q, d, rest, 2 * h);
    if s > 0 { MulMonotone(d, h, q); }
    NearestAtScale(format, r, d, s);
    ScaledFraction(format, n, x, e);
    NearestOfEqualFractions(format, UnitsOver(format, n, x), UnitsUnder(x), r * Pow(2, s), d);
  }

  lemma QuotientTimes(q: nat, d: nat, rest: nat, limit: nat)
    requires rest < d && q < limit
    ensures q * d + rest < d * limit
  {
    MulMonotone(d, q + 1, limit);
  }

  lemma HiddenIsPower(format: Format)
    requires format.precision >= 2
    ensures Hidden(format) == Pow(2, format.precision - 1)
  {
  }

  // ---- the magnitude cutoffs ----

  /** 2^43 < 10^13 and 2^35 < 10^11, so powers of two up to 2^(43 k + 35) are below 10^(13 k + 11). */
  lemma PowersOfTwoAndTen(k: nat)
    ensures Pow(2, 43 * k) <= Pow(10, 13 * k)
    ensures Pow(2, 43 * k + 35) <= Pow(10, 13 * k + 11)
  {
    assert Pow(2, 8) == 256 && Pow(10, 8) == 100_000_000;
    PowAdd(2, 8, 8);
    PowAdd(2, 16, 16);
    PowAdd(2, 32, 8);
    PowAdd(2, 40, 3);
    PowAdd(2, 32, 3);
    PowAdd(10, 8, 3);
    PowAdd(10, 8, 5);
    assert Pow(2, 3) == 8 && Pow(10, 3) == 1000 && Pow(10, 5) == 100_000;
    PowPower(2, 43, k);
    PowPower(10, 13, k);
    PowBases(Pow(2, 43), Pow(10, 13), k);
    PowAdd(2, 43 * k, 35);
    PowAdd(10, 13 * k, 11);
    MulMonotone(Pow(2, 35), Pow(2, 43 * k), Pow(10, 13 * k));
    MulMonotone(Pow(10, 13 * k), Pow(2, 35), Pow(10, 11));
  }

  /** From 10^310 on every format overflows. */
  lemma LargeMagnitudeOverflows(format: Format, n: nat, x: int, count: nat)
    requires Supported(format) && Interchange(format)
    requires count > 0 && Pow(10, count - 1) <= n && x + count > 310
    ensures ExactCode(format, n, x) == InfinityCode(format)
  {
    hide Pow, Nearest, CorrectlyRounded, InfinityCode, Units;
    SupportedAreInterchange(format);
    var infinity, code := InfinityCode(format), ExactCode(format, n, x);
    var a, b, u := UnitsOver(format, n, x), UnitsUnder(x), Pow(2, UnitShift(format));
    NearestIsCorrect(format, a, b);
    InfinityIsEven(format);
    UnitsOrder(format, infinity - 1, infinity);
    assert Units(format, infinity) * b <= a by {
      UnitsOfInfinity(format);
      PowersOfTwoAndTen(23);
      PowMonotone(2, format.maxExponent + 1, 1024);
      PowAdd(2, format.maxExponent + 1, UnitShift(format));
      var p := Pow(10, Positive(x));
      assert Pow(10, 310) * b <= n * p by {
        PowAdd(10, count - 1, Positive(x));
        PowAdd(10, 310, Positive(-x));
        PowMonotone(10, 310 + Positive(-x), count - 1 + Positive(x));
        MulMonotone(p, Pow(10, count - 1), n);
      }
      LargeProduct(Pow(2, format.maxExponent + 1), Pow(10, 310), u, b, n * p);
    }
    OverflowThreshold(Units(format, infinity - 1), Units(format, infinity), a, b);
    CorrectlyRoundedAboveThreshold(format, a, b, code);
  }

  lemma UnitsOfInfinity(format: Format)
    requires Interchange(format)
    ensures Units(format, InfinityCode(format)) == Pow(2, format.maxExponent + 1 + UnitShift(format))
  {
    var h := Hidden(format);
    DivUnique(InfinityCode(format), h, 2 * format.maxExponent + 1, 0);
    MulMonotone(h, 1, 2 * format.maxExponent + 1);
    PowAdd(2, format.precision - 1, 2 * format.maxExponent);
  }

  lemma LargeProduct(v: nat, t: nat, u: nat, b: nat, m: nat)
    requires v <= t && t * b <= m
    ensures (v * u) * b <= m * u
  {
    MulMonotone(b, v, t);
    MulMonotone(u, v * b, m);
    MulAssoc(v, u, b);
    MulAssoc(v, b, u);
  }

  lemma OverflowThreshold(m: nat, n: nat, a: nat, b: nat)
    requires m <= n && n * b <= a
    ensures 2 * a >= (m + n) * b
  {
    MulMonotone(b, m, n);
    assert (m + n) * b == m * b + n * b;
  }

  lemma CorrectlyRoundedAboveThreshold(format: Format, a: nat, b: nat, code: nat)
    requires Interchange(format) && CorrectlyRounded(format, a, b, code) && InfinityCode(format) > 0
    requires 2 * a >= (Units(format, InfinityCode(format) - 1) + Units(format, InfinityCode(format))) * b
    ensures code == InfinityCode(format)
  {
  }

  /** Below 10^-330 every format rounds to zero. */
  lemma SmallMagnitudeVanishes(format: Format, n: nat, x: int, count: nat)
    requires Supported(format) && Interchange(format)
    requires n < Pow(10, count) && x + count < -330
    ensures ExactCode(format, n, x) == 0
  {
    hide Pow, InfinityCode;
    SupportedAreInterchange(format);
    var a, b, u := UnitsOver(format, n, x), UnitsUnder(x), Pow(2, UnitShift(format));
    assert Pow(10, Positive(x)) == 1 by { TimesOne(1, 1); PowZero(10); }
    assert 2 * a < b by {
      PowersOfTwoAndTen(25);
      PowMonotone(2, UnitShift(format) + 1, 1075);
      PowSucc(UnitShift(format));
      PowMonotone(10, 325, 331);
      PowMonotone(10, 331 + count, Positive(-x));
      PowAdd(10, 331, count);
      SmallProduct(n, u, Pow(10, 331), Pow(10, count), b);
    }
    InfinityIsEven(format);
    RoundsToZero(format, a, b);
  }

  lemma PowZero(b: nat)
    ensures Pow(b, 0) == 1
  {
  }

  lemma SmallProduct(n: nat, u: nat, t: nat, c: nat, b: nat)
    requires n < c && 2 * u <= t && t * c <= b && t > 0
    ensures 2 * (n * 1 * u) < b
  {
    MulMonotone(n, 2 * u, t);
    MulStrict(t, n, c);
    MulAssoc(n, 2, u);
    MulAssoc(2, n, u);
  }

  lemma RoundsToZero(format: Format, a: nat, b: nat)
    requires Interchange(format) && 2 * a < b && InfinityCode(format) > 0
    ensures Nearest(format, a, b) == 0
  {
    hide Pow, InfinityCode;
    var h := Hidden(format);
    MulMonotone(b, 1, 2 * h);
    TimesOne(a, b);
    BinadeUnique(b * (2 * h), a, 0) by { TimesOne(a, b * (2 * h)); }
    DivUnique(a, b, 0, a);
  }

  // ---- the conversion ----

  /** Appends decimal digits to a number that already spells a prefix. */
  method AppendDigits(numerator: Natural, text: string, ghost prefix: string)
    requires numerator.Valid() && Digits(prefix) && Digits(text) && numerator.Value() == DigitsValue(prefix)
    modifies numerator
    ensures numerator.Valid() && numerator.Value() == DigitsValue(prefix + text)
  {
    var i := 0;
    assert prefix + text[..0] == prefix;
    while i < |text|
      invariant 0 <= i <= |text| && numerator.Valid()
      invariant numerator.Value() == DigitsValue(prefix + text[..i])
    {
      numerator.MultiplyAdd(10, DigitValue(text[i]));
      var s := prefix + text[..i + 1];
      assert s[..|s| - 1] == prefix + text[..i];
      i := i + 1;
    }
    assert text[..i] == text;
  }

  /** The result holds a code, infinity when the code is beyond the finite ones. */
  ghost predicate Holds(format: Format, negative: bool, code: nat, result: Rounded)
    requires Interchange(format)
  {
    var infinity := InfinityCode(format);
    && result.bits == SignedBits(format, negative, if code < infinity then code else infinity)
    && (result.overflow <==> code >= infinity)
    && (result.underflowToZero <==> code == 0)
  }

  /** The last steps on a rounded significand: renormalize a carry and encode. */
  method EncodeRounded(format: Format, negative: bool, significand: nat, scale: int) returns (result: Rounded)
    requires Interchange(format)
    requires var s := scale + UnitShift(format);
             s >= 0 && significand <= 2 * Hidden(format) && (s > 0 ==> significand >= Hidden(format))
    ensures Holds(format, negative, (scale + UnitShift(format)) * Hidden(format) + significand, result)
  {
    hide Pow, InfinityCode, Hidden, Holds, SignedBits;
    var h := Hidden(format);
    ghost var s := scale + UnitShift(format);
    var q := significand;
    var leading := scale + format.precision - 1;
    Renormalize(s, h, q);
    if q == 2 * h {
      q := h;
      leading := leading + 1;
    }
    if q == 0 {
      var bits := Encode(format, negative, 0, 0);
      result := Rounded(bits, false, true);
      SubnormalHolds(format, negative, 0, result);
    } else if q < h {
      var bits := Encode(format, negative, q, 0);
      result := Rounded(bits, false, false);
      SubnormalHolds(format, negative, q, result);
    } else if leading > format.maxExponent {
      var bits := InfinityBits(format, negative);
      result := Rounded(bits, true, false);
      NormalHolds(format, negative, leading + format.maxExponent, q - h, result);
    } else {
      var bits := Encode(format, negative, q, leading + format.maxExponent);
      DivUnique(q, h, 1, q - h);
      result := Rounded(bits, false, false);
      NormalHolds(format, negative, leading + format.maxExponent, q - h, result);
    }
  }

  lemma Renormalize(s: nat, h: nat, rounded: nat)
    ensures s == 0 ==> s * h + rounded == rounded
    ensures s * h + rounded == (s + 1) * h + (rounded - h)
    ensures rounded == 2 * h ==> s * h + rounded == (s + 2) * h
  {
  }

  lemma SubnormalHolds(format: Format, negative: bool, trailing: nat, result: Rounded)
    requires Interchange(format) && trailing < Hidden(format)
    requires result == Rounded(SignedBits(format, negative, trailing % Hidden(format)), false, trailing == 0)
    ensures Holds(format, negative, trailing, result)
  {
    hide SignedBits;
    MulMonotone(Hidden(format), 1, 2 * format.maxExponent + 1);
    DivUnique(trailing, Hidden(format), 0, trailing);
  }

  lemma NormalHolds(format: Format, negative: bool, biased: nat, trailing: nat, result: Rounded)
    requires Interchange(format) && biased > 0 && trailing < Hidden(format)
    requires var code := biased * Hidden(format) + trailing;
             if biased > 2 * format.maxExponent then
               result == Rounded(SignedBits(format, negative, InfinityCode(format)), true, false)
             else
               result == Rounded(SignedBits(format, negative, code), false, false)
    ensures Holds(format, negative, biased * Hidden(format) + trailing, result)
  {
    hide SignedBits, Hidden, Pow;
    var h, k := Hidden(format), 2 * format.maxExponent + 1;
    if biased < k { MulMonotone(h, biased + 1, k); } else { MulMonotone(h, k, biased); }
    MulMonotone(h, 1, biased);
  }

  /** digits * 10^exponent rounded once to the format. */
  method RoundExact(format: Format, negative: bool, digits: Significant) returns (result: Rounded)
    requires Supported(format) && Interchange(format) && Trimmed(digits) && FitsInt(format, digits)
    ensures IsRounded(format, negative, DigitsValue(digits.integer + digits.fraction), digits.exponent, result)
  {
    hide Pow, Nearest, Below, DigitsValue, InfinityCode, Hidden, Units;
    ghost var n, x := DigitsValue(digits.integer + digits.fraction), digits.exponent;
    InfinityIsEven(format);
    if digits.count == 0 {
      var bits := Encode(format, negative, 0, 0);
      ZeroRoundsToZero(format, x, digits);
      return Rounded(bits, false, false);
    }
    DigitsValueAtLeast(digits.integer + digits.fraction);
    DigitsValueBelow(digits.integer + digits.fraction);
    var magnitude := digits.exponent + digits.count;
    if magnitude > 310 {
      LargeMagnitudeOverflows(format, n, x, digits.count);
      var bits := InfinityBits(format, negative);
      return Rounded(bits, true, false);
    }
    if magnitude < -330 {
      SmallMagnitudeVanishes(format, n, x, digits.count);
      var bits := Encode(format, negative, 0, 0);
      return Rounded(bits, false, true);
    }
    result := RoundInRange(format, negative, digits);
  }

  /** The exact arithmetic, for values of a bounded magnitude. */
  method RoundInRange(format: Format, negative: bool, digits: Significant) returns (result: Rounded)
    requires Supported(format) && Interchange(format) && Trimmed(digits) && FitsInt(format, digits)
    requires digits.count > 0 && -330 <= digits.exponent + digits.count <= 310
    ensures IsRounded(format, negative, DigitsValue(digits.integer + digits.fraction), digits.exponent, result)
  {
    hide Pow, Nearest, DigitsValue, InfinityCode, Hidden, Units, FitsInt, Divided, Scale;
    ghost var n, x := DigitsValue(digits.integer + digits.fraction), digits.exponent;
    DigitsValueAtLeast(digits.integer + digits.fraction);
    InfinityIsEven(format);
    var e, scale, q, remainder, divisor := ExactQuotient(format, digits);
    ghost var rest, d := remainder.Value(), divisor.Value();
    QuotientInRange(format, n, x, e, d, q, rest);
    QuotientDecides(format, n, x, e, d, q, rest);
    PowOne();
    remainder.ShiftLeft(1);
    var half := Compare(remainder, divisor);
    var rounded := if half > 0 || (half == 0 && q % 2 == 1) then q + 1 else q;
    assert rounded == PickBy(2 * rest, d, q);
    result := EncodeRounded(format, negative, rounded, scale);
  }

  /** Binary exponent, scale and the exact scaled division. */
  method ExactQuotient(format: Format, digits: Significant)
    returns (e: int, scale: int, q: u64, remainder: Natural, divisor: Natural)
    requires Supported(format) && Interchange(format) && Trimmed(digits) && FitsInt(format, digits)
    requires digits.count > 0 && -330 <= digits.exponent + digits.count <= 310
    ensures fresh(remainder) && fresh(divisor) && remainder != divisor && remainder.Valid() && divisor.Valid()
    ensures divisor.Value() > 0 && scale == Scale(format, e) && q < 0x8000_0000_0000_0000
    ensures Divided(format, DigitsValue(digits.integer + digits.fraction), digits.exponent, e,
                    divisor.Value(), q, remainder.Value())
  {
    hide Pow, Below, DigitsValue, Trimmed, BitWidth, Supported, Interchange;
    var numerator, denominator := Fraction(digits);
    e := BinaryExponent(numerator, denominator, digits.exponent);
    scale := Scale(format, e);
    var shift := digits.exponent - scale;
    PrecisionIsSmall(format);
    BelowMonotone(numerator.Value(), denominator.Value(), e - digits.exponent + 1, format.precision - shift);
    q, remainder, divisor := ScaledDivision(numerator, denominator, shift, format.precision);
  }

  lemma PrecisionIsSmall(format: Format)
    requires Supported(format)
    ensures 2 <= format.precision <= 53
  {
  }

  /** digits * 5^exponent as a fraction. */
  method Fraction(digits: Significant) returns (numerator: Natural, denominator: Natural)
    requires Trimmed(digits) && digits.count > 0
    ensures fresh(numerator) && fresh(denominator) && numerator.Valid() && denominator.Valid()
    ensures numerator.Value() == Numerator(digits) && denominator.Value() == Denominator(digits)
    ensures numerator.Value() > 0 && denominator.Value() > 0
  {
    hide DigitsValue, Pow;
    numerator := new Natural(0);
    EmptySpellsZero();
    assert "" + digits.integer == digits.integer;
    AppendDigits(numerator, digits.integer, "");
    AppendDigits(numerator, digits.fraction, digits.integer);
    denominator := new Natural(1);
    ghost var n := numerator.Value();
    DigitsValueAtLeast(digits.integer + digits.fraction);
    FiveToZero(n);
    if digits.exponent >= 0 {
      numerator.MultiplyPowerOfFive(digits.exponent);
    } else {
      denominator.MultiplyPowerOfFive(-digits.exponent);
    }
    MulStrict(Pow(5, Positive(digits.exponent)), 0, n);
  }

  lemma FiveToZero(n: nat)
    ensures Pow(5, 0) == 1 && n * Pow(5, 0) == n
  {
  }

  lemma EmptySpellsZero()
    ensures DigitsValue("") == 0
  {
  }

  lemma ZeroRoundsToZero(format: Format, x: int, digits: Significant)
    requires Interchange(format) && Trimmed(digits) && digits.count == 0
    ensures DigitsValue(digits.integer + digits.fraction) == 0 && ExactCode(format, 0, x) == 0
    ensures InfinityCode(format) > 0
  {
    hide Pow;
    assert digits.integer + digits.fraction == "";
    InfinityIsEven(format);
    RoundsToZero(format, UnitsOver(format, 0, x), UnitsUnder(x));
  }
}
