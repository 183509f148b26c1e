/** When reading an exponent with a limit changes the rounded value, and when it does not. */
module ExponentClamps {
  import opened Arithmetic
  import opened Conversion
  import opened Decimals
  import opened ExactRounding
  import opened Formats

  /** n * 10^x is at least halfway from the largest finite value to the next step of the scale. */
  ghost predicate Overflows(format: Format, n: nat, x: int)
    requires Interchange(format)
  {
    var infinity := InfinityCode(format);
    2 * UnitsOver(format, n, x) >= (Units(format, infinity - 1) + Units(format, infinity)) * UnitsUnder(x)
  }

  /** n * 10^x is at most half the smallest subnormal value. */
  ghost predicate Vanishes(format: Format, n: nat, x: int)
    requires Interchange(format)
  {
    2 * UnitsOver(format, n, x) <= UnitsUnder(x)
  }

  lemma OverflowIsInfinity(format: Format, n: nat, x: int)
    requires Interchange(format)
    ensures Overflows(format, n, x) <==> ExactCode(format, n, x) == InfinityCode(format)
  {
    hide Nearest, Units, UnitsOver, Closer, InfinityCode;
    NearestIsCorrect(format, UnitsOver(format, n, x), UnitsUnder(x));
  }

  lemma VanishingIsZero(format: Format, n: nat, x: int)
    requires Interchange(format)
    ensures Vanishes(format, n, x) <==> ExactCode(format, n, x) == 0
  {
    hide Nearest, UnitsOver, InfinityCode, UnitsUnder, Units;
    var a, b := UnitsOver(format, n, x), UnitsUnder(x);
    var code, infinity := Nearest(format, a, b), InfinityCode(format);
    InfinityIsEven(format);
    NearestIsCorrect(format, a, b);
    UnitsAt(format, 0, 0);
    UnitsAt(format, 0, 1);
    UnitsOrder(format, 1, infinity - 1);
    UnitsOrder(format, 1, infinity);
    MulMonotone(b, 2, Units(format, infinity - 1) + Units(format, infinity));
    if code == 0 {
      assert Closer(format, a, b, 0, 1);
    } else {
      UnitsOrder(format, 1, code);
      MulMonotone(b, 1, Units(format, code));
      if code < infinity { assert Closer(format, a, b, code, 0); }
    }
  }

  /** A finite nonzero code is the one between whose midpoints the value lies. */
  lemma BetweenMidpoints(format: Format, a: nat, b: nat, k: nat)
    requires format.precision >= 2 && format.maxExponent >= 1 && b > 0
    requires Nearest(format, a, b) == k && 0 < k < InfinityCode(format)
    ensures Units(format, k) * b <= 2 * a <= 3 * Units(format, k) * b
  {
    hide Nearest, Units, InfinityCode, CorrectlyRounded;
    UnitsSucc(format, k - 1);
    UnitsSucc(format, k);
    StepAtMostDoubles(format, k);
    NotFartherThan(format, a, b, k);
    NearerThanNeighbours(a, b, Units(format, k - 1), Units(format, k), Units(format, k + 1));
  }

  /** The rounded code's value is at most as far as the next lower one and the next step of the scale. */
  lemma NotFartherThan(format: Format, a: nat, b: nat, k: nat)
    requires format.precision >= 2 && format.maxExponent >= 1 && b > 0
    requires Nearest(format, a, b) == k && 0 < k < InfinityCode(format)
    ensures Distance(a, b, Units(format, k)) <= Distance(a, b, Units(format, k - 1))
    ensures Distance(a, b, Units(format, k)) <= Distance(a, b, Units(format, k + 1))
            || 2 * a < (Units(format, k) + Units(format, k + 1)) * b
  {
    hide Nearest, Units, InfinityCode, Distance;
    NearestIsCorrect(format, a, b);
    assert Closer(format, a, b, k, k - 1);
    assert k + 1 < InfinityCode(format) ==> Closer(format, a, b, k, k + 1);
  }

  lemma NearerThanNeighbours(a: nat, b: nat, l: nat, m: nat, h: nat)
    requires b > 0 && l < m < h <= 2 * m && Distance(a, b, m) <= Distance(a, b, l)
    requires Distance(a, b, m) <= Distance(a, b, h) || 2 * a < (m + h) * b
    ensures m * b <= 2 * a <= 3 * m * b
  {
    var x, y, z := l * b, m * b, h * b;
    MulStrict(b, l, m);
    MulStrict(b, m, h);
    MulMonotone(b, h, 2 * m);
    MulMonotone(b, 0, l);
    MulAssoc(2, m, b);
    MulAssoc(3, m, b);
    assert (m + h) * b == y + z;
    Midpoints(a, x, y, z);
  }

  lemma Midpoints(a: nat, x: nat, y: nat, z: nat)
    requires x < y < z <= 2 * y
    requires (if a >= y then a - y else y - a) <= (if a >= x then a - x else x - a)
    requires (if a >= y then a - y else y - a) <= (if a >= z then a - z else z - a) || 2 * a < y + z
    ensures y <= 2 * a <= 3 * y
  {
  }

  lemma StepAtMostDoubles(format: Format, k: nat)
    requires format.precision >= 2 && k > 0
    ensures Units(format, k + 1) <= 2 * Units(format, k)
  {
    var s, q := SplitCode(format, k);
    UnitsAt(format, s, q);
    UnitsAt(format, s, q + 1);
    UnitsIncrease(format, 0, k);
    assert q > 0;
    MulMonotone(Pow(2, s), q + 1, 2 * q);
    MulAssoc(2, q, Pow(2, s));
  }

  /** A larger exponent is at least ten times the value. */
  lemma Tenfold(format: Format, n: nat, x: int, y: int)
    requires Interchange(format) && x < y
    ensures 10 * UnitsOver(format, n, x) * UnitsUnder(y) <= UnitsOver(format, n, y) * UnitsUnder(x)
  {
    hide Pow;
    var u, p, q := n * Pow(2, UnitShift(format)), Pow(10, Positive(x)), Pow(10, Positive(y));
    var r, t := UnitsUnder(x), UnitsUnder(y);
    PowAdd(10, Positive(x), Positive(-y));
    PowAdd(10, Positive(y), Positive(-x));
    PowMonotone(10, Positive(x) + Positive(-y) + 1, Positive(y) + Positive(-x));
    TenTimes(Positive(x) + Positive(-y));
    assert 10 * (p * t) <= q * r;
    MulMonotone(u, 10 * (p * t), q * r);
    Regroup(n, p, Pow(2, UnitShift(format)), t);
    Regroup(n, q, Pow(2, UnitShift(format)), r);
    MulAssoc(10, UnitsOver(format, n, x), t);
    assert u * (10 * (p * t)) == 10 * (u * (p * t)) by { MulAssoc(u, 10, p * t); MulAssoc(10, u, p * t); }
  }

  lemma TenTimes(e: nat)
    ensures Pow(10, e + 1) == 10 * Pow(10, e)
  {
  }

  lemma Regroup(n: nat, p: nat, w: nat, t: nat)
    ensures n * p * w * t == n * w * (p * t)
  {
    MulAssoc(n, p, w);
    MulAssoc(n, w, p);
    MulAssoc(n * w, p, t);
  }

  /**
   Two exponents round a nonzero number to the same code exactly when they are equal, when
   the smaller one already overflows, or when even the larger one vanishes.
  */
  lemma ExponentsMatter(format: Format, n: nat, x: int, y: int)
    requires Interchange(format) && x < y
    ensures ExactCode(format, n, x) == ExactCode(format, n, y)
            <==> n == 0 || Overflows(format, n, x) || Vanishes(format, n, y)
  {
    hide ExactCode, InfinityCode, UnitsOver, UnitsUnder, Units, Overflows, Vanishes;
    var cx, cy, infinity := ExactCode(format, n, x), ExactCode(format, n, y), InfinityCode(format);
    OverflowIsInfinity(format, n, x);
    OverflowIsInfinity(format, n, y);
    VanishingIsZero(format, n, x);
    VanishingIsZero(format, n, y);
    if n == 0 {
      ZeroCode(format, x);
      ZeroCode(format, y);
    } else {
      Extremes(format, n, x, y);
      if cx == cy && 0 < cx < infinity { NeverAlike(format, n, x, y); }
      CodeInRange(format, n, x);
    }
  }

  lemma CodeInRange(format: Format, n: nat, x: int)
    requires Interchange(format)
    ensures ExactCode(format, n, x) <= InfinityCode(format)
  {
    hide Nearest, Units, UnitsOver, Closer, InfinityCode;
    NearestIsCorrect(format, UnitsOver(format, n, x), UnitsUnder(x));
  }

  /** What overflows keeps overflowing at larger exponents, what vanishes vanishes at smaller ones. */
  lemma Extremes(format: Format, n: nat, x: int, y: int)
    requires Interchange(format) && x < y
    ensures Overflows(format, n, x) ==> Overflows(format, n, y)
    ensures Vanishes(format, n, y) ==> Vanishes(format, n, x)
  {
    hide UnitsOver, UnitsUnder, Units, InfinityCode;
    InfinityIsEven(format);
    Tenfold(format, n, x, y);
    var t := Units(format, InfinityCode(format) - 1) + Units(format, InfinityCode(format));
    CrossMultiply(2 * UnitsOver(format, n, x), UnitsUnder(x), 2 * UnitsOver(format, n, y), UnitsUnder(y), t) by {
      Halves(UnitsOver(format, n, x), UnitsUnder(y), UnitsOver(format, n, y), UnitsUnder(x));
    }
    CrossMultiply(2 * UnitsOver(format, n, x), UnitsUnder(x), 2 * UnitsOver(format, n, y), UnitsUnder(y), 1) by {
      Halves(UnitsOver(format, n, x), UnitsUnder(y), UnitsOver(format, n, y), UnitsUnder(x));
    }
  }

  lemma Halves(a: nat, d: nat, c: nat, b: nat)
    requires 10 * a * d <= c * b
    ensures 2 * a * d <= 2 * c * b
  {
    MulAssoc(10, a, d);
    MulAssoc(2, a, d);
    MulAssoc(2, c, b);
    MulMonotone(a, 0, d);
  }

  /** a / b <= c / d: what a / b reaches, c / d reaches; what c / d stays below, a / b does. */
  lemma CrossMultiply(a: nat, b: nat, c: nat, d: nat, t: nat)
    requires b > 0 && d > 0 && a * d <= c * b
    ensures t * b <= a ==> t * d <= c
    ensures c <= t * d ==> a <= t * b
  {
    if t * b <= a {
      MulMonotone(d, t * b, a);
      Commute(t, b, d);
      MulCancel(b, t * d, c);
    }
    if c <= t * d {
      MulMonotone(b, c, t * d);
      Commute(t, b, d);
      MulCancel(d, a, t * b);
    }
  }

  lemma Commute(t: nat, b: nat, d: nat)
    ensures (t * b) * d == (t * d) * b
  {
    MulAssoc(t, b, d);
    MulAssoc(t, d, b);
  }

  /** Two values a factor of ten apart share no finite nonzero code. */
  lemma NeverAlike(format: Format, n: nat, x: int, y: int)
    requires Interchange(format) && x < y
    requires 0 < ExactCode(format, n, x) < InfinityCode(format)
    ensures ExactCode(format, n, x) != ExactCode(format, n, y)
  {
    hide InfinityCode, UnitsOver, UnitsUnder, Units, Nearest;
    var k := ExactCode(format, n, x);
    if k == ExactCode(format, n, y) {
      BetweenMidpoints(format, UnitsOver(format, n, x), UnitsUnder(x), k);
      BetweenMidpoints(format, UnitsOver(format, n, y), UnitsUnder(y), k);
      Tenfold(format, n, x, y);
      UnitsIncrease(format, 0, k);
      TooFarApart(UnitsOver(format, n, x), UnitsUnder(x), UnitsOver(format, n, y), UnitsUnder(y), Units(format, k));
    }
  }

  lemma TooFarApart(a: nat, b: nat, c: nat, d: nat, u: nat)
    requires b > 0 && d > 0 && u > 0 && u * b <= 2 * a && 2 * c <= 3 * u * d
    ensures c * b < 10 * a * d
  {
    MulStrict(u, 0, b);
    MulStrict(u * b, 0, d);
    MulMonotone(d, u * b, 2 * a);
    MulMonotone(b, 2 * c, 3 * u * d);
    Commute(u, b, d);
    MulAssoc(2, a, d);
    MulAssoc(10, a, d);
    MulAssoc(2, c, b);
    MulAssoc(3, u, d);
    MulAssoc(3, u * d, b);
    TenExceedsThree(a * d, c * b, u * b * d);
  }

  lemma TenExceedsThree(x: int, y: int, w: int)
    requires 0 < w <= 2 * x && 2 * y <= 3 * w
    ensures y < 10 * x
  {
  }

  // ---- decimal text ----

  function Smaller(x: int, y: int): int { if x < y then x else y }
  function Larger(x: int, y: int): int { if x < y then y else x }

  /** The limit on the exponent keeps the rounded value of a text exactly in these cases. */
  lemma ClampKeepsValueExactlyWhen(format: Format, p: Parts)
    requires Interchange(format) && p.WellFormed()
    ensures ExactCode(format, TextDigits(p), ReadExponent(p)) == ExactCode(format, TextDigits(p), TextExponent(p))
            <==> || ReadExponent(p) == TextExponent(p)
                 || TextDigits(p) == 0
                 || Overflows(format, TextDigits(p), Smaller(ReadExponent(p), TextExponent(p)))
                 || Vanishes(format, TextDigits(p), Larger(ReadExponent(p), TextExponent(p)))
  {
    hide ExactCode, Overflows, Vanishes, TextDigits, ReadExponent, TextExponent;
    var x, y := ReadExponent(p), TextExponent(p);
    if x < y { ExponentsMatter(format, TextDigits(p), x, y); }
    if y < x { ExponentsMatter(format, TextDigits(p), y, x); }
  }

  function Zeros(k: nat): string {
    seq(k, _ => '0')
  }

  /** A decimal point, k zeros and a one, times 10^(k + 1). */
  ghost function LongOne(k: nat): Parts {
    Parts("", "", true, Zeros(k) + "1", "e", "", Spell(k + 1))
  }

  lemma {:induction false} ZerosAreZero(k: nat)
    ensures Digits(Zeros(k)) && DigitsValue(Zeros(k)) == 0
  {
    if k > 0 {
      ZerosAreZero(k - 1);
      assert Zeros(k)[..k - 1] == Zeros(k - 1);
    }
  }

  /** The text spells one. From 17 exponent digits on the limited exponent rounds it to zero. */
  lemma ClampCanMatter(format: Format, k: nat)
    requires Supported(format) && Interchange(format)
    ensures var p := LongOne(k);
            && p.WellFormed() && TextDigits(p) == 1 && TextExponent(p) == 0
            && (ExactCode(format, TextDigits(p), ReadExponent(p)) == ExactCode(format, TextDigits(p), TextExponent(p))
                <==> k + 1 < 10_000_000_000_000_000)
  {
    hide ExactCode, ClampedValue, Spell;
    var p := LongOne(k);
    ZerosAreZero(k);
    assert (Zeros(k) + "1")[..k] == Zeros(k);
    assert "" + (Zeros(k) + "1") == Zeros(k) + "1";
    ClampIsExactExactlyWhen(p.exponentDigits);
    if k + 1 >= 10_000_000_000_000_000 {
      PowOfOne();
      SmallMagnitudeVanishes(format, 1, ReadExponent(p), 1);
      VanishingIsZero(format, 1, 0);
      NotVanishing(format);
    }
  }

  lemma PowOfOne()
    ensures Pow(10, 1) == 10
  {
  }

  lemma NotVanishing(format: Format)
    requires Interchange(format)
    ensures !Vanishes(format, 1, 0)
  {
    assert Pow(10, 0) == 1;
    MulMonotone(1, 1, Pow(2, UnitShift(format)));
  }
}
