/**
 IEEE 754 binary interchange formats and correct rounding to them.

 A positive real number is a fraction a / b counted in units of the format's smallest
 subnormal value, so every finite value of the format is a natural number of units and
 rounding is stated on integers alone. An encoding without its sign bit is called a code.
*/
module Formats {
  import opened Arithmetic

  datatype Format = Format(precision: nat, minExponent: int, maxExponent: int, width: nat)

  const BINARY16 := Format(11, -14, 15, 16)
  const BFLOAT16 := Format(8, -126, 127, 16)
  const BINARY32 := Format(24, -126, 127, 32)
  const BINARY64 := Format(53, -1022, 1023, 64)

  predicate Supported(format: Format) {
    format in {BINARY16, BFLOAT16, BINARY32, BINARY64}
  }

  /** The parameter relations of section 3.6 of IEEE 754-2019 that rounding depends on. */
  ghost predicate Interchange(format: Format) {
    && 2 <= format.precision < format.width
    && 1 <= format.maxExponent
    && format.minExponent == 1 - format.maxExponent
    && Pow(2, format.width - format.precision) == 2 * (format.maxExponent + 1)
  }

  lemma SupportedAreInterchange(format: Format)
    requires Supported(format)
    ensures Interchange(format)
    ensures format.maxExponent <= 1023 && format.precision - format.minExponent <= 1075
  {
    assert Pow(2, 5) == 32;
    assert Pow(2, 8) == 256;
    PowAdd(2, 5, 6);
    assert Pow(2, 6) == 64;
  }

  // ---- codes and the values they encode (section 3.4) ----

  /** The weight of the implicit bit: 2^(precision - 1). */
  function Hidden(format: Format): (h: nat)
    requires format.precision >= 2
    ensures h >= 2 && h % 2 == 0 && Pow(2, format.precision) == 2 * h
  {
    assert Pow(2, format.precision - 1) == 2 * Pow(2, format.precision - 2);
    Pow(2, format.precision - 1)
  }

  function InfinityCode(format: Format): nat
    requires format.precision >= 2 && format.maxExponent >= 1
  {
    (2 * format.maxExponent + 1) * Hidden(format)
  }

  /** The power of two of one unit: the smallest subnormal value is 2^(-UnitShift). */
  function UnitShift(format: Format): int {
    format.precision - 1 - format.minExponent
  }

  /**
   The value of a code in units: biased exponent code / 2^(precision - 1), trailing
   significand code % 2^(precision - 1). From the infinity code on it continues the
   scale as if the exponent were not reserved.
  */
  function Units(format: Format, code: nat): nat
    requires format.precision >= 2
  {
    var h := Hidden(format);
    if code < h then code else (h + code % h) * Pow(2, code / h - 1)
  }

  /** The code of q * 2^s units. */
  lemma UnitsAt(format: Format, s: nat, q: nat)
    requires format.precision >= 2
    requires q <= 2 * Hidden(format) && (s == 0 || q >= Hidden(format))
    ensures Units(format, s * Hidden(format) + q) == q * Pow(2, s)
  {
    var h := Hidden(format);
    var code := s * h + q;
    if q < h {
    } else if q < 2 * h {
      assert code == (s + 1) * h + (q - h);
      DivUnique(code, h, s + 1, q - h);
    } else {
      assert code == (s + 2) * h + 0;
      DivUnique(code, h, s + 2, 0);
      MulAssoc(h, 2, Pow(2, s));
    }
  }

  /** The scale: the power of two of the last significand bit, for a value in the binade of 2^e. */
  function Scale(format: Format, e: int): int {
    (if e > format.minExponent then e else format.minExponent) - (format.precision - 1)
  }

  /** Every code is s * 2^(precision - 1) + q in one way with q below 2^precision. */
  lemma SplitCode(format: Format, code: nat) returns (s: nat, q: nat)
    requires format.precision >= 2
    ensures code == s * Hidden(format) + q && q < 2 * Hidden(format)
    ensures s == 0 || q >= Hidden(format)
  {
    var h := Hidden(format);
    if code < h {
      s, q := 0, code;
    } else {
      var biased := code / h;
      assert code == h * biased + code % h;
      if biased <= 0 { MulMonotone(h, biased, 0); }
      s, q := biased - 1, h + code % h;
      assert (biased - 1) * h == h * biased - h;
    }
  }

  lemma UnitsSucc(format: Format, code: nat)
    requires format.precision >= 2
    ensures Units(format, code) < Units(format, code + 1)
  {
    var s, q := SplitCode(format, code);
    UnitsAt(format, s, q);
    UnitsAt(format, s, q + 1);
    MulStrict(Pow(2, s), q, q + 1);
  }

  lemma {:induction false} UnitsIncrease(format: Format, c: nat, d: nat)
    requires format.precision >= 2 && c < d
    ensures Units(format, c) < Units(format, d)
    decreases d
  {
    hide Units;
    UnitsSucc(format, d - 1);
    if c < d - 1 { UnitsIncrease(format, c, d - 1); }
  }

  // ---- correct rounding ----

  /** b times the distance of the fraction a / b from m units. */
  ghost function Distance(a: nat, b: nat, m: nat): nat {
    if a >= m * b then a - m * b else m * b - a
  }

  /**
   roundTiesToEven, section 4.3.1: infinity exactly from the midpoint between the largest
   finite value and the next step of the scale; otherwise the finite value nearest to
   a / b, and of two equally near ones the one with an even last significand bit.
  */
  ghost predicate CorrectlyRounded(format: Format, a: nat, b: nat, code: nat)
    requires format.precision >= 2 && format.maxExponent >= 1
  {
    var infinity := InfinityCode(format);
    if 2 * a >= (Units(format, infinity - 1) + Units(format, infinity)) * b then
      code == infinity
    else
      && code < infinity
      && forall other: nat :: other < infinity && other != code ==> Closer(format, a, b, code, other)
  }

  ghost predicate Closer(format: Format, a: nat, b: nat, code: nat, other: nat)
    requires format.precision >= 2
  {
    var x, y := Distance(a, b, Units(format, code)), Distance(a, b, Units(format, other));
    x < y || (x == y && code % 2 == 0 && other % 2 == 1)
  }

  lemma CorrectlyRoundedIsUnique(format: Format, a: nat, b: nat, c: nat, d: nat)
    requires format.precision >= 2 && format.maxExponent >= 1
    requires CorrectlyRounded(format, a, b, c) && CorrectlyRounded(format, a, b, d)
    ensures c == d
  {
    hide Units, Distance;
    if c == d { return; }
    OnlyOneCloser(format, a, b, c, d);
  }

  lemma OnlyOneCloser(format: Format, a: nat, b: nat, c: nat, d: nat)
    requires format.precision >= 2
    ensures !(Closer(format, a, b, c, d) && Closer(format, a, b, d, c))
  {
    hide Units, Distance;
  }

  /** Only the ratio of a and b matters. */
  lemma CorrectlyRoundedScales(format: Format, a: nat, b: nat, k: nat, code: nat)
    requires format.precision >= 2 && format.maxExponent >= 1 && k > 0
    ensures CorrectlyRounded(format, a, b, code) <==> CorrectlyRounded(format, a * k, b * k, code)
  {
    hide Units, Distance;
    var infinity := InfinityCode(format);
    MulMonotone(Hidden(format), 3, 2 * format.maxExponent + 1);
    var m := Units(format, infinity - 1) + Units(format, infinity);
    MulCancel(k, m * b, 2 * a);
    MulAssoc(m, b, k);
    MulAssoc(2, a, k);
    forall other: nat
      ensures Closer(format, a, b, code, other) <==> Closer(format, a * k, b * k, code, other)
    {
      var x, y := Distance(a, b, Units(format, code)), Distance(a, b, Units(format, other));
      DistanceScales(a, b, Units(format, code), k);
      DistanceScales(a, b, Units(format, other), k);
      MulCancel(k, x, y);
      MulCancel(k, y, x);
    }
  }

  lemma DistanceScales(a: nat, b: nat, m: nat, k: nat)
    requires k > 0
    ensures Distance(a * k, b * k, m) == Distance(a, b, m) * k
  {
    MulAssoc(m, b, k);
    MulCancel(k, m * b, a);
  }

  // ---- the nearest code, computed ----

  /** The least s with a below limit * 2^s. */
  function Binade(limit: nat, a: nat): (s: nat)
    requires limit > 0
    ensures a < limit * Pow(2, s)
    ensures s > 0 ==> limit * Pow(2, s - 1) <= a
    decreases a - limit
  {
    if a < limit then 0
    else
      var s := Binade(2 * limit, a);
      Doubling(limit, s);
      s + 1
  }

  lemma Doubling(x: nat, s: nat)
    ensures (2 * x) * Pow(2, s) == x * Pow(2, s + 1)
    ensures s > 0 ==> (2 * x) * Pow(2, s - 1) == x * Pow(2, s)
  {
    MulAssoc(x, 2, Pow(2, s));
    if s > 0 { MulAssoc(x, 2, Pow(2, s - 1)); }
  }

  lemma BinadeUnique(limit: nat, a: nat, s: nat)
    requires limit > 0
    requires a < limit * Pow(2, s)
    requires s > 0 ==> limit * Pow(2, s - 1) <= a
    ensures Binade(limit, a) == s
  {
    hide Pow;
    var t := Binade(limit, a);
    if t < s {
      PowMonotone(2, t, s - 1);
      MulMonotone(limit, Pow(2, t), Pow(2, s - 1));
    } else if s < t {
      PowMonotone(2, s, t - 1);
      MulMonotone(limit, Pow(2, s), Pow(2, t - 1));
    }
  }

  /** low or its successor, by comparing with the middle between them; the even one at the middle. */
  function PickBy(x: int, middle: int, low: nat): nat {
    if x > middle || (x == middle && low % 2 == 1) then low + 1 else low
  }

  /** floor(a / b) or its successor, whichever is nearer, the even one of two equally near. */
  function RoundHalfEven(a: nat, b: nat): nat
    requires b > 0
  {
    PickBy(2 * (a % b), b, a / b)
  }

  lemma PositiveProduct(x: nat, y: nat)
    ensures x * y >= 0 && (x > 0 && y > 0 ==> x * y > 0)
  {
  }

  function Nearest(format: Format, a: nat, b: nat): nat
    requires format.precision >= 2 && format.maxExponent >= 1 && b > 0
  {
    hide Pow, Hidden, RoundHalfEven, InfinityCode, Binade;
    PositiveProduct(b, 2 * Hidden(format));
    var s := Binade(b * (2 * Hidden(format)), a);
    PositiveProduct(b, Pow(2, s));
    var code := s * Hidden(format) + RoundHalfEven(a, b * Pow(2, s));
    PositiveProduct(s, Hidden(format));
    if code < InfinityCode(format) then code else InfinityCode(format)
  }

  // ---- the computed code is the correctly rounded one ----

  ghost predicate Brackets(format: Format, a: nat, b: nat, low: nat)
    requires format.precision >= 2
  {
    Units(format, low) * b <= a < Units(format, low + 1) * b
  }

  /** Of low and low + 1, the end of the bracket that is nearer, the even one at the midpoint. */
  ghost function NearerEnd(format: Format, a: nat, b: nat, low: nat): nat
    requires format.precision >= 2
  {
    PickBy(2 * a, (Units(format, low) + Units(format, low + 1)) * b, low)
  }

  /** The computed quotient brackets a / b between neighbouring codes and picks the nearer end. */
  lemma NearestPicksNearerEnd(format: Format, a: nat, b: nat) returns (low: nat)
    requires format.precision >= 2 && format.maxExponent >= 1 && b > 0
    ensures Brackets(format, a, b, low)
    ensures var code := NearerEnd(format, a, b, low);
            Nearest(format, a, b) == if code < InfinityCode(format) then code else InfinityCode(format)
  {
    hide Units, InfinityCode, Pow, Hidden, RoundHalfEven;
    var h := Hidden(format);
    var s := Binade(b * (2 * h), a);
    var q := Quotient(a, b, h, s);
    low := s * h + q;
    UnitsAt(format, s, q);
    UnitsAt(format, s, q + 1);
    SameParity(s, h, q);
  }

  /** The quotient of a in its binade: a significand q, with a / b between q and q + 1 units of 2^s. */
  lemma Quotient(a: nat, b: nat, h: nat, s: nat) returns (q: nat)
    requires b > 0 && h > 0
    requires a < (b * (2 * h)) * Pow(2, s)
    requires s > 0 ==> (b * (2 * h)) * Pow(2, s - 1) <= a
    ensures q < 2 * h && (s > 0 ==> h <= q)
    ensures var w := Pow(2, s);
            && (q * w) * b <= a < ((q + 1) * w) * b
            && RoundHalfEven(a, b * w) == PickBy(2 * a, (q * w + (q + 1) * w) * b, q)
  {
    RegroupLimit(b, h, s);
    var w := Pow(2, s);
    MulStrict(b, 0, w);
    hide Pow, RoundHalfEven, PickBy;
    q := a / (b * w);
    DivisionBounds(a, b * w, 2 * h);
    DivisionBounds(a, b * w, h);
    QuotientAt(a, b, w);
  }

  lemma DivisionBounds(a: nat, d: nat, m: nat)
    requires d > 0
    ensures a / d >= 0 && (a < d * m ==> a / d < m) && (d * m <= a ==> m <= a / d)
  {
    assert a == d * (a / d) + a % d;
    MulCancel(d, m, a / d);
    MulCancel(d, a / d + 1, m);
    assert d * (a / d + 1) == d * (a / d) + d;
  }

  lemma QuotientAt(a: nat, b: nat, w: nat)
    requires b * w > 0
    ensures var q := a / (b * w);
            && (q * w) * b <= a < ((q + 1) * w) * b
            && RoundHalfEven(a, b * w) == PickBy(2 * a, (q * w + (q + 1) * w) * b, q)
  {
    hide PickBy;
    DivisionBounds(a, b * w, 0);
    assert a == (b * w) * (a / (b * w)) + a % (b * w);
    Between(a, b, w, a / (b * w), a % (b * w));
  }

  lemma Between(a: nat, b: nat, w: nat, q: nat, r: nat)
    requires a == (b * w) * q + r && r < b * w
    ensures (q * w) * b <= a < ((q + 1) * w) * b
    ensures PickBy(2 * a, (q * w + (q + 1) * w) * b, q) == PickBy(2 * r, b * w, q)
  {
    var x := q * w;
    MulAssoc(q, w, b);
    assert (b * w) * q == x * b;
    assert (q + 1) * w == x + w;
    Distribute(x, w, b);
    Distribute(x, x + w, b);
  }

  lemma Distribute(x: int, y: int, b: int)
    ensures (x + y) * b == x * b + y * b
  {
  }

  lemma SameParity(s: nat, h: nat, q: nat)
    requires h % 2 == 0
    ensures (s * h + q) % 2 == q % 2
  {
    MulAssoc(s, h / 2, 2);
    var m := s * (h / 2);
    assert s * h == m * 2;
  }

  lemma RegroupLimit(b: nat, h: nat, s: nat)
    ensures (b * (2 * h)) * Pow(2, s) == (b * Pow(2, s)) * (2 * h)
    ensures s > 0 ==> (b * (2 * h)) * Pow(2, s - 1) == (b * Pow(2, s)) * h
  {
    var w := Pow(2, s);
    MulAssoc(b, 2 * h, w);
    MulAssoc(b, w, 2 * h);
    MulAssoc(b, h, w);
    MulAssoc(b, w, h);
    MulAssoc(b, 2, h);
    Doubling(b * h, s);
  }

  lemma UnitsOrder(format: Format, c: nat, d: nat)
    requires format.precision >= 2 && c <= d
    ensures Units(format, c) <= Units(format, d)
  {
    hide Units;
    if c < d { UnitsIncrease(format, c, d); }
  }

  /** The nearer end of a bracket beats every other code. */
  lemma NearerEndWins(format: Format, a: nat, b: nat, low: nat, other: nat)
    requires format.precision >= 2 && b > 0 && Brackets(format, a, b, low)
    requires other != NearerEnd(format, a, b, low)
    ensures Closer(format, a, b, NearerEnd(format, a, b, low), other)
  {
    hide Units;
    var m, n, o := Units(format, low), Units(format, low + 1), Units(format, other);
    if other < low {
      UnitsIncrease(format, other, low);
      MulStrict(b, o, m);
    } else if other > low + 1 {
      UnitsIncrease(format, low + 1, other);
      MulStrict(b, n, o);
    }
    assert (m + n) * b == m * b + n * b;
  }

  /** The overflow threshold separates exactly the brackets whose nearer end is beyond the finite codes. */
  lemma ThresholdDecides(format: Format, a: nat, b: nat, low: nat)
    requires format.precision >= 2 && format.maxExponent >= 1 && b > 0 && Brackets(format, a, b, low)
    ensures var infinity := InfinityCode(format);
            infinity <= NearerEnd(format, a, b, low)
            <==> 2 * a >= (Units(format, infinity - 1) + Units(format, infinity)) * b
  {
    hide Units, InfinityCode;
    var infinity := InfinityCode(format);
    InfinityIsEven(format);
    var m, n := Units(format, infinity - 1), Units(format, infinity);
    assert (m + n) * b == m * b + n * b;
    UnitsOrder(format, infinity - 1, infinity);
    MulMonotone(b, m, n);
    if infinity <= low {
      UnitsOrder(format, infinity, low);
      MulMonotone(b, n, Units(format, low));
    } else if low + 1 < infinity {
      UnitsOrder(format, low + 1, infinity - 1);
      MulMonotone(b, Units(format, low + 1), m);
    }
  }

  lemma InfinityIsEven(format: Format)
    requires format.precision >= 2 && format.maxExponent >= 1
    ensures InfinityCode(format) >= 2 && InfinityCode(format) % 2 == 0
  {
    var h := Hidden(format);
    MulMonotone(h, 1, 2 * format.maxExponent + 1);
    SameParity(2 * format.maxExponent + 1, h, 0);
  }

  lemma NearestIsCorrect(format: Format, a: nat, b: nat)
    requires format.precision >= 2 && format.maxExponent >= 1 && b > 0
    ensures CorrectlyRounded(format, a, b, Nearest(format, a, b))
  {
    hide Units, Distance, Closer, InfinityCode, NearerEnd, Nearest;
    InfinityIsEven(format);
    var low := NearestPicksNearerEnd(format, a, b);
    ThresholdDecides(format, a, b, low);
    forall other: nat | other != NearerEnd(format, a, b, low)
      ensures Closer(format, a, b, NearerEnd(format, a, b, low), other)
    {
      NearerEndWins(format, a, b, low, other);
    }
  }

  /** Equal fractions round alike. */
  lemma NearestOfEqualFractions(format: Format, a: nat, b: nat, c: nat, d: nat)
    requires format.precision >= 2 && format.maxExponent >= 1 && b > 0 && d > 0
    requires a * d == c * b
    ensures Nearest(format, a, b) == Nearest(format, c, d)
  {
    hide CorrectlyRounded, Nearest;
    var x, y := Nearest(format, a, b), Nearest(format, c, d);
    NearestIsCorrect(format, a, b);
    NearestIsCorrect(format, c, d);
    CorrectlyRoundedScales(format, a, b, d, x);
    CorrectlyRoundedScales(format, c, d, b, y);
    CorrectlyRoundedIsUnique(format, a * d, b * d, x, y);
  }

  /** Rounding (r / d) * 2^s units when s is the binade: one quotient decides. */
  lemma NearestAtScale(format: Format, r: nat, d: nat, s: nat)
    requires format.precision >= 2 && format.maxExponent >= 1 && d > 0
    requires r < d * (2 * Hidden(format))
    requires s > 0 ==> d * Hidden(format) <= r
    ensures var code := s * Hidden(format) + RoundHalfEven(r, d);
            Nearest(format, r * Pow(2, s), d) == if code < InfinityCode(format) then code else InfinityCode(format)
  {
    hide InfinityCode, Pow, Hidden, RoundHalfEven;
    var w, h := Pow(2, s), Hidden(format);
    MulStrict(w, r, d * (2 * h));
    if s > 0 {
      Halves(d, h, s);
      MulMonotone(w, d * h, r);
    }
    BinadeUnique(d * (2 * h), r * w, s);
    RoundHalfEvenScales(r, d, w);
  }

  lemma Halves(d: nat, h: nat, s: nat)
    requires s > 0
    ensures (d * (2 * h)) * Pow(2, s - 1) == (d * h) * Pow(2, s)
  {
    MulAssoc(d, 2, h);
    Doubling(d * h, s);
  }

  lemma RoundHalfEvenScales(r: nat, d: nat, w: nat)
    requires d > 0 && w > 0
    ensures RoundHalfEven(r * w, d * w) == RoundHalfEven(r, d)
  {
    var q, t := r / d, r % d;
    assert r == d * q + t;
    assert (d * q + t) * w == (d * q) * w + t * w;
    MulAssoc(d, q, w);
    MulAssoc(q, d, w);
    MulStrict(w, t, d);
    DivUnique(r * w, d * w, q, t * w);
    MulAssoc(2, t, w);
    MulCancel(w, 2 * t, d);
  }
}
