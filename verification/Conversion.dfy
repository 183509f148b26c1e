/**
 The public conversion: a binary64 fast path that rounds one hardware operation, its
 narrowing to binary32, the exact path behind both, and the whole run from text to bits.
*/
module Conversion {
  import opened Arithmetic
  import opened Bits
  import opened Decimals
  import opened ExactRounding
  import opened Formats
  import opened IntCasts
  import opened Naturals

  // ---- codes between neighbouring values ----

  /** A value rounds to z when it lies strictly between the midpoints on both sides of z. */
  lemma NearestBetweenMidpoints(format: Format, a: nat, b: nat, z: nat)
    requires format.precision >= 2 && format.maxExponent >= 1 && b > 0
    requires 0 < z < InfinityCode(format)
    requires (Units(format, z - 1) + Units(format, z)) * b < 2 * a
    requires 2 * a < (Units(format, z) + Units(format, z + 1)) * b
    ensures Nearest(format, a, b) == z
  {
    hide Units, InfinityCode;
    var low := NearestPicksNearerEnd(format, a, b);
    var l, m, n := Units(format, z - 1), Units(format, z), Units(format, z + 1);
    assert (l + m) * b == l * b + m * b && (m + n) * b == m * b + n * b;
    UnitsSucc(format, z - 1);
    UnitsSucc(format, z);
    MulStrict(b, l, m);
    MulStrict(b, m, n);
    if low + 1 < z {
      UnitsOrder(format, low + 1, z - 1);
      MulMonotone(b, Units(format, low + 1), l);
    } else if low > z {
      UnitsOrder(format, z + 1, low);
      MulMonotone(b, n, Units(format, low));
    }
  }

  /** A correctly rounded value is on the same side of every other finite value as its result. */
  lemma SameSideAsResult(format: Format, a: nat, b: nat, y: nat, m: nat)
    requires format.precision >= 2 && format.maxExponent >= 1 && b > 0
    requires CorrectlyRounded(format, a, b, y) && y < InfinityCode(format) && m < InfinityCode(format)
    ensures y < m ==> a < Units(format, m) * b
    ensures m < y ==> Units(format, m) * b < a
  {
    hide Units, InfinityCode;
    if y < m {
      UnitsIncrease(format, y, m);
      MulStrict(b, Units(format, y), Units(format, m));
      assert Closer(format, a, b, y, m);
    } else if m < y {
      UnitsIncrease(format, m, y);
      MulStrict(b, Units(format, m), Units(format, y));
      assert Closer(format, a, b, y, m);
    }
  }

  // ---- a narrow format inside a wide one ----

  /** Every normal value of the narrow format, and every midpoint between two of them, is a wide value. */
  ghost predicate Widens(narrow: Format, wide: Format) {
    && Interchange(narrow) && Interchange(wide)
    && narrow.precision + 2 <= wide.precision
    && narrow.maxExponent < wide.maxExponent
  }

  /** The dropped significand bits. */
  function Dropped(narrow: Format, wide: Format): int {
    wide.precision - narrow.precision
  }

  /** The wide code of a normal narrow code. */
  ghost function Widened(narrow: Format, wide: Format, z: nat): nat
    requires Widens(narrow, wide)
  {
    (z + (wide.maxExponent - narrow.maxExponent) * Hidden(narrow)) * Pow(2, Dropped(narrow, wide))
  }

  /** Wide units per narrow unit. */
  ghost function UnitRatio(narrow: Format, wide: Format): nat
    requires Widens(narrow, wide)
  {
    Pow(2, UnitShift(wide) - UnitShift(narrow))
  }

  /** Half the number of wide codes between two neighbouring narrow values. */
  function HalfStep(narrow: Format, wide: Format): (j: nat)
    requires Dropped(narrow, wide) > 0
    ensures j > 0 && 2 * j == Pow(2, Dropped(narrow, wide))
  {
    Pow(2, Dropped(narrow, wide) - 1)
  }

  lemma NormalCode(narrow: Format, z: nat) returns (s: nat, q: nat)
    requires narrow.precision >= 2 && z >= Hidden(narrow)
    ensures z == s * Hidden(narrow) + q && Hidden(narrow) <= q < 2 * Hidden(narrow)
    ensures Units(narrow, z) == q * Pow(2, s) && Units(narrow, z + 1) == (q + 1) * Pow(2, s)
  {
    hide Units, Pow, Hidden;
    s, q := SplitCode(narrow, z);
    if s == 0 { assert 0 * Hidden(narrow) == 0; }
    UnitsAt(narrow, s, q);
    UnitsAt(narrow, s, q + 1);
  }

  lemma WidenedCode(narrow: Format, wide: Format, z: nat, j: nat) returns (s: nat, q: nat)
    requires Widens(narrow, wide) && z >= Hidden(narrow) && j <= HalfStep(narrow, wide)
    ensures Units(narrow, z) == q * Pow(2, s) && Units(narrow, z + 1) == (q + 1) * Pow(2, s)
    ensures Units(wide, Widened(narrow, wide, z) + j)
            == (q * (2 * HalfStep(narrow, wide)) + j) * (Pow(2, s) * Pow(2, wide.maxExponent - narrow.maxExponent))
  {
    hide Units, Pow, Hidden;
    var d, e, h := 2 * HalfStep(narrow, wide), wide.maxExponent - narrow.maxExponent, Hidden(narrow);
    s, q := NormalCode(narrow, z);
    HiddenOfWide(narrow, wide);
    WidenedRange(q, h, d, j);
    assert Widened(narrow, wide, z) == (s + e) * (h * d) + q * d by { WidenedSplit(s, q, e, h, d); }
    UnitsAt(wide, s + e, q * d + j);
    PowAdd(2, s, e);
  }

  lemma WidenedRange(q: nat, h: nat, d: nat, j: nat)
    requires h <= q < 2 * h && j <= d
    ensures h * d <= q * d + j <= 2 * (h * d)
  {
    MulMonotone(d, q + 1, 2 * h);
    MulMonotone(d, h, q);
    MulAssoc(2, h, d);
  }

  /** Widening keeps the value. */
  lemma UnitsOfWidened(narrow: Format, wide: Format, z: nat)
    requires Widens(narrow, wide) && z >= Hidden(narrow)
    ensures Units(wide, Widened(narrow, wide, z)) == Units(narrow, z) * UnitRatio(narrow, wide)
  {
    hide Units, Pow, Hidden;
    var s, q := WidenedCode(narrow, wide, z, 0);
    PowAdd(2, Dropped(narrow, wide), wide.maxExponent - narrow.maxExponent);
    Shuffle(q, 2 * HalfStep(narrow, wide), Pow(2, s), Pow(2, wide.maxExponent - narrow.maxExponent));
  }

  /** The wide code half a step above a narrow value is the midpoint to the next one. */
  lemma MidpointIsWide(narrow: Format, wide: Format, z: nat)
    requires Widens(narrow, wide) && z >= Hidden(narrow)
    ensures 2 * Units(wide, Widened(narrow, wide, z) + HalfStep(narrow, wide))
            == (Units(narrow, z) + Units(narrow, z + 1)) * UnitRatio(narrow, wide)
  {
    hide Units, Pow, Hidden;
    var j := HalfStep(narrow, wide);
    var s, q := WidenedCode(narrow, wide, z, j);
    PowAdd(2, Dropped(narrow, wide), wide.maxExponent - narrow.maxExponent);
    MidpointProduct(q, j, Pow(2, s), Pow(2, wide.maxExponent - narrow.maxExponent));
  }

  lemma MidpointProduct(q: nat, j: nat, w: nat, e: nat)
    ensures 2 * ((q * (2 * j) + j) * (w * e)) == (q * w + (q + 1) * w) * ((2 * j) * e)
  {
    assert q * w + (q + 1) * w == (2 * q + 1) * w;
    assert q * (2 * j) + j == (2 * q + 1) * j;
    Shuffle(2 * q + 1, j, w, e);
    MulAssoc(2, j, e);
    var x, y := (2 * q + 1) * w, j * e;
    assert x * (2 * y) == 2 * (x * y);
  }

  lemma HiddenOfWide(narrow: Format, wide: Format)
    requires Widens(narrow, wide)
    ensures Hidden(wide) == Hidden(narrow) * Pow(2, Dropped(narrow, wide))
  {
    PowAdd(2, narrow.precision - 1, Dropped(narrow, wide));
  }

  lemma WidenedSplit(s: nat, q: nat, e: nat, h: nat, d: nat)
    ensures (s * h + q + e * h) * d == (s + e) * (h * d) + q * d
  {
    assert (s + e) * h == s * h + e * h;
    MulAssoc(s + e, h, d);
  }

  /** Narrow values and the midpoints between them keep their order among the wide codes. */
  lemma WidenedOrder(narrow: Format, wide: Format, z: nat)
    requires Widens(narrow, wide)
    ensures Widened(narrow, wide, z + 1) == Widened(narrow, wide, z) + 2 * HalfStep(narrow, wide)
    ensures z < InfinityCode(narrow)
            ==> Widened(narrow, wide, z) + 2 * HalfStep(narrow, wide) <= InfinityCode(wide)
  {
    hide Pow, Hidden;
    var e, h, d := wide.maxExponent - narrow.maxExponent, Hidden(narrow), 2 * HalfStep(narrow, wide);
    assert (z + 1 + e * h) * d == (z + e * h) * d + d;
    if z < InfinityCode(narrow) {
      HiddenOfWide(narrow, wide);
      var k := 2 * narrow.maxExponent + 1;
      MulMonotone(h, k + e, 2 * wide.maxExponent + 1);
      assert (k + e) * h == k * h + e * h;
      MulMonotone(d, z + 1 + e * h, (k + e) * h);
      MulMonotone(d, (k + e) * h, (2 * wide.maxExponent + 1) * h);
      MulAssoc(2 * wide.maxExponent + 1, h, d);
    }
  }

  // ---- double rounding ----

  /**
   Rounding to the wide format first and then to the narrow one gives the correctly rounded
   narrow value, unless the wide result is exactly halfway between two narrow values.
   a / b is the exact value in wide units, y its wide code, z the narrow code nearest to y.
  */
  lemma DoubleRounding(narrow: Format, wide: Format, a: nat, b: nat, y: nat, z: nat)
    requires Widens(narrow, wide) && b > 0 && CorrectlyRounded(wide, a, b, y)
    requires Hidden(narrow) < z < InfinityCode(narrow)
    requires Widened(narrow, wide, z) - HalfStep(narrow, wide) < y < Widened(narrow, wide, z) + HalfStep(narrow, wide)
    ensures Nearest(narrow, a, b * UnitRatio(narrow, wide)) == z
    ensures Nearest(narrow, Units(wide, y), UnitRatio(narrow, wide)) == z
  {
    hide Units, Pow, Hidden, InfinityCode, CorrectlyRounded, Widened;
    var j, k := HalfStep(narrow, wide), UnitRatio(narrow, wide);
    var low, high := Widened(narrow, wide, z - 1) + j, Widened(narrow, wide, z) + j;
    WidenedOrder(narrow, wide, z - 1);
    WidenedOrder(narrow, wide, z);
    SameSideAsResult(wide, a, b, y, low);
    SameSideAsResult(wide, a, b, y, high);
    MidpointIsWide(narrow, wide, z - 1);
    MidpointIsWide(narrow, wide, z);
    BetweenScaled(a, b, k, Units(wide, low), Units(wide, high),
                  Units(narrow, z - 1) + Units(narrow, z), Units(narrow, z) + Units(narrow, z + 1));
    NearestBetweenMidpoints(narrow, a, b * k, z);
    UnitsIncrease(wide, low, y);
    UnitsIncrease(wide, y, high);
    NearestBetweenMidpoints(narrow, Units(wide, y), k, z);
  }

  lemma BetweenScaled(a: nat, b: nat, k: nat, low: nat, high: nat, m: nat, n: nat)
    requires low * b < a < high * b && 2 * low == m * k && 2 * high == n * k
    ensures m * (b * k) < 2 * a < n * (b * k)
  {
    MulAssoc(m, k, b);
    MulAssoc(m, b, k);
    MulAssoc(n, k, b);
    MulAssoc(n, b, k);
    MulAssoc(2, low, b);
    MulAssoc(2, high, b);
  }

  // ---- exactly representable values ----

  /** A value of the format rounds to its own code. */
  lemma NearestOfValue(format: Format, a: nat, b: nat, c: nat)
    requires format.precision >= 2 && format.maxExponent >= 1 && b > 0
    requires c < InfinityCode(format) && a == Units(format, c) * b
    ensures Nearest(format, a, b) == c
  {
    hide Units, InfinityCode, Nearest;
    var infinity := InfinityCode(format);
    var m, n := Units(format, infinity - 1), Units(format, infinity);
    UnitsOrder(format, c, infinity - 1);
    UnitsSucc(format, infinity - 1);
    MulMonotone(b, Units(format, c), m);
    MulStrict(b, m, n);
    assert (m + n) * b == m * b + n * b;
    forall other: nat | other != c
      ensures Closer(format, a, b, c, other)
    {
      if other < c { UnitsIncrease(format, other, c); } else { UnitsIncrease(format, c, other); }
      MulCancel(b, Units(format, other), Units(format, c));
    }
    NearestIsCorrect(format, a, b);
    CorrectlyRoundedIsUnique(format, a, b, c, Nearest(format, a, b));
  }

  /** Every m * 2^t with at most precision bits in m is a value of the scale. */
  lemma {:induction false} CodeOfSignificand(format: Format, m: nat, t: nat) returns (c: nat)
    requires format.precision >= 2 && 0 < m <= 2 * Hidden(format)
    ensures Units(format, c) == m * Pow(2, t)
    decreases t
  {
    hide Units, Hidden;
    if t == 0 || m >= Hidden(format) {
      c := t * Hidden(format) + m;
      UnitsAt(format, t, m);
    } else {
      c := CodeOfSignificand(format, 2 * m, t - 1);
      Doubling(m, t - 1);
    }
  }

  /** An integer m * 2^t with at most precision bits in m converts exactly. */
  lemma IntegerIsExact(format: Format, m: nat, t: nat)
    requires Interchange(format) && 0 < m <= 2 * Hidden(format) && UnitShift(format) >= 0
    requires m * Pow(2, t) < Pow(2, format.maxExponent + 1)
    ensures Units(format, MachineInteger(format, m * Pow(2, t))) == m * Pow(2, t) * Pow(2, UnitShift(format))
  {
    hide Units, Hidden, InfinityCode, Pow, Nearest;
    var u := UnitShift(format);
    var c := CodeOfSignificand(format, m, t + u);
    PowAdd(2, t, u);
    MulAssoc(m, Pow(2, t), Pow(2, u));
    PowAdd(2, format.maxExponent + 1, u);
    MulStrict(Pow(2, u), m * Pow(2, t), Pow(2, format.maxExponent + 1));
    UnitsOfInfinity(format);
    if c >= InfinityCode(format) { UnitsOrder(format, InfinityCode(format), c); }
    NearestOfValue(format, m * Pow(2, t) * Pow(2, u), 1, c);
  }

  // ---- the hardware operations: one correct rounding of the exact result (section 5.4.1) ----

  function MachineInteger(format: Format, value: nat): nat
    requires format.precision >= 2 && format.maxExponent >= 1 && UnitShift(format) >= 0
  {
    Nearest(format, value * Pow(2, UnitShift(format)), 1)
  }

  function MachineMultiply(format: Format, x: nat, y: nat): nat
    requires format.precision >= 2 && format.maxExponent >= 1 && UnitShift(format) >= 0
  {
    MulMonotone(Units(format, x), 0, Units(format, y));
    Nearest(format, Units(format, x) * Units(format, y), Pow(2, UnitShift(format)))
  }

  function MachineDivide(format: Format, x: nat, y: nat): nat
    requires format.precision >= 2 && format.maxExponent >= 1 && UnitShift(format) >= 0
    requires Units(format, y) > 0
  {
    Nearest(format, Units(format, x) * Pow(2, UnitShift(format)), Units(format, y))
  }

  function MachineNarrow(narrow: Format, wide: Format, x: nat): nat
    requires narrow.precision >= 2 && narrow.maxExponent >= 1 && wide.precision >= 2
    requires UnitShift(wide) >= UnitShift(narrow)
  {
    Nearest(narrow, Units(wide, x), Pow(2, UnitShift(wide) - UnitShift(narrow)))
  }

  // ---- the binary64 fast path ----

  lemma PowersOfFiveFit(k: nat)
    requires k <= 22
    ensures 0 < Pow(5, k) < Pow(2, 52) && Pow(10, k) == Pow(5, k) * Pow(2, k)
    ensures Pow(10, k) < Pow(2, 74)
  {
    hide Pow;
    PowMonotone(5, k, 22);
    PowMonotone(2, k, 22);
    PowDistributes(5, 2, k);
    FiveTo22();
    PowAdd(2, 52, 22);
    MulMonotone(Pow(2, k), Pow(5, k), Pow(2, 52));
    MulMonotone(Pow(2, 52), Pow(2, k), Pow(2, 22));
    MulStrict(Pow(2, k), Pow(5, k), Pow(2, 52));
  }

  lemma FiveTo22()
    ensures Pow(5, 22) < Pow(2, 52)
  {
    TwoTo53();
    PowAdd(5, 11, 11);
    assert Pow(5, 11) == 48828125;
  }

  lemma TwoTo53()
    ensures Pow(2, 53) == 0x20_0000_0000_0000 && Pow(2, 52) == 0x10_0000_0000_0000
  {
    WordIsPowerOfTwo();
    assert Pow(2, 7) == 128;
    PowAdd(2, 7, 7);
    PowAdd(2, 14, 7);
    PowAdd(2, 32, 21);
  }

  /** Multiplying or dividing an exact integer by an exact power of ten rounds the decimal value once. */
  lemma FastOperationIsExact(format: Format, value: nat, x: int)
    requires format == BINARY64 && 0 < value <= Pow(2, 53) && -22 <= x <= 22
    ensures Interchange(format)
    ensures var v, p := MachineInteger(format, value), MachineInteger(format, Pow(10, Positive(if x < 0 then -x else x)));
            && Units(format, p) > 0
            && ExactCode(format, value, x) == if x >= 0 then MachineMultiply(format, v, p) else MachineDivide(format, v, p)
  {
    hide Pow, Units, Nearest, Hidden, MachineInteger;
    SupportedAreInterchange(format);
    var k := Positive(if x < 0 then -x else x);
    var w, t := Pow(2, UnitShift(format)), Pow(10, k);
    PowersOfFiveFit(k);
    HiddenIsPower(format);
    PowStrict(2, 53, format.maxExponent + 1);
    PowStrict(2, 74, format.maxExponent + 1);
    PowZero(2);
    PowZero(10);
    PowStrict(2, 52, 53);
    IntegerIsExact(format, value, 0);
    IntegerIsExact(format, Pow(5, k), k);
    var v, p := MachineInteger(format, value), MachineInteger(format, t);
    assert Units(format, v) == value * w && Units(format, p) == t * w;
    MulStrict(w, 0, t);
    if x >= 0 {
      assert ((value * t) * w) * w == ((value * w) * (t * w)) * 1 by { Shuffle(value, w, t, w); MulAssoc(value * t, w, w); }
      NearestOfEqualFractions(format, UnitsOver(format, value, x), UnitsUnder(x), Units(format, v) * Units(format, p), w);
    } else {
      assert (value * w) * (t * w) == ((value * w) * w) * t by { MulAssoc(value * w, w, t); }
      NearestOfEqualFractions(format, UnitsOver(format, value, x), UnitsUnder(x), Units(format, v) * w, Units(format, p));
    }
  }

  /** The integer the fast path reads, when it has at most 16 digits. */
  method ReadInteger(integer: string, fraction: string) returns (value: u64)
    requires Digits(integer) && Digits(fraction) && |integer| + |fraction| <= 16
    ensures value == DigitsValue(integer + fraction)
  {
    value := 0;
    var text := integer + fraction;
    var i := 0;
    while i < |text|
      invariant 0 <= i <= |text| && Digits(text[..i]) && value == DigitsValue(text[..i])
    {
      DigitsValueBelow(text[..i]);
      SixteenDigits(i);
      assert text[..i + 1][..|text[..i + 1]| - 1] == text[..i];
      value := value * 10 + DigitValue(text[i]);
      i := i + 1;
    }
    assert text[..i] == text;
  }

  lemma SixteenDigits(i: nat)
    requires i <= 16
    ensures Pow(10, i) <= 10_000_000_000_000_000
  {
    PowMonotone(10, i, 16);
    PowAdd(10, 8, 8);
    assert Pow(10, 8) == 100_000_000;
  }

  /** available says whether the target evaluates binary64 without excess precision. */
  method Binary64FastPath(digits: Significant, available: bool) returns (ok: bool, out: nat)
    requires Trimmed(digits) && digits.count > 0 && Interchange(BINARY64)
    ensures ok ==> var n := DigitsValue(digits.integer + digits.fraction);
                   && 0 < n <= Pow(2, 53) && -22 <= digits.exponent <= 22
                   && out == ExactCode(BINARY64, n, digits.exponent)
  {
    hide Pow, Nearest, Units, DigitsValue;
    if !available { return false, 0; }
    if digits.count > 16 || digits.exponent < -22 || digits.exponent > 22 { return false, 0; }
    var value := ReadInteger(digits.integer, digits.fraction);
    if value > 0x20_0000_0000_0000 { return false, 0; }
    DigitsValueAtLeast(digits.integer + digits.fraction);
    TwoTo53();
    FastOperationIsExact(BINARY64, value, digits.exponent);
    var x := MachineInteger(BINARY64, value);
    ok := true;
    out := if digits.exponent >= 0
           then MachineMultiply(BINARY64, x, MachineInteger(BINARY64, Pow(10, digits.exponent)))
           else MachineDivide(BINARY64, x, MachineInteger(BINARY64, Pow(10, -digits.exponent)));
  }

  // ---- narrowing the fast result to binary32 ----

  /** The lowest code of the top finite binade, and its value 2^(maxExponent) in units. */
  lemma TopBinade(format: Format)
    requires Interchange(format)
    ensures var top := InfinityCode(format) - Hidden(format);
            2 * Hidden(format) <= top && Units(format, top) == Pow(2, format.maxExponent + UnitShift(format))
  {
    hide Pow;
    var h := Hidden(format);
    MulMonotone(h, 2, 2 * format.maxExponent);
    DivUnique(2 * format.maxExponent * h, h, 2 * format.maxExponent, 0);
    HiddenIsPower(format);
    PowAdd(2, format.precision - 1, 2 * format.maxExponent - 1);
    assert InfinityCode(format) == 2 * format.maxExponent * h + h;
  }

  lemma FiniteBelow(format: Format, a: nat, b: nat, high: nat, y: nat)
    requires format.precision >= 2 && format.maxExponent >= 1
    requires CorrectlyRounded(format, a, b, y) && high < InfinityCode(format) && b > 0
    requires a <= Units(format, high) * b
    ensures y < InfinityCode(format)
  {
    hide Units, InfinityCode;
    var infinity := InfinityCode(format);
    var m, n := Units(format, infinity - 1), Units(format, infinity);
    UnitsOrder(format, high, infinity - 1);
    UnitsSucc(format, infinity - 1);
    MulMonotone(b, Units(format, high), m);
    MulStrict(b, m, n);
    assert (m + n) * b == m * b + n * b;
  }

  /** 2^-75 <= n * 10^x <= 2^127 on the fast path's operands, in binary64 units. */
  lemma FastMagnitude(wide: Format, n: nat, x: int)
    requires wide == BINARY64 && UnitShift(wide) >= 0 && 0 < n <= Pow(2, 53) && -22 <= x <= 22
    ensures Pow(2, UnitShift(wide) - 75) * UnitsUnder(x) <= UnitsOver(wide, n, x)
    ensures UnitsOver(wide, n, x) <= Pow(2, UnitShift(wide) + 127) * UnitsUnder(x)
  {
    hide Pow;
    var u := UnitShift(wide);
    PowersOfFiveFit(Positive(x));
    PowersOfFiveFit(Positive(-x));
    PowAdd(2, u - 75, 75);
    PowMonotone(2, 74, 75);
    PowAdd(2, 53, 74);
    PowAdd(2, u, 127);
    MagnitudeBounds(n, Pow(10, Positive(x)), Pow(10, Positive(-x)), Pow(2, u - 75), Pow(2, 75), Pow(2, u), Pow(2, 53), Pow(2, 74));
  }

  lemma MagnitudeBounds(n: nat, p: nat, b: nat, low: nat, margin: nat, w: nat, top: nat, ten: nat)
    requires 0 < n <= top && 0 < p <= ten && 0 < b <= margin && w == low * margin
    ensures low * b <= n * p * w
    ensures n * p * w <= (w * (top * ten)) * b
  {
    MulMonotone(low, b, margin);
    MulMonotone(p, 1, n);
    MulMonotone(w, 1, n * p);
    MulMonotone(p, n, top);
    MulMonotone(top, p, ten);
    MulMonotone(w, n * p, top * ten);
    MulMonotone(w * (top * ten), 1, b);
  }

  /** Fast-path values lie well inside the normal range of binary32. */
  lemma FastRange(narrow: Format, wide: Format, n: nat, x: int)
    requires narrow == BINARY32 && wide == BINARY64 && Widens(narrow, wide)
    requires 0 < n <= Pow(2, 53) && -22 <= x <= 22
    ensures Widened(narrow, wide, Hidden(narrow) + 1) <= ExactCode(wide, n, x)
    ensures ExactCode(wide, n, x) <= Widened(narrow, wide, InfinityCode(narrow) - Hidden(narrow))
    ensures InfinityCode(narrow) > 2 * Hidden(narrow) && ExactCode(wide, n, x) < InfinityCode(wide)
  {
    hide Pow, Units, Nearest, Hidden, InfinityCode, Widened, CorrectlyRounded;
    var h, k, y := Hidden(narrow), UnitRatio(narrow, wide), ExactCode(wide, n, x);
    var a, b := UnitsOver(wide, n, x), UnitsUnder(x);
    NearestIsCorrect(wide, a, b);
    TopBinade(narrow);
    var top := InfinityCode(narrow) - h;
    var low, high := Widened(narrow, wide, h + 1), Widened(narrow, wide, top);
    WidenedOrder(narrow, wide, h + 1);
    WidenedOrder(narrow, wide, top);
    FastMagnitude(wide, n, x);
    UnitsOfWidened(narrow, wide, h + 1);
    UnitsOfWidened(narrow, wide, top);
    UnitsAt(narrow, 0, h + 1);
    LowEnd(narrow, wide, h + 1, b, a);
    PowAdd(2, narrow.maxExponent + UnitShift(narrow), UnitShift(wide) - UnitShift(narrow));
    FiniteBelow(wide, a, b, high, y);
    SameSideAsResult(wide, a, b, y, low);
    SameSideAsResult(wide, a, b, y, high);
  }

  lemma LowEnd(narrow: Format, wide: Format, units: nat, b: nat, a: nat)
    requires narrow == BINARY32 && wide == BINARY64 && Widens(narrow, wide)
    requires units <= 2 * Hidden(narrow) && Pow(2, UnitShift(wide) - 75) * b <= a
    ensures (units * Pow(2, 0) * UnitRatio(narrow, wide)) * b <= a
  {
    hide Pow, Hidden;
    var k := UnitRatio(narrow, wide);
    PowZero(2);
    PowAdd(2, narrow.precision, UnitShift(wide) - UnitShift(narrow));
    PowMonotone(2, narrow.precision + (UnitShift(wide) - UnitShift(narrow)), UnitShift(wide) - 75);
    MulMonotone(k, units, 2 * Hidden(narrow));
    MulMonotone(b, units * k, Pow(2, UnitShift(wide) - 75));
  }

  /** The narrow code nearest to a wide code that is not half a step from one. */
  lemma NearestWidened(narrow: Format, wide: Format, y: nat) returns (z: nat)
    requires Widens(narrow, wide) && y % Pow(2, Dropped(narrow, wide)) != HalfStep(narrow, wide)
    requires Widened(narrow, wide, Hidden(narrow) + 1) <= y
    requires InfinityCode(narrow) > 2 * Hidden(narrow)
    requires y <= Widened(narrow, wide, InfinityCode(narrow) - Hidden(narrow))
    ensures Hidden(narrow) < z < InfinityCode(narrow)
    ensures Widened(narrow, wide, z) - HalfStep(narrow, wide) < y < Widened(narrow, wide, z) + HalfStep(narrow, wide)
  {
    hide Pow, Hidden, InfinityCode;
    var h, j, d := Hidden(narrow), HalfStep(narrow, wide), Pow(2, Dropped(narrow, wide));
    var offset := (wide.maxExponent - narrow.maxExponent) * h;
    var above := y / d;
    assert y == above * d + y % d;
    MulCancel(d, h + 1 + offset, above + 1);
    MulCancel(d, above, InfinityCode(narrow) - h + offset);
    if above < h + 1 + offset { MulMonotone(d, above + 1, h + 1 + offset); }
    z := above - offset;
    if y % d > j {
      WidenedOrder(narrow, wide, z);
      z := z + 1;
    }
  }

  /** Narrowing the fast result gives the exact binary32 code. */
  lemma NarrowedIsExact(narrow: Format, wide: Format, n: nat, x: int)
    requires narrow == BINARY32 && wide == BINARY64 && Widens(narrow, wide)
    requires 0 < n <= Pow(2, 53) && -22 <= x <= 22
    requires ExactCode(wide, n, x) % Pow(2, Dropped(narrow, wide)) != HalfStep(narrow, wide)
    ensures MachineNarrow(narrow, wide, ExactCode(wide, n, x)) == ExactCode(narrow, n, x)
    ensures 0 < ExactCode(narrow, n, x) < InfinityCode(narrow)
  {
    hide Pow, Units, Nearest, Hidden, InfinityCode, Widened, CorrectlyRounded;
    var y := ExactCode(wide, n, x);
    var a, b, k := UnitsOver(wide, n, x), UnitsUnder(x), UnitRatio(narrow, wide);
    FastRange(narrow, wide, n, x);
    var z := NearestWidened(narrow, wide, y);
    NearestIsCorrect(wide, a, b);
    DoubleRounding(narrow, wide, a, b, y, z);
    PowAdd(2, UnitShift(narrow), UnitShift(wide) - UnitShift(narrow));
    var m, w := n * Pow(10, Positive(x)), Pow(2, UnitShift(narrow));
    assert (m * (w * k)) * b == (m * w) * (b * k) by { MulAssoc(m, w, k); MulAssoc(m * w, k, b); MulAssoc(m * w, b, k); }
    NearestOfEqualFractions(narrow, a, b * k, UnitsOver(narrow, n, x), b);
  }

  /** A code below the sign bit's weight is unaffected by or-ing the sign in. */
  lemma SignOfCode(format: Format, negative: bool, code: nat)
    requires Interchange(format) && code <= InfinityCode(format)
    ensures Or(code, if negative then Pow(2, format.width - 1) else 0) == SignedBits(format, negative, code)
  {
    hide Pow, Or;
    var h, k := Hidden(format), 2 * format.maxExponent + 1;
    PowAdd(2, format.width - format.precision, format.precision - 1);
    HiddenIsPower(format);
    PowSucc(format.width - 1);
    MulStrict(h, k, k + 1);
    assert (k + 1) * h == Pow(2, format.width - 1);
    OrDisjoint(if negative then 1 else 0, code, format.width - 1);
  }

  lemma Binary32InBinary64()
    ensures Widens(BINARY32, BINARY64)
    ensures Pow(2, Dropped(BINARY32, BINARY64)) == 0x2000_0000 && HalfStep(BINARY32, BINARY64) == 0x1000_0000
  {
    SupportedAreInterchange(BINARY32);
    SupportedAreInterchange(BINARY64);
    assert Pow(2, 7) == 128;
    PowAdd(2, 7, 7);
    PowAdd(2, 14, 14);
    PowSucc(28);
  }

  // ---- the conversion of a decimal, and of a text ----

  method Round(decimal: Decimal, format: Format, available: bool) returns (result: Rounded)
    requires Supported(format) && Interchange(format)
    requires Digits(decimal.integerDigits) && Digits(decimal.fractionDigits)
    requires FitsInt(format, SignificantOf(decimal))
    ensures IsRounded(format, decimal.negative, Digit10(decimal), LastDigitExponent(decimal), result)
  {
    hide Pow, Nearest, Units, Hidden, InfinityCode, DigitsValue, And, Or, SignedBits;
    var digits := SignificantDigits(decimal);
    ghost var n, x := DigitsValue(digits.integer + digits.fraction), digits.exponent;
    ExactCodeOfScaledDigits(format, Digit10(decimal), n, LastDigitExponent(decimal), x - LastDigitExponent(decimal));
    if digits.count != 0 && format.width in {64, 32} {
      Binary32InBinary64();
      var ok, fast := Binary64FastPath(digits, available);
      if ok {
        FastRange(BINARY32, BINARY64, n, x);
        if format.width == 64 {
          SignOfCode(format, decimal.negative, fast);
          return Rounded(Or(fast, if decimal.negative then Pow(2, format.width - 1) else 0), false, false);
        }
        AndMask(fast, Dropped(BINARY32, BINARY64));
        if And(fast, 0x2000_0000 - 1) != 0x1000_0000 {
          NarrowedIsExact(BINARY32, BINARY64, n, x);
          var narrowed := MachineNarrow(BINARY32, BINARY64, fast);
          SignOfCode(format, decimal.negative, narrowed);
          return Rounded(Or(narrowed, if decimal.negative then Pow(2, format.width - 1) else 0), false, false);
        }
      }
    }
    result := RoundExact(format, decimal.negative, digits);
  }

  /** The exact value the text spells: digits and the exponent of the last one, the exponent unclamped. */
  ghost function TextDigits(p: Parts): nat
    requires p.WellFormed()
  {
    DigitsValue(p.integer + p.fraction)
  }

  ghost function TextExponent(p: Parts): int
    requires p.WellFormed()
  {
    p.Exponent() - |p.fraction|
  }

  /** The exponent the parser works with. */
  ghost function ReadExponent(p: Parts): int
    requires p.WellFormed()
  {
    ClampedExponent(p.exponentSign, p.exponentDigits) - |p.fraction|
  }

  /** In texts below 10^14 characters the exponent clamp never changes the rounded code. */
  lemma ClampIsHarmless(format: Format, p: Parts)
    requires Supported(format) && Interchange(format)
    requires p.WellFormed() && |p.Text()| < 100_000_000_000_000
    ensures ExactCode(format, TextDigits(p), ReadExponent(p)) == ExactCode(format, TextDigits(p), TextExponent(p))
  {
    hide Pow, Nearest, DigitsValue, ClampedValue;
    ClampBounds(p.exponentDigits);
    var n, count := TextDigits(p), |p.integer| + |p.fraction|;
    var x, c := TextExponent(p), ClampedExponent(p.exponentSign, p.exponentDigits) - |p.fraction|;
    PowZero(10);
    if n == 0 {
      ZeroCode(format, x);
      ZeroCode(format, c);
    } else if x != c && p.exponentSign != "-" {
      LargeMagnitudeOverflows(format, n, x, 1);
      LargeMagnitudeOverflows(format, n, c, 1);
    } else if x != c {
      DigitsValueBelow(p.integer + p.fraction);
      SmallMagnitudeVanishes(format, n, x, count);
      SmallMagnitudeVanishes(format, n, c, count);
    }
  }

  lemma ZeroCode(format: Format, x: int)
    requires Interchange(format)
    ensures ExactCode(format, 0, x) == 0
  {
    hide Pow, Nearest;
    InfinityIsEven(format);
    RoundsToZero(format, UnitsOver(format, 0, x), UnitsUnder(x));
  }

  /** The decimal the parser makes of the parts of a text. */
  ghost function ReadDecimal(p: Parts): Decimal
    requires p.WellFormed()
  {
    Decimal(p.sign == "-", p.integer, p.fraction, ClampedExponent(p.exponentSign, p.exponentDigits))
  }

  /** Where the conversion of a text computes with its significant digits, its casts do no harm. */
  ghost predicate TextFitsInt(format: Format, text: string) {
    forall p: Parts :: p.WellFormed() && p.Text() == text ==> FitsInt(format, SignificantOf(ReadDecimal(p)))
  }

  /** Texts of few digits fit, whatever else they are made of. */
  lemma ShortTextFits(format: Format, text: string)
    requires Supported(format) && |text| <= DIGIT_LIMIT
    ensures TextFitsInt(format, text)
  {
    hide FitsInt, SignificantOf;
    forall p: Parts | p.WellFormed() && p.Text() == text
      ensures FitsInt(format, SignificantOf(ReadDecimal(p)))
    {
      FewSignificantDigits(ReadDecimal(p));
      ShortDigitsFit(format, SignificantOf(ReadDecimal(p)));
    }
  }

  /**
   From text to bits: fails exactly outside the grammar, and otherwise rounds the value it
   reads once, which below 10^14 characters is as good as the value spelled.
  */
  method ParseAndRound(text: string, format: Format, available: bool)
    returns (ok: bool, result: Rounded, ghost parts: Parts)
    requires Supported(format) && Interchange(format) && TextFitsInt(format, text)
    ensures ok <==> IsDecimalText(text)
    ensures ok ==> parts.WellFormed() && parts.Text() == text
    ensures ok ==> IsRounded(format, parts.sign == "-", TextDigits(parts), ReadExponent(parts), result)
    ensures ok && |text| < 100_000_000_000_000 ==>
              IsRounded(format, parts.sign == "-", TextDigits(parts), TextExponent(parts), result)
  {
    hide Pow, Nearest, DigitsValue, ClampedValue, IsDecimalText, Parts.Text, FitsInt, SignificantOf;
    var decimal;
    ok, decimal, parts := Parse(text);
    if !ok { return ok, Rounded(0, false, false), parts; }
    assert decimal == ReadDecimal(parts);
    result := Round(decimal, format, available);
    if |text| < 100_000_000_000_000 { ClampIsHarmless(format, parts); }
  }
}
