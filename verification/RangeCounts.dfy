/**
 Exact trip counts of range loops: decimal long division on canonical integer text, and the
 closed form for the number of lattice points start + k * step of a rational range.
*/
module RangeCounts {
  import opened Arithmetic
  import opened Decimals
  import opened Options

  // ---- comparison of integers by their text ----

  /** The text of an integer: a minus sign for negatives, then canonical digits. */
  function Text(n: int): string {
    if n < 0 then "-" + Spell(-n) else Spell(n)
  }

  function Absolute(n: int): nat {
    if n < 0 then -n else n
  }

  predicate TextBefore(x: string, y: string)
    requires |x| == |y|
  {
    x != "" && (x[0] < y[0] || (x[0] == y[0] && TextBefore(x[1..], y[1..])))
  }

  /** Sign, then length, then text, as the source compares. */
  function Compare(a: int, b: int): int {
    var aNegative, bNegative := Text(a)[0] == '-', Text(b)[0] == '-';
    if aNegative != bNegative then if aNegative then -1 else 1
    else
      var x, y := Text(Absolute(a)), Text(Absolute(b));
      var result := if |x| != |y| then (if |x| < |y| then -1 else 1)
                    else if x == y then 0
                    else if TextBefore(x, y) then -1 else 1;
      if aNegative then -result else result
  }

  lemma {:induction false} TextBeforeIsLess(x: string, y: string)
    requires Digits(x) && Digits(y) && |x| == |y|
    ensures TextBefore(x, y) <==> DigitsValue(x) < DigitsValue(y)
    decreases |x|
  {
    hide DigitsValue, Pow;
    if x != "" {
      var n := |x| - 1;
      LeadingDigitValue(x);
      LeadingDigitValue(y);
      TextBeforeIsLess(x[1..], y[1..]);
      LeadingDigitDecides(DigitValue(x[0]), DigitValue(y[0]), Pow(10, n), DigitsValue(x[1..]), DigitsValue(y[1..]));
    }
  }

  lemma LeadingDigitDecides(d: nat, e: nat, p: nat, r: nat, s: nat)
    requires r < p && s < p
    ensures d * p + r < e * p + s <==> d < e || (d == e && r < s)
  {
    if d < e { MulMonotone(p, d + 1, e); } else if e < d { MulMonotone(p, e + 1, d); }
  }

  lemma LeadingDigitValue(x: string)
    requires Digits(x) && x != ""
    ensures DigitsValue(x) == DigitValue(x[0]) * Pow(10, |x| - 1) + DigitsValue(x[1..])
    ensures DigitsValue(x[1..]) < Pow(10, |x| - 1)
  {
    assert x == [x[0]] + x[1..];
    DigitsValueConcat([x[0]], x[1..]);
    DigitsValueBelow(x[1..]);
    OneDigit(x[0]);
  }

  lemma OneDigit(c: char)
    requires IsDigit(c)
    ensures DigitsValue([c]) == DigitValue(c)
  {
    assert [c][..0] == "";
  }

  lemma LongerIsLarger(m: nat, n: nat)
    requires |Spell(m)| < |Spell(n)|
    ensures m < n
  {
    DigitsValueBelow(Spell(m));
    DigitsValueAtLeast(Spell(n));
    PowMonotone(10, |Spell(m)|, |Spell(n)| - 1);
  }

  /** Comparing texts decides the order of the integers. */
  lemma CompareDecides(a: int, b: int)
    ensures Compare(a, b) == if a < b then -1 else if a == b then 0 else 1
  {
    hide Spell, DigitsValue, Pow;
    var m, n := Absolute(a), Absolute(b);
    assert Text(a)[0] == '-' <==> a < 0;
    assert Text(b)[0] == '-' <==> b < 0;
    if |Spell(m)| < |Spell(n)| {
      LongerIsLarger(m, n);
    } else if |Spell(n)| < |Spell(m)| {
      LongerIsLarger(n, m);
    } else {
      TextBeforeIsLess(Spell(m), Spell(n));
    }
  }

  // ---- long division ----

  /** Digit by digit, each quotient digit by repeated subtraction. */
  method DivideNonnegative(a: nat, b: nat) returns (quotient: nat, remainder: nat)
    requires b > 0
    ensures a == quotient * b + remainder && remainder < b
  {
    hide DigitsValue, Spell, Compare;
    remainder := 0;
    var text, digits := Spell(a), "";
    var i := 0;
    EmptyValue();
    assert text[..0] == "";
    while i < |text|
      invariant 0 <= i <= |text| && Digits(text[..i]) && Digits(digits) && remainder < b
      invariant DigitsValue(text[..i]) == DigitsValue(digits) * b + remainder
    {
      ghost var before, d := remainder, DigitValue(text[i]);
      remainder := remainder * 10 + DigitValue(text[i]);
      var value: nat := 0;
      CompareDecides(remainder, b);
      while Compare(remainder, b) >= 0
        invariant before * 10 + d == value * b + remainder
        invariant Compare(remainder, b) == if remainder < b then -1 else if remainder == b then 0 else 1
        decreases remainder
      {
        assert (value + 1) * b == value * b + b;
        remainder := remainder - b;
        value := value + 1;
        CompareDecides(remainder, b);
      }
      QuotientDigit(before, d, b, value, remainder);
      AppendDigit(text, i);
      AppendQuotient(digits, value, b);
      digits := digits + ['0' + value as char];
      i := i + 1;
    }
    assert text[..i] == text;
    quotient := DigitsValue(digits);
  }

  lemma EmptyValue()
    ensures DigitsValue("") == 0
  {
  }

  lemma QuotientDigit(before: nat, d: nat, b: nat, value: nat, remainder: nat)
    requires before < b && d <= 9 && before * 10 + d == value * b + remainder
    ensures value <= 9
  {
    if value >= 10 { MulMonotone(b, 10, value); }
  }

  lemma AppendDigit(text: string, i: nat)
    requires i < |text| && Digits(text)
    ensures DigitsValue(text[..i + 1]) == 10 * DigitsValue(text[..i]) + DigitValue(text[i])
  {
    var s := text[..i + 1];
    assert s[..|s| - 1] == text[..i];
  }

  lemma AppendQuotient(digits: string, value: nat, b: nat)
    requires Digits(digits) && value <= 9
    ensures Digits(digits + ['0' + value as char])
    ensures DigitsValue(digits + ['0' + value as char]) == 10 * DigitsValue(digits) + value
    ensures DigitsValue(digits + ['0' + value as char]) * b == 10 * (DigitsValue(digits) * b) + value * b
  {
    var s := digits + ['0' + value as char];
    assert s[..|s| - 1] == digits && DigitValue(s[|s| - 1]) == value;
    hide DigitsValue;
    assert DigitsValue(s) == 10 * DigitsValue(digits) + value by { LastDigit(s); }
    TimesShifted(DigitsValue(digits), value, b);
  }

  lemma LastDigit(s: string)
    requires s != "" && Digits(s)
    ensures DigitsValue(s) == 10 * DigitsValue(s[..|s| - 1]) + DigitValue(s[|s| - 1])
  {
  }

  lemma TimesShifted(x: nat, value: nat, b: nat)
    ensures (10 * x + value) * b == 10 * (x * b) + value * b
  {
    MulAssoc(10, x, b);
  }

  // ---- lattice points of a rational range ----

  datatype Rational = Rational(num: int, den: int)
  {
    predicate Valid() {
      den > 0
    }
  }

  ghost predicate AtMost(x: Rational, y: Rational)
    requires x.Valid() && y.Valid()
  {
    x.num * y.den <= y.num * x.den
  }

  ghost function Point(start: Rational, step: Rational, k: nat): (x: Rational)
    requires start.Valid() && step.Valid()
    ensures x.Valid()
  {
    MulStrict(step.den, 0, start.den);
    Rational(start.num * step.den + k * step.num * start.den, start.den * step.den)
  }

  /** The loop visits start + k * step. */
  ghost predicate Visits(start: Rational, end: Rational, step: Rational, descending: bool,
                         startInclusive: bool, endInclusive: bool, k: nat)
    requires start.Valid() && end.Valid() && step.Valid()
  {
    var x := Point(start, step, k);
    && (startInclusive || k > 0)
    && (if descending then AtMost(end, x) && (endInclusive || !AtMost(x, end))
        else AtMost(x, end) && (endInclusive || !AtMost(end, x)))
  }

  /** In the loop's direction, the first k steps cover k / denominator of the distance. */
  lemma VisitsByDistance(start: Rational, end: Rational, step: Rational, descending: bool,
                         startInclusive: bool, endInclusive: bool, k: nat)
    requires start.Valid() && end.Valid() && step.Valid() && step.num != 0 && (step.num < 0) == descending
    ensures var signed := end.num * start.den - start.num * end.den;
            var numerator := (if descending then -signed else signed) * step.den;
            var denominator := start.den * end.den * Absolute(step.num);
            && denominator > 0
            && (Visits(start, end, step, descending, startInclusive, endInclusive, k)
                <==> (startInclusive || k > 0)
                     && (k * denominator < numerator || (endInclusive && k * denominator == numerator)))
  {
    var sn, sd, en, ed, tn, td := start.num, start.den, end.num, end.den, step.num, step.den;
    MulStrict(ed, 0, sd);
    MulStrict(sd * ed, 0, Absolute(tn));
    CrossMultiply(sn, sd, en, ed, tn, td, k);
    if descending { NegateProducts(sd * ed, tn, k, en * sd - sn * ed, td); }
  }

  lemma CrossMultiply(sn: int, sd: int, en: int, ed: int, tn: int, td: int, k: nat)
    ensures (sn * td + k * tn * sd) * ed - en * (sd * td) == k * (sd * ed * tn) - (en * sd - sn * ed) * td
  {
    assert (sn * td + k * tn * sd) * ed == (sn * ed) * td + k * (sd * ed * tn) by {
      assert (sn * td) * ed == (sn * ed) * td;
      assert (k * tn * sd) * ed == k * (sd * ed * tn);
    }
    assert en * (sd * td) == (en * sd) * td;
  }

  lemma NegateProducts(m: int, tn: int, k: nat, signed: int, td: int)
    ensures k * (m * (-tn)) == -(k * (m * tn)) && (-signed) * td == -(signed * td)
  {
  }

  /** The trip count, None when the step does not go in the loop's direction. */
  method Count(start: Rational, end: Rational, step: Rational, descending: bool,
               startInclusive: bool, endInclusive: bool) returns (count: Option<nat>)
    requires start.Valid() && end.Valid() && step.Valid()
    ensures count.None? <==> step.num == 0 || (step.num < 0) != descending
    ensures count.Some? ==>
              var first := if startInclusive then 0 else 1;
              forall k: nat :: Visits(start, end, step, descending, startInclusive, endInclusive, k)
                               <==> first <= k < first + count.value
  {
    hide Visits, Point, AtMost;
    if step.num == 0 || (step.num < 0) != descending { return None; }
    var distance := end.num * start.den - start.num * end.den;
    if descending { distance := -distance; }
    ghost var n, d := distance * step.den, start.den * end.den * Absolute(step.num);
    forall k: nat
      ensures Visits(start, end, step, descending, startInclusive, endInclusive, k)
              <==> (startInclusive || k > 0) && (k * d < n || (endInclusive && k * d == n))
      ensures d > 0
    {
      VisitsByDistance(start, end, step, descending, startInclusive, endInclusive, k);
    }
    if distance < 0 || (!endInclusive && distance == 0) {
      NothingVisited(distance, step.den, d, endInclusive);
      return Some(0);
    }
    MulMonotone(step.den, 0, distance);
    var numerator: nat := distance * step.den;
    VisitsByDistance(start, end, step, descending, startInclusive, endInclusive, 0);
    var denominator: nat := start.den * end.den * Absolute(step.num);
    var whole, remainder := DivideNonnegative(numerator, denominator);
    StepsWithin(numerator, denominator, whole, remainder, endInclusive);
    if endInclusive || remainder != 0 { whole := whole + 1; }
    if !startInclusive && whole != 0 { whole := whole - 1; }
    count := Some(whole);
  }

  lemma NothingVisited(distance: int, td: int, d: int, endInclusive: bool)
    requires td > 0 && d >= 0 && (distance < 0 || (!endInclusive && distance == 0))
    ensures forall k: nat :: !(k * d < distance * td || (endInclusive && k * d == distance * td))
  {
    forall k: nat
      ensures k * d >= 0
    {
      MulMonotone(k, 0, d);
    }
    if distance < 0 { MulStrict(td, distance, 0); }
  }

  /** The k with k * d up to n are those up to the quotient, the quotient itself depending on the end. */
  lemma StepsWithin(n: nat, d: nat, whole: nat, remainder: nat, endInclusive: bool)
    requires d > 0 && n == whole * d + remainder && remainder < d
    ensures forall k: nat :: (k * d < n || (endInclusive && k * d == n))
                             <==> k < whole + (if endInclusive || remainder != 0 then 1 else 0)
  {
    forall k: nat
      ensures (k * d < n || (endInclusive && k * d == n)) <==> k < whole + (if endInclusive || remainder != 0 then 1 else 0)
    {
      if k < whole { MulStrict(d, k, whole); } else if k > whole { MulMonotone(d, whole + 1, k); }
    }
  }
}
