/**
 Decimal text: the grammar [+-]digits[.digits][(e|E)[+-]digits], its parser, and the
 significant digits the conversion starts from.
*/
module Decimals {
  import opened Arithmetic

  datatype Decimal = Decimal(negative: bool, integerDigits: string, fractionDigits: string, exponent: int)

  /** Digits without outer zeros, and the power of ten that scales them to the value. */
  datatype Significant = Significant(integer: string, fraction: string, count: nat, exponent: int)

  // ---- digit strings ----

  predicate IsDigit(c: char) {
    '0' <= c <= '9'
  }

  function DigitValue(c: char): (d: nat)
    requires IsDigit(c)
    ensures d <= 9
  {
    (c as int) - ('0' as int)
  }

  predicate Digits(s: string) {
    forall i :: 0 <= i < |s| ==> IsDigit(s[i])
  }

  /** The integer a digit string spells, zero for the empty one. */
  function DigitsValue(s: string): nat
    requires Digits(s)
  {
    if s == [] then 0 else 10 * DigitsValue(s[..|s| - 1]) + DigitValue(s[|s| - 1])
  }

  lemma {:induction false} DigitsValueConcat(s: string, t: string)
    requires Digits(s) && Digits(t)
    ensures DigitsValue(s + t) == DigitsValue(s) * Pow(10, |t|) + DigitsValue(t)
    decreases |t|
  {
    if t == [] {
      assert s + t == s;
    } else {
      var init := t[..|t| - 1];
      DigitsValueConcat(s, init);
      assert (s + t)[..|s + t| - 1] == s + init;
      MulAssoc(DigitsValue(s), Pow(10, |init|), 10);
    }
  }

  lemma DropLeadingZero(s: string)
    requires Digits(s) && s != [] && s[0] == '0'
    ensures DigitsValue(s[1..]) == DigitsValue(s)
  {
    assert s == [s[0]] + s[1..];
    DigitsValueConcat([s[0]], s[1..]);
    assert DigitsValue([s[0]]) == 0;
  }

  lemma {:induction false} DigitsValueBelow(s: string)
    requires Digits(s)
    ensures DigitsValue(s) < Pow(10, |s|)
    decreases |s|
  {
    if s != [] { DigitsValueBelow(s[..|s| - 1]); }
  }

  lemma DigitsValueAtLeast(s: string)
    requires Digits(s) && s != [] && s[0] != '0'
    ensures Pow(10, |s| - 1) <= DigitsValue(s)
  {
    assert s == [s[0]] + s[1..];
    DigitsValueConcat([s[0]], s[1..]);
    assert DigitsValue([s[0]]) >= 1;
    MulMonotone(Pow(10, |s| - 1), 1, DigitsValue([s[0]]));
  }

  /** The canonical decimal text of a number: no leading zero but for zero itself. */
  function Spell(n: nat): (s: string)
    ensures s != "" && Digits(s) && DigitsValue(s) == n
    ensures n > 0 ==> s[0] != '0'
    ensures n == 0 ==> s == "0"
  {
    var digit := ['0' + (n % 10) as char];
    if n < 10 then digit
    else
      var s := Spell(n / 10) + digit;
      assert s[..|s| - 1] == Spell(n / 10);
      s
  }

  // ---- significant digits ----

  /** What the conversion may rely on: only digits, counted, without a leading or trailing zero. */
  ghost predicate Trimmed(d: Significant) {
    && Digits(d.integer) && Digits(d.fraction)
    && d.count == |d.integer| + |d.fraction|
    && (d.count > 0 ==> var s := d.integer + d.fraction; s[0] != '0' && s[|s| - 1] != '0')
  }

  /** digits * 10^(exponent of the last digit), for a decimal and for significant digits. */
  ghost function Digit10(d: Decimal): nat
    requires Digits(d.integerDigits) && Digits(d.fractionDigits)
  {
    DigitsValue(d.integerDigits + d.fractionDigits)
  }

  ghost function LastDigitExponent(d: Decimal): int {
    d.exponent - |d.fractionDigits|
  }

  function WithoutLeading(s: string): (r: string)
    ensures Digits(s) ==> Digits(r)
    ensures |r| <= |s|
  {
    if s != "" && s[0] == '0' then WithoutLeading(s[1..]) else s
  }

  function WithoutTrailing(s: string): (r: string)
    ensures Digits(s) ==> Digits(r)
    ensures |r| <= |s|
  {
    if s != "" && s[|s| - 1] == '0' then WithoutTrailing(s[..|s| - 1]) else s
  }

  /** The significant digits of a decimal: zeros are dropped in front, also of the fraction of a number below one, and behind. */
  function SignificantOf(decimal: Decimal): (d: Significant)
    ensures Digits(decimal.integerDigits) && Digits(decimal.fractionDigits) ==> Digits(d.integer) && Digits(d.fraction)
    ensures d.count <= |decimal.integerDigits| + |decimal.fractionDigits|
  {
    var front := WithoutLeading(decimal.integerDigits);
    var behind := if front == "" then WithoutLeading(decimal.fractionDigits) else decimal.fractionDigits;
    var fraction := WithoutTrailing(behind);
    var integer := if fraction == "" then WithoutTrailing(front) else front;
    Significant(integer, fraction, |integer| + |fraction|,
                decimal.exponent - |decimal.fractionDigits| + (|behind| - |fraction|) + (|front| - |integer|))
  }

  /** No outer zeros are left. */
  lemma FewSignificantDigits(decimal: Decimal)
    requires Digits(decimal.integerDigits) && Digits(decimal.fractionDigits)
    ensures Trimmed(SignificantOf(decimal))
  {
    var front := WithoutLeading(decimal.integerDigits);
    var behind := if front == "" then WithoutLeading(decimal.fractionDigits) else decimal.fractionDigits;
    NoLeading(decimal.integerDigits);
    NoLeading(decimal.fractionDigits);
    NoTrailing(behind);
    NoTrailing(front);
  }

  lemma {:induction false} NoLeading(s: string)
    ensures WithoutLeading(s) != "" ==> WithoutLeading(s)[0] != '0'
  {
    if s != "" && s[0] == '0' { NoLeading(s[1..]); }
  }

  lemma {:induction false} NoTrailing(s: string)
    ensures var r := WithoutTrailing(s); r != "" ==> r[|r| - 1] != '0' && s != "" && r[0] == s[0]
  {
    if s != "" && s[|s| - 1] == '0' { NoTrailing(s[..|s| - 1]); }
  }

  /** Zeros in front count for nothing, whatever follows. */
  lemma {:induction false} LeadingKeepsValue(s: string, rest: string)
    requires Digits(s) && Digits(rest)
    ensures DigitsValue(WithoutLeading(s) + rest) == DigitsValue(s + rest)
  {
    if s != "" && s[0] == '0' {
      LeadingKeepsValue(s[1..], rest);
      DropLeadingZero(s + rest);
      assert (s + rest)[1..] == s[1..] + rest;
    }
  }

  /** Every zero dropped behind is a factor of ten. */
  lemma {:induction false} TrailingKeepsValue(before: string, s: string)
    requires Digits(before) && Digits(s)
    ensures var r := WithoutTrailing(s);
            DigitsValue(before + s) == DigitsValue(before + r) * Pow(10, |s| - |r|)
  {
    if s != "" && s[|s| - 1] == '0' {
      var shorter, r := s[..|s| - 1], WithoutTrailing(s);
      TrailingKeepsValue(before, shorter);
      assert (before + s)[..|before + s| - 1] == before + shorter;
      PowAdd(10, |shorter| - |r|, 1);
      assert DigitsValue(before + s) == DigitsValue(before + shorter) * 10;
      MulAssoc(DigitsValue(before + r), Pow(10, |shorter| - |r|), 10);
    }
  }

  /** The significant digits, with the power of ten of their last one, are the decimal. */
  lemma SignificantKeepValue(decimal: Decimal)
    requires Digits(decimal.integerDigits) && Digits(decimal.fractionDigits)
    ensures var d := SignificantOf(decimal);
            && LastDigitExponent(decimal) <= d.exponent
            && Digit10(decimal) == DigitsValue(d.integer + d.fraction) * Pow(10, d.exponent - LastDigitExponent(decimal))
  {
    hide DigitsValue, Pow, WithoutLeading, WithoutTrailing;
    var d := SignificantOf(decimal);
    var front := WithoutLeading(decimal.integerDigits);
    var behind := if front == "" then WithoutLeading(decimal.fractionDigits) else decimal.fractionDigits;
    LeadingKeepsValue(decimal.integerDigits, decimal.fractionDigits);
    LeadingKeepsValue(decimal.fractionDigits, "");
    assert decimal.fractionDigits + "" == decimal.fractionDigits;
    assert WithoutLeading(decimal.fractionDigits) + "" == WithoutLeading(decimal.fractionDigits);
    assert front == "" ==> front + decimal.fractionDigits == decimal.fractionDigits && front + behind == behind;
    TrailingKeepsValue(front, behind);
    TrailingKeepsValue("", front);
    assert "" + front == front && "" + d.integer == d.integer;
    assert d.fraction == "" ==> front + d.fraction == front && d.integer + d.fraction == d.integer;
    PowAdd(10, |front| - |d.integer|, |behind| - |d.fraction|);
    MulAssoc(DigitsValue(d.integer + d.fraction), Pow(10, |front| - |d.integer|), Pow(10, |behind| - |d.fraction|));
  }

  method SignificantDigits(decimal: Decimal) returns (result: Significant)
    requires Digits(decimal.integerDigits) && Digits(decimal.fractionDigits)
    ensures Trimmed(result) && result == SignificantOf(decimal)
    ensures LastDigitExponent(decimal) <= result.exponent
    ensures Digit10(decimal)
            == DigitsValue(result.integer + result.fraction) * Pow(10, result.exponent - LastDigitExponent(decimal))
    ensures result.count == 0 <==> Digit10(decimal) == 0
  {
    hide DigitsValue, Pow, Digit10, Trimmed, Digits, SignificantOf, WithoutLeading, WithoutTrailing;
    var integer, fraction := decimal.integerDigits, decimal.fractionDigits;
    while integer != "" && integer[0] == '0'
      invariant WithoutLeading(integer) == WithoutLeading(decimal.integerDigits)
      decreases |integer|
    {
      LeadingStep(integer);
      integer := integer[1..];
    }
    LeadingEnd(integer);
    if integer == "" {
      while fraction != "" && fraction[0] == '0'
        invariant WithoutLeading(fraction) == WithoutLeading(decimal.fractionDigits)
        decreases |fraction|
      {
        LeadingStep(fraction);
        fraction := fraction[1..];
      }
      LeadingEnd(fraction);
    }
    ghost var front, behind := integer, fraction;
    var trailing := 0;
    while fraction != "" && fraction[|fraction| - 1] == '0'
      invariant trailing == |behind| - |fraction| >= 0
      invariant WithoutTrailing(fraction) == WithoutTrailing(behind)
      decreases |fraction|
    {
      TrailingStep(fraction);
      fraction := fraction[..|fraction| - 1];
      trailing := trailing + 1;
    }
    TrailingEnd(fraction);
    if fraction == "" {
      while integer != "" && integer[|integer| - 1] == '0'
        invariant trailing == |behind| + |front| - |integer| >= 0
        invariant WithoutTrailing(integer) == WithoutTrailing(front)
        decreases |integer|
      {
        TrailingStep(integer);
        integer := integer[..|integer| - 1];
        trailing := trailing + 1;
      }
      TrailingEnd(integer);
    }
    result := Significant(integer, fraction, |integer| + |fraction|,
                          decimal.exponent - |decimal.fractionDigits| + trailing);
    TrimmingIsDone(decimal, front, behind, result, trailing);
    SignificantKeepValue(decimal);
    FewSignificantDigits(decimal);
    ZeroHasNoDigits(result, result.exponent - LastDigitExponent(decimal));
  }

  lemma LeadingStep(s: string)
    requires s != "" && s[0] == '0'
    ensures WithoutLeading(s[1..]) == WithoutLeading(s)
  {
  }

  lemma LeadingEnd(s: string)
    requires s != "" ==> s[0] != '0'
    ensures WithoutLeading(s) == s
  {
  }

  lemma TrailingStep(s: string)
    requires s != "" && s[|s| - 1] == '0'
    ensures WithoutTrailing(s[..|s| - 1]) == WithoutTrailing(s)
  {
  }

  lemma TrailingEnd(s: string)
    requires s != "" ==> s[|s| - 1] != '0'
    ensures WithoutTrailing(s) == s
  {
  }

  /** What the four loops leave are the significant digits. */
  lemma TrimmingIsDone(decimal: Decimal, front: string, behind: string, d: Significant, trailing: nat)
    requires front == WithoutLeading(decimal.integerDigits)
    requires behind == if front == "" then WithoutLeading(decimal.fractionDigits) else decimal.fractionDigits
    requires d.fraction == WithoutTrailing(behind)
    requires d.integer == if d.fraction == "" then WithoutTrailing(front) else front
    requires trailing == |behind| + |front| - |d.integer| - |d.fraction| && d.count == |d.integer| + |d.fraction|
    requires d.exponent == decimal.exponent - |decimal.fractionDigits| + trailing
    ensures d == SignificantOf(decimal)
  {
    hide WithoutLeading, WithoutTrailing;
  }

  lemma ZeroHasNoDigits(d: Significant, trailing: nat)
    requires Trimmed(d)
    ensures d.count == 0 <==> DigitsValue(d.integer + d.fraction) * Pow(10, trailing) == 0
  {
    if d.count > 0 {
      DigitsValueAtLeast(d.integer + d.fraction);
      MulStrict(Pow(10, trailing), 0, DigitsValue(d.integer + d.fraction));
    }
  }

  // ---- the grammar ----

  /** Empty, or one of the given characters. */
  predicate OneOf(s: string, chars: set<char>) {
    s == "" || (|s| == 1 && s[0] in chars)
  }

  /** The pieces of a decimal text: sign, digits, optional point and fraction, optional exponent part. */
  datatype Parts = Parts(sign: string, integer: string, point: bool, fraction: string,
                         marker: string, exponentSign: string, exponentDigits: string)
  {
    ghost predicate WellFormed() {
      && OneOf(sign, {'+', '-'})
      && Digits(integer) && Digits(fraction) && Digits(exponentDigits)
      && (!point ==> fraction == "")
      && integer + fraction != ""
      && OneOf(marker, {'e', 'E'})
      && (marker == "" ==> exponentSign == "" && exponentDigits == "")
      && (marker != "" ==> OneOf(exponentSign, {'+', '-'}) && exponentDigits != "")
    }

    ghost function Exponent(): int
      requires Digits(exponentDigits)
    {
      if exponentSign == "-" then 0 - DigitsValue(exponentDigits) else DigitsValue(exponentDigits)
    }

    ghost function ExponentText(): string {
      marker + exponentSign + exponentDigits
    }

    ghost function AfterInteger(): string {
      (if point then "." else "") + fraction + ExponentText()
    }

    ghost function Text(): string {
      sign + (integer + AfterInteger())
    }
  }

  /** The end of the run of digits that starts at i. */
  function DigitsEnd(text: string, i: nat): (j: nat)
    requires i <= |text|
    ensures i <= j <= |text| && Digits(text[i..j])
    ensures j < |text| ==> !IsDigit(text[j])
    decreases |text| - i
  {
    if i < |text| && IsDigit(text[i]) then
      var j := DigitsEnd(text, i + 1);
      assert text[i..j] == [text[i]] + text[i + 1..j];
      j
    else i
  }

  predicate StartsWithDigit(s: string) {
    s != "" && IsDigit(s[0])
  }

  /** A run of digits followed by something else is exactly what the scan finds. */
  lemma {:induction false} ScanFinds(text: string, i: nat, run: string, rest: string)
    requires i <= |text| && text[i..] == run + rest && Digits(run) && !StartsWithDigit(rest)
    ensures i + |run| <= |text| && DigitsEnd(text, i) == i + |run| && text[i + |run|..] == rest
    decreases |run|
  {
    if run == "" {
      assert text[i..] == rest;
    } else {
      assert text[i] == text[i..][0] == run[0];
      assert text[i + 1..] == text[i..][1..] == run[1..] + rest;
      ScanFinds(text, i + 1, run[1..], rest);
    }
  }

  const EXPONENT_LIMIT: int := 1_000_000_000_000_000

  /** The parser's saturating reading of exponent digits. */
  function ClampedValue(s: string): nat
    requires Digits(s)
  {
    if s == [] then 0
    else
      var before := ClampedValue(s[..|s| - 1]);
      if before < EXPONENT_LIMIT then 10 * before + DigitValue(s[|s| - 1]) else before
  }

  /** The clamp is exact below the limit and stays between the limit and the exact value above it. */
  lemma {:induction false} ClampBounds(s: string)
    requires Digits(s)
    ensures var c, v := ClampedValue(s), DigitsValue(s);
            c == v || EXPONENT_LIMIT <= c <= v
    ensures ClampedValue(s) < 10 * EXPONENT_LIMIT
    decreases |s|
  {
    if s != [] { ClampBounds(s[..|s| - 1]); }
  }

  /** Exponents below ten times the limit are read exactly, from there on at least a last digit is lost. */
  lemma ClampIsExactExactlyWhen(s: string)
    requires Digits(s)
    ensures ClampedValue(s) == DigitsValue(s) <==> DigitsValue(s) < 10 * EXPONENT_LIMIT
    ensures DigitsValue(s) >= 10 * EXPONENT_LIMIT ==> 10 * ClampedValue(s) <= DigitsValue(s)
  {
    if s != [] { ClampBounds(s[..|s| - 1]); }
  }

  /** One step of the saturating loop. */
  lemma ClampStep(text: string, start: nat, i: nat)
    requires start <= i < |text| && Digits(text[start..i]) && IsDigit(text[i])
    ensures Digits(text[start..i + 1])
    ensures ClampedValue(text[start..i + 1])
            == (var before := ClampedValue(text[start..i]);
                if before < EXPONENT_LIMIT then 10 * before + DigitValue(text[i]) else before)
  {
    var s, before := text[start..i + 1], text[start..i];
    assert |s| - 1 == |before| && s[|s| - 1] == text[i];
    assert forall k :: 0 <= k < |before| ==> s[k] == before[k];
    assert s[..|s| - 1] == before;
  }

  // ---- where the scan stops ----

  predicate At(text: string, i: nat, chars: set<char>) {
    i < |text| && text[i] in chars
  }

  function Skip(text: string, i: nat, chars: set<char>): (j: nat)
    requires i <= |text|
    ensures i <= j <= |text|
  {
    if At(text, i, chars) then i + 1 else i
  }

  /** The scan's positions: ends of the sign, the integer, the point, the fraction and the exponent. */
  datatype Layout = Layout(sign: nat, integer: nat, point: nat, fraction: nat,
                           marker: nat, exponentSign: nat, exponent: nat)

  ghost function LayoutOf(text: string): (l: Layout)
    ensures l.sign <= l.integer <= l.point <= l.fraction <= l.marker <= l.exponentSign <= l.exponent <= |text|
  {
    var sign := Skip(text, 0, {'+', '-'});
    var integer := DigitsEnd(text, sign);
    var point := Skip(text, integer, {'.'});
    var fraction := if point > integer then DigitsEnd(text, point) else point;
    var marker := Skip(text, fraction, {'e', 'E'});
    var exponentSign := if marker > fraction then Skip(text, marker, {'+', '-'}) else marker;
    var exponent := if marker > fraction then DigitsEnd(text, exponentSign) else marker;
    Layout(sign, integer, point, fraction, marker, exponentSign, exponent)
  }

  lemma LayoutFacts(text: string)
    ensures var l := LayoutOf(text);
            && l.sign == Skip(text, 0, {'+', '-'})
            && l.integer == DigitsEnd(text, l.sign)
            && l.point == Skip(text, l.integer, {'.'})
            && l.fraction == (if l.point > l.integer then DigitsEnd(text, l.point) else l.point)
            && l.marker == Skip(text, l.fraction, {'e', 'E'})
            && l.exponentSign == (if l.marker > l.fraction then Skip(text, l.marker, {'+', '-'}) else l.marker)
            && l.exponent == (if l.marker > l.fraction then DigitsEnd(text, l.exponentSign) else l.marker)
  {
    hide DigitsEnd, Skip;
  }

  ghost predicate Accepted(text: string, l: Layout) {
    && (l.sign < l.integer || l.point < l.fraction)
    && (l.marker > l.fraction ==> l.exponent > l.exponentSign)
    && l.exponent == |text|
  }

  ghost function PartsAt(text: string, l: Layout): Parts
    requires l == LayoutOf(text)
  {
    Parts(text[..l.sign], text[l.sign..l.integer], l.point > l.integer, text[l.point..l.fraction],
          text[l.fraction..l.marker], text[l.marker..l.exponentSign], text[l.exponentSign..l.exponent])
  }

  lemma Cut(text: string, i: nat, j: nat)
    requires i <= j <= |text|
    ensures text[i..] == text[i..j] + text[j..]
  {
  }

  lemma ExponentTextAt(text: string, l: Layout)
    requires l == LayoutOf(text) && l.exponent == |text|
    ensures PartsAt(text, l).ExponentText() == text[l.fraction..]
  {
    hide DigitsEnd, LayoutOf;
    Cut(text, l.fraction, l.marker);
    Cut(text, l.marker, l.exponentSign);
    assert text[l.exponentSign..l.exponent] == text[l.exponentSign..];
    Associate(text[l.fraction..l.marker], text[l.marker..l.exponentSign], text[l.exponentSign..]);
  }

  lemma AfterIntegerAt(text: string, l: Layout)
    requires l == LayoutOf(text) && l.exponent == |text|
    ensures PartsAt(text, l).AfterInteger() == text[l.integer..]
  {
    hide DigitsEnd, Parts.ExponentText;
    var dot := text[l.integer..l.point];
    ExponentTextAt(text, l);
    Cut(text, l.integer, l.point);
    Cut(text, l.point, l.fraction);
    assert (if l.point > l.integer then "." else "") == dot;
    Associate(dot, text[l.point..l.fraction], text[l.fraction..]);
  }

  lemma AcceptedSpells(text: string)
    requires Accepted(text, LayoutOf(text))
    ensures PartsAt(text, LayoutOf(text)).Text() == text
  {
    hide DigitsEnd, Parts.AfterInteger;
    var l := LayoutOf(text);
    AfterIntegerAt(text, l);
    Cut(text, 0, l.sign);
    Cut(text, l.sign, l.integer);
    assert text[0..] == text && text[0..l.sign] == text[..l.sign];
  }

  lemma AcceptedIsWellFormed(text: string)
    requires Accepted(text, LayoutOf(text))
    ensures PartsAt(text, LayoutOf(text)).WellFormed()
  {
    hide DigitsEnd, Skip, LayoutOf;
    var l := LayoutOf(text);
    LayoutFacts(text);
    SkipIsOne(text, 0, {'+', '-'});
    SkipIsOne(text, l.fraction, {'e', 'E'});
    SkipIsOne(text, l.marker, {'+', '-'});
    assert text[0..l.sign] == text[..l.sign];
    SomeDigit(text[l.sign..l.integer], text[l.point..l.fraction]);
  }

  lemma SkipIsOne(text: string, i: nat, chars: set<char>)
    requires i <= |text|
    ensures OneOf(text[i..Skip(text, i, chars)], chars)
  {
  }

  lemma SomeDigit(s: string, t: string)
    ensures |s + t| == |s| + |t|
  {
  }

  lemma Associate(s: string, t: string, u: string)
    ensures s + (t + u) == s + t + u
  {
  }

  /** An optional character is exactly what the scan skips. */
  lemma SkipFinds(text: string, i: nat, head: string, rest: string, chars: set<char>)
    requires i <= |text| && text[i..] == head + rest && OneOf(head, chars)
    requires head == "" ==> rest == "" || rest[0] !in chars
    ensures i + |head| <= |text| && Skip(text, i, chars) == i + |head|
    ensures text[i..i + |head|] == head && text[i + |head|..] == rest
  {
    assert text[i..i + |head|] == text[i..][..|head|];
    if i < |text| { assert text[i] == text[i..][0]; }
    assert text[i + |head|..] == text[i..][|head|..];
  }

  /** The parts the scan finds. */
  ghost function SpelledParts(text: string): Parts {
    PartsAt(text, LayoutOf(text))
  }

  /** A text made of well-formed parts is accepted, and the scan finds just those parts: they are unique. */
  lemma SpelledIsAccepted(p: Parts)
    requires p.WellFormed()
    ensures Accepted(p.Text(), LayoutOf(p.Text())) && SpelledParts(p.Text()) == p
  {
    hide LayoutOf, DigitsEnd, Skip, Parts.WellFormed, Parts.Text, Parts.AfterInteger, Parts.ExponentText;
    var text, l := p.Text(), LayoutOf(p.Text());
    IntegerScans(p, text, l);
    FractionScans(p, text, l);
    MarkerScans(p, text, l);
    ExponentScans(p, text, l);
    SomeDigits(p, l);
  }

  lemma SomeDigits(p: Parts, l: Layout)
    requires p.WellFormed() && l.integer - l.sign == |p.integer| && l.fraction - l.point == |p.fraction|
    ensures l.sign < l.integer || l.point < l.fraction
  {
    assert |p.integer + p.fraction| == |p.integer| + |p.fraction|;
  }

  lemma HeadOf(text: string, i: nat, head: string, rest: string)
    requires i <= |text| && text[i..] == head + rest
    ensures i + |head| <= |text| && text[i..i + |head|] == head
  {
    assert text[i..i + |head|] == text[i..][..|head|];
  }

  lemma IntegerScans(p: Parts, text: string, l: Layout)
    requires p.WellFormed() && text == p.Text() && l == LayoutOf(text)
    ensures text[..l.sign] == p.sign && text[l.sign..l.integer] == p.integer && text[l.integer..] == p.AfterInteger()
    ensures l.integer - l.sign == |p.integer|
  {
    AfterIntegerStarts(p);
    hide DigitsEnd, Skip, LayoutOf, Parts.AfterInteger, Parts.WellFormed;
    LayoutFacts(text);
    SkipFindsFirst(text, p.sign, p.integer + p.AfterInteger());
    ScanFinds(text, l.sign, p.integer, p.AfterInteger());
    HeadOf(text, l.sign, p.integer, p.AfterInteger());
  }

  lemma SkipFindsFirst(text: string, sign: string, rest: string)
    requires text == sign + rest && OneOf(sign, {'+', '-'}) && rest != "" && rest[0] !in {'+', '-'}
    ensures var i := Skip(text, 0, {'+', '-'}); text[..i] == sign && text[i..] == rest
  {
    hide Skip;
    assert text[0..] == text;
    SkipFinds(text, 0, sign, rest, {'+', '-'});
  }

  lemma AfterIntegerStarts(p: Parts)
    requires p.WellFormed()
    ensures !StartsWithDigit(p.AfterInteger()) && Digits(p.integer) && OneOf(p.sign, {'+', '-'})
    ensures var s := p.integer + p.AfterInteger(); s != "" && s[0] !in {'+', '-'}
  {
  }

  lemma FractionScans(p: Parts, text: string, l: Layout)
    requires p.WellFormed() && l == LayoutOf(text) && text[l.integer..] == p.AfterInteger()
    ensures (l.point > l.integer <==> p.point) && text[l.point..l.fraction] == p.fraction
    ensures text[l.fraction..] == p.ExponentText() && l.fraction - l.point == |p.fraction|
  {
    PointStarts(p);
    hide DigitsEnd, Skip, LayoutOf, Parts.ExponentText, Parts.WellFormed;
    LayoutFacts(text);
    Associate(if p.point then "." else "", p.fraction, p.ExponentText());
    if p.point {
      PointAndDigits(text, l.integer, p.fraction, p.ExponentText());
    } else {
      NoFraction(p);
      NoPoint(text, l.integer, p.ExponentText());
    }
  }

  lemma PointAndDigits(text: string, i: nat, digits: string, rest: string)
    requires i <= |text| && text[i..] == "." + (digits + rest) && Digits(digits) && !StartsWithDigit(rest)
    ensures var point := Skip(text, i, {'.'});
            var end := DigitsEnd(text, point);
            point == i + 1 && end - point == |digits| && text[point..end] == digits && text[end..] == rest
  {
    hide DigitsEnd, Skip;
    SkipFinds(text, i, ".", digits + rest, {'.'});
    ScanFinds(text, i + 1, digits, rest);
    HeadOf(text, i + 1, digits, rest);
  }

  lemma NoPoint(text: string, i: nat, rest: string)
    requires i <= |text| && text[i..] == rest && (rest == "" || rest[0] != '.')
    ensures Skip(text, i, {'.'}) == i
  {
    if i < |text| { assert text[i] == rest[0]; }
  }

  /** Without a point the exponent follows the integer at once. */
  lemma NoFraction(p: Parts)
    requires p.WellFormed() && !p.point
    ensures p.fraction == "" && p.fraction + p.ExponentText() == p.ExponentText()
  {
    hide Parts.ExponentText;
    assert "" + p.ExponentText() == p.ExponentText();
  }

  lemma PointStarts(p: Parts)
    requires p.WellFormed()
    ensures !p.point ==> p.fraction + p.ExponentText() == "" || (p.fraction + p.ExponentText())[0] != '.'
    ensures !StartsWithDigit(p.ExponentText()) && Digits(p.fraction)
  {
    ExponentTextStarts(p);
    if !p.point { NoFraction(p); }
  }

  lemma ExponentTextStarts(p: Parts)
    requires p.WellFormed()
    ensures p.ExponentText() == "" || p.ExponentText()[0] in {'e', 'E'}
  {
  }

  lemma MarkerScans(p: Parts, text: string, l: Layout)
    requires p.WellFormed() && l == LayoutOf(text) && text[l.fraction..] == p.ExponentText()
    ensures text[l.fraction..l.marker] == p.marker && text[l.marker..] == p.exponentSign + p.exponentDigits
    ensures l.marker > l.fraction <==> p.marker != ""
  {
    hide DigitsEnd, Skip, LayoutOf;
    LayoutFacts(text);
    Associate(p.marker, p.exponentSign, p.exponentDigits);
    SkipFinds(text, l.fraction, p.marker, p.exponentSign + p.exponentDigits, {'e', 'E'});
  }

  lemma ExponentScans(p: Parts, text: string, l: Layout)
    requires p.WellFormed() && l == LayoutOf(text) && text[l.marker..] == p.exponentSign + p.exponentDigits
    requires l.marker > l.fraction <==> p.marker != ""
    ensures l.exponent == |text| && (l.marker > l.fraction ==> l.exponent > l.exponentSign)
    ensures text[l.marker..l.exponentSign] == p.exponentSign && text[l.exponentSign..l.exponent] == p.exponentDigits
  {
    ExponentDigitsStart(p);
    hide DigitsEnd, Skip, LayoutOf, Parts.WellFormed;
    LayoutFacts(text);
    if p.marker != "" { SignAndDigits(text, l.marker, p.exponentSign, p.exponentDigits); }
  }

  lemma SignAndDigits(text: string, i: nat, sign: string, digits: string)
    requires i <= |text| && text[i..] == sign + digits && OneOf(sign, {'+', '-'})
    requires Digits(digits) && digits != "" && digits[0] !in {'+', '-'}
    ensures var start := Skip(text, i, {'+', '-'});
            var end := DigitsEnd(text, start);
            end == |text| && start < end && text[i..start] == sign && text[start..end] == digits
  {
    hide DigitsEnd, Skip;
    SkipFinds(text, i, sign, digits, {'+', '-'});
    assert digits + "" == digits;
    ScanFinds(text, i + |sign|, digits, "");
    HeadOf(text, i + |sign|, digits, "");
  }

  lemma ExponentDigitsStart(p: Parts)
    requires p.WellFormed()
    ensures Digits(p.exponentDigits) && OneOf(p.exponentSign, {'+', '-'})
    ensures if p.marker == "" then p.exponentSign == "" == p.exponentDigits
            else p.exponentDigits != "" && p.exponentDigits[0] !in {'+', '-'}
  {
  }

  /** The signed, saturating value of the exponent digits. */
  ghost function ClampedExponent(sign: string, digits: string): int
    requires Digits(digits)
  {
    if sign == "-" then 0 - ClampedValue(digits) else ClampedValue(digits)
  }

  /** The digit loop of the integer and the fraction. */
  method SkipDigits(text: string, start: nat) returns (i: nat)
    requires start <= |text|
    ensures i == DigitsEnd(text, start)
  {
    i := start;
    while i < |text| && IsDigit(text[i])
      invariant start <= i <= |text| && DigitsEnd(text, i) == DigitsEnd(text, start)
    {
      i := i + 1;
    }
  }

  /** The exponent part, after its marker. */
  method ParseExponent(text: string, start: nat) returns (ok: bool, i: nat, value: int)
    requires start <= |text|
    ensures var s := Skip(text, start, {'+', '-'});
            && i <= |text|
            && (ok <==> i > s)
            && (ok ==> i == DigitsEnd(text, s) && value == ClampedExponent(text[start..s], text[s..i]))
            && (!ok ==> DigitsEnd(text, s) == s)
  {
    i := start;
    var negativeExponent := false;
    if i < |text| && text[i] in {'+', '-'} {
      negativeExponent := text[i] == '-';
      i := i + 1;
    }
    ghost var s := Skip(text, start, {'+', '-'});
    assert negativeExponent <==> text[start..s] == "-";
    if !(i < |text| && IsDigit(text[i])) { return false, i, 0; }
    value := 0;
    assert text[s..s] == "" && ClampedValue(text[s..s]) == 0;
    hide ClampedValue, Skip;
    while i < |text| && IsDigit(text[i])
      invariant s <= i <= |text| && DigitsEnd(text, i) == DigitsEnd(text, s)
      invariant Digits(text[s..i]) && value == ClampedValue(text[s..i])
    {
      ClampStep(text, s, i);
      if value < EXPONENT_LIMIT { value := value * 10 + DigitValue(text[i]); }
      i := i + 1;
    }
    ok := true;
    value := if negativeExponent then 0 - value else value;
  }

  ghost predicate IsDecimalText(text: string) {
    exists p: Parts :: p.WellFormed() && p.Text() == text
  }

  /** The scan accepts exactly the decimal texts, and the parts it finds spell the text. */
  lemma AcceptedIffDecimalText(text: string)
    ensures Accepted(text, LayoutOf(text)) <==> IsDecimalText(text)
    ensures IsDecimalText(text) ==> var p := PartsAt(text, LayoutOf(text)); p.WellFormed() && p.Text() == text
  {
    hide Parts.WellFormed, Parts.Text, LayoutOf;
    if Accepted(text, LayoutOf(text)) { AcceptedSpells(text); AcceptedIsWellFormed(text); }
    forall p: Parts | p.WellFormed() && p.Text() == text
      ensures Accepted(text, LayoutOf(text))
    {
      SpelledIsAccepted(p);
    }
  }

  /** The sign and the digits before the exponent part. */
  method ParseDigits(text: string) returns (out: Decimal, i: nat)
    ensures var l := LayoutOf(text);
            && i == l.fraction
            && out == Decimal(text[..l.sign] == "-", text[l.sign..l.integer], text[l.point..l.fraction], 0)
  {
    hide DigitsEnd;
    i := 0;
    out := Decimal(false, "", "", 0);
    if i < |text| && text[i] in {'+', '-'} {
      out := out.(negative := text[i] == '-');
      i := i + 1;
    }
    assert out.negative <==> text[..i] == "-";
    var begin := i;
    i := SkipDigits(text, i);
    out := out.(integerDigits := text[begin..i]);
    if i < |text| && text[i] == '.' {
      i := i + 1;
      begin := i;
      i := SkipDigits(text, i);
      out := out.(fractionDigits := text[begin..i]);
    }
  }

  /**
   Parses a decimal text. On success the ghost parts say how the text reads; on failure no
   well-formed parts spell the text.
  */
  method Parse(text: string) returns (ok: bool, out: Decimal, ghost parts: Parts)
    ensures ok <==> IsDecimalText(text)
    ensures ok ==> parts.WellFormed() && parts.Text() == text
    ensures ok ==> out.negative == (parts.sign == "-")
    ensures ok ==> out.integerDigits == parts.integer && out.fractionDigits == parts.fraction
    ensures ok ==> out.exponent == ClampedExponent(parts.exponentSign, parts.exponentDigits)
  {
    hide Parts.WellFormed, Parts.Text, IsDecimalText, ClampedExponent, DigitsEnd;
    ghost var l := LayoutOf(text);
    parts := PartsAt(text, l);
    AcceptedIffDecimalText(text);
    EmptyClamp();

    var i;
    out, i := ParseDigits(text);
    if out.integerDigits == "" && out.fractionDigits == "" { return false, out, parts; }
    if i < |text| && text[i] in {'e', 'E'} {
      var exponent;
      ok, i, exponent := ParseExponent(text, i + 1);
      if !ok { return; }
      out := out.(exponent := exponent);
    }
    ok := i == |text|;
  }

  lemma EmptyClamp()
    ensures ClampedExponent("", "") == 0
  {
  }
}
