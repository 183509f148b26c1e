/**
 The arbitrary-size unsigned integer behind the decimal conversion: little-endian
 32-bit limbs without a leading zero limb. Every machine word is a subset type, so
 each assignment to one proves that the 32- or 64-bit computation stays in range, or
 is an explicit cast.
*/
module Naturals {
  import opened Arithmetic
  import opened Bits

  type u32 = x: int | 0 <= x < 0x1_0000_0000
  type u64 = x: int | 0 <= x < 0x1_0000_0000_0000_0000
  type i32 = x: int | -0x8000_0000 <= x < 0x8000_0000

  // ---- what a limb sequence denotes ----

  ghost function ValueOf(s: seq<u32>): nat {
    if s == [] then 0 else s[0] + 0x1_0000_0000 * ValueOf(s[1..])
  }

  ghost function Weight(i: nat): nat {
    Pow(0x1_0000_0000, i)
  }

  ghost predicate Normal(s: seq<u32>) {
    s == [] || s[|s| - 1] != 0
  }

  lemma {:induction false} ValueOfConcat(s: seq<u32>, t: seq<u32>)
    ensures ValueOf(s + t) == ValueOf(s) + Weight(|s|) * ValueOf(t)
  {
    if s == [] {
      assert s + t == t;
    } else {
      ValueOfConcat(s[1..], t);
      assert (s + t)[1..] == s[1..] + t;
      MulAssoc(0x1_0000_0000, Weight(|s| - 1), ValueOf(t));
    }
  }

  /** Extending a prefix by one limb. */
  lemma ValueOfPrefix(s: seq<u32>, i: nat)
    requires i < |s|
    ensures ValueOf(s[..i + 1]) == ValueOf(s[..i]) + Weight(i) * s[i]
  {
    assert s[..i + 1] == s[..i] + [s[i]];
    ValueOfConcat(s[..i], [s[i]]);
    assert ValueOf([s[i]]) == s[i];
  }

  lemma {:induction false} ValueOfBelow(s: seq<u32>)
    ensures ValueOf(s) < Weight(|s|)
  {
    if s != [] {
      ValueOfBelow(s[1..]);
      MulMonotone(0x1_0000_0000, ValueOf(s[1..]) + 1, Weight(|s| - 1));
    }
  }

  lemma NormalAtLeast(s: seq<u32>)
    requires Normal(s) && s != []
    ensures Weight(|s| - 1) <= ValueOf(s)
  {
    var n := |s| - 1;
    assert s[..n + 1] == s;
    ValueOfPrefix(s, n);
    MulMonotone(Weight(n), 1, s[n]);
  }

  lemma {:induction false} ValueOfZeros(s: seq<u32>, zeros: seq<u32>)
    requires forall i :: 0 <= i < |zeros| ==> zeros[i] == 0
    ensures ValueOf(zeros + s) == Weight(|zeros|) * ValueOf(s)
    ensures ValueOf(zeros) == 0
    decreases |zeros|
  {
    if zeros == [] {
      assert zeros + s == s;
    } else {
      ValueOfZeros(s, zeros[1..]);
      assert (zeros + s)[1..] == zeros[1..] + s;
      MulAssoc(0x1_0000_0000, Weight(|zeros| - 1), ValueOf(s));
    }
  }

  /** A digit's bounds carry over to a number it leads. */
  lemma LeadingDigit(weight: nat, low: nat, digit: nat, lower: nat, upper: nat)
    requires low < weight && lower <= digit < upper
    ensures weight * lower <= low + weight * digit < weight * upper
  {
    MulMonotone(weight, lower, digit);
    MulMonotone(weight, digit + 1, upper);
  }

  /** The limbs above a position decide the order of two equally long numbers. */
  lemma TopLimbDecides(s: seq<u32>, t: seq<u32>, i: nat)
    requires |s| == |t| && i < |s| && s[i] < t[i] && s[i + 1..] == t[i + 1..]
    ensures ValueOf(s) < ValueOf(t)
  {
    hide ValueOf, Weight;
    ValueOfPrefix(s, i);
    ValueOfPrefix(t, i);
    ValueOfBelow(s[..i]);
    LeadingDigit(Weight(i), ValueOf(s[..i]), s[i], 0, t[i]);
    assert s == s[..i + 1] + s[i + 1..] && t == t[..i + 1] + t[i + 1..];
    ValueOfConcat(s[..i + 1], s[i + 1..]);
    ValueOfConcat(t[..i + 1], t[i + 1..]);
  }

  // ---- bit lengths ----

  /** A cast to int keeps the low 32 bits, read as a signed number. */
  function ToInt32(n: int): (r: i32)
    ensures r == n <==> -0x8000_0000 <= n < 0x8000_0000
  {
    (n + 0x8000_0000) % 0x1_0000_0000 - 0x8000_0000
  }

  lemma CastOfSum(n: int, k: int)
    ensures ToInt32(ToInt32(n) + k) == ToInt32(n + k)
  {
    var m := n + 0x8000_0000;
    assert m == m / 0x1_0000_0000 * 0x1_0000_0000 + m % 0x1_0000_0000;
    SameRemainder(m % 0x1_0000_0000 + k, m / 0x1_0000_0000);
  }

  lemma SameRemainder(y: int, k: int)
    ensures (k * 0x1_0000_0000 + y) % 0x1_0000_0000 == y % 0x1_0000_0000
  {
    var q, r := y / 0x1_0000_0000, y % 0x1_0000_0000;
    DivUnique(k * 0x1_0000_0000 + y, 0x1_0000_0000, k + q, r);
  }

  /** From 2^31 binary digits on the computed length is not the length. */
  lemma LengthIsExactExactlyWhen(n: nat)
    ensures ToInt32(BitWidth(n)) == BitWidth(n) <==> BitWidth(n) < 0x8000_0000
  {
  }

  /** The number of binary digits, zero for zero. */
  function BitWidth(n: nat): (bits: nat)
    ensures n < Pow(2, bits)
    ensures n > 0 ==> bits > 0 && Pow(2, bits - 1) <= n
  {
    if n == 0 then 0 else 1 + BitWidth(n / 2)
  }

  lemma BitWidthUnique(n: nat, bits: nat)
    requires bits > 0 && Pow(2, bits - 1) <= n < Pow(2, bits)
    ensures BitWidth(n) == bits
  {
    var other := BitWidth(n);
    if other < bits { PowMonotone(2, other, bits - 1); }
    if bits < other { PowMonotone(2, bits, other - 1); }
  }

  lemma WordIsPowerOfTwo()
    ensures Pow(2, 32) == 0x1_0000_0000 && Pow(2, 31) == 0x8000_0000
  {
    PowAdd(2, 16, 16);
    PowAdd(2, 8, 8);
    assert Pow(2, 8) == 256;
  }

  lemma WeightIsPowerOfTwo(i: nat)
    ensures Weight(i) == Pow(2, 32 * i)
  {
    WordIsPowerOfTwo();
    PowPower(2, 32, i);
  }

  lemma BitWidthOfLimbs(s: seq<u32>)
    requires Normal(s) && s != []
    ensures BitWidth(ValueOf(s)) == 32 * (|s| - 1) + BitWidth(s[|s| - 1])
  {
    hide ValueOf, Weight, Pow;
    var n := |s| - 1;
    var top, b := s[n], BitWidth(s[n]);
    assert s[..n + 1] == s;
    ValueOfPrefix(s, n);
    ValueOfBelow(s[..n]);
    WeightIsPowerOfTwo(n);
    PowAdd(2, 32 * n, b - 1);
    PowAdd(2, 32 * n, b);
    LeadingDigit(Weight(n), ValueOf(s[..n]), top, Pow(2, b - 1), Pow(2, b));
    BitWidthUnique(ValueOf(s), 32 * n + b);
  }

  // ---- one step of each limb loop, as integer arithmetic ----

  lemma ProductFits(a: nat, b: nat, c: nat)
    requires a < 0x1_0000_0000 && b < 0x1_0000_0000 && c < 0x1_0000_0000
    ensures a * b + c < 0x1_0000_0000_0000_0000
  {
    MulMonotone(a, b, 0xFFFF_FFFF);
  }

  /** value = done + w * (0x1_0000_0000 * high + low), the new limb being low. */
  lemma MultiplyStep(w: nat, low: nat, high: nat, limb: nat, factor: nat, carry: nat,
                     before: nat, after: nat, addend: nat)
    requires 0x1_0000_0000 * high + low == limb * factor + carry
    requires after + w * carry == before * factor + addend
    ensures after + w * low + (0x1_0000_0000 * w) * high == (before + w * limb) * factor + addend
  {
    calc {
      after + w * low + (0x1_0000_0000 * w) * high;
      { assert (0x1_0000_0000 * w) * high == w * (0x1_0000_0000 * high) by { MulAssoc(w, 0x1_0000_0000, high); } }
      after + w * (0x1_0000_0000 * high + low);
      after + w * (limb * factor) + w * carry;
      { MulAssoc(w, limb, factor); }
      before * factor + addend + (w * limb) * factor;
    }
  }

  /** The first i limbs of now, and a carry, hold factor times the first i limbs of was plus the addend. */
  ghost predicate Multiplied(now: seq<u32>, was: seq<u32>, i: nat, factor: nat, addend: nat, carry: nat)
    requires i <= |now| == |was|
  {
    ValueOf(now[..i]) + Weight(i) * carry == ValueOf(was[..i]) * factor + addend
  }

  lemma MultiplyStart(was: seq<u32>, factor: nat, addend: nat)
    ensures Multiplied(was, was, 0, factor, addend, addend)
  {
  }

  lemma MultiplyLimb(now: seq<u32>, next: seq<u32>, was: seq<u32>, i: nat,
                     factor: nat, addend: nat, carry: nat, high: nat)
    requires i < |now| == |next| == |was| && next[..i] == now[..i]
    requires Multiplied(now, was, i, factor, addend, carry)
    requires 0x1_0000_0000 * high + next[i] == was[i] * factor + carry
    ensures Multiplied(next, was, i + 1, factor, addend, high)
  {
    ValueOfPrefix(next, i);
    ValueOfPrefix(was, i);
    MultiplyStep(Weight(i), next[i], high, was[i], factor, carry,
                 ValueOf(was[..i]), ValueOf(now[..i]), addend);
  }

  /** All limbs multiplied: the carry becomes one more limb. */
  lemma MultiplyDone(now: seq<u32>, was: seq<u32>, factor: nat, addend: nat, carry: u32)
    requires |now| == |was| && Multiplied(now, was, |now|, factor, addend, carry)
    ensures ValueOf(now + [carry]) == ValueOf(was) * factor + addend
    ensures carry == 0 ==> ValueOf(now) == ValueOf(was) * factor + addend
  {
    hide ValueOf, Weight;
    assert now[..|now|] == now && was[..|was|] == was;
    ValueOfConcat(now, [carry]);
    SingleLimb(carry);
  }

  lemma SingleLimb(limb: u32)
    ensures ValueOf([limb]) == limb
  {
  }

  /** At most the first i limbs. */
  ghost function Prefix(s: seq<u32>, i: nat): seq<u32> {
    if i < |s| then s[..i] else s
  }

  /** The first i limbs of now hold the difference of the first i limbs of was and less, up to a borrow. */
  ghost predicate Subtracted(now: seq<u32>, was: seq<u32>, less: seq<u32>, i: nat, borrow: nat)
    requires i <= |now| == |was|
  {
    ValueOf(now[..i]) + ValueOf(Prefix(less, i)) == ValueOf(was[..i]) + Weight(i) * borrow
  }

  lemma SubtractStart(was: seq<u32>, less: seq<u32>)
    ensures Subtracted(was, was, less, 0, 0)
  {
  }

  lemma SubtractLimb(now: seq<u32>, next: seq<u32>, was: seq<u32>, less: seq<u32>, i: nat,
                     borrow: nat, out: nat)
    requires i < |now| == |next| == |was| && next[..i] == now[..i]
    requires Subtracted(now, was, less, i, borrow)
    requires (next[i] as int) + (if i < |less| then less[i] else 0) == (was[i] as int) - borrow + 0x1_0000_0000 * out
    ensures Subtracted(next, was, less, i + 1, out)
  {
    ValueOfPrefix(next, i);
    ValueOfPrefix(was, i);
    var y := if i < |less| then less[i] else 0;
    assert ValueOf(Prefix(less, i + 1)) == ValueOf(Prefix(less, i)) + Weight(i) * y by {
      if i < |less| {
        ValueOfPrefix(less, i);
        assert Prefix(less, i + 1) == less[..i + 1];
      }
    }
    SubtractStep(Weight(i), next[i], y, was[i], borrow, out);
  }

  lemma SubtractStep(w: nat, z: nat, y: nat, x: nat, borrow: nat, out: nat)
    requires z + y == x - borrow + 0x1_0000_0000 * out
    ensures w * z + w * y == w * x - w * borrow + (0x1_0000_0000 * w) * out
  {
    MulAssoc(w, 0x1_0000_0000, out);
  }

  lemma SubtractDone(now: seq<u32>, was: seq<u32>, less: seq<u32>, borrow: nat)
    requires |less| <= |now| == |was| && Subtracted(now, was, less, |now|, borrow)
    requires ValueOf(less) <= ValueOf(was) && borrow <= 1
    ensures ValueOf(now) == ValueOf(was) - ValueOf(less)
  {
    hide ValueOf, Weight;
    assert now[..|now|] == now && was[..|was|] == was && Prefix(less, |now|) == less;
    ValueOfBelow(now);
    NothingBorrowed(ValueOf(now), ValueOf(less), ValueOf(was), Weight(|now|), borrow);
  }

  lemma NothingBorrowed(difference: nat, less: nat, was: nat, w: nat, borrow: nat)
    requires difference + less == was + w * borrow
    requires difference < w && less <= was && borrow <= 1
    ensures borrow == 0 && difference == was - less
  {
    assert borrow == 1 ==> w * borrow == w;
  }

  /** Inserting zero limbs below a number already shifted by part bits. */
  lemma WholeWords(s: seq<u32>, zeros: seq<u32>, part: nat, start: nat)
    requires forall i :: 0 <= i < |zeros| ==> zeros[i] == 0
    requires ValueOf(s) == start * Pow(2, part)
    ensures ValueOf(zeros + s) == start * Pow(2, 32 * |zeros| + part)
  {
    hide ValueOf, Weight, Pow;
    ValueOfZeros(s, zeros);
    WeightIsPowerOfTwo(|zeros|);
    PowAdd(2, part, 32 * |zeros|);
    MulAssoc(start, Pow(2, part), Weight(|zeros|));
  }

  // ---- the class ----

  class Natural {
    var limbs: seq<u32>

    ghost predicate Valid()
      reads this
    {
      Normal(limbs)
    }

    ghost function Value(): nat
      reads this
    {
      ValueOf(limbs)
    }

    /** A 64-bit start value, split into limbs from the low end. */
    constructor (value: u64)
      ensures Valid() && Value() == value
    {
      limbs := [];
      new;
      var rest := value;
      while rest != 0
        invariant ValueOf(limbs) + Weight(|limbs|) * rest == value
        invariant rest == 0 ==> Normal(limbs)
        decreases rest
      {
        ghost var was, r, w := limbs, rest, Weight(|limbs|);
        limbs := limbs + [rest % 0x1_0000_0000];
        rest := rest / 0x1_0000_0000;
        assert limbs[..|was|] == was && limbs[..|was| + 1] == limbs;
        ValueOfPrefix(limbs, |was|);
        MultiplyStep(w, r % 0x1_0000_0000, rest, r, 1, 0, ValueOf(was), ValueOf(was), 0);
      }
    }

    constructor Copy(other: Natural)
      requires other.Valid()
      ensures Valid() && Value() == other.Value()
    {
      limbs := other.limbs;
    }

    /** The length computed in int: the sum of two casts. */
    method BitLength() returns (bits: i32)
      requires Valid()
      ensures bits == ToInt32(BitWidth(Value()))
    {
      if |limbs| == 0 { return 0; }
      BitWidthOfLimbs(limbs);
      CastOfSum(32 * (|limbs| - 1), BitWidth(limbs[|limbs| - 1]));
      bits := ToInt32(ToInt32(32 * (|limbs| - 1)) + BitWidth(limbs[|limbs| - 1]));
    }

    method Trim()
      modifies this
      ensures Valid() && Value() == old(Value())
    {
      while |limbs| > 0 && limbs[|limbs| - 1] == 0
        invariant Value() == old(Value())
        decreases |limbs|
      {
        ValueOfPrefix(limbs, |limbs| - 1);
        assert limbs[..|limbs| - 1 + 1] == limbs;
        limbs := limbs[..|limbs| - 1];
      }
    }

    method MultiplyAdd(factor: u32, addend: u32)
      requires Valid()
      modifies this
      ensures Valid() && Value() == old(Value()) * factor + addend
    {
      hide ValueOf, Weight, Multiplied, Normal;
      var carry: u64 := addend;
      var i := 0;
      ghost var was := limbs;
      MultiplyStart(was, factor, addend);
      while i < |limbs|
        invariant 0 <= i <= |limbs| == |was| && limbs[i..] == was[i..]
        invariant carry < 0x1_0000_0000
        invariant Multiplied(limbs, was, i, factor, addend, carry)
      {
        ghost var c, now := carry, limbs;
        assert limbs[i] == limbs[i..][0] == was[i];
        ProductFits(limbs[i], factor, carry);
        var product: u64 := limbs[i] * factor + carry;
        limbs := limbs[i := product % 0x1_0000_0000];
        carry := product / 0x1_0000_0000;
        MultiplyLimb(now, limbs, was, i, factor, addend, c, carry);
        i := i + 1;
      }
      MultiplyDone(limbs, was, factor, addend, carry);
      if carry != 0 { limbs := limbs + [carry % 0x1_0000_0000]; }
      Trim();
    }

    method MultiplyPowerOfFive(exponent: int)
      requires Valid()
      modifies this
      ensures Valid() && Value() == old(Value()) * Pow(5, Positive(exponent))
    {
      var left := exponent;
      ghost var total := Positive(exponent);
      ghost var done: nat := 0;
      assert Pow(5, 13) == 1220703125;
      while left >= 13
        invariant Valid() && done + Positive(left) == total
        invariant Value() == old(Value()) * Pow(5, done)
      {
        MultiplyAdd(1220703125, 0);
        PowAdd(5, done, 13);
        MulAssoc(old(Value()), Pow(5, done), Pow(5, 13));
        left := left - 13;
        done := done + 13;
      }
      var rest: u32 := 1;
      ghost var k: nat := 0;
      while left > 0
        invariant Valid() && Value() == old(Value()) * Pow(5, done)
        invariant done + k + Positive(left) == total && k + Positive(left) <= 12
        invariant rest == Pow(5, k) <= 244140625
        decreases left
      {
        PowMonotone(5, k + 1, 12);
        assert Pow(5, 12) == 244140625;
        rest := rest * 5;
        k := k + 1;
        left := left - 1;
      }
      PowAdd(5, done, k);
      MulAssoc(old(Value()), Pow(5, done), Pow(5, k));
      if rest != 1 { MultiplyAdd(rest, 0); }
    }

    method ShiftLeft(bits: i32)
      requires Valid() && bits >= 0
      modifies this
      ensures Valid() && Value() == old(Value()) * Pow(2, bits)
    {
      if |limbs| == 0 || bits == 0 { return; }
      hide ValueOf, Pow;
      var whole, part := bits / 32, bits % 32;
      if part != 0 { ShiftPart(part); }
      var zeros: seq<u32> := seq(whole, _ => 0);
      WholeWords(limbs, zeros, part, old(Value()));
      limbs := zeros + limbs;
    }

    /** The loop of a shift by fewer than 32 bits. */
    method ShiftPart(part: nat)
      requires Valid() && 0 < part < 32
      modifies this
      ensures Valid() && Value() == old(Value()) * Pow(2, part) && |limbs| >= |old(limbs)|
    {
      hide ValueOf, Weight, Multiplied, Pow, Or;
      var carry: u32 := 0;
      var i := 0;
      ghost var was := limbs;
      ghost var p := Pow(2, part);
      MultiplyStart(was, p, 0);
      while i < |limbs|
        invariant 0 <= i <= |limbs| == |was| && limbs[i..] == was[i..]
        invariant carry < p
        invariant i > 0 && was[i - 1] != 0 ==> carry != 0 || limbs[i - 1] != 0
        invariant Multiplied(limbs, was, i, p, 0, carry)
      {
        ghost var c, now := carry, limbs;
        assert limbs[i] == limbs[i..][0] == was[i];
        ShiftedLimb(limbs[i], part, carry);
        var next := limbs[i] / Pow(2, 32 - part);
        limbs := limbs[i := Or(limbs[i] * Pow(2, part) % 0x1_0000_0000, carry)];
        carry := next;
        MultiplyLimb(now, limbs, was, i, p, 0, c, carry);
        i := i + 1;
      }
      MultiplyDone(limbs, was, p, 0, carry);
      if carry != 0 { limbs := limbs + [carry]; }
    }

    method ShiftRightOne()
      requires Valid()
      modifies this
      ensures Valid() && Value() == old(Value()) / 2
    {
      var carry: u32 := 0;
      var i := |limbs|;
      ghost var was := limbs;
      while i > 0
        invariant 0 <= i <= |limbs| == |was| && limbs[..i] == was[..i]
        invariant carry <= 1
        invariant ValueOf(was[i..]) == 2 * ValueOf(limbs[i..]) + carry
      {
        ghost var suffix := limbs[i..];
        var limb := limbs[i - 1];
        assert limb == was[..i][i - 1];
        WordIsPowerOfTwo();
        OrDisjoint(carry, limb / 2, 31);
        limbs := limbs[i - 1 := Or(limb / 2, carry * Pow(2, 31))];
        carry := limb % 2;
        i := i - 1;
        assert limbs[i..][1..] == suffix && was[i..][1..] == was[i + 1..];
      }
      assert limbs[0..] == limbs && was[0..] == was;
      Trim();
    }

    method Subtract(other: Natural)
      requires Valid() && other.Valid() && other.Value() <= Value()
      modifies this
      ensures Valid() && Value() == old(Value()) - old(other.Value())
    {
      hide ValueOf, Weight, Subtracted;
      var borrow := 0;
      var i := 0;
      ghost var was, less := limbs, other.limbs;
      SubtractStart(was, less);
      NotLonger(less, was);
      while i < |limbs|
        invariant 0 <= i <= |limbs| == |was| && limbs[i..] == was[i..]
        invariant |other.limbs| == |less| && forall k :: i <= k < |less| ==> other.limbs[k] == less[k]
        invariant borrow == 0 || borrow == 1
        invariant Subtracted(limbs, was, less, i, borrow)
      {
        ghost var b, now := borrow, limbs;
        assert limbs[i] == limbs[i..][0] == was[i] && limbs[i + 1..] == limbs[i..][1..] == was[i + 1..];
        var value: int := (limbs[i] as int) - borrow - (if i < |other.limbs| then other.limbs[i] else 0);
        borrow := if value < 0 then 1 else 0;
        if value < 0 { value := value + 0x1_0000_0000; }
        limbs := limbs[i := value];
        assert limbs[i + 1..] == now[i + 1..];
        SubtractLimb(now, limbs, was, less, i, b, borrow);
        i := i + 1;
      }
      SubtractDone(limbs, was, less, borrow);
      Trim();
    }
  }

  lemma NotLonger(s: seq<u32>, t: seq<u32>)
    requires Normal(s) && ValueOf(s) <= ValueOf(t)
    ensures |s| <= |t|
  {
    ValueOfBelow(t);
    if s != [] {
      NormalAtLeast(s);
      PowReflects(0x1_0000_0000, |s| - 1, |t|);
    }
  }

  /** Splitting limb * p at the word boundary, where p * d is the word size. */
  lemma SplitShift(limb: nat, p: nat, d: nat)
    requires p * d == 0x1_0000_0000 && limb < 0x1_0000_0000 && d > 0
    ensures limb * p == (limb / d) * 0x1_0000_0000 + (limb % d) * p
    ensures limb / d < p && (limb % d) * p < 0x1_0000_0000
    ensures limb * p % 0x1_0000_0000 == (limb % d) * p
    ensures (limb % d) * p + p <= 0x1_0000_0000
  {
    var high, rest := limb / d, limb % d;
    assert limb == high * d + rest;
    MulAssoc(high, d, p);
    MulMonotone(p, rest + 1, d);
    if high >= p { MulMonotone(d, p, high); }
    DivUnique(limb * p, 0x1_0000_0000, high, rest * p);
  }

  lemma ShiftedLimb(limb: u32, part: nat, carry: u32)
    requires 0 < part < 32 && carry < Pow(2, part)
    ensures var low := Or(limb * Pow(2, part) % 0x1_0000_0000, carry);
            var high := limb / Pow(2, 32 - part);
            0 <= low < 0x1_0000_0000 && high < Pow(2, part) <= 0x1_0000_0000 &&
            (limb != 0 ==> low != 0 || high != 0) && 0x1_0000_0000 * high + low == limb * Pow(2, part) + carry
  {
    var p, d := Pow(2, part), Pow(2, 32 - part);
    PowAdd(2, part, 32 - part);
    WordIsPowerOfTwo();
    SplitShift(limb, p, d);
    OrDisjoint(limb % d, carry, part);
    MulMonotone(limb, 1, p);
  }

  /** The order of two numbers: negative, zero or positive as in the source. */
  method Compare(left: Natural, right: Natural) returns (order: int)
    requires left.Valid() && right.Valid()
    ensures order in {-1, 0, 1}
    ensures order < 0 <==> left.Value() < right.Value()
    ensures order == 0 <==> left.Value() == right.Value()
  {
    ghost var s, t := left.limbs, right.limbs;
    if |left.limbs| != |right.limbs| {
      if ValueOf(s) <= ValueOf(t) { NotLonger(s, t); }
      if ValueOf(t) <= ValueOf(s) { NotLonger(t, s); }
      return if |left.limbs| < |right.limbs| then -1 else 1;
    }
    var i := |left.limbs|;
    while i > 0
      invariant 0 <= i <= |s| == |t| && s[i..] == t[i..]
    {
      if left.limbs[i - 1] != right.limbs[i - 1] {
        if s[i - 1] < t[i - 1] { TopLimbDecides(s, t, i - 1); } else { TopLimbDecides(t, s, i - 1); }
        return if left.limbs[i - 1] < right.limbs[i - 1] then -1 else 1;
      }
      i := i - 1;
      assert s[i..] == [s[i]] + s[i + 1..] && t[i..] == [t[i]] + t[i + 1..];
    }
    assert s[0..] == s && t[0..] == t;
    order := 0;
  }
}
