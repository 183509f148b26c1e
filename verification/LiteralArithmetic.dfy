/**
 * Literal integer expressions evaluated at compile time in the type their literals take, in
 * 64-bit arithmetic with an overflow check before every operation.
 */
module LiteralArithmetic {
  import opened Arithmetic
  import opened Naturals
  import IntCasts

  const MIN: int := -0x8000_0000_0000_0000
  const MAX: int := 0x7fff_ffff_ffff_ffff

  datatype Expr =
    | Literal(value: nat)
    | Negate(operand: Expr)
    | Binary(op: Op, left: Expr, right: Expr)
    | Other

  datatype Op = Add | Sub | Mul | OtherOp

  datatype IntegerType = Signed(width: nat) | Unsigned(width: nat) | Natural | NotInteger

  datatype Result = Unknown | Known(value: int) | OutOfRange

  predicate FixedWidth(width: nat) {
    width == 8 || width == 16 || width == 32 || width == 64
  }

  predicate WellFormed(t: IntegerType) {
    match t
    case Signed(width) => FixedWidth(width)
    case Unsigned(width) => FixedWidth(width)
    case _ => true
  }

  /** The values of each type. */
  ghost predicate Holds(v: int, t: IntegerType) {
    match t
    case Signed(width) =>
      if width == 8 then -128 <= v <= 127
      else if width == 16 then -32_768 <= v <= 32_767
      else if width == 32 then -2_147_483_648 <= v <= 2_147_483_647
      else width == 64 && -9_223_372_036_854_775_808 <= v <= 9_223_372_036_854_775_807
    case Unsigned(width) =>
      if width == 8 then 0 <= v <= 255
      else if width == 16 then 0 <= v <= 65_535
      else if width == 32 then 0 <= v <= 4_294_967_295
      else width == 64 && 0 <= v <= 18_446_744_073_709_551_615
    case Natural => 0 <= v
    case NotInteger => false
  }

  predicate InRange(v: int, t: IntegerType)
    ensures WellFormed(t) ==> (InRange(v, t) <==> Holds(v, t))
  {
    PowersOfTwo();
    match t
    case Signed(width) => width > 0 && -(Pow(2, width - 1) as int) <= v < Pow(2, width - 1)
    case Unsigned(width) => 0 <= v < Pow(2, width)
    case Natural => 0 <= v
    case NotInteger => false
  }

  /** An unsigned type holds what has at most so many binary digits, and a signed one what is shifted into an unsigned one. */
  lemma HoldsByDigits(v: int, width: nat)
    requires FixedWidth(width)
    ensures Holds(v, Unsigned(width)) <==> v >= 0 && BitWidth(v) <= width
    ensures Holds(v, Signed(width)) <==> Holds(v + Pow(2, width - 1), Unsigned(width))
  {
    PowersOfTwo();
    hide Pow;
    if v >= 0 {
      if v < Pow(2, width) { IntCasts.BitWidthBelow(v, width); } else { IntCasts.BitWidthAbove(v, width); }
    }
  }

  predicate Fits64(v: int) { MIN <= v <= MAX }

  // ---- the 64-bit operations ----

  /** Division that rounds towards zero. */
  function Truncated(a: int, b: int): int
    requires b != 0
  {
    if a >= 0 then if b > 0 then a / b else -(a / -b)
    else if b > 0 then -(-a / b) else -a / -b
  }

  function Checked(op: Op, a: int, b: int): (r: Result)
    requires Fits64(a) && Fits64(b)
    ensures op != OtherOp ==> r == if Fits64(Apply(op, a, b)) then Known(Apply(op, a, b)) else Unknown
  {
    match op
    case Add => if (b > 0 && a > MAX - b) || (b < 0 && a < MIN - b) then Unknown else Known(a + b)
    case Sub => if (b > 0 && a < MIN + b) || (b < 0 && a > MAX + b) then Unknown else Known(a - b)
    case Mul => if ProductOverflows(a, b) then Unknown else Known(a * b)
    case OtherOp => Unknown
  }

  function Apply(op: Op, a: int, b: int): int {
    match op
    case Add => a + b
    case Sub => a - b
    case Mul => a * b
    case OtherOp => 0
  }

  /** The division test before a multiplication is exact. */
  predicate ProductOverflows(a: int, b: int)
    requires Fits64(a) && Fits64(b)
    ensures ProductOverflows(a, b) <==> !Fits64(a * b)
  {
    QuotientTest(a, b);
    if a == 0 || b == 0 then false
    else if a > 0 then (b > 0 && a > Truncated(MAX, b)) || (b < 0 && b < Truncated(MIN, a))
    else (b > 0 && a < Truncated(MIN, b)) || (b < 0 && a < Truncated(MAX, b))
  }

  /** k copies of d fit into m exactly when k is at most the quotient. */
  lemma FitsQuotient(m: nat, d: nat, k: nat)
    requires d > 0
    ensures k * d <= m <==> k <= m / d
  {
    var q, r := m / d, m % d;
    assert m == q * d + r;
    assert (q + 1) * d == q * d + d;
    MulCancel(d, k, q);
    MulCancel(d, q + 1, k);
  }

  lemma QuotientTest(a: int, b: int)
    requires Fits64(a) && Fits64(b)
    ensures a > 0 && b > 0 ==> (a > Truncated(MAX, b) <==> !Fits64(a * b))
    ensures a > 0 && b < 0 ==> (b < Truncated(MIN, a) <==> !Fits64(a * b))
    ensures a < 0 && b > 0 ==> (a < Truncated(MIN, b) <==> !Fits64(a * b))
    ensures a < 0 && b < 0 ==> (a < Truncated(MAX, b) <==> !Fits64(a * b))
  {
    if a > 0 && b > 0 {
      FitsQuotient(MAX, b, a);
      assert a * b > 0;
    } else if a > 0 && b < 0 {
      FitsQuotient(-MIN, a, -b);
      assert -b * a == -(a * b) && a * b < 0;
    } else if a < 0 && b > 0 {
      FitsQuotient(-MIN, b, -a);
      assert -a * b == -(a * b) && a * b < 0;
    } else if a < 0 && b < 0 {
      FitsQuotient(MAX, -b, -a);
      assert -a * -b == a * b && a * b > 0;
    }
  }

  // ---- the evaluation ----

  function InType(e: Expr, t: IntegerType): (r: Result)
    ensures r.Known? ==> Fits64(r.value)
  {
    if t.NotInteger? then Unknown
    else match e
      case Literal(n) =>
        if n > MAX then Unknown else if !InRange(n, t) then OutOfRange else Known(n)
      case Negate(operand) =>
        if operand.Literal? then
          var v := -(operand.value as int);
          if operand.value > MAX then Unknown else if !InRange(v, t) then OutOfRange else Known(v)
        else
          var r := InType(operand, t);
          if !r.Known? then r
          else if r.value == MIN then Unknown
          else if !InRange(-r.value, t) then OutOfRange else Known(-r.value)
      case Binary(op, left, right) =>
        if op == OtherOp then Unknown
        else
          var a := InType(left, t);
          if !a.Known? then a
          else
            var b := InType(right, t);
            if !b.Known? then b
            else
              var v := Checked(op, a.value, b.value);
              if !v.Known? then if t.Signed? || (t.Unsigned? && t.width < 64) then OutOfRange else Unknown
              else if !InRange(v.value, t) then OutOfRange else v
      case Other => Unknown
  }

  // ---- what it means ----

  /** A literal expression of +, - and *, all of whose literals the evaluation reads. */
  ghost predicate Readable(e: Expr) {
    match e
    case Literal(n) => n <= MAX
    case Negate(operand) => Readable(operand)
    case Binary(op, left, right) => op != OtherOp && Readable(left) && Readable(right)
    case Other => false
  }

  /** The value in unbounded arithmetic. */
  ghost function Exact(e: Expr): int
    requires Readable(e)
  {
    match e
    case Literal(n) => n
    case Negate(operand) => -Exact(operand)
    case Binary(op, left, right) => Apply(op, Exact(left), Exact(right))
  }

  /** Every step's exact result lies in the type; a negated literal is one step. */
  ghost predicate Inside(e: Expr, t: IntegerType)
    requires Readable(e)
  {
    && Holds(Exact(e), t)
    && match e
       case Literal(_) => true
       case Negate(operand) => operand.Literal? || Inside(operand, t)
       case Binary(_, left, right) => Inside(left, t) && Inside(right, t)
  }

  ghost predicate Leaf(e: Expr) { e.Literal? || (e.Negate? && e.operand.Literal?) }

  /** Some step leaves the type although everything it works on stays inside. */
  ghost predicate Leaves(e: Expr, t: IntegerType) {
    || (Readable(e) && !Holds(Exact(e), t)
        && (Leaf(e) || (e.Negate? && Inside(e.operand, t)) || (e.Binary? && Inside(e.left, t) && Inside(e.right, t))))
    || (e.Negate? && !Leaf(e) && Leaves(e.operand, t))
    || (e.Binary? && (Leaves(e.left, t) || Leaves(e.right, t)))
  }

  lemma Signed64Range(v: int)
    ensures Holds(v, Signed(64)) <==> Fits64(v)
  {
  }

  lemma PowersOfTwo()
    ensures Pow(2, 7) == 0x80 && Pow(2, 8) == 0x100 && Pow(2, 15) == 0x8000 && Pow(2, 16) == 0x1_0000
    ensures Pow(2, 31) == 0x8000_0000 && Pow(2, 32) == 0x1_0000_0000
    ensures Pow(2, 63) == 0x8000_0000_0000_0000 && Pow(2, 64) == 0x1_0000_0000_0000_0000
  {
    assert Pow(2, 7) == 0x80;
    PowAdd(2, 7, 1); PowAdd(2, 8, 7); PowAdd(2, 8, 8); PowAdd(2, 16, 15); PowAdd(2, 16, 16);
    PowAdd(2, 32, 31); PowAdd(2, 32, 32);
  }

  /** A value beyond 64 bits is outside every signed type and every narrower unsigned one. */
  lemma BeyondBudget(v: int, t: IntegerType)
    requires WellFormed(t) && !Fits64(v) && (t.Signed? || (t.Unsigned? && t.width < 64))
    ensures !Holds(v, t)
  {
  }

  /** Known is the exact value with every step inside the type and 64 bits; OutOfRange names a real departure. */
  lemma {:induction false} EvaluationIsExact(e: Expr, t: IntegerType)
    requires WellFormed(t) && t != NotInteger
    ensures InType(e, t).Known? <==> Readable(e) && Inside(e, t) && Inside(e, Signed(64))
    ensures InType(e, t).Known? ==> InType(e, t).value == Exact(e)
    ensures InType(e, t) == OutOfRange ==> Leaves(e, t)
    decreases e
  {
    hide Checked, InRange, Holds;
    match e
    case Literal(n) => Signed64Range(n);
    case Negate(operand) =>
      if !operand.Literal? { EvaluationIsExact(operand, t); }
      if Readable(operand) {
        Signed64Range(Exact(operand));
        Signed64Range(-Exact(operand));
      }
    case Binary(op, left, right) =>
      EvaluationIsExact(left, t);
      EvaluationIsExact(right, t);
      if op != OtherOp && InType(left, t).Known? && InType(right, t).Known? {
        var a, b := Exact(left), Exact(right);
        Signed64Range(a);
        Signed64Range(b);
        Signed64Range(Apply(op, a, b));
        if !Fits64(Apply(op, a, b)) && (t.Signed? || (t.Unsigned? && t.width < 64)) { BeyondBudget(Apply(op, a, b), t); }
      }
    case Other =>
  }

  ghost predicate Narrow(t: IntegerType) {
    (t.Signed? || t.Unsigned?) && t.width < 64
  }

  /** In a type narrower than 64 bits every readable expression is decided, and decided by its steps. */
  lemma {:induction false} NarrowTypesAreDecided(e: Expr, t: IntegerType)
    requires WellFormed(t) && Narrow(t) && Readable(e)
    ensures InType(e, t) == if Inside(e, t) then Known(Exact(e)) else OutOfRange
    decreases e
  {
    hide Checked, InRange, Holds;
    EvaluationIsExact(e, t);
    if Inside(e, t) { NarrowFits(e, t); }
    match e
    case Literal(_) =>
    case Negate(operand) =>
      if !operand.Literal? {
        NarrowTypesAreDecided(operand, t);
        if Inside(operand, t) { NarrowValue(Exact(operand), t); }
      }
    case Binary(op, left, right) =>
      NarrowTypesAreDecided(left, t);
      NarrowTypesAreDecided(right, t);
    case Other =>
  }

  lemma NarrowValue(v: int, t: IntegerType)
    requires WellFormed(t) && Narrow(t) && Holds(v, t)
    ensures MIN < v <= MAX
  {
  }

  lemma {:induction false} NarrowFits(e: Expr, t: IntegerType)
    requires WellFormed(t) && Narrow(t) && Readable(e) && Inside(e, t)
    ensures Inside(e, Signed(64))
    decreases e
  {
    hide Holds;
    NarrowValue(Exact(e), t);
    Signed64Range(Exact(e));
    match e
    case Literal(_) =>
    case Negate(operand) => if !operand.Literal? { NarrowFits(operand, t); }
    case Binary(op, left, right) =>
      NarrowFits(left, t);
      NarrowFits(right, t);
    case Other =>
  }

  // ---- departures, in evaluation order ----

  /** Every step stays inside the type and 64 bits. */
  ghost predicate Fine(e: Expr, t: IntegerType) {
    Readable(e) && Inside(e, t) && Inside(e, Signed(64))
  }

  /**
   The first step in evaluation order that is not fine is a departure from the type that the
   evaluation can see: one whose result still fits 64 bits, or one of an operation in a type
   that 64 bits contain.
  */
  ghost predicate DepartsFirst(e: Expr, t: IntegerType) {
    match e
    case Literal(n) => n <= MAX && !Holds(n, t)
    case Negate(operand) =>
      if operand.Literal? then operand.value <= MAX && !Holds(-(operand.value as int), t)
      else DepartsFirst(operand, t) || (Fine(operand, t) && Fits64(-Exact(operand)) && !Holds(-Exact(operand), t))
    case Binary(op, left, right) =>
      op != OtherOp &&
      (|| DepartsFirst(left, t)
       || (Fine(left, t) && DepartsFirst(right, t))
       || (Fine(left, t) && Fine(right, t) && var v := Apply(op, Exact(left), Exact(right));
           !Holds(v, t) && (Fits64(v) || t.Signed? || Narrow(t))))
    case Other => false
  }

  /** OutOfRange, in every integer type, exactly for such expressions. */
  lemma {:induction false} OutOfRangeExactlyWhen(e: Expr, t: IntegerType)
    requires WellFormed(t) && t != NotInteger
    ensures InType(e, t) == OutOfRange <==> DepartsFirst(e, t)
    decreases e
  {
    hide Checked, InRange, Holds;
    EvaluationIsExact(e, t);
    match e
    case Literal(_) =>
    case Negate(operand) =>
      if !operand.Literal? {
        OutOfRangeExactlyWhen(operand, t);
        EvaluationIsExact(operand, t);
      }
    case Binary(op, left, right) =>
      OutOfRangeExactlyWhen(left, t);
      OutOfRangeExactlyWhen(right, t);
      EvaluationIsExact(left, t);
      EvaluationIsExact(right, t);
      if op != OtherOp && InType(left, t).Known? && InType(right, t).Known? {
        var v := Apply(op, Exact(left), Exact(right));
        if !Fits64(v) && (t.Signed? || Narrow(t)) { BeyondBudget(v, t); }
      }
    case Other =>
  }
}
