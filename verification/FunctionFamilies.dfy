/**
 Generic specialization families: constraints on type parameters, which members may coexist,
 and the choice of the most specific one that matches a call.
*/
module FunctionFamilies {
  import opened Options
  import opened TypePatterns
  import opened CallShapes

  // ---- constraints ----

  datatype Constraint = Any | Numeric | Ordered | Integral | Floating | Equatable

  datatype NumericKind = IntegerKind | NaturalKind | RealKind(width: nat) | ComplexKind

  /** What the language knows about types: the numeric kinds by name, and equatability. */
  datatype TypeTable = TypeTable(numeric: map<string, NumericKind>, equatable: TypeName -> bool)

  predicate IsScalar(t: TypeName) {
    t.dimensions == [] && t.arguments == [] && t.functionParameters == []
  }

  predicate Satisfies(table: TypeTable, t: TypeName, constraint: Constraint) {
    match constraint
    case Any => true
    case Numeric => IsScalar(t) && t.name in table.numeric
    case Ordered => IsScalar(t) && t.name in table.numeric && !table.numeric[t.name].ComplexKind?
    case Integral => IsScalar(t) && t.name in table.numeric
                     && (table.numeric[t.name].IntegerKind? || table.numeric[t.name].NaturalKind?)
    case Floating => IsScalar(t) && t.name in table.numeric
                     && table.numeric[t.name].RealKind? && table.numeric[t.name].width != 0
    case Equatable => table.equatable(t)
  }

  predicate StrictlyNarrower(narrow: Constraint, broad: Constraint) {
    if narrow == broad then false
    else if broad.Any? then !narrow.Any?
    else if narrow.Ordered? && broad.Numeric? then true
    else (narrow.Floating? || narrow.Integral?) && (broad.Numeric? || broad.Ordered?)
  }

  predicate DisjointConstraints(left: Constraint, right: Constraint) {
    (left.Floating? && right.Integral?) || (left.Integral? && right.Floating?)
  }

  // ---- what constraints mean ----

  /** The numeric types of the language; a width of zero is the exact real. */
  const NUMERIC_KINDS: map<string, NumericKind> := map[
    "int" := IntegerKind, "int8" := IntegerKind, "int16" := IntegerKind, "int32" := IntegerKind, "int64" := IntegerKind,
    "nat" := NaturalKind, "nat8" := NaturalKind, "nat16" := NaturalKind, "nat32" := NaturalKind, "nat64" := NaturalKind,
    "real" := RealKind(0), "real16" := RealKind(16), "real16b" := RealKind(16), "real32" := RealKind(32),
    "real64" := RealKind(64),
    "com" := ComplexKind, "com16" := ComplexKind, "com16b" := ComplexKind, "com32" := ComplexKind, "com64" := ComplexKind]

  ghost function ScalarType(name: string): TypeName {
    TypeName(name, [], [], [], [], None, [])
  }

  /** The documented domains: which names a scalar type of each constraint may have. */
  lemma DomainsByName(table: TypeTable, t: TypeName)
    requires table.numeric == NUMERIC_KINDS
    ensures Satisfies(table, t, Any)
    ensures var scalar := t == ScalarType(t.name).(extents := t.extents, rank := t.rank, known := t.known);
            var integers := {"int", "int8", "int16", "int32", "int64", "nat", "nat8", "nat16", "nat32", "nat64"};
            var floats := {"real16", "real16b", "real32", "real64"};
            && (Satisfies(table, t, Integral) <==> scalar && t.name in integers)
            && (Satisfies(table, t, Floating) <==> scalar && t.name in floats)
            && (Satisfies(table, t, Ordered) <==> scalar && t.name in integers + floats + {"real"})
            && (Satisfies(table, t, Numeric)
                <==> scalar && t.name in integers + floats + {"real", "com", "com16", "com16b", "com32", "com64"})
    ensures Satisfies(table, t, Equatable) <==> table.equatable(t)
  {
  }

  /**
   The language knows an integer type, the exact real, a fixed-width real, a complex type, a
   type that is equatable without being numeric, and one that is not equatable.
  */
  ghost predicate Rich(table: TypeTable) {
    && (exists n :: n in table.numeric && (table.numeric[n].IntegerKind? || table.numeric[n].NaturalKind?))
    && (exists n :: n in table.numeric && table.numeric[n] == RealKind(0))
    && (exists n :: n in table.numeric && table.numeric[n].RealKind? && table.numeric[n].width != 0)
    && (exists n :: n in table.numeric && table.numeric[n].ComplexKind?)
    && (exists n :: n !in table.numeric && table.equatable(ScalarType(n)))
    && (exists t :: !table.equatable(t))
    && (forall t :: IsScalar(t) && t.name in table.numeric ==> table.equatable(t))
  }

  lemma LanguageIsRich(table: TypeTable)
    requires table.numeric == NUMERIC_KINDS && table.equatable(ScalarType("bool"))
    requires exists t :: !table.equatable(t)
    requires forall t :: IsScalar(t) && t.name in table.numeric ==> table.equatable(t)
    ensures Rich(table)
  {
    assert table.numeric["int"].IntegerKind? && table.numeric["real"] == RealKind(0);
    assert table.numeric["real64"].RealKind? && table.numeric["com"].ComplexKind?;
    assert "bool" !in table.numeric;
  }

  ghost predicate Inside(table: TypeTable, narrow: Constraint, broad: Constraint) {
    forall t :: Satisfies(table, t, narrow) ==> Satisfies(table, t, broad)
  }

  ghost predicate Overlapping(table: TypeTable, left: Constraint, right: Constraint) {
    exists t :: Satisfies(table, t, left) && Satisfies(table, t, right)
  }

  /** One type of each sort, with all the constraints it satisfies. */
  lemma Witnesses(table: TypeTable)
    returns (integer: TypeName, exact: TypeName, fixed: TypeName, complex: TypeName, other: TypeName, unequal: TypeName)
    requires Rich(table)
    ensures forall c :: Satisfies(table, integer, c) <==> !c.Floating?
    ensures forall c :: Satisfies(table, exact, c) <==> !c.Integral? && !c.Floating?
    ensures forall c :: Satisfies(table, fixed, c) <==> !c.Integral?
    ensures forall c :: Satisfies(table, complex, c) <==> c.Any? || c.Numeric? || c.Equatable?
    ensures forall c :: Satisfies(table, other, c) <==> c.Any? || c.Equatable?
    ensures forall c :: Satisfies(table, unequal, c) <==> c.Any?
  {
    var i :| i in table.numeric && (table.numeric[i].IntegerKind? || table.numeric[i].NaturalKind?);
    var r :| r in table.numeric && table.numeric[r] == RealKind(0);
    var f :| f in table.numeric && table.numeric[f].RealKind? && table.numeric[f].width != 0;
    var z :| z in table.numeric && table.numeric[z].ComplexKind?;
    var o :| o !in table.numeric && table.equatable(ScalarType(o));
    unequal :| !table.equatable(unequal);
    integer, exact, fixed, complex, other := ScalarType(i), ScalarType(r), ScalarType(f), ScalarType(z), ScalarType(o);
  }

  lemma NarrowerIsInside(table: TypeTable, c: Constraint, d: Constraint)
    requires c == d || StrictlyNarrower(c, d)
    ensures Inside(table, c, d)
  {
  }

  /**
   A constraint is strictly narrower exactly when its types are some, but not all, of the types of
   the other; only equatability is no broader constraint for a type that is known to be numeric.
  */
  lemma NarrowerExactlyWhen(table: TypeTable, c: Constraint, d: Constraint)
    requires Rich(table)
    ensures StrictlyNarrower(c, d) <==> !d.Equatable? && Inside(table, c, d) && !Inside(table, d, c)
    ensures Inside(table, c, d) && Inside(table, d, c) ==> c == d
  {
    var integer, exact, fixed, complex, other, unequal := Witnesses(table);
    if c == d || StrictlyNarrower(c, d) { NarrowerIsInside(table, c, d); }
    hide Satisfies, Rich;
  }

  /** Constraints are disjoint exactly when no type satisfies both. */
  lemma DisjointExactlyWhen(table: TypeTable, c: Constraint, d: Constraint)
    requires Rich(table)
    ensures DisjointConstraints(c, d) <==> !Overlapping(table, c, d)
  {
    var integer, exact, fixed, complex, other, unequal := Witnesses(table);
    if DisjointConstraints(c, d) { DisjointShareNothing(table, c, d); }
    hide Satisfies, Rich;
  }

  lemma DisjointShareNothing(table: TypeTable, c: Constraint, d: Constraint)
    requires DisjointConstraints(c, d)
    ensures !Overlapping(table, c, d)
  {
  }

  // ---- members and their order ----

  datatype Generic = Generic(typeParameters: seq<string>, constraints: seq<Constraint>, parameters: seq<TypeName>)
  {
    /** Constraint lists are absent or aligned with the type parameters. */
    ghost predicate Aligned() {
      constraints == [] || |constraints| == |typeParameters|
    }

    function ConstraintAt(i: nat): Constraint
      requires Aligned() && i < |typeParameters|
    {
      if constraints == [] then Any else constraints[i]
    }
  }

  predicate MoreSpecific(left: Generic, right: Generic)
    requires left.Aligned() && right.Aligned()
  {
    && |left.typeParameters| == |right.typeParameters|
    && (forall i :: 0 <= i < |left.typeParameters| ==>
          left.ConstraintAt(i) == right.ConstraintAt(i)
          || StrictlyNarrower(left.ConstraintAt(i), right.ConstraintAt(i)))
    && exists i :: 0 <= i < |left.typeParameters| && left.ConstraintAt(i) != right.ConstraintAt(i)
  }

  predicate DisjointDomains(left: Generic, right: Generic)
    requires left.Aligned() && right.Aligned()
  {
    && |left.typeParameters| == |right.typeParameters|
    && exists i :: 0 <= i < |left.typeParameters| && DisjointConstraints(left.ConstraintAt(i), right.ConstraintAt(i))
  }

  /** The type arguments are in the member's domain. */
  predicate InDomain(table: TypeTable, g: Generic, arguments: seq<TypeName>)
    requires g.Aligned()
  {
    && |arguments| == |g.typeParameters|
    && forall i :: 0 <= i < |arguments| ==> Satisfies(table, arguments[i], g.ConstraintAt(i))
  }

  lemma MoreSpecificIsTransitive(a: Generic, b: Generic, c: Generic)
    requires a.Aligned() && b.Aligned() && c.Aligned()
    requires MoreSpecific(a, b) && MoreSpecific(b, c)
    ensures MoreSpecific(a, c)
  {
    var i :| 0 <= i < |a.typeParameters| && a.ConstraintAt(i) != b.ConstraintAt(i);
    assert StrictlyNarrower(a.ConstraintAt(i), b.ConstraintAt(i));
    assert b.ConstraintAt(i) == c.ConstraintAt(i) || StrictlyNarrower(b.ConstraintAt(i), c.ConstraintAt(i));
    assert a.ConstraintAt(i) != c.ConstraintAt(i);
  }

  lemma MoreSpecificIsAsymmetric(a: Generic, b: Generic)
    requires a.Aligned() && b.Aligned() && MoreSpecific(a, b)
    ensures !MoreSpecific(b, a)
  {
    var i :| 0 <= i < |a.typeParameters| && a.ConstraintAt(i) != b.ConstraintAt(i);
    assert StrictlyNarrower(a.ConstraintAt(i), b.ConstraintAt(i));
  }

  /** A more specific member accepts fewer type arguments. */
  lemma MoreSpecificHasSmallerDomain(table: TypeTable, a: Generic, b: Generic, arguments: seq<TypeName>)
    requires a.Aligned() && b.Aligned() && MoreSpecific(a, b) && InDomain(table, a, arguments)
    ensures InDomain(table, b, arguments)
  {
    forall i | 0 <= i < |arguments|
      ensures Satisfies(table, arguments[i], b.ConstraintAt(i))
    {
      assert Satisfies(table, arguments[i], a.ConstraintAt(i));
    }
  }

  lemma DisjointDomainsShareNothing(table: TypeTable, a: Generic, b: Generic, arguments: seq<TypeName>)
    requires a.Aligned() && b.Aligned() && DisjointDomains(a, b)
    ensures !(InDomain(table, a, arguments) && InDomain(table, b, arguments))
  {
    var i :| 0 <= i < |a.typeParameters| && DisjointConstraints(a.ConstraintAt(i), b.ConstraintAt(i));
    assert InDomain(table, a, arguments) ==> Satisfies(table, arguments[i], a.ConstraintAt(i));
  }

  // ---- members by their domains ----

  ghost predicate DomainInside(table: TypeTable, a: Generic, b: Generic)
    requires a.Aligned() && b.Aligned()
  {
    forall arguments :: InDomain(table, a, arguments) ==> InDomain(table, b, arguments)
  }

  ghost predicate ShareArguments(table: TypeTable, a: Generic, b: Generic)
    requires a.Aligned() && b.Aligned()
  {
    exists arguments :: InDomain(table, a, arguments) && InDomain(table, b, arguments)
  }

  /** As many type parameters, and none that only the second member asks to be equatable. */
  ghost predicate SameEquality(a: Generic, b: Generic)
    requires a.Aligned() && b.Aligned()
  {
    && |a.typeParameters| == |b.typeParameters|
    && forall i :: 0 <= i < |a.typeParameters| && b.ConstraintAt(i).Equatable? ==> a.ConstraintAt(i).Equatable?
  }

  lemma AllSatisfiable(table: TypeTable)
    requires Rich(table)
    ensures forall c :: Overlapping(table, c, c)
  {
    var integer, exact, fixed, complex, other, unequal := Witnesses(table);
    hide Satisfies, Rich;
    forall c: Constraint
      ensures Overlapping(table, c, c)
    {
      assert Satisfies(table, if c.Floating? then fixed else integer, c);
    }
  }

  ghost function Common(table: TypeTable, c: Constraint, d: Constraint): (t: TypeName)
    requires Overlapping(table, c, d)
    ensures Satisfies(table, t, c) && Satisfies(table, t, d)
  {
    var t :| Satisfies(table, t, c) && Satisfies(table, t, d);
    t
  }

  /** Every type that satisfies one of a member's constraints is part of arguments in its domain. */
  lemma ArgumentsWith(table: TypeTable, a: Generic, i: nat, t: TypeName) returns (arguments: seq<TypeName>)
    requires Rich(table) && a.Aligned() && i < |a.typeParameters| && Satisfies(table, t, a.ConstraintAt(i))
    ensures InDomain(table, a, arguments) && arguments[i] == t
  {
    hide Satisfies, Rich, Overlapping;
    AllSatisfiable(table);
    arguments := seq(|a.typeParameters|, k requires 0 <= k < |a.typeParameters| =>
                       if k == i then t else Common(table, a.ConstraintAt(k), a.ConstraintAt(k)));
  }

  lemma DomainsByConstraint(table: TypeTable, a: Generic, b: Generic)
    requires Rich(table) && a.Aligned() && b.Aligned() && |a.typeParameters| == |b.typeParameters|
    ensures DomainInside(table, a, b)
            <==> forall i :: 0 <= i < |a.typeParameters| ==> Inside(table, a.ConstraintAt(i), b.ConstraintAt(i))
  {
    hide Satisfies, Rich;
    if DomainInside(table, a, b) {
      forall i, t | 0 <= i < |a.typeParameters| && Satisfies(table, t, a.ConstraintAt(i))
        ensures Satisfies(table, t, b.ConstraintAt(i))
      {
        var arguments := ArgumentsWith(table, a, i, t);
        assert InDomain(table, b, arguments);
      }
    }
  }

  /** A member is more specific exactly when it accepts some, but not all, of the arguments of the other. */
  lemma MoreSpecificExactlyWhen(table: TypeTable, a: Generic, b: Generic)
    requires Rich(table) && a.Aligned() && b.Aligned()
    ensures MoreSpecific(a, b) <==> SameEquality(a, b) && DomainInside(table, a, b) && !DomainInside(table, b, a)
  {
    hide Satisfies, Rich, DomainInside, Inside, StrictlyNarrower;
    if |a.typeParameters| == |b.typeParameters| {
      DomainsByConstraint(table, a, b);
      DomainsByConstraint(table, b, a);
      forall i | 0 <= i < |a.typeParameters|
        ensures var c, d := a.ConstraintAt(i), b.ConstraintAt(i);
                && (StrictlyNarrower(c, d) <==> !d.Equatable? && Inside(table, c, d) && !Inside(table, d, c))
                && (c == d <==> Inside(table, c, d) && Inside(table, d, c))
      {
        NarrowerExactlyWhen(table, a.ConstraintAt(i), b.ConstraintAt(i));
        NarrowerIsInside(table, a.ConstraintAt(i), a.ConstraintAt(i));
      }
    }
  }

  /** The domains of two members are called disjoint exactly when no type arguments satisfy both. */
  lemma DisjointDomainsExactlyWhen(table: TypeTable, a: Generic, b: Generic)
    requires Rich(table) && a.Aligned() && b.Aligned() && |a.typeParameters| == |b.typeParameters|
    ensures DisjointDomains(a, b) <==> !ShareArguments(table, a, b)
  {
    hide Satisfies, Rich;
    var n := |a.typeParameters|;
    if DisjointDomains(a, b) {
      forall arguments
        ensures !(InDomain(table, a, arguments) && InDomain(table, b, arguments))
      {
        DisjointDomainsShareNothing(table, a, b, arguments);
      }
    } else {
      forall i | 0 <= i < n
        ensures Overlapping(table, a.ConstraintAt(i), b.ConstraintAt(i))
      {
        DisjointExactlyWhen(table, a.ConstraintAt(i), b.ConstraintAt(i));
      }
      var common := seq(n, i requires 0 <= i < n => Common(table, a.ConstraintAt(i), b.ConstraintAt(i)));
      assert InDomain(table, a, common) && InDomain(table, b, common);
    }
  }

  // ---- family validation ----

  ghost predicate Comparable(a: Generic, b: Generic)
    requires a.Aligned() && b.Aligned()
  {
    MoreSpecific(a, b) || MoreSpecific(b, a) || DisjointDomains(a, b)
  }

  /** One domain is properly part of the other, equality demands aside, or they share no arguments. */
  ghost predicate ComparableDomains(table: TypeTable, a: Generic, b: Generic)
    requires a.Aligned() && b.Aligned()
  {
    && |a.typeParameters| == |b.typeParameters|
    && (|| (SameEquality(a, b) && DomainInside(table, a, b) && !DomainInside(table, b, a))
        || (SameEquality(b, a) && DomainInside(table, b, a) && !DomainInside(table, a, b))
        || !ShareArguments(table, a, b))
  }

  lemma ComparableExactlyWhen(table: TypeTable, a: Generic, b: Generic)
    requires Rich(table) && a.Aligned() && b.Aligned()
    ensures Comparable(a, b) <==> ComparableDomains(table, a, b)
  {
    hide Rich, DomainInside, ShareArguments;
    if |a.typeParameters| == |b.typeParameters| {
      MoreSpecificExactlyWhen(table, a, b);
      MoreSpecificExactlyWhen(table, b, a);
      DisjointDomainsExactlyWhen(table, a, b);
    }
  }

  ghost predicate AllAligned(family: seq<Generic>) {
    forall i :: 0 <= i < |family| ==> family[i].Aligned()
  }

  /** The first incomparable pair, the earlier member counting first. */
  ghost predicate FirstIncomparable(generics: seq<Generic>, i: nat, j: nat)
    requires AllAligned(generics)
  {
    && i < j < |generics| && !Comparable(generics[i], generics[j])
    && forall k, l :: 0 <= k < l < |generics| && (k < i || (k == i && l < j)) ==> Comparable(generics[k], generics[l])
  }

  /** The pairwise check over the generic members: the later member of the first ambiguous pair, if any. */
  method FindAmbiguity(generics: seq<Generic>, ghost table: TypeTable) returns (ambiguous: Option<nat>)
    requires AllAligned(generics)
    ensures ambiguous.None?
            <==> forall i, j :: 0 <= i < j < |generics| ==> Comparable(generics[i], generics[j])
    ensures ambiguous.Some? ==> exists i: nat :: FirstIncomparable(generics, i, ambiguous.value)
    ensures Rich(table) ==>
              (ambiguous.None?
               <==> forall i, j :: 0 <= i < j < |generics| ==> ComparableDomains(table, generics[i], generics[j]))
    ensures Rich(table) && ambiguous.Some? ==>
              exists i :: 0 <= i < ambiguous.value < |generics|
                          && !ComparableDomains(table, generics[i], generics[ambiguous.value])
  {
    hide MoreSpecific, DisjointDomains, ComparableDomains, Rich;
    if Rich(table) {
      forall i, j | 0 <= i < j < |generics|
        ensures Comparable(generics[i], generics[j]) <==> ComparableDomains(table, generics[i], generics[j])
      {
        ComparableExactlyWhen(table, generics[i], generics[j]);
      }
    }
    var i := 0;
    while i < |generics|
      invariant 0 <= i <= |generics|
      invariant forall k, l :: 0 <= k < i && k < l < |generics| ==> Comparable(generics[k], generics[l])
    {
      var j := i + 1;
      while j < |generics|
        invariant i < j <= |generics|
        invariant forall l :: i < l < j ==> Comparable(generics[i], generics[l])
      {
        if !(MoreSpecific(generics[i], generics[j]) || MoreSpecific(generics[j], generics[i])
             || DisjointDomains(generics[i], generics[j])) {
          assert FirstIncomparable(generics, i, j);
          return Some(j);
        }
        j := j + 1;
      }
      i := i + 1;
    }
    ambiguous := None;
  }

  // ---- choosing a member ----

  ghost predicate Dominates(candidates: seq<Generic>, i: nat)
    requires AllAligned(candidates) && i < |candidates|
  {
    forall j :: 0 <= j < |candidates| && j != i ==> MoreSpecific(candidates[i], candidates[j])
  }

  /** The first candidate more specific than all others; None is the ambiguity error. */
  method MostSpecific(candidates: seq<Generic>) returns (chosen: Option<nat>)
    requires AllAligned(candidates) && candidates != []
    ensures chosen.Some? ==> chosen.value < |candidates| && Dominates(candidates, chosen.value)
    ensures chosen.None? ==> forall i: nat :: i < |candidates| ==> !Dominates(candidates, i)
  {
    if |candidates| == 1 { return Some(0); }
    var i := 0;
    while i < |candidates|
      invariant 0 <= i <= |candidates|
      invariant forall k: nat :: k < i ==> !Dominates(candidates, k)
    {
      var dominates := true;
      var j := 0;
      while j < |candidates| && dominates
        invariant 0 <= j <= |candidates|
        invariant dominates ==> forall l :: 0 <= l < j && l != i ==> MoreSpecific(candidates[i], candidates[l])
        invariant !dominates ==> !Dominates(candidates, i)
      {
        if j != i && !MoreSpecific(candidates[i], candidates[j]) { dominates := false; }
        j := j + 1;
      }
      if dominates { return Some(i); }
      i := i + 1;
    }
    chosen := None;
  }

  /** Pairwise ordered candidates have a most specific one. */
  lemma {:induction false} TotalOrderHasMinimum(candidates: seq<Generic>) returns (i: nat)
    requires AllAligned(candidates) && candidates != []
    requires forall k, l :: 0 <= k < l < |candidates| ==>
               MoreSpecific(candidates[k], candidates[l]) || MoreSpecific(candidates[l], candidates[k])
    ensures i < |candidates| && Dominates(candidates, i)
    decreases |candidates|
  {
    hide MoreSpecific;
    var n := |candidates| - 1;
    if n == 0 {
      i := 0;
    } else {
      var init := candidates[..n];
      i := TotalOrderHasMinimum(init);
      assert forall j :: 0 <= j < n && j != i ==> MoreSpecific(init[i], init[j]);
      if MoreSpecific(candidates[n], candidates[i]) {
        forall j | 0 <= j < n && j != i
          ensures MoreSpecific(candidates[n], candidates[j])
        {
          MoreSpecificIsTransitive(candidates[n], candidates[i], candidates[j]);
        }
        i := n;
      }
    }
  }

  lemma OnlyOneDominates(candidates: seq<Generic>, i: nat, j: nat)
    requires AllAligned(candidates) && i < |candidates| && j < |candidates|
    requires Dominates(candidates, i) && Dominates(candidates, j)
    ensures i == j
  {
    if i != j { MoreSpecificIsAsymmetric(candidates[i], candidates[j]); }
  }

  // ---- a call of an accepted family ----

  /** One call: the statically known types of its arguments, by parameter position. */
  type Call = seq<Option<TypeName>>

  function InferCall(scope: Scope, patterns: seq<TypeName>, call: Call, parameters: set<string>, inferred: Substitution)
    : Option<Substitution>
    requires |patterns| == |call|
    decreases |patterns|
  {
    if patterns == [] then Some(inferred)
    else if call[0].None? then InferCall(scope, patterns[1..], call[1..], parameters, inferred)
    else
      match Infer(scope, patterns[0], call[0].value, parameters, inferred)
      case None => None
      case Some(more) => InferCall(scope, patterns[1..], call[1..], parameters, more)
  }

  /** The member's type arguments for a call, or None when some stay undetermined or a type does not match. */
  function InferredArguments(scope: Scope, g: Generic, call: Call): Option<seq<TypeName>>
    requires |g.parameters| == |call|
    ensures var r := InferredArguments(scope, g, call); r.Some? ==> |r.value| == |g.typeParameters|
  {
    match InferCall(scope, g.parameters, call, Names(g.typeParameters), map[])
    case None => None
    case Some(s) =>
      if forall i :: 0 <= i < |g.typeParameters| ==> g.typeParameters[i] in s then
        Some(seq(|g.typeParameters|, i requires 0 <= i < |g.typeParameters| && g.typeParameters[i] in s =>
          s[g.typeParameters[i]]))
      else None
  }

  predicate MatchesCall(scope: Scope, table: TypeTable, g: Generic, call: Call)
    requires g.Aligned() && |g.parameters| == |call|
    ensures MatchesCall(scope, table, g, call)
            <==> var found := InferredArguments(scope, g, call);
                 found.Some? && forall i :: 0 <= i < |g.typeParameters| ==> Satisfies(table, found.value[i], g.ConstraintAt(i))
  {
    var arguments := InferredArguments(scope, g, call);
    arguments.Some? && InDomain(table, g, arguments.value)
  }

  /** Under the bindings every argument whose type is known fits its parameter. */
  ghost predicate CallMatches(scope: Scope, patterns: seq<TypeName>, call: Call, parameters: set<string>, s: Substitution) {
    && |patterns| == |call|
    && forall i :: 0 <= i < |call| && call[i].Some? ==> Matches(scope, patterns[i], call[i].value, parameters, s)
  }

  /** The type parameters that the known argument types determine. */
  ghost function Determined(patterns: seq<TypeName>, call: Call, parameters: set<string>): set<string>
    requires |patterns| == |call|
  {
    if patterns == [] then {}
    else (if call[0].None? then {} else ParametersOf(patterns[0], parameters))
         + Determined(patterns[1..], call[1..], parameters)
  }

  lemma {:induction false} InferCallExtends(scope: Scope, patterns: seq<TypeName>, call: Call,
                                            parameters: set<string>, inferred: Substitution)
    requires |patterns| == |call| && InferCall(scope, patterns, call, parameters, inferred).Some?
    ensures Within(inferred, InferCall(scope, patterns, call, parameters, inferred).value)
    decreases patterns
  {
    hide Infer;
    if patterns != [] {
      if call[0].None? {
        InferCallExtends(scope, patterns[1..], call[1..], parameters, inferred);
      } else {
        InferExtends(scope, patterns[0], call[0].value, parameters, inferred);
        var more := Infer(scope, patterns[0], call[0].value, parameters, inferred).value;
        InferCallExtends(scope, patterns[1..], call[1..], parameters, more);
      }
    }
  }

  lemma {:induction false} InferCallMatches(scope: Scope, patterns: seq<TypeName>, call: Call,
                                            parameters: set<string>, inferred: Substitution, s: Substitution)
    requires |patterns| == |call| && InferCall(scope, patterns, call, parameters, inferred).Some?
    requires Agrees(scope, InferCall(scope, patterns, call, parameters, inferred).value, s)
    ensures CallMatches(scope, patterns, call, parameters, s)
    decreases patterns
  {
    hide Infer, Matches, SameType;
    if patterns != [] {
      if call[0].None? {
        InferCallMatches(scope, patterns[1..], call[1..], parameters, inferred, s);
      } else {
        var more := Infer(scope, patterns[0], call[0].value, parameters, inferred).value;
        InferCallExtends(scope, patterns[1..], call[1..], parameters, more);
        InferMatches(scope, patterns[0], call[0].value, parameters, inferred, s);
        InferCallMatches(scope, patterns[1..], call[1..], parameters, more, s);
      }
      forall i | 0 < i < |call| && call[i].Some?
        ensures Matches(scope, patterns[i], call[i].value, parameters, s)
      {
        assert call[1..][i - 1] == call[i] && patterns[1..][i - 1] == patterns[i];
      }
    }
  }

  lemma {:induction false} CallMatchInfers(scope: Scope, patterns: seq<TypeName>, call: Call,
                                           parameters: set<string>, inferred: Substitution, s: Substitution)
    requires CallMatches(scope, patterns, call, parameters, s) && Agrees(scope, inferred, s)
    ensures var found := InferCall(scope, patterns, call, parameters, inferred);
            && found.Some? && Agrees(scope, found.value, s)
            && found.value.Keys == inferred.Keys + Determined(patterns, call, parameters)
    decreases patterns
  {
    hide Infer, Matches, SameType, ParametersOf;
    if patterns != [] {
      if call[0].None? {
        CallMatchInfers(scope, patterns[1..], call[1..], parameters, inferred, s);
      } else {
        MatchInfers(scope, patterns[0], call[0].value, parameters, inferred, s);
        var more := Infer(scope, patterns[0], call[0].value, parameters, inferred).value;
        CallMatchInfers(scope, patterns[1..], call[1..], parameters, more, s);
      }
    }
  }

  /**
   A call infers type arguments exactly when its known argument types determine every type
   parameter and fit the parameters under some bindings. The inferred arguments are such
   bindings, and all others bind the same types.
  */
  lemma InferredExactlyWhen(scope: Scope, g: Generic, call: Call)
    requires |g.parameters| == |call|
    ensures InferredArguments(scope, g, call).Some?
            <==> (forall p :: p in g.typeParameters ==> p in Determined(g.parameters, call, Names(g.typeParameters)))
                 && exists s :: CallMatches(scope, g.parameters, call, Names(g.typeParameters), s)
    ensures var found := InferredArguments(scope, g, call);
            found.Some? ==>
              && |found.value| == |g.typeParameters|
              && (exists s :: CallMatches(scope, g.parameters, call, Names(g.typeParameters), s)
                              && Binds(s, g.typeParameters, found.value))
              && forall s :: CallMatches(scope, g.parameters, call, Names(g.typeParameters), s) ==>
                   forall i :: 0 <= i < |found.value| ==>
                     g.typeParameters[i] in s && SameType(scope, found.value[i], s[g.typeParameters[i]])
  {
    hide InferCall, Matches, SameType, CallMatches, Determined;
    var parameters := Names(g.typeParameters);
    var bindings := InferCall(scope, g.parameters, call, parameters, map[]);
    if bindings.Some? {
      forall k | k in bindings.value
        ensures SameType(scope, bindings.value[k], bindings.value[k])
      {
        SameAsItself(scope, bindings.value[k]);
      }
      InferCallMatches(scope, g.parameters, call, parameters, map[], bindings.value);
    }
    forall s | CallMatches(scope, g.parameters, call, parameters, s)
      ensures bindings.Some? && Agrees(scope, bindings.value, s)
      ensures bindings.value.Keys == Determined(g.parameters, call, parameters)
    {
      CallMatchInfers(scope, g.parameters, call, parameters, map[], s);
    }
  }

  ghost predicate Binds(s: Substitution, names: seq<string>, types: seq<TypeName>) {
    |names| == |types| && forall i :: 0 <= i < |names| ==> names[i] in s && s[names[i]] == types[i]
  }

  /** What declaration checking guarantees of one member. */
  ghost predicate Declared(g: Generic) {
    && g.Aligned() && Unique(g.typeParameters) && "func" !in g.typeParameters && "tensor" !in g.typeParameters
    && PlainAll(g.parameters)
  }

  /** What family validation guarantees of the generic members: one call shape, and no ambiguous pair. */
  ghost predicate AcceptedFamily(scope: Scope, family: seq<Generic>) {
    && (forall i :: 0 <= i < |family| ==> Declared(family[i]))
    && (forall i, j :: 0 <= i < |family| && 0 <= j < |family| ==> SameCallShape(scope, family[i], family[j]))
    && (forall i, j :: 0 <= i < j < |family| ==> Comparable(family[i], family[j]))
  }

  ghost predicate SameCallShape(scope: Scope, g: Generic, h: Generic) {
    && |g.typeParameters| == |h.typeParameters| && |g.parameters| == |h.parameters|
    && CanonicalAll(scope, RenamedAll(g.parameters, g.typeParameters))
       == CanonicalAll(scope, RenamedAll(h.parameters, h.typeParameters))
  }

  lemma {:induction false} SameShapeInfersAlikeForCall(scope: Scope, p: seq<TypeName>, ps: seq<string>, s: Substitution,
                                                       q: seq<TypeName>, qs: seq<string>, t: Substitution, call: Call)
    requires PlainScope(scope) && PlainAll(p) && PlainAll(q) && Unique(ps) && Unique(qs)
    requires "func" !in ps && "func" !in qs && "tensor" !in ps && "tensor" !in qs
    requires CanonicalAll(scope, RenamedAll(p, ps)) == CanonicalAll(scope, RenamedAll(q, qs))
    requires Parallel(ps, s, qs, t) && |p| == |q| == |call|
    ensures BothFailOrParallel(ps, InferCall(scope, p, call, Names(ps), s), qs, InferCall(scope, q, call, Names(qs), t))
    decreases |p|
  {
    if p != [] {
      hide Renamed, Canonical, Infer;
      var r, u := RenamedAll(p, ps), RenamedAll(q, qs);
      assert r[0] == Renamed(p[0], ps) && u[0] == Renamed(q[0], qs);
      assert r[1..] == RenamedAll(p[1..], ps) && u[1..] == RenamedAll(q[1..], qs);
      var cr, cu := CanonicalAll(scope, r), CanonicalAll(scope, u);
      assert cr[0] == Canonical(scope, r[0]) && cu[0] == Canonical(scope, u[0]);
      assert cr[1..] == CanonicalAll(scope, r[1..]) && cu[1..] == CanonicalAll(scope, u[1..]);
      if call[0].None? {
        SameShapeInfersAlikeForCall(scope, p[1..], ps, s, q[1..], qs, t, call[1..]);
      } else {
        SameShapeInfersAlike(scope, p[0], ps, s, q[0], qs, t, call[0].value);
        var more, also := Infer(scope, p[0], call[0].value, Names(ps), s), Infer(scope, q[0], call[0].value, Names(qs), t);
        if more.Some? {
          SameShapeInfersAlikeForCall(scope, p[1..], ps, more.value, q[1..], qs, also.value, call[1..]);
        }
      }
    }
  }

  /** Members of one shape infer the same type arguments from a call. */
  lemma SameShapeSameArguments(scope: Scope, g: Generic, h: Generic, call: Call)
    requires PlainScope(scope) && Declared(g) && Declared(h) && SameCallShape(scope, g, h)
    requires |g.parameters| == |call|
    ensures InferredArguments(scope, g, call) == InferredArguments(scope, h, call)
  {
    hide RenamedAll, CanonicalAll, InferCall, PlainAll;
    SameShapeInfersAlikeForCall(scope, g.parameters, g.typeParameters, map[], h.parameters, h.typeParameters, map[], call);
    var s := InferCall(scope, g.parameters, call, Names(g.typeParameters), map[]);
    var a, b := InferredArguments(scope, g, call), InferredArguments(scope, h, call);
    if a.Some? && b.Some? { assert a.value == b.value; }
  }

  /** Two members of an accepted family that match one call are ordered. */
  lemma MatchingMembersAreOrdered(scope: Scope, table: TypeTable, family: seq<Generic>, call: Call, i: nat, j: nat)
    requires PlainScope(scope) && AcceptedFamily(scope, family) && i < j < |family|
    requires |family[i].parameters| == |call| == |family[j].parameters|
    requires MatchesCall(scope, table, family[i], call) && MatchesCall(scope, table, family[j], call)
    ensures MoreSpecific(family[i], family[j]) || MoreSpecific(family[j], family[i])
  {
    SameShapeSameArguments(scope, family[i], family[j], call);
    var arguments := InferredArguments(scope, family[i], call).value;
    if DisjointDomains(family[i], family[j]) {
      DisjointDomainsShareNothing(table, family[i], family[j], arguments);
    }
    assert Comparable(family[i], family[j]);
  }

  /** The members that match a call, in declaration order. */
  function Matching(scope: Scope, table: TypeTable, family: seq<Generic>, call: Call): (indices: seq<nat>)
    requires forall i :: 0 <= i < |family| ==> family[i].Aligned() && |family[i].parameters| == |call|
    ensures forall k :: 0 <= k < |indices| ==>
              indices[k] < |family| && MatchesCall(scope, table, family[indices[k]], call)
    ensures forall k, l :: 0 <= k < l < |indices| ==> indices[k] < indices[l]
    ensures forall i :: 0 <= i < |family| && MatchesCall(scope, table, family[i], call) ==> i in indices
    decreases |family|
  {
    hide MatchesCall;
    if family == [] then []
    else
      var n := |family| - 1;
      var before := Matching(scope, table, family[..n], call);
      if MatchesCall(scope, table, family[n], call) then before + [n] else before
  }

  /**
   The end of resolution: whenever an accepted family has a matching member, exactly one is
   chosen, never an ambiguity, and its domain is contained in that of every other match.
  */
  method ResolveCall(scope: Scope, table: TypeTable, family: seq<Generic>, call: Call) returns (chosen: Option<nat>)
    requires PlainScope(scope) && AcceptedFamily(scope, family)
    requires forall i :: 0 <= i < |family| ==> |family[i].parameters| == |call|
    ensures chosen.None? <==> forall i :: 0 <= i < |family| ==> !MatchesCall(scope, table, family[i], call)
    ensures chosen.Some? ==> chosen.value < |family| && MatchesCall(scope, table, family[chosen.value], call)
    ensures chosen.Some? ==>
              forall i :: 0 <= i < |family| && i != chosen.value && MatchesCall(scope, table, family[i], call)
                ==> MoreSpecific(family[chosen.value], family[i])
  {
    hide MatchesCall, MoreSpecific, SameCallShape;
    var indices := Matching(scope, table, family, call);
    if indices == [] {
      assert forall i :: 0 <= i < |family| && MatchesCall(scope, table, family[i], call) ==> i in indices;
      return None;
    }
    var candidates := seq(|indices|, k requires 0 <= k < |indices| => family[indices[k]]);
    forall k, l | 0 <= k < l < |candidates|
      ensures MoreSpecific(candidates[k], candidates[l]) || MoreSpecific(candidates[l], candidates[k])
    {
      MatchingMembersAreOrdered(scope, table, family, call, indices[k], indices[l]);
    }
    var best := MostSpecific(candidates);
    ghost var minimum := TotalOrderHasMinimum(candidates);
    chosen := Some(indices[best.value]);
    forall i | 0 <= i < |family| && i != chosen.value && MatchesCall(scope, table, family[i], call)
      ensures MoreSpecific(family[chosen.value], family[i])
    {
      var k :| 0 <= k < |indices| && indices[k] == i;
      assert MoreSpecific(candidates[best.value], candidates[k]);
    }
  }
}
