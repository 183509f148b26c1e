/**
 The call shape of a generic function: its parameter types with each type parameter replaced
 by a placeholder for its position. Functions of one shape infer the same type arguments.
*/
module CallShapes {
  import opened Decimals
  import opened Options
  import opened TypePatterns

  // ---- placeholders ----

  function Placeholder(i: nat): string {
    "$" + Spell(i)
  }

  lemma PlaceholderIsInjective(i: nat, j: nat)
    requires Placeholder(i) == Placeholder(j)
    ensures i == j
  {
    assert Placeholder(i)[1..] == Spell(i) && Placeholder(j)[1..] == Spell(j);
  }

  ghost predicate IsPlaceholder(name: string) {
    exists i: nat :: name == Placeholder(i)
  }

  // ---- renaming to placeholders ----

  /** The first position of a name, or the length. */
  function IndexOf(names: seq<string>, name: string): (i: nat)
    ensures i <= |names|
    ensures i < |names| ==> names[i] == name
    ensures i == |names| <==> name !in names
  {
    if names == [] then 0 else if names[0] == name then 0 else 1 + IndexOf(names[1..], name)
  }

  function Renamed(t: TypeName, parameters: seq<string>): TypeName
    decreases t
  {
    var i := IndexOf(parameters, t.name);
    t.(name := if i < |parameters| && t.arguments == [] then Placeholder(i) else t.name,
       arguments := RenamedAll(t.arguments, parameters),
       functionParameters := RenamedAll(t.functionParameters, parameters))
  }

  function RenamedAll(ts: seq<TypeName>, parameters: seq<string>): (r: seq<TypeName>)
    ensures |r| == |ts|
    decreases ts
  {
    if ts == [] then [] else [Renamed(ts[0], parameters)] + RenamedAll(ts[1..], parameters)
  }

  function Shape(scope: Scope, t: TypeName, parameters: seq<string>): TypeName {
    Canonical(scope, Renamed(t, parameters))
  }

  // ---- well-formed declarations ----

  /** Aliases concern built-in scalar names: no function or tensor type, and no placeholder. */
  ghost predicate PlainScope(scope: Scope) {
    && (forall name :: name in scope.aliases ==>
          name != "func" && name != "tensor" && !IsPlaceholder(name)
          && scope.aliases[name] != "func" && scope.aliases[name] != "tensor" && !IsPlaceholder(scope.aliases[name]))
  }

  /** A written pattern: no placeholder names, parameter types only on functions. */
  ghost predicate Plain(t: TypeName)
    decreases t
  {
    && !IsPlaceholder(t.name)
    && (t.name != "func" ==> t.functionParameters == [])
    && PlainAll(t.arguments) && PlainAll(t.functionParameters)
  }

  ghost predicate PlainAll(ts: seq<TypeName>)
    decreases ts
  {
    ts != [] ==> Plain(ts[0]) && PlainAll(ts[1..])
  }

  ghost predicate Unique(names: seq<string>) {
    forall i, j :: 0 <= i < j < |names| ==> names[i] != names[j]
  }

  function Names(names: seq<string>): set<string> {
    set name | name in names
  }

  /** Bindings of two parameter lists that agree position by position. */
  ghost predicate Parallel(ps: seq<string>, s: Substitution, qs: seq<string>, t: Substitution) {
    && |ps| == |qs|
    && forall i :: 0 <= i < |ps| ==> (ps[i] in s <==> qs[i] in t) && (ps[i] in s ==> s[ps[i]] == t[qs[i]])
  }

  ghost predicate BothFailOrParallel(ps: seq<string>, s: Option<Substitution>, qs: seq<string>, t: Option<Substitution>) {
    (s.Some? <==> t.Some?) && (s.Some? ==> Parallel(ps, s.value, qs, t.value))
  }

  // ---- what a shape forgets ----

  /** The pattern with its type parameters renamed, position by position. */
  ghost function WithNames(t: TypeName, ps: seq<string>, qs: seq<string>): TypeName
    requires |ps| == |qs|
    decreases t
  {
    t.(name := if t.name in ps && t.arguments == [] then qs[IndexOf(ps, t.name)] else t.name,
       arguments := AllWithNames(t.arguments, ps, qs),
       functionParameters := AllWithNames(t.functionParameters, ps, qs))
  }

  ghost function AllWithNames(ts: seq<TypeName>, ps: seq<string>, qs: seq<string>): (r: seq<TypeName>)
    requires |ps| == |qs|
    ensures |r| == |ts|
    decreases ts
  {
    if ts == [] then [] else [WithNames(ts[0], ps, qs)] + AllWithNames(ts[1..], ps, qs)
  }

  /** No other name of the pattern is one of the new parameter names. */
  ghost predicate Avoids(t: TypeName, ps: seq<string>, qs: seq<string>)
    decreases t
  {
    && (t.arguments == [] && t.name in qs ==> t.name in ps)
    && AllAvoid(t.arguments, ps, qs) && AllAvoid(t.functionParameters, ps, qs)
  }

  ghost predicate AllAvoid(ts: seq<TypeName>, ps: seq<string>, qs: seq<string>)
    decreases ts
  {
    ts != [] ==> Avoids(ts[0], ps, qs) && AllAvoid(ts[1..], ps, qs)
  }

  lemma IndexOfOwn(names: seq<string>, i: nat)
    requires Unique(names) && i < |names|
    ensures IndexOf(names, names[i]) == i
  {
  }

  /** Two patterns rename to the same placeholders exactly when one is the other with its parameters renamed. */
  lemma {:induction false} SameRenamingExactlyWhen(t: TypeName, ps: seq<string>, u: TypeName, qs: seq<string>)
    requires Plain(t) && Plain(u) && Unique(qs) && |ps| == |qs|
    ensures Renamed(t, ps) == Renamed(u, qs) <==> Avoids(t, ps, qs) && u == WithNames(t, ps, qs)
    decreases t
  {
    hide PlainAll;
    var r, v, w := Renamed(t, ps), Renamed(u, qs), WithNames(t, ps, qs);
    SameNamesExactlyWhen(t.name, ps, u.name, qs);
    PlainParts(t);
    PlainParts(u);
    SameRenamingsExactlyWhen(t.arguments, ps, u.arguments, qs);
    SameRenamingsExactlyWhen(t.functionParameters, ps, u.functionParameters, qs);
    hide RenamedAll, AllWithNames, AllAvoid, Placeholder, IndexOf, Plain;
    assert |r.arguments| == |t.arguments| == |w.arguments| && |v.arguments| == |u.arguments|;
  }

  lemma PlainParts(t: TypeName)
    requires Plain(t)
    ensures PlainAll(t.arguments) && PlainAll(t.functionParameters)
  {
  }

  ghost function PlaceholderOr(names: seq<string>, name: string): string {
    if name in names then Placeholder(IndexOf(names, name)) else name
  }

  lemma SameNamesExactlyWhen(x: string, ps: seq<string>, y: string, qs: seq<string>)
    requires !IsPlaceholder(x) && !IsPlaceholder(y) && Unique(qs) && |ps| == |qs|
    ensures PlaceholderOr(ps, x) == PlaceholderOr(qs, y)
            <==> y == (if x in ps then qs[IndexOf(ps, x)] else x) && (x in qs ==> x in ps)
  {
    hide IndexOf, Placeholder;
    var i, j := IndexOf(ps, x), IndexOf(qs, y);
    assert IsPlaceholder(Placeholder(i)) && IsPlaceholder(Placeholder(j));
    if x in ps {
      IndexOfOwn(qs, i);
      if y in qs && Placeholder(i) == Placeholder(j) { PlaceholderIsInjective(i, j); }
    }
  }

  lemma {:induction false} SameRenamingsExactlyWhen(ts: seq<TypeName>, ps: seq<string>, us: seq<TypeName>, qs: seq<string>)
    requires PlainAll(ts) && PlainAll(us) && Unique(qs) && |ps| == |qs|
    ensures RenamedAll(ts, ps) == RenamedAll(us, qs) <==> AllAvoid(ts, ps, qs) && us == AllWithNames(ts, ps, qs)
    decreases ts
  {
    var r, v, w := RenamedAll(ts, ps), RenamedAll(us, qs), AllWithNames(ts, ps, qs);
    assert |r| == |ts| == |w| && |v| == |us|;
    if ts != [] && us != [] {
      SameRenamingExactlyWhen(ts[0], ps, us[0], qs);
      SameRenamingsExactlyWhen(ts[1..], ps, us[1..], qs);
      hide Renamed, WithNames, Avoids;
      assert r == [r[0]] + r[1..] && v == [v[0]] + v[1..] && w == [w[0]] + w[1..] && us == [us[0]] + us[1..];
    }
  }

  // ---- one shape, one inference ----

  lemma SameShapeHeads(scope: Scope, p: TypeName, ps: seq<string>, q: TypeName, qs: seq<string>)
    requires PlainScope(scope) && Plain(p) && Plain(q)
    requires "func" !in ps && "func" !in qs && "tensor" !in ps && "tensor" !in qs
    requires Shape(scope, p, ps) == Shape(scope, q, qs)
    ensures |p.arguments| == |q.arguments|
    ensures WildAll(p.dimensions) == WildAll(q.dimensions) && WildAll(p.extents) == WildAll(q.extents)
    ensures IsParameter(p, Names(ps)) <==> IsParameter(q, Names(qs))
    ensures IsParameter(p, Names(ps)) ==> IndexOf(ps, p.name) == IndexOf(qs, q.name)
    ensures !IsParameter(p, Names(ps))
            ==> CanonicalName(scope, p.name) == CanonicalName(scope, q.name)
                && (p.name == "func" <==> q.name == "func") && (p.name == "tensor" <==> q.name == "tensor")
  {
    var r, t := Renamed(p, ps), Renamed(q, qs);
    assert |r.arguments| == |CanonicalAll(scope, r.arguments)| == |t.arguments|;
    assert CanonicalName(scope, r.name) == CanonicalName(scope, t.name);
    RenamedHead(scope, p, ps);
    RenamedHead(scope, q, qs);
    if IsParameter(p, Names(ps)) {
      PlaceholderIsInjective(IndexOf(ps, p.name), IndexOf(qs, q.name));
    }
  }

  /** After renaming, exactly the parameters are placeholders. */
  lemma RenamedHead(scope: Scope, p: TypeName, ps: seq<string>)
    requires PlainScope(scope) && Plain(p)
    ensures var name := CanonicalName(scope, Renamed(p, ps).name);
            && (IsPlaceholder(name) <==> IsParameter(p, Names(ps)))
            && (IsParameter(p, Names(ps)) ==> name == Placeholder(IndexOf(ps, p.name)))
  {
    var i := IndexOf(ps, p.name);
    assert IsPlaceholder(Placeholder(i));
  }

  lemma {:induction false} SameShapeInfersAlike(scope: Scope, p: TypeName, ps: seq<string>, s: Substitution,
                                                q: TypeName, qs: seq<string>, t: Substitution, actual: TypeName)
    requires PlainScope(scope) && Plain(p) && Plain(q) && Unique(ps) && Unique(qs)
    requires "func" !in ps && "func" !in qs && "tensor" !in ps && "tensor" !in qs
    requires Shape(scope, p, ps) == Shape(scope, q, qs) && Parallel(ps, s, qs, t)
    ensures BothFailOrParallel(ps, Infer(scope, p, actual, Names(ps), s), qs, Infer(scope, q, actual, Names(qs), t))
    decreases p
  {
    hide Canonical, CanonicalAll, Renamed, Shape, ShapeFits, ExtentsFit, Wild;
    SameShapeHeads(scope, p, ps, q, qs);
    SameFits(p.dimensions, q.dimensions, actual.dimensions);
    if IsParameter(p, Names(ps)) {
      SameParameterInfersAlike(scope, p, ps, s, q, qs, t, actual);
    } else {
      var seen := Origin(scope, p, actual);
      assert Origin(scope, q, actual) == seen && seen.dimensions == actual.dimensions;
      SameShapeFits(p, q, seen);
      ArgumentsAlike(scope, p, ps, q, qs);
      hide Origin;
      if |p.arguments| == |seen.arguments| {
        SameShapesInferAlike(scope, p.arguments, ps, s, q.arguments, qs, t, seen.arguments);
        var more, also := InferAll(scope, p.arguments, seen.arguments, Names(ps), s),
                          InferAll(scope, q.arguments, seen.arguments, Names(qs), t);
        if more.Some? && |p.functionParameters| == |seen.functionParameters| {
          SameShapesInferAlike(scope, p.functionParameters, ps, more.value,
                               q.functionParameters, qs, also.value, seen.functionParameters);
        }
      }
    }
  }

  lemma SameParameterInfersAlike(scope: Scope, p: TypeName, ps: seq<string>, s: Substitution,
                                 q: TypeName, qs: seq<string>, t: Substitution, actual: TypeName)
    requires Unique(ps) && Unique(qs) && IsParameter(p, Names(ps)) && IsParameter(q, Names(qs))
    requires IndexOf(ps, p.name) == IndexOf(qs, q.name) && Parallel(ps, s, qs, t)
    requires WildAll(p.dimensions) == WildAll(q.dimensions)
    ensures BothFailOrParallel(ps, Infer(scope, p, actual, Names(ps), s), qs, Infer(scope, q, actual, Names(qs), t))
  {
    hide Canonical, InferAll, ShapeFits, ExtentsFit, WildAll, Wild;
    SameFits(p.dimensions, q.dimensions, actual.dimensions);
    var i := IndexOf(ps, p.name);
    assert ps[i] in s <==> qs[i] in t;
    if |p.dimensions| <= |actual.dimensions| {
      ParallelAfterBinding(ps, s, qs, t, i, actual.(dimensions := actual.dimensions[|p.dimensions|..]));
    }
    hide Parallel;
  }

  lemma ParallelAfterBinding(ps: seq<string>, s: Substitution, qs: seq<string>, t: Substitution, i: nat, bound: TypeName)
    requires Unique(ps) && Unique(qs) && Parallel(ps, s, qs, t) && i < |ps|
    ensures Parallel(ps, s[ps[i] := bound], qs, t[qs[i] := bound])
  {
  }

  lemma ArgumentsAlike(scope: Scope, p: TypeName, ps: seq<string>, q: TypeName, qs: seq<string>)
    requires Plain(p) && Plain(q) && (p.name == "func" <==> q.name == "func")
    requires "func" !in ps && "func" !in qs && Shape(scope, p, ps) == Shape(scope, q, qs)
    requires !IsParameter(p, Names(ps)) && !IsParameter(q, Names(qs))
    ensures CanonicalAll(scope, RenamedAll(p.arguments, ps)) == CanonicalAll(scope, RenamedAll(q.arguments, qs))
    ensures |p.functionParameters| == |q.functionParameters|
    ensures CanonicalAll(scope, RenamedAll(p.functionParameters, ps)) == CanonicalAll(scope, RenamedAll(q.functionParameters, qs))
  {
    var r, u := Renamed(p, ps), Renamed(q, qs);
    if p.name == "func" {
      assert |r.functionParameters| == |CanonicalAll(scope, r.functionParameters)| == |u.functionParameters|;
    }
  }

  lemma SameFits(p: seq<int>, q: seq<int>, observed: seq<int>)
    requires WildAll(p) == WildAll(q)
    ensures |p| == |q| && (|p| <= |observed| ==> (ExtentsFit(p, observed) <==> ExtentsFit(q, observed)))
  {
    assert |p| == |WildAll(p)| == |q|;
    assert forall i :: 0 <= i < |p| ==> WildAll(p)[i] == WildAll(q)[i];
  }

  lemma SameShapeFits(p: TypeName, q: TypeName, actual: TypeName)
    requires WildAll(p.extents) == WildAll(q.extents) && (p.name == "tensor" <==> q.name == "tensor")
    ensures ShapeFits(p, actual) <==> ShapeFits(q, actual)
  {
    assert |p.extents| == |WildAll(p.extents)| == |q.extents|;
    assert forall i :: 0 <= i < |p.extents| ==> WildAll(p.extents)[i] == WildAll(q.extents)[i];
  }

  lemma {:induction false} SameShapesInferAlike(scope: Scope, p: seq<TypeName>, ps: seq<string>, s: Substitution,
                                                q: seq<TypeName>, qs: seq<string>, t: Substitution, actuals: seq<TypeName>)
    requires PlainScope(scope) && PlainAll(p) && PlainAll(q) && Unique(ps) && Unique(qs)
    requires "func" !in ps && "func" !in qs && "tensor" !in ps && "tensor" !in qs
    requires CanonicalAll(scope, RenamedAll(p, ps)) == CanonicalAll(scope, RenamedAll(q, qs))
    requires Parallel(ps, s, qs, t) && |p| == |q| == |actuals|
    ensures BothFailOrParallel(ps, InferAll(scope, p, actuals, Names(ps), s), qs, InferAll(scope, q, actuals, Names(qs), t))
    decreases p
  {
    if p != [] {
      var r, u := RenamedAll(p, ps), RenamedAll(q, qs);
      assert r[0] == Renamed(p[0], ps) && u[0] == Renamed(q[0], qs);
      assert r[1..] == RenamedAll(p[1..], ps) && u[1..] == RenamedAll(q[1..], qs);
      var cr, cu := CanonicalAll(scope, r), CanonicalAll(scope, u);
      assert cr[0] == Canonical(scope, r[0]) && cu[0] == Canonical(scope, u[0]);
      assert cr[1..] == CanonicalAll(scope, r[1..]) && cu[1..] == CanonicalAll(scope, u[1..]);
      SameShapeInfersAlike(scope, p[0], ps, s, q[0], qs, t, actuals[0]);
      var more, also := Infer(scope, p[0], actuals[0], Names(ps), s), Infer(scope, q[0], actuals[0], Names(qs), t);
      if more.Some? {
        SameShapesInferAlike(scope, p[1..], ps, more.value, q[1..], qs, also.value, actuals[1..]);
      }
    }
  }
}
