/**
 One-way matching of a generic parameter type against an actual type, against substitution
 of type arguments for parameters.
*/
module TypePatterns {
  import opened Options

  /**
   A type as written: dimensions are array extents, extents a tensor's shape, negative entries
   being wildcards; rank and known are what the compiler has learned about a tensor's shape.
  */
  datatype TypeName = TypeName(name: string, arguments: seq<TypeName>, functionParameters: seq<TypeName>,
                               dimensions: seq<int>, extents: seq<int>, rank: Option<int>, known: seq<Option<int>>)

  type Substitution = map<string, TypeName>

  /** Other spellings of type names, and the generic class each class instance was made from, with its arguments. */
  datatype Scope = Scope(aliases: map<string, string>, origins: map<string, TypeName>)

  function CanonicalName(scope: Scope, name: string): string {
    if name in scope.aliases then scope.aliases[name] else name
  }

  /** An instance's name is never another spelling of the class it was made from. */
  ghost predicate Mangled(scope: Scope) {
    forall n :: n in scope.origins ==> CanonicalName(scope, scope.origins[n].name) != CanonicalName(scope, n)
  }

  /** What a pattern is compared with: an instance of the pattern's own class as written, any other type as it is. */
  function Origin(scope: Scope, pattern: TypeName, actual: TypeName): TypeName {
    if actual.name in scope.origins
       && CanonicalName(scope, pattern.name) == CanonicalName(scope, scope.origins[actual.name].name)
    then scope.origins[actual.name].(dimensions := actual.dimensions)
    else actual
  }

  // ---- the canonical form ----

  function Wild(extent: int): int {
    if extent < 0 then -1 else extent
  }

  function WildAll(extents: seq<int>): (w: seq<int>)
    ensures |w| == |extents|
    ensures forall i :: 0 <= i < |w| ==> w[i] == Wild(extents[i])
  {
    seq(|extents|, i requires 0 <= i < |extents| => Wild(extents[i]))
  }

  /** What the canonical spelling of a type says; two types are the same type when these are equal. */
  function Canonical(scope: Scope, t: TypeName): TypeName
    decreases t
  {
    TypeName(CanonicalName(scope, t.name), CanonicalAll(scope, t.arguments),
             if t.name == "func" then CanonicalAll(scope, t.functionParameters) else [],
             WildAll(t.dimensions), WildAll(t.extents), None, [])
  }

  function CanonicalAll(scope: Scope, ts: seq<TypeName>): (r: seq<TypeName>)
    ensures |r| == |ts|
    decreases ts
  {
    if ts == [] then [] else [Canonical(scope, ts[0])] + CanonicalAll(scope, ts[1..])
  }

  // ---- substitution ----

  function Substitute(source: TypeName, s: Substitution): TypeName
    decreases source
  {
    if source.arguments == [] && source.name in s then
      var result := s[source.name];
      result.(dimensions := source.dimensions + result.dimensions)
    else
      source.(arguments := SubstituteAll(source.arguments, s),
              functionParameters := SubstituteAll(source.functionParameters, s))
  }

  function SubstituteAll(sources: seq<TypeName>, s: Substitution): (r: seq<TypeName>)
    ensures |r| == |sources|
    decreases sources
  {
    if sources == [] then [] else [Substitute(sources[0], s)] + SubstituteAll(sources[1..], s)
  }

  // ---- matching ----

  /** Fixed entries must agree, wildcards match anything. */
  predicate ExtentsFit(required: seq<int>, observed: seq<int>)
    requires |required| <= |observed|
  {
    forall i :: 0 <= i < |required| ==> required[i] < 0 || required[i] == observed[i]
  }

  /** What is known about one axis of a tensor: a refinement first, else a fixed written extent. */
  function KnownExtent(t: TypeName, axis: nat): Option<int> {
    if axis < |t.known| then t.known[axis]
    else if axis < |t.extents| && t.extents[axis] >= 0 then Some(t.extents[axis])
    else None
  }

  predicate ShapeFits(pattern: TypeName, actual: TypeName) {
    pattern.name == "tensor" && pattern.extents != [] ==>
      && (actual.rank.None? || actual.rank.value == |pattern.extents|)
      && forall axis :: 0 <= axis < |pattern.extents| && pattern.extents[axis] >= 0 ==>
           KnownExtent(actual, axis).None? || KnownExtent(actual, axis).value == pattern.extents[axis]
  }

  predicate IsParameter(pattern: TypeName, parameters: set<string>) {
    pattern.name in parameters && pattern.arguments == []
  }

  /** The bindings after matching one more pattern, or None on a mismatch. */
  function Infer(scope: Scope, pattern: TypeName, actual: TypeName, parameters: set<string>, inferred: Substitution)
    : Option<Substitution>
    decreases pattern
  {
    if IsParameter(pattern, parameters) then
      if |actual.dimensions| < |pattern.dimensions| then None
      else if !ExtentsFit(pattern.dimensions, actual.dimensions) then None
      else
        var candidate := actual.(dimensions := actual.dimensions[|pattern.dimensions|..]);
        if pattern.name in inferred then
          if Canonical(scope, inferred[pattern.name]) == Canonical(scope, candidate) then Some(inferred) else None
        else
          Some(inferred[pattern.name := candidate])
    else
      var seen := Origin(scope, pattern, actual);
      if
        || CanonicalName(scope, pattern.name) != CanonicalName(scope, seen.name)
        || |pattern.arguments| != |seen.arguments|
        || |pattern.functionParameters| != |seen.functionParameters|
        || |pattern.dimensions| != |seen.dimensions|
      then None
      else if !ShapeFits(pattern, seen) then None
      else if !ExtentsFit(pattern.dimensions, seen.dimensions) then None
      else
        match InferAll(scope, pattern.arguments, seen.arguments, parameters, inferred)
        case None => None
        case Some(more) => InferAll(scope, pattern.functionParameters, seen.functionParameters, parameters, more)
  }

  function InferAll(scope: Scope, patterns: seq<TypeName>, actuals: seq<TypeName>,
                    parameters: set<string>, inferred: Substitution): Option<Substitution>
    requires |patterns| == |actuals|
    decreases patterns
  {
    if patterns == [] then Some(inferred)
    else
      match Infer(scope, patterns[0], actuals[0], parameters, inferred)
      case None => None
      case Some(more) => InferAll(scope, patterns[1..], actuals[1..], parameters, more)
  }

  // ---- what a match means ----

  /** Entry by entry, a required extent is a wildcard or the one that is there. */
  ghost predicate EntriesFit(required: seq<int>, observed: seq<int>) {
    |required| <= |observed| && forall i :: 0 <= i < |required| ==> required[i] < 0 || required[i] == observed[i]
  }

  /** A tensor's written shape contradicts nothing known or written about the other one's. */
  ghost predicate ShapeCovered(expected: TypeName, actual: TypeName) {
    expected.name == "tensor" && expected.extents != [] ==>
      && (actual.rank == None || actual.rank == Some(|expected.extents|))
      && forall axis :: 0 <= axis < |expected.extents| && expected.extents[axis] >= 0 ==>
           if axis < |actual.known| then actual.known[axis] == None || actual.known[axis] == Some(expected.extents[axis])
           else axis < |actual.extents| ==> actual.extents[axis] < 0 || actual.extents[axis] == expected.extents[axis]
  }

  /** Two written shapes have the same fixed entries and the same wildcards. */
  ghost predicate SameEntries(x: seq<int>, y: seq<int>) {
    |x| == |y| && forall i :: 0 <= i < |x| ==> x[i] == y[i] || (x[i] < 0 && y[i] < 0)
  }

  /** A class instance made from the named generic class. */
  ghost predicate InstanceOf(scope: Scope, t: TypeName, name: string) {
    t.name in scope.origins && CanonicalName(scope, scope.origins[t.name].name) == CanonicalName(scope, name)
  }

  /** expected describes actual, or what it is an instance of, up to wildcard dimensions and extents. */
  ghost predicate Covers(scope: Scope, expected: TypeName, actual: TypeName)
    decreases expected
  {
    var seen := if InstanceOf(scope, actual, expected.name) then scope.origins[actual.name].(dimensions := actual.dimensions)
                else actual;
    && CanonicalName(scope, expected.name) == CanonicalName(scope, seen.name)
    && |expected.dimensions| == |seen.dimensions| && EntriesFit(expected.dimensions, seen.dimensions)
    && (ShapeCovered(expected, seen) || SameEntries(expected.extents, seen.extents))
    && CoversAll(scope, expected.arguments, seen.arguments)
    && (expected.name == "func" && seen.name == "func"
        ==> CoversAll(scope, expected.functionParameters, seen.functionParameters))
  }

  ghost predicate CoversAll(scope: Scope, expected: seq<TypeName>, actual: seq<TypeName>)
    decreases expected
  {
    && |expected| == |actual|
    && (expected != [] ==>
          Covers(scope, expected[0], actual[0]) && CoversAll(scope, expected[1..], actual[1..]))
  }

  /** The same type, however its scalars are spelled and its wildcards numbered. */
  ghost predicate SameType(scope: Scope, x: TypeName, y: TypeName)
    decreases x
  {
    && CanonicalName(scope, x.name) == CanonicalName(scope, y.name)
    && SameEntries(x.dimensions, y.dimensions) && SameEntries(x.extents, y.extents)
    && SameTypes(scope, x.arguments, y.arguments)
    && if x.name == "func" && y.name == "func" then SameTypes(scope, x.functionParameters, y.functionParameters)
       else (x.name == "func" ==> x.functionParameters == []) && (y.name == "func" ==> y.functionParameters == [])
  }

  ghost predicate SameTypes(scope: Scope, xs: seq<TypeName>, ys: seq<TypeName>)
    decreases xs
  {
    && |xs| == |ys|
    && (xs != [] ==> SameType(scope, xs[0], ys[0]) && SameTypes(scope, xs[1..], ys[1..]))
  }

  /** Canonical forms are equal exactly for the same type. */
  lemma {:induction false} SameTypeExactlyWhen(scope: Scope, x: TypeName, y: TypeName)
    ensures Canonical(scope, x) == Canonical(scope, y) <==> SameType(scope, x, y)
    decreases x
  {
    SameEntriesExactlyWhen(x.dimensions, y.dimensions);
    SameEntriesExactlyWhen(x.extents, y.extents);
    SameTypesExactlyWhen(scope, x.arguments, y.arguments);
    SameTypesExactlyWhen(scope, x.functionParameters, y.functionParameters);
    hide CanonicalAll, WildAll, SameEntries;
    NoTypes(scope, x.functionParameters);
    NoTypes(scope, y.functionParameters);
  }

  lemma NoTypes(scope: Scope, ts: seq<TypeName>)
    ensures CanonicalAll(scope, ts) == [] <==> ts == []
  {
    assert |CanonicalAll(scope, ts)| == |ts|;
  }

  lemma SameEntriesExactlyWhen(x: seq<int>, y: seq<int>)
    ensures WildAll(x) == WildAll(y) <==> SameEntries(x, y)
  {
    assert |WildAll(x)| == |x| && |WildAll(y)| == |y|;
    if WildAll(x) == WildAll(y) {
      assert forall i :: 0 <= i < |x| ==> WildAll(x)[i] == WildAll(y)[i];
    }
  }

  lemma {:induction false} SameTypesExactlyWhen(scope: Scope, xs: seq<TypeName>, ys: seq<TypeName>)
    ensures CanonicalAll(scope, xs) == CanonicalAll(scope, ys) <==> SameTypes(scope, xs, ys)
    decreases xs
  {
    var cx, cy := CanonicalAll(scope, xs), CanonicalAll(scope, ys);
    assert |cx| == |xs| && |cy| == |ys|;
    if xs != [] && ys != [] {
      SameTypeExactlyWhen(scope, xs[0], ys[0]);
      SameTypesExactlyWhen(scope, xs[1..], ys[1..]);
      hide Canonical;
      assert cx[0] == Canonical(scope, xs[0]) && cx[1..] == CanonicalAll(scope, xs[1..]);
      assert cy[0] == Canonical(scope, ys[0]) && cy[1..] == CanonicalAll(scope, ys[1..]);
      assert cx == [cx[0]] + cx[1..] && cy == [cy[0]] + cy[1..];
    }
  }

  /** The same type covers itself. */
  lemma {:induction false} SameTypeCovers(scope: Scope, x: TypeName, y: TypeName)
    requires Mangled(scope) && SameType(scope, x, y)
    ensures Covers(scope, x, y)
    decreases x
  {
    SameTypesCover(scope, x.arguments, y.arguments);
    if x.name == "func" && y.name == "func" {
      SameTypesCover(scope, x.functionParameters, y.functionParameters);
    }
  }

  lemma {:induction false} SameTypesCover(scope: Scope, xs: seq<TypeName>, ys: seq<TypeName>)
    requires Mangled(scope) && SameTypes(scope, xs, ys)
    ensures CoversAll(scope, xs, ys)
    decreases xs
  {
    if xs != [] {
      SameTypeCovers(scope, xs[0], ys[0]);
      SameTypesCover(scope, xs[1..], ys[1..]);
    }
  }

  // ---- matching under given bindings ----

  /** Under the bindings the pattern is the actual type, its own wildcards and unlearned extents filled in. */
  ghost predicate Matches(scope: Scope, pattern: TypeName, actual: TypeName, parameters: set<string>, s: Substitution)
    decreases pattern
  {
    if pattern.name in parameters && pattern.arguments == [] then
      && pattern.name in s && EntriesFit(pattern.dimensions, actual.dimensions)
      && SameType(scope, s[pattern.name], actual.(dimensions := actual.dimensions[|pattern.dimensions|..]))
    else
      var seen := if InstanceOf(scope, actual, pattern.name) then scope.origins[actual.name].(dimensions := actual.dimensions)
                  else actual;
      && CanonicalName(scope, pattern.name) == CanonicalName(scope, seen.name)
      && |pattern.dimensions| == |seen.dimensions| && EntriesFit(pattern.dimensions, seen.dimensions)
      && ShapeCovered(pattern, seen)
      && MatchesAll(scope, pattern.arguments, seen.arguments, parameters, s)
      && MatchesAll(scope, pattern.functionParameters, seen.functionParameters, parameters, s)
  }

  ghost predicate MatchesAll(scope: Scope, patterns: seq<TypeName>, actuals: seq<TypeName>,
                             parameters: set<string>, s: Substitution)
    decreases patterns
  {
    && |patterns| == |actuals|
    && (patterns != [] ==>
          && Matches(scope, patterns[0], actuals[0], parameters, s)
          && MatchesAll(scope, patterns[1..], actuals[1..], parameters, s))
  }

  /** What the first bindings bind, the second ones bind to the same types. */
  ghost predicate Agrees(scope: Scope, s: Substitution, t: Substitution) {
    forall k :: k in s ==> k in t && SameType(scope, s[k], t[k])
  }

  lemma FitExactlyWhen(required: seq<int>, observed: seq<int>)
    ensures EntriesFit(required, observed) <==> |required| <= |observed| && ExtentsFit(required, observed)
  {
  }

  lemma ShapeFitExactlyWhen(pattern: TypeName, actual: TypeName)
    ensures ShapeFits(pattern, actual) <==> ShapeCovered(pattern, actual)
  {
  }

  lemma SameAsItself(scope: Scope, x: TypeName)
    ensures SameType(scope, x, x)
  {
    SameTypeExactlyWhen(scope, x, x);
  }

  /** Types that are the same as one type are the same as each other. */
  lemma SameAsBoth(scope: Scope, x: TypeName, y: TypeName, z: TypeName)
    requires SameType(scope, x, y)
    ensures SameType(scope, x, z) <==> SameType(scope, y, z)
    ensures SameType(scope, y, x)
  {
    SameTypeExactlyWhen(scope, x, y);
    SameTypeExactlyWhen(scope, x, z);
    SameTypeExactlyWhen(scope, y, z);
    SameTypeExactlyWhen(scope, y, x);
  }

  /** Inference succeeds exactly when some bindings that agree with the earlier ones make the pattern match. */
  lemma InferExactlyWhen(scope: Scope, pattern: TypeName, actual: TypeName, parameters: set<string>, inferred: Substitution)
    ensures Infer(scope, pattern, actual, parameters, inferred).Some?
            <==> exists s :: Agrees(scope, inferred, s) && Matches(scope, pattern, actual, parameters, s)
  {
    hide Infer, SameType, Matches;
    var found := Infer(scope, pattern, actual, parameters, inferred);
    if found.Some? {
      InferExtends(scope, pattern, actual, parameters, inferred);
      forall k | k in found.value
        ensures SameType(scope, found.value[k], found.value[k])
      {
        SameAsItself(scope, found.value[k]);
      }
      InferMatches(scope, pattern, actual, parameters, inferred, found.value);
    }
    forall s | Agrees(scope, inferred, s) && Matches(scope, pattern, actual, parameters, s)
      ensures found.Some?
    {
      MatchInfers(scope, pattern, actual, parameters, inferred, s);
    }
  }

  /** The inferred bindings, and all that agree with them, make the pattern match. */
  lemma {:induction false} InferMatches(scope: Scope, pattern: TypeName, actual: TypeName, parameters: set<string>,
                                        inferred: Substitution, s: Substitution)
    requires Infer(scope, pattern, actual, parameters, inferred).Some?
    requires Agrees(scope, Infer(scope, pattern, actual, parameters, inferred).value, s)
    ensures Matches(scope, pattern, actual, parameters, s)
    decreases pattern
  {
    hide SameType, Canonical, ExtentsFit, EntriesFit, ShapeFits, ShapeCovered;
    var seen := Origin(scope, pattern, actual);
    FitExactlyWhen(pattern.dimensions, actual.dimensions);
    ShapeFitExactlyWhen(pattern, seen);
    if IsParameter(pattern, parameters) {
      var candidate := actual.(dimensions := actual.dimensions[|pattern.dimensions|..]);
      var found := Infer(scope, pattern, actual, parameters, inferred).value;
      SameTypeExactlyWhen(scope, found[pattern.name], candidate);
      SameAsBoth(scope, found[pattern.name], s[pattern.name], candidate);
    } else {
      assert seen.dimensions == actual.dimensions;
      var more := InferAll(scope, pattern.arguments, seen.arguments, parameters, inferred).value;
      InferAllExtends(scope, pattern.functionParameters, seen.functionParameters, parameters, more);
      InferAllMatches(scope, pattern.arguments, seen.arguments, parameters, inferred, s);
      InferAllMatches(scope, pattern.functionParameters, seen.functionParameters, parameters, more, s);
    }
  }

  lemma {:induction false} InferAllMatches(scope: Scope, patterns: seq<TypeName>, actuals: seq<TypeName>,
                                           parameters: set<string>, inferred: Substitution, s: Substitution)
    requires |patterns| == |actuals| && InferAll(scope, patterns, actuals, parameters, inferred).Some?
    requires Agrees(scope, InferAll(scope, patterns, actuals, parameters, inferred).value, s)
    ensures MatchesAll(scope, patterns, actuals, parameters, s)
    decreases patterns
  {
    if patterns != [] {
      var more := Infer(scope, patterns[0], actuals[0], parameters, inferred).value;
      InferAllExtends(scope, patterns[1..], actuals[1..], parameters, more);
      InferMatches(scope, patterns[0], actuals[0], parameters, inferred, s);
      InferAllMatches(scope, patterns[1..], actuals[1..], parameters, more, s);
    }
  }

  /** Bindings that make the pattern match are found, as far as the pattern determines them. */
  lemma {:induction false} MatchInfers(scope: Scope, pattern: TypeName, actual: TypeName, parameters: set<string>,
                                       inferred: Substitution, s: Substitution)
    requires Agrees(scope, inferred, s) && Matches(scope, pattern, actual, parameters, s)
    ensures var found := Infer(scope, pattern, actual, parameters, inferred);
            && found.Some? && Agrees(scope, found.value, s)
            && found.value.Keys == inferred.Keys + ParametersOf(pattern, parameters)
    decreases pattern
  {
    hide SameType, Canonical, ExtentsFit, EntriesFit, ShapeFits, ShapeCovered;
    var seen := Origin(scope, pattern, actual);
    FitExactlyWhen(pattern.dimensions, actual.dimensions);
    ShapeFitExactlyWhen(pattern, seen);
    if IsParameter(pattern, parameters) {
      var candidate := actual.(dimensions := actual.dimensions[|pattern.dimensions|..]);
      SameAsBoth(scope, s[pattern.name], candidate, candidate);
      if pattern.name in inferred {
        SameAsBoth(scope, inferred[pattern.name], s[pattern.name], candidate);
        SameTypeExactlyWhen(scope, inferred[pattern.name], candidate);
      }
    } else {
      assert seen.dimensions == actual.dimensions;
      MatchesAllInfer(scope, pattern.arguments, seen.arguments, parameters, inferred, s);
      var more := InferAll(scope, pattern.arguments, seen.arguments, parameters, inferred);
      MatchesAllInfer(scope, pattern.functionParameters, seen.functionParameters, parameters, more.value, s);
    }
  }

  lemma {:induction false} MatchesAllInfer(scope: Scope, patterns: seq<TypeName>, actuals: seq<TypeName>,
                                           parameters: set<string>, inferred: Substitution, s: Substitution)
    requires Agrees(scope, inferred, s) && MatchesAll(scope, patterns, actuals, parameters, s)
    ensures var found := InferAll(scope, patterns, actuals, parameters, inferred);
            && found.Some? && Agrees(scope, found.value, s)
            && found.value.Keys == inferred.Keys + ParametersOfAll(patterns, parameters)
    decreases patterns
  {
    if patterns != [] {
      MatchInfers(scope, patterns[0], actuals[0], parameters, inferred, s);
      var more := Infer(scope, patterns[0], actuals[0], parameters, inferred);
      MatchesAllInfer(scope, patterns[1..], actuals[1..], parameters, more.value, s);
    }
  }

  ghost predicate Within(s: Substitution, t: Substitution) {
    forall k :: k in s ==> k in t && t[k] == s[k]
  }

  /** Matching only adds bindings, of parameters. */
  lemma {:induction false} InferExtends(scope: Scope, pattern: TypeName, actual: TypeName,
                                        parameters: set<string>, inferred: Substitution)
    requires Infer(scope, pattern, actual, parameters, inferred).Some?
    ensures var more := Infer(scope, pattern, actual, parameters, inferred).value;
            Within(inferred, more) && more.Keys <= inferred.Keys + parameters
    decreases pattern
  {
    if !IsParameter(pattern, parameters) {
      var seen := Origin(scope, pattern, actual);
      InferAllExtends(scope, pattern.arguments, seen.arguments, parameters, inferred);
      var more := InferAll(scope, pattern.arguments, seen.arguments, parameters, inferred).value;
      InferAllExtends(scope, pattern.functionParameters, seen.functionParameters, parameters, more);
    }
  }

  lemma {:induction false} InferAllExtends(scope: Scope, patterns: seq<TypeName>, actuals: seq<TypeName>,
                                           parameters: set<string>, inferred: Substitution)
    requires |patterns| == |actuals| && InferAll(scope, patterns, actuals, parameters, inferred).Some?
    ensures var more := InferAll(scope, patterns, actuals, parameters, inferred).value;
            Within(inferred, more) && more.Keys <= inferred.Keys + parameters
    decreases patterns
  {
    if patterns != [] {
      InferExtends(scope, patterns[0], actuals[0], parameters, inferred);
      var more := Infer(scope, patterns[0], actuals[0], parameters, inferred).value;
      InferAllExtends(scope, patterns[1..], actuals[1..], parameters, more);
    }
  }

  /** Soundness: substituting the inferred bindings, or any extension of them, describes the actual type. */
  lemma InferSound(scope: Scope, pattern: TypeName, actual: TypeName,
                   parameters: set<string>, inferred: Substitution, final: Substitution)
    requires Infer(scope, pattern, actual, parameters, inferred).Some?
    requires Within(Infer(scope, pattern, actual, parameters, inferred).value, final)
    requires Mangled(scope) && final.Keys <= parameters
    ensures Covers(scope, Substitute(pattern, final), actual)
  {
    hide Infer, SameType, Matches, Covers;
    var found := Infer(scope, pattern, actual, parameters, inferred).value;
    forall k | k in found
      ensures SameType(scope, found[k], final[k])
    {
      SameAsItself(scope, found[k]);
    }
    InferMatches(scope, pattern, actual, parameters, inferred, final);
    MatchCovers(scope, pattern, actual, parameters, final);
  }

  /** Bindings that make a pattern match turn it into a description of the actual type. */
  lemma {:induction false} MatchCovers(scope: Scope, pattern: TypeName, actual: TypeName,
                                       parameters: set<string>, s: Substitution)
    requires Mangled(scope) && Matches(scope, pattern, actual, parameters, s) && s.Keys <= parameters
    ensures Covers(scope, Substitute(pattern, s), actual)
    decreases pattern
  {
    hide EntriesFit, ShapeCovered, SameType;
    if IsParameter(pattern, parameters) {
      BoundCovers(scope, pattern, actual, s[pattern.name]);
    } else {
      var seen := Origin(scope, pattern, actual);
      MatchesAllCover(scope, pattern.arguments, seen.arguments, parameters, s);
      MatchesAllCover(scope, pattern.functionParameters, seen.functionParameters, parameters, s);
      SameWritten(pattern, Substitute(pattern, s), seen);
    }
  }

  lemma SameWritten(x: TypeName, y: TypeName, actual: TypeName)
    requires x.name == y.name && x.extents == y.extents
    ensures ShapeCovered(x, actual) == ShapeCovered(y, actual)
  {
  }

  lemma {:induction false} MatchesAllCover(scope: Scope, patterns: seq<TypeName>, actuals: seq<TypeName>,
                                           parameters: set<string>, s: Substitution)
    requires Mangled(scope) && MatchesAll(scope, patterns, actuals, parameters, s) && s.Keys <= parameters
    ensures CoversAll(scope, SubstituteAll(patterns, s), actuals)
    decreases patterns
  {
    if patterns != [] {
      MatchCovers(scope, patterns[0], actuals[0], parameters, s);
      MatchesAllCover(scope, patterns[1..], actuals[1..], parameters, s);
      var r := SubstituteAll(patterns, s);
      assert r[0] == Substitute(patterns[0], s) && r[1..] == SubstituteAll(patterns[1..], s);
    }
  }

  /** A parameter bound to the same type as the candidate, with the pattern's own dimensions in front. */
  lemma BoundCovers(scope: Scope, pattern: TypeName, actual: TypeName, bound: TypeName)
    requires Mangled(scope) && EntriesFit(pattern.dimensions, actual.dimensions)
    requires SameType(scope, bound, actual.(dimensions := actual.dimensions[|pattern.dimensions|..]))
    ensures Covers(scope, bound.(dimensions := pattern.dimensions + bound.dimensions), actual)
  {
    var candidate := actual.(dimensions := actual.dimensions[|pattern.dimensions|..]);
    SameTypeCovers(scope, bound, candidate);
    FrontFits(pattern.dimensions, bound.dimensions, actual.dimensions);
    hide EntriesFit, ShapeCovered, SameEntries, SameTypes, CoversAll;
    SameWritten(bound, bound.(dimensions := pattern.dimensions + bound.dimensions), actual);
    SameKnown(bound, candidate, actual);
  }

  lemma FrontFits(front: seq<int>, required: seq<int>, observed: seq<int>)
    requires EntriesFit(front, observed) && SameEntries(required, observed[|front|..])
    ensures |front + required| == |observed| && EntriesFit(front + required, observed)
  {
    var rest := observed[|front|..];
    assert forall i :: 0 <= i < |rest| ==> rest[i] == observed[|front| + i];
  }

  lemma SameKnown(expected: TypeName, x: TypeName, y: TypeName)
    requires x.rank == y.rank && x.known == y.known && x.extents == y.extents
    ensures ShapeCovered(expected, x) == ShapeCovered(expected, y)
  {
  }

  // ---- completeness ----

  /** A type as it can be written: a tensor's shape fixes its rank, and nothing more has been learned about it. */
  ghost predicate Written(t: TypeName)
    decreases t
  {
    && (t.extents == [] || t.rank == Some(|t.extents|)) && t.known == []
    && WrittenAll(t.arguments) && WrittenAll(t.functionParameters)
  }

  ghost predicate WrittenAll(ts: seq<TypeName>)
    decreases ts
  {
    ts != [] ==> Written(ts[0]) && WrittenAll(ts[1..])
  }

  /** Substituting written types into a written type gives a written type. */
  lemma {:induction false} SubstituteKeepsWritten(t: TypeName, s: Substitution)
    requires Written(t) && forall k :: k in s ==> Written(s[k])
    ensures Written(Substitute(t, s))
    decreases t
  {
    if !(t.arguments == [] && t.name in s) {
      SubstituteAllKeepsWritten(t.arguments, s);
      SubstituteAllKeepsWritten(t.functionParameters, s);
    }
  }

  lemma {:induction false} SubstituteAllKeepsWritten(ts: seq<TypeName>, s: Substitution)
    requires WrittenAll(ts) && forall k :: k in s ==> Written(s[k])
    ensures WrittenAll(SubstituteAll(ts, s))
    decreases ts
  {
    if ts != [] {
      SubstituteKeepsWritten(ts[0], s);
      SubstituteAllKeepsWritten(ts[1..], s);
    }
  }

  ghost function ParametersOf(pattern: TypeName, parameters: set<string>): set<string>
    decreases pattern
  {
    if pattern.name in parameters && pattern.arguments == [] then {pattern.name}
    else ParametersOfAll(pattern.arguments, parameters) + ParametersOfAll(pattern.functionParameters, parameters)
  }

  ghost function ParametersOfAll(patterns: seq<TypeName>, parameters: set<string>): set<string>
    decreases patterns
  {
    if patterns == [] then {}
    else ParametersOf(patterns[0], parameters) + ParametersOfAll(patterns[1..], parameters)
  }

  lemma InstanceFits(pattern: TypeName, s: Substitution)
    requires Written(pattern) && !(pattern.arguments == [] && pattern.name in s)
    ensures ShapeFits(pattern, Substitute(pattern, s))
    ensures Substitute(pattern, s).dimensions == pattern.dimensions && ExtentsFit(pattern.dimensions, pattern.dimensions)
  {
  }

  /**
   Completeness: a written pattern matches each of its instances, and the match binds exactly
   the pattern's parameters, to the types substituted for them.
  */
  lemma {:induction false} InferComplete(scope: Scope, pattern: TypeName, parameters: set<string>,
                                         s: Substitution, inferred: Substitution)
    requires Mangled(scope) && Written(pattern) && s.Keys == parameters && Within(inferred, s)
    ensures var found := Infer(scope, pattern, Substitute(pattern, s), parameters, inferred);
            && found.Some? && Within(found.value, s)
            && found.value.Keys == inferred.Keys + ParametersOf(pattern, parameters)
    decreases pattern
  {
    var actual := Substitute(pattern, s);
    if IsParameter(pattern, parameters) {
      ParameterComplete(scope, pattern, parameters, s, inferred);
    } else {
      InstanceFits(pattern, s);
      hide ShapeFits, ExtentsFit, Canonical, Written;
      assert Origin(scope, pattern, actual) == actual;
      InferAllComplete(scope, pattern.arguments, parameters, s, inferred);
      var more := InferAll(scope, pattern.arguments, actual.arguments, parameters, inferred);
      InferAllComplete(scope, pattern.functionParameters, parameters, s, more.value);
    }
  }

  lemma ParameterComplete(scope: Scope, pattern: TypeName, parameters: set<string>, s: Substitution, inferred: Substitution)
    requires IsParameter(pattern, parameters) && s.Keys == parameters && Within(inferred, s)
    ensures var found := Infer(scope, pattern, Substitute(pattern, s), parameters, inferred);
            found.Some? && Within(found.value, s) && found.value.Keys == inferred.Keys + {pattern.name}
  {
    hide InferAll, ShapeFits, Canonical;
    var bound, actual := s[pattern.name], Substitute(pattern, s);
    assert actual.dimensions[|pattern.dimensions|..] == bound.dimensions;
    assert actual.(dimensions := bound.dimensions) == bound;
  }

  lemma {:induction false} InferAllComplete(scope: Scope, patterns: seq<TypeName>, parameters: set<string>,
                                            s: Substitution, inferred: Substitution)
    requires Mangled(scope) && WrittenAll(patterns) && s.Keys == parameters && Within(inferred, s)
    ensures var found := InferAll(scope, patterns, SubstituteAll(patterns, s), parameters, inferred);
            && found.Some? && Within(found.value, s)
            && found.value.Keys == inferred.Keys + ParametersOfAll(patterns, parameters)
    decreases patterns
  {
    if patterns != [] {
      var actuals := SubstituteAll(patterns, s);
      assert actuals[0] == Substitute(patterns[0], s) && actuals[1..] == SubstituteAll(patterns[1..], s);
      InferComplete(scope, patterns[0], parameters, s, inferred);
      var more := Infer(scope, patterns[0], actuals[0], parameters, inferred);
      InferAllComplete(scope, patterns[1..], parameters, s, more.value);
    }
  }

  /** The whole trip: match an instance from nothing, and get back the type arguments. */
  lemma MatchRecoversArguments(scope: Scope, pattern: TypeName, parameters: set<string>, s: Substitution)
    requires Mangled(scope) && Written(pattern) && s.Keys == parameters
    ensures Infer(scope, pattern, Substitute(pattern, s), parameters, map[])
            == Some(map k | k in ParametersOf(pattern, parameters) && k in s :: s[k])
  {
    InferComplete(scope, pattern, parameters, s, map[]);
    ParametersAreParameters(pattern, parameters);
    var found := Infer(scope, pattern, Substitute(pattern, s), parameters, map[]).value;
    assert found == map k | k in ParametersOf(pattern, parameters) && k in s :: s[k];
  }

  /** An instance of a generic class is matched as the class with its arguments, in one step or in several. */
  lemma InstanceIsItsOrigin(scope: Scope, pattern: TypeName, actual: TypeName, parameters: set<string>, inferred: Substitution)
    requires Mangled(scope) && !(pattern.name in parameters && pattern.arguments == [])
    requires InstanceOf(scope, actual, pattern.name)
    ensures Infer(scope, pattern, actual, parameters, inferred)
            == Infer(scope, pattern, scope.origins[actual.name].(dimensions := actual.dimensions), parameters, inferred)
  {
    hide InferAll, ShapeFits, ExtentsFit;
    var original := scope.origins[actual.name].(dimensions := actual.dimensions);
    assert Origin(scope, pattern, original) == original;
  }

  /** The type arguments of a class instance are found again in the name it was registered under. */
  lemma InstanceGivesArguments(scope: Scope, pattern: TypeName, actual: TypeName, parameters: set<string>, s: Substitution)
    requires Mangled(scope) && Written(pattern) && s.Keys == parameters
    requires !(pattern.name in parameters && pattern.arguments == []) && InstanceOf(scope, actual, pattern.name)
    requires scope.origins[actual.name].(dimensions := actual.dimensions) == Substitute(pattern, s)
    ensures Infer(scope, pattern, actual, parameters, map[])
            == Some(map k | k in ParametersOf(pattern, parameters) && k in s :: s[k])
  {
    InstanceIsItsOrigin(scope, pattern, actual, parameters, map[]);
    MatchRecoversArguments(scope, pattern, parameters, s);
  }

  lemma {:induction false} ParametersAreParameters(pattern: TypeName, parameters: set<string>)
    ensures ParametersOf(pattern, parameters) <= parameters
    decreases pattern
  {
    if !IsParameter(pattern, parameters) {
      AllParametersAreParameters(pattern.arguments, parameters);
      AllParametersAreParameters(pattern.functionParameters, parameters);
    }
  }

  lemma {:induction false} AllParametersAreParameters(patterns: seq<TypeName>, parameters: set<string>)
    ensures ParametersOfAll(patterns, parameters) <= parameters
    decreases patterns
  {
    if patterns != [] {
      ParametersAreParameters(patterns[0], parameters);
      AllParametersAreParameters(patterns[1..], parameters);
    }
  }
}
