/**
 Dependencies among the `nat N = EXPR` axes of a brace shape: the depth-first cycle check, and
 the worklist that orders the axes evaluated after the initializer.
*/
module ShapeOrder {
  import opened Options

  /** A shape variable: the axis that declares it, and whether it is defined by an expression. */
  datatype Variable = Variable(axis: nat, defined: bool)

  /** An axis: the variables its expression reads, whether it is checked by value, the variable it defines. */
  datatype Axis = Axis(uses: seq<nat>, byValue: bool, defines: Option<nat>)

  datatype Plan = Plan(variables: seq<Variable>, axes: seq<Axis>)
  {
    ghost predicate WellFormed() {
      && (forall v :: 0 <= v < |variables| ==> variables[v].axis < |axes|)
      && (forall v :: 0 <= v < |variables| && variables[v].defined
            ==> axes[variables[v].axis].byValue && axes[variables[v].axis].defines == Some(v))
      && (forall a :: 0 <= a < |axes| && axes[a].defines.Some?
            ==> var v := axes[a].defines.value; v < |variables| && variables[v] == Variable(a, true))
      && (forall a, i :: 0 <= a < |axes| && 0 <= i < |axes[a].uses| ==> axes[a].uses[i] < |variables|)
    }

    /** v is defined by an expression that reads w. */
    ghost predicate Edge(v: nat, w: nat) {
      && v < |variables| && variables[v].axis < |axes|
      && variables[v].defined && w in axes[variables[v].axis].uses
    }

    ghost predicate Chain(p: seq<nat>) {
      forall i :: 0 <= i < |p| - 1 ==> Edge(p[i], p[i + 1])
    }

    /** Some variable depends on itself. */
    ghost predicate Cyclic() {
      exists p: seq<nat> :: |p| >= 2 && p[0] == p[|p| - 1] && Chain(p)
    }

    predicate AfterInitializer(a: nat)
      requires a < |axes|
    {
      axes[a].byValue && axes[a].uses != []
    }
  }

  // ---- orders that put dependencies first ----

  ghost predicate Topological(plan: Plan, order: seq<nat>) {
    && (forall i, j :: 0 <= i < j < |order| ==> order[i] != order[j])
    && (forall i, w :: 0 <= i < |order| && plan.Edge(order[i], w) ==> w in order[..i])
  }

  /** Along a chain inside such an order the positions decrease. */
  lemma {:induction false} ChainDescends(plan: Plan, order: seq<nat>, p: seq<nat>, i: nat) returns (j: nat)
    requires Topological(plan, order) && plan.Chain(p) && p != []
    requires i < |order| && order[i] == p[0]
    ensures j <= i && order[j] == p[|p| - 1] && (|p| >= 2 ==> j < i)
    decreases |p|
  {
    if |p| == 1 {
      j := i;
    } else {
      assert plan.Edge(p[0], p[1]);
      var k :| 0 <= k < i && order[k] == p[1];
      forall l | 0 <= l < |p[1..]| - 1
        ensures plan.Edge(p[1..][l], p[1..][l + 1])
      {
        assert plan.Edge(p[l + 1], p[l + 2]);
      }
      j := ChainDescends(plan, order, p[1..], k);
    }
  }

  lemma OrderRefutesCycles(plan: Plan, order: seq<nat>)
    requires Topological(plan, order) && forall v: nat :: v < |plan.variables| ==> v in order
    ensures !plan.Cyclic()
  {
    forall p: seq<nat> | |p| >= 2 && plan.Chain(p)
      ensures p[0] != p[|p| - 1]
    {
      assert plan.Edge(p[0], p[1]) && p[0] in order;
      var i :| 0 <= i < |order| && order[i] == p[0];
      var j := ChainDescends(plan, order, p, i);
    }
  }

  // ---- the depth-first check ----

  /** Marks: 0 unvisited, 1 on the stack, 2 finished. */
  ghost predicate Marked(plan: Plan, state: seq<int>, stack: seq<nat>, order: seq<nat>) {
    && |state| == |plan.variables|
    && (forall v :: 0 <= v < |state| ==> 0 <= state[v] <= 2)
    && (forall v: nat :: v < |state| ==> (state[v] == 1 <==> v in stack))
    && (forall v: nat :: v < |state| ==> (state[v] == 2 <==> v in order))
    && (forall v: nat :: v in stack || v in order ==> v < |state|)
    && plan.Chain(stack) && Topological(plan, order)
  }

  ghost function Unvisited(state: seq<int>): set<nat> {
    set v: nat | v < |state| && state[v] == 0
  }

  /** Reaching a variable on the stack closes a cycle. */
  lemma StackCloses(plan: Plan, stack: seq<nat>, w: nat)
    requires plan.Chain(stack) && stack != [] && plan.Edge(stack[|stack| - 1], w) && w in stack
    ensures plan.Cyclic()
  {
    var k :| 0 <= k < |stack| && stack[k] == w;
    var p := stack[k..] + [w];
    forall i | 0 <= i < |p| - 1
      ensures plan.Edge(p[i], p[i + 1])
    {
      if i < |p| - 2 { assert plan.Edge(stack[k + i], stack[k + i + 1]); }
    }
    assert |p| >= 2 && p[0] == p[|p| - 1] && plan.Chain(p);
  }

  lemma Push(plan: Plan, stack: seq<nat>, v: nat)
    requires plan.Chain(stack) && (stack != [] ==> plan.Edge(stack[|stack| - 1], v))
    ensures plan.Chain(stack + [v])
  {
    var p := stack + [v];
    forall i | 0 <= i < |p| - 1
      ensures plan.Edge(p[i], p[i + 1])
    {
      if i < |stack| - 1 { assert plan.Edge(stack[i], stack[i + 1]); }
    }
  }

  lemma Finish(plan: Plan, order: seq<nat>, v: nat)
    requires Topological(plan, order) && v !in order
    requires forall w :: plan.Edge(v, w) ==> w in order
    ensures Topological(plan, order + [v])
  {
    var o := order + [v];
    forall i, w | 0 <= i < |o| && plan.Edge(o[i], w)
      ensures w in o[..i]
    {
      if i < |order| {
        assert o[i] == order[i] && w in order[..i];
        assert o[..i] == order[..i];
      } else {
        assert o[..i] == order;
      }
    }
  }

  method Visit(plan: Plan, state: array<int>, variable: nat, ghost stack: seq<nat>, ghost order: seq<nat>)
    returns (ok: bool, ghost after: seq<nat>)
    requires plan.WellFormed() && variable < |plan.variables| && Marked(plan, state[..], stack, order)
    requires stack != [] ==> plan.Edge(stack[|stack| - 1], variable)
    modifies state
    ensures ok ==> Marked(plan, state[..], stack, after) && order <= after && state[variable] == 2
    ensures ok ==> Unvisited(state[..]) <= old(Unvisited(state[..]))
    ensures !ok ==> plan.Cyclic()
    decreases Unvisited(state[..])
  {
    hide Topological, Plan.Chain;
    after := order;
    if state[variable] == 2 { return true, after; }
    var axis := plan.variables[variable].axis;
    if state[variable] == 1 {
      StackCloses(plan, stack, variable);
      return false, after;
    }
    state[variable] := 1;
    Push(plan, stack, variable);
    ghost var inner := stack + [variable];
    if plan.variables[variable].defined {
      var i := 0;
      var uses := plan.axes[axis].uses;
      while i < |uses|
        invariant 0 <= i <= |uses|
        invariant Marked(plan, state[..], inner, after) && order <= after
        invariant Unvisited(state[..]) <= old(Unvisited(state[..])) - {variable}
        invariant forall k :: 0 <= k < i ==> uses[k] in after
      {
        var other := uses[i];
        assert plan.Edge(variable, other);
        if state[other] == 1 {
          StackCloses(plan, inner, other);
          return false, after;
        }
        ghost var before := after;
        ok, after := Visit(plan, state, other, inner, after);
        if !ok { return; }
        i := i + 1;
      }
    }
    state[variable] := 2;
    Finish(plan, after, variable);
    after := after + [variable];
    ok := true;
  }

  /** The whole check: accepts exactly the plans whose definitions contain no cycle. */
  method CheckCycles(plan: Plan) returns (ok: bool, ghost order: seq<nat>)
    requires plan.WellFormed()
    ensures ok <==> !plan.Cyclic()
    ensures ok ==> Topological(plan, order) && forall v: nat :: v < |plan.variables| ==> v in order
  {
    var state := new int[|plan.variables|](_ => 0);
    order := [];
    var v := 0;
    while v < |plan.variables|
      invariant 0 <= v <= |plan.variables| && Marked(plan, state[..], [], order)
      invariant forall u: nat :: u < v ==> u in order
    {
      ok, order := Visit(plan, state, v, [], order);
      if !ok { return; }
      v := v + 1;
    }
    OrderRefutesCycles(plan, order);
    ok := true;
  }

  // ---- the worklist ----

  ghost predicate Ready(plan: Plan, a: nat, done: set<nat>)
    requires a < |plan.axes|
  {
    forall v :: v in plan.axes[a].uses ==> v in done
  }

  /** The variables whose values are known before the initializer. */
  function InitiallyDone(plan: Plan): set<nat>
    requires plan.WellFormed()
  {
    set v: nat | v < |plan.variables| &&
                 (!plan.variables[v].defined || !plan.AfterInitializer(plan.variables[v].axis))
  }

  function PendingAxes(plan: Plan): set<nat> {
    set a: nat | a < |plan.axes| && plan.AfterInitializer(a)
  }

  function Defined(axis: Axis): set<nat> {
    if axis.defines.Some? then {axis.defines.value} else {}
  }

  /** The variables done after evaluating some axes in order. */
  ghost function DoneAfter(plan: Plan, order: seq<nat>): set<nat>
    requires plan.WellFormed() && forall i :: 0 <= i < |order| ==> order[i] < |plan.axes|
  {
    if order == [] then InitiallyDone(plan)
    else DoneAfter(plan, order[..|order| - 1]) + Defined(plan.axes[order[|order| - 1]])
  }

  /** The leftmost axis that is pending after some others and whose reads are done. */
  ghost predicate LeftmostReady(plan: Plan, before: seq<nat>, axis: nat)
    requires plan.WellFormed() && forall i :: 0 <= i < |before| ==> before[i] < |plan.axes|
  {
    && axis in PendingAxes(plan) && axis !in before && Ready(plan, axis, DoneAfter(plan, before))
    && forall a :: a in PendingAxes(plan) && a < axis && a !in before ==> !Ready(plan, a, DoneAfter(plan, before))
  }

  /** Each axis was, when its turn came, the leftmost of those still pending whose reads were done. */
  ghost predicate LeftmostReadyFirst(plan: Plan, order: seq<nat>)
    requires plan.WellFormed() && forall i :: 0 <= i < |order| ==> order[i] < |plan.axes|
  {
    order == [] ||
    var init := order[..|order| - 1];
    LeftmostReadyFirst(plan, init) && LeftmostReady(plan, init, order[|order| - 1])
  }

  /** Following undone reads down a dependencies-first order ends at a ready axis. */
  lemma {:induction false} SomeAxisIsReady(plan: Plan, dependencies: seq<nat>, pending: set<nat>, done: set<nat>, a: nat, k: nat)
    returns (ready: nat)
    requires plan.WellFormed() && Topological(plan, dependencies)
    requires forall v: nat :: v < |plan.variables| ==> v in dependencies
    requires forall b :: b in pending ==> b < |plan.axes|
    requires forall v: nat :: v < |plan.variables| && v !in done
               ==> plan.variables[v].defined && plan.variables[v].axis in pending
    requires a in pending && k <= |dependencies|
    requires forall v :: v in plan.axes[a].uses && v !in done ==> v in dependencies[..k]
    ensures ready in pending && Ready(plan, ready, done)
    decreases k
  {
    if v :| v in plan.axes[a].uses && v !in done {
      var j :| 0 <= j < k && dependencies[j] == v;
      var b := plan.variables[v].axis;
      assert forall w :: w in plan.axes[b].uses ==> plan.Edge(v, w);
      ready := SomeAxisIsReady(plan, dependencies, pending, done, b, j);
    } else {
      ready := a;
    }
  }

  /** The leftmost ready pending axis, if any. */
  method FindReady(plan: Plan, pending: set<nat>, done: set<nat>) returns (found: Option<nat>)
    requires forall a :: a in pending ==> a < |plan.axes|
    ensures found.Some? ==> found.value in pending && Ready(plan, found.value, done)
                            && forall a :: a in pending && a < found.value ==> !Ready(plan, a, done)
    ensures found.None? ==> forall a :: a in pending ==> !Ready(plan, a, done)
  {
    var a := 0;
    while a < |plan.axes|
      invariant 0 <= a <= |plan.axes|
      invariant forall b :: b in pending && b < a ==> !Ready(plan, b, done)
    {
      if a in pending && forall i :: 0 <= i < |plan.axes[a].uses| ==> plan.axes[a].uses[i] in done {
        return Some(a);
      }
      assert a in pending ==> !Ready(plan, a, done);
      a := a + 1;
    }
    found := None;
  }

  /** The worklist's state: what is ordered, what is still pending, which variables are done. */
  ghost predicate Working(plan: Plan, pending: set<nat>, done: set<nat>, order: seq<nat>)
    requires plan.WellFormed()
  {
    && (forall i :: 0 <= i < |order| ==> order[i] < |plan.axes|)
    && LeftmostReadyFirst(plan, order) && done == DoneAfter(plan, order)
    && (forall a :: a in PendingAxes(plan) <==> a in pending || a in order)
    && (forall a :: a in pending ==> a !in order)
    && (forall i, j :: 0 <= i < j < |order| ==> order[i] != order[j])
    && (forall v: nat :: v < |plan.variables| && v !in done
          ==> plan.variables[v].defined && plan.variables[v].axis in pending)
  }

  lemma WorkStep(plan: Plan, pending: set<nat>, done: set<nat>, order: seq<nat>, next: nat)
    requires plan.WellFormed() && Working(plan, pending, done, order)
    requires next in pending && next < |plan.axes| && Ready(plan, next, done)
    requires forall a :: a in pending && a < next ==> !Ready(plan, a, done)
    ensures Working(plan, pending - {next}, done + Defined(plan.axes[next]), order + [next])
  {
    hide Ready;
    var longer, rest, more := order + [next], pending - {next}, done + Defined(plan.axes[next]);
    assert longer[..|longer| - 1] == order;
    assert LeftmostReadyFirst(plan, longer) by { assert next in PendingAxes(plan); }
    forall v: nat | v < |plan.variables| && v !in more
      ensures plan.variables[v].defined && plan.variables[v].axis in rest
    {
      assert v !in done;
    }
  }

  /** The worklist after a passed cycle check: it never stalls, and orders exactly the pending axes. */
  method OrderAxes(plan: Plan, ghost dependencies: seq<nat>) returns (afterOrder: seq<nat>)
    requires plan.WellFormed() && Topological(plan, dependencies)
    requires forall v: nat :: v < |plan.variables| ==> v in dependencies
    ensures forall i :: 0 <= i < |afterOrder| ==> afterOrder[i] < |plan.axes|
    ensures LeftmostReadyFirst(plan, afterOrder)
    ensures forall a: nat :: a in afterOrder <==> a < |plan.axes| && plan.axes[a].byValue && plan.axes[a].uses != []
    ensures forall i, j :: 0 <= i < j < |afterOrder| ==> afterOrder[i] != afterOrder[j]
  {
    hide Ready;
    var pending := PendingAxes(plan);
    var done := InitiallyDone(plan);
    afterOrder := [];
    while pending != {}
      invariant Working(plan, pending, done, afterOrder)
      decreases pending
    {
      var next := FindReady(plan, pending, done);
      if next.None? {
        ghost var a :| a in pending;
        assert dependencies[..|dependencies|] == dependencies;
        ghost var ready := SomeAxisIsReady(plan, dependencies, pending, done, a, |dependencies|);
        assert false;
        break;
      }
      WorkStep(plan, pending, done, afterOrder, next.value);
      afterOrder := afterOrder + [next.value];
      done := done + Defined(plan.axes[next.value]);
      pending := pending - {next.value};
    }
  }

  /** Both passes: an error exactly for a cycle, else the order. */
  method PlanOrder(plan: Plan) returns (order: Option<seq<nat>>)
    requires plan.WellFormed()
    ensures order.None? <==> plan.Cyclic()
    ensures order.Some? ==> (forall i :: 0 <= i < |order.value| ==> order.value[i] < |plan.axes|)
                            && LeftmostReadyFirst(plan, order.value)
                            && forall a: nat :: a in order.value
                                 <==> a < |plan.axes| && plan.axes[a].byValue && plan.axes[a].uses != []
  {
    var ok, dependencies := CheckCycles(plan);
    if !ok { return None; }
    var axes := OrderAxes(plan, dependencies);
    order := Some(axes);
  }

  // ---- what the order guarantees ----

  lemma {:induction false} PrefixIsLeftmost(plan: Plan, order: seq<nat>, n: nat)
    requires plan.WellFormed() && (forall i :: 0 <= i < |order| ==> order[i] < |plan.axes|) && n <= |order|
    requires LeftmostReadyFirst(plan, order)
    ensures LeftmostReadyFirst(plan, order[..n])
    decreases |order|
  {
    if n == |order| {
      assert order[..n] == order;
    } else {
      var init := order[..|order| - 1];
      PrefixIsLeftmost(plan, init, n);
      assert init[..n] == order[..n];
    }
  }

  lemma OneLeftmostReady(plan: Plan, before: seq<nat>, x: nat, y: nat)
    requires plan.WellFormed() && forall i :: 0 <= i < |before| ==> before[i] < |plan.axes|
    requires LeftmostReady(plan, before, x) && LeftmostReady(plan, before, y)
    ensures x == y
  {
    hide Ready, PendingAxes, DoneAfter;
  }

  /** The order is determined: two complete leftmost-ready-first orders agree. */
  lemma {:induction false} LeftmostOrdersAgree(plan: Plan, a: seq<nat>, b: seq<nat>, n: nat)
    requires plan.WellFormed()
    requires (forall i :: 0 <= i < |a| ==> a[i] < |plan.axes|) && (forall i :: 0 <= i < |b| ==> b[i] < |plan.axes|)
    requires LeftmostReadyFirst(plan, a) && LeftmostReadyFirst(plan, b) && n <= |a| && n <= |b|
    ensures a[..n] == b[..n]
    decreases n
  {
    hide LeftmostReady, PendingAxes;
    if n > 0 {
      var m := n - 1;
      LeftmostOrdersAgree(plan, a, b, m);
      PrefixIsLeftmost(plan, a, n);
      PrefixIsLeftmost(plan, b, n);
      assert a[..n][..m] == a[..m] && b[..n][..m] == b[..m];
      assert a[..n][m] == a[m] && b[..n][m] == b[m];
      OneLeftmostReady(plan, a[..m], a[m], b[m]);
      assert a[..n] == a[..m] + [a[m]] && b[..n] == b[..m] + [b[m]];
    }
  }

  lemma {:induction false} DoneVariablesHaveAxes(plan: Plan, order: seq<nat>, v: nat)
    requires plan.WellFormed() && forall i :: 0 <= i < |order| ==> order[i] < |plan.axes|
    requires v in DoneAfter(plan, order) && v !in InitiallyDone(plan)
    ensures v < |plan.variables| && plan.variables[v].axis in order
    decreases |order|
  {
    var init, last := order[..|order| - 1], order[|order| - 1];
    if v in DoneAfter(plan, init) {
      DoneVariablesHaveAxes(plan, init, v);
    } else {
      assert plan.axes[last].defines == Some(v);
    }
  }

  /** Every axis comes after the axes that define the variables it reads. */
  lemma ReadsComeFirst(plan: Plan, order: seq<nat>, i: nat, v: nat)
    requires plan.WellFormed() && (forall k :: 0 <= k < |order| ==> order[k] < |plan.axes|)
    requires LeftmostReadyFirst(plan, order) && i < |order| && v in plan.axes[order[i]].uses
    requires plan.variables[v].defined && plan.axes[plan.variables[v].axis].uses != []
    ensures plan.variables[v].axis in order[..i]
  {
    PrefixIsLeftmost(plan, order, i + 1);
    var prefix := order[..i + 1];
    assert prefix[..i] == order[..i] && prefix[i] == order[i];
    assert v in DoneAfter(plan, order[..i]);
    DoneVariablesHaveAxes(plan, order[..i], v);
  }
}
