/** The single error location of the root (src/Automaton/RecursiveToCyclicCfa.cpp,
    `addUniqueErrorLocation`): every error location gets an edge to it that stores the error code
    in the error field. */
module UniqueError {
  import opened Exprs
  import opened Automata
  import opened AssignLists
  import opened TailInlining

  ghost predicate IntCode(e: Expr, xs: set<Variable>) {
    !e.Undef? && Vars(e) <= xs && WellTyped(e) && TypeOf(e) == IntType
  }

  /** The root before its error location is added. */
  ghost predicate PlainRoot(c: Cfa) {
    && c.entry < c.numLocations
    && (forall e | e in c.edges :: EdgeScoped(e, c.numLocations, VariablesOf(c)))
    && (forall l | l in c.errors :: l < c.numLocations && IntCode(c.errors[l], VariablesOf(c)))
  }

  function WireEdge(c: Cfa, l: Loc, error: Loc, field: Variable): Transition
    requires l in c.errors
  {
    Assign(l, error, True(), [Assignment(field, c.errors[l])])
  }

  /** The edges into the new location from error locations among the first `n`. */
  function WireEdges(c: Cfa, n: nat, error: Loc, field: Variable): (r: seq<Transition>)
    ensures forall l | l in c.errors && l < n :: WireEdge(c, l, error, field) in r
    ensures forall e | e in r :: exists l :: l in c.errors && l < n && e == WireEdge(c, l, error, field)
  {
    if n == 0 then [] else
      WireEdges(c, n - 1, error, field) + (if n - 1 in c.errors then [WireEdge(c, n - 1, error, field)] else [])
  }

  /** Locations of the first `n` that are errors, in order. */
  function ErrorLocations(c: Cfa, n: nat): (r: seq<Loc>)
    ensures forall l :: l in r <==> l < n && l in c.errors
  {
    if n == 0 then [] else ErrorLocations(c, n - 1) + (if n - 1 in c.errors then [n - 1] else [])
  }

  function Wires(c: Cfa, locs: seq<Loc>, error: Loc, field: Variable): seq<Transition>
    requires forall l | l in locs :: l in c.errors
  {
    if locs == [] then [] else
      var n := |locs| - 1;
      assert forall l | l in locs[..n] :: l in locs;
      Wires(c, locs[..n], error, field) + [WireEdge(c, locs[n], error, field)]
  }

  lemma {:induction false} WiresAreEdges(c: Cfa, n: nat, error: Loc, field: Variable)
    ensures Wires(c, ErrorLocations(c, n), error, field) == WireEdges(c, n, error, field)
  {
    if n > 0 {
      WiresAreEdges(c, n - 1, error, field);
      var before := ErrorLocations(c, n - 1);
      assert before + [] == before && WireEdges(c, n - 1, error, field) + [] == WireEdges(c, n - 1, error, field);
      if n - 1 in c.errors {
        var locs := before + [n - 1];
        assert locs[..|locs| - 1] == before && locs[|locs| - 1] == n - 1;
        assert Wires(c, locs, error, field) == Wires(c, before, error, field) + [WireEdge(c, n - 1, error, field)];
      }
    }
  }

  method FindErrors(c: Cfa) returns (errors: seq<Loc>)
    ensures errors == ErrorLocations(c, c.numLocations)
  {
    errors := [];
    for l := 0 to c.numLocations
      invariant errors == ErrorLocations(c, l)
    {
      if l in c.errors {
        errors := errors + [l];
      }
    }
  }

  method WireErrors(c: Cfa, errors: seq<Loc>, error: Loc, field: Variable) returns (edges: seq<Transition>)
    requires forall l | l in errors :: l in c.errors
    ensures edges == Wires(c, errors, error, field)
  {
    edges := [];
    for i := 0 to |errors|
      invariant forall l | l in errors[..i] :: l in c.errors
      invariant edges == Wires(c, errors[..i], error, field)
    {
      assert errors[..i + 1][..i] == errors[..i];
      assert errors[i] in errors;
      edges := edges + [WireEdge(c, errors[i], error, field)];
    }
    assert errors[..|errors|] == errors;
  }

  /** Without errors in the root a dummy edge keeps the goal attached. */
  function DummyEdge(c: Cfa, error: Loc, field: Variable): Transition {
    Assign(c.entry, error, False(), [Assignment(field, IntLit(0))])
  }

  function NewEdges(c: Cfa, error: Loc, field: Variable): seq<Transition> {
    if c.errors == map[] then [DummyEdge(c, error, field)] else WireEdges(c, c.numLocations, error, field)
  }

  function WithUniqueError(c: Cfa, field: Variable): Cfa {
    var error := c.numLocations;
    c.(numLocations := error + 1, locals := c.locals + [field],
       errors := c.errors[error := VarRef(field)], edges := c.edges + NewEdges(c, error, field))
  }

  /** `T` is `S` with the unique error location added to the root. */
  ghost predicate Extends(S: System, T: System, root: nat, field: Variable) {
    && root < |S| && PlainRoot(S[root]) && NeverCalls(S, root)
    && field.typ == IntType && field !in VariablesOf(S[root])
    && T == S[root := WithUniqueError(S[root], field)]
  }

  /** Edges of the extended root: its own, wires from error locations, or the dummy. */
  lemma {:induction false} EdgeKind(c: Cfa, field: Variable, e: Transition)
    requires e in WithUniqueError(c, field).edges
    ensures var error := c.numLocations;
            e in c.edges || e == DummyEdge(c, error, field) || exists l :: l in c.errors && e == WireEdge(c, l, error, field)
  {
    var error := c.numLocations;
    if e !in c.edges && c.errors != map[] {
      hide WireEdges;
      assert e in WireEdges(c, c.numLocations, error, field);
    }
  }

  lemma {:induction false} ExtendedNeverCalls(S: System, T: System, root: nat, field: Variable)
    requires Extends(S, T, root, field)
    ensures NeverCalls(T, root)
  {
    forall f, e | 0 <= f < |T| && e in T[f].edges && e.Call? ensures e.callee != root {
      if f == root {
        EdgeKind(S[root], field, e);
      }
      hide WithUniqueError, NewEdges;
    }
  }

  /** Nothing follows the unique error location. */
  lemma {:induction false} GoalIsFinal(S: System, T: System, root: nat, field: Variable, w: Valuation, fail: Failure, code: Value)
    requires Extends(S, T, root, field) && Fails(T, root, S[root].numLocations, w, fail, code)
    ensures fail.Here? && code == Get(w, field)
  {
    if fail.Here? {
      assert Eval(VarRef(field), w) == Get(w, field);
    } else {
      EdgeKind(S[root], field, fail.edge);
      hide WithUniqueError, NewEdges;
      assert false;
    }
  }

  lemma {:induction false} WiredCode(c: Cfa, l: Loc, field: Variable, v: Valuation, w: Valuation, choices: seq<Value>)
    requires PlainRoot(c) && l in c.errors && Same(v, w, VariablesOf(c)) && field.typ == IntType
    ensures Get(Exec(WireEdge(c, l, c.numLocations, field).assigns, w, choices), field) == Eval(c.errors[l], v)
  {
    SingleAssign(Assignment(field, c.errors[l]), w, choices);
    TypeSoundness(c.errors[l], w);
    EvalCongruence(c.errors[l], v, w);
  }

  lemma {:induction false} OwnStep(c: Cfa, e: Transition, v: Valuation, w: Valuation, choices: seq<Value>)
    requires PlainRoot(c) && e in c.edges && e.Assign? && Same(v, w, VariablesOf(c))
    ensures e.target < c.numLocations && (Holds(e.guard, v) <==> Holds(e.guard, w))
    ensures Same(Exec(e.assigns, v, choices), Exec(e.assigns, w, choices), VariablesOf(c))
  {
    assert EdgeScoped(e, c.numLocations, VariablesOf(c));
    EvalCongruence(e.guard, v, w);
    ExecSame(e.assigns, v, w, choices, VariablesOf(c));
  }

  lemma {:induction false} OwnCall(c: Cfa, e: Transition, v: Valuation, w: Valuation, init: Valuation, final: Valuation)
    requires PlainRoot(c) && e in c.edges && e.Call? && Same(v, w, VariablesOf(c))
    ensures e.target < c.numLocations && (Holds(e.guard, v) <==> Holds(e.guard, w))
    ensures Passes(e.inputs, v, init) <==> Passes(e.inputs, w, init)
    ensures Same(Returned(e.outputs, v, final), Returned(e.outputs, w, final), VariablesOf(c))
  {
    assert EdgeScoped(e, c.numLocations, VariablesOf(c));
    EvalCongruence(e.guard, v, w);
    forall a | a in e.inputs ensures Eval(a.value, v) == Eval(a.value, w) { EvalCongruence(a.value, v, w); }
    ReturnedSame(e.outputs, v, w, final, VariablesOf(c));
    hide Eval, Returned;
  }

  /** A failure of the extended system, replayed without the extra location. */
  lemma {:induction false} WithoutGoal(S: System, T: System, root: nat, field: Variable, l: Loc, v: Valuation, w: Valuation, fail: Failure, code: Value)
    returns (fail': Failure)
    requires Extends(S, T, root, field) && l < S[root].numLocations && Same(v, w, VariablesOf(S[root]))
    requires Fails(T, root, l, w, fail, code)
    ensures Fails(S, root, l, v, fail', code)
    decreases fail
  {
    var c := S[root];
    ExtendedNeverCalls(S, T, root, field);
    match fail
    case Here =>
      EvalCongruence(c.errors[l], v, w);
      fail' := Here;
    case After(e, choices, rest) =>
      EdgeKind(c, field, e);
      if e in c.edges {
        OwnStep(c, e, v, w, choices);
        fail' := WithoutGoal(S, T, root, field, e.target, Exec(e.assigns, v, choices), Exec(e.assigns, w, choices), rest, code);
        fail' := After(e, choices, fail');
      } else {
        assert !Holds(False(), w);
        GoalIsFinal(S, T, root, field, Exec(e.assigns, w, choices), rest, code);
        WiredCode(c, l, field, v, w, choices);
        fail' := Here;
      }
    case Past(e, init, body, final, rest) =>
      EdgeKind(c, field, e);
      OwnCall(c, e, v, w, init, final);
      RunsElsewhere(T, S, root, e.callee, T[e.callee].entry, init, body, T[e.callee].exit, final);
      fail' := WithoutGoal(S, T, root, field, e.target, Returned(e.outputs, v, final), Returned(e.outputs, w, final), rest, code);
      fail' := Past(e, init, body, final, fail');
    case Inside(e, init, inner) =>
      EdgeKind(c, field, e);
      OwnCall(c, e, v, w, init, map[]);
      FailsElsewhere(T, S, root, e.callee, T[e.callee].entry, init, inner, code);
      fail' := Inside(e, init, inner);
  }

  /** Whatever fails without the extra location fails the same way with it. */
  lemma {:induction false} WithGoal(S: System, T: System, root: nat, field: Variable, l: Loc, v: Valuation, fail: Failure, code: Value)
    requires Extends(S, T, root, field) && Fails(S, root, l, v, fail, code)
    ensures Fails(T, root, l, v, fail, code)
    decreases fail
  {
    match fail
    case Here =>
    case After(e, choices, rest) => WithGoal(S, T, root, field, e.target, Exec(e.assigns, v, choices), rest, code);
    case Past(e, init, body, final, rest) =>
      RunsElsewhere(S, T, root, e.callee, S[e.callee].entry, init, body, S[e.callee].exit, final);
      WithGoal(S, T, root, field, e.target, Returned(e.outputs, v, final), rest, code);
    case Inside(e, init, inner) => FailsElsewhere(S, T, root, e.callee, S[e.callee].entry, init, inner, code);
  }

  /** The root walks among its own locations exactly as before. */
  lemma {:induction false} RunsWithoutGoal(S: System, T: System, root: nat, field: Variable, l: Loc, v: Valuation, run: Run, l': Loc, w: Valuation)
    requires Extends(S, T, root, field) && Leads(T, root, l, v, run, l', w) && l' < S[root].numLocations
    ensures l != S[root].numLocations && Leads(S, root, l, v, run, l', w)
    decreases run
  {
    ExtendedNeverCalls(S, T, root, field);
    if !run.Stop? {
      EdgeKind(S[root], field, run.edge);
    }
    hide WithUniqueError, NewEdges;
    match run
    case Stop =>
    case Step(e, choices, rest) => RunsWithoutGoal(S, T, root, field, e.target, Exec(e.assigns, v, choices), rest, l', w);
    case Through(e, init, body, final, rest) =>
      RunsElsewhere(T, S, root, e.callee, T[e.callee].entry, init, body, T[e.callee].exit, final);
      RunsWithoutGoal(S, T, root, field, e.target, Returned(e.outputs, v, final), rest, l', w);
  }

  lemma {:induction false} RunsWithGoal(S: System, T: System, root: nat, field: Variable, l: Loc, v: Valuation, run: Run, l': Loc, w: Valuation)
    requires Extends(S, T, root, field) && Leads(S, root, l, v, run, l', w)
    ensures Leads(T, root, l, v, run, l', w)
    decreases run
  {
    match run
    case Stop =>
    case Step(e, choices, rest) => RunsWithGoal(S, T, root, field, e.target, Exec(e.assigns, v, choices), rest, l', w);
    case Through(e, init, body, final, rest) =>
      RunsElsewhere(S, T, root, e.callee, S[e.callee].entry, init, body, S[e.callee].exit, final);
      RunsWithGoal(S, T, root, field, e.target, Returned(e.outputs, v, final), rest, l', w);
  }

  /** Some edge ends in the new location. */
  lemma {:induction false} GoalIsAttached(c: Cfa, field: Variable)
    requires forall l | l in c.errors :: l < c.numLocations
    ensures exists e :: e in WithUniqueError(c, field).edges && e.Assign? && e.target == c.numLocations
  {
    var error, edges := c.numLocations, WithUniqueError(c, field).edges;
    if c.errors == map[] {
      assert DummyEdge(c, error, field) in edges;
    } else {
      var l :| l in c.errors;
      assert WireEdge(c, l, error, field) in WireEdges(c, c.numLocations, error, field);
      assert WireEdge(c, l, error, field) in edges;
    }
  }

  /** Adding the unique error location keeps exactly the reachable error codes. */
  lemma {:induction false} UniqueErrorKeepsErrors(S: System, T: System, root: nat, field: Variable, code: Value)
    requires Extends(S, T, root, field)
    ensures CanFail(T, root, code) <==> CanFail(S, root, code)
  {
    StackIffDerivation(S, root, code);
    StackIffDerivation(T, root, code);
    hide Fails, CanFail;
    if Derivable(T, root, code) {
      var w, fail :| Fails(T, root, T[root].entry, w, fail, code);
      var fail' := WithoutGoal(S, T, root, field, S[root].entry, w, w, fail, code);
      assert Fails(S, root, S[root].entry, w, fail', code);
    }
    if Derivable(S, root, code) {
      var v, fail :| Fails(S, root, S[root].entry, v, fail, code);
      WithGoal(S, T, root, field, S[root].entry, v, fail, code);
      assert Fails(T, root, T[root].entry, v, fail, code);
    }
  }
}
