/** Every error of the cyclic root is an error of the recursive system. A failing run of the new
    root is cut where it enters and leaves the clone; each trip through the clone is turned back
    into a call, each back-edge into a nested recursive call. */
module CyclicToRecursive {
  import opened Exprs
  import opened Automata
  import opened AssignLists
  import opened TailInlining
  import opened TailInliningProof

  function Size(fail: Failure): nat {
    match fail
    case Here => 0
    case After(_, _, rest) => 1 + Size(rest)
    case Past(_, _, _, _, rest) => 1 + Size(rest)
    case Inside(_, _, inner) => 1 + Size(inner)
  }

  /** How a failing run that is inside the clone goes on: it fails there, or it leaves the clone
      with valuation `w` and a shorter run fails from the call's target. */
  datatype CloneOutcome = FailsThere(fail: Failure) | LeavesWith(run: Run, final: Valuation, w: Valuation, rest: Failure)

  ghost predicate Outputs(I: Inlining, u: Valuation, w: Valuation)
    requires I.InRange()
  {
    Agree(u, w, I.ren, set x | x in I.Callee().outputs)
  }

  ghost predicate Accounts(I: Inlining, l: Loc, v: Valuation, w: Valuation, size: nat, code: Value, o: CloneOutcome)
    requires I.InRange()
  {
    match o
    case FailsThere(fail) => Fails(I.S, I.F(), l, v, fail, code)
    case LeavesWith(run, final, w', rest) =>
      && Completes(I.S, I.F(), l, v, run, final) && Outputs(I, final, w') && RestKept(I, w, w')
      && Size(rest) < size && Fails(I.Result(), I.root, I.Edge().target, w', rest, code)
  }

  ghost predicate InClone(I: Inlining, l: Loc, v: Valuation, w: Valuation) {
    I.InRange() && I.Valid() && l < I.Callee().numLocations && Agree(v, w, I.ren, VariablesOf(I.Callee()))
  }

  /** An outcome after a first step that the callee can take as well. */
  lemma {:induction false} Prepend(I: Inlining, l: Loc, v: Valuation, w: Valuation, e: Transition, choices: seq<Value>,
                                   w': Valuation, size: nat, code: Value, o: CloneOutcome) returns (o': CloneOutcome)
    requires I.InRange() && CanTake(I.S, I.F(), l, v, e) && RestKept(I, w, w')
    requires Accounts(I, e.target, Exec(e.assigns, v, choices), w', size, code, o)
    ensures Accounts(I, l, v, w, size + 1, code, o')
  {
    o' := match o
      case FailsThere(fail) => FailsThere(After(e, choices, fail))
      case LeavesWith(run, final, w'', rest) => LeavesWith(Step(e, choices, run), final, w'', rest);
  }

  lemma {:induction false} PrependCall(I: Inlining, l: Loc, v: Valuation, w: Valuation, e: Transition, init: Valuation, body: Run, final: Valuation,
                                       w': Valuation, size: nat, code: Value, o: CloneOutcome) returns (o': CloneOutcome)
    requires I.InRange() && CanCall(I.S, I.F(), l, v, e, init) && RestKept(I, w, w')
    requires Leads(I.S, e.callee, I.S[e.callee].entry, init, body, I.S[e.callee].exit, final)
    requires Accounts(I, e.target, Returned(e.outputs, v, final), w', size, code, o)
    ensures Accounts(I, l, v, w, size + 1, code, o')
  {
    o' := match o
      case FailsThere(fail) => FailsThere(Past(e, init, body, final, fail))
      case LeavesWith(run, u, w'', rest) => LeavesWith(Through(e, init, body, final, run), u, w'', rest);
  }

  /** What happens after a back-edge happens inside a nested call, whose outputs are handed on. */
  lemma {:induction false} Nest(I: Inlining, l: Loc, v: Valuation, w: Valuation, e: Transition, init: Valuation, w': Valuation,
                                size: nat, code: Value, o: CloneOutcome) returns (o': CloneOutcome)
    requires I.InRange() && I.Valid() && e in I.Callee().edges && e.Call? && e.callee == I.F() && e.source == l
    requires Passes(e.inputs, v, init) && RestKept(I, w, w') && Accounts(I, I.Callee().entry, init, w', size, code, o)
    ensures Accounts(I, l, v, w, size + 1, code, o')
  {
    var c := I.Callee();
    assert SelfCallShape(c, e);
    assert Holds(True(), v);
    assert CanCall(I.S, I.F(), l, v, e, init);
    match o
    case FailsThere(fail) => o' := FailsThere(Inside(e, init, fail));
    case LeavesWith(run, final, w'', rest) =>
      var u := Returned(e.outputs, v, final);
      IdentityOutputs(c, e, v, final);
      assert Leads(I.S, I.F(), c.exit, u, Stop, c.exit, u);
      o' := LeavesWith(Through(e, init, run, final, Stop), u, w'', rest);
  }

  lemma {:induction false} IdentityOutputs(c: Cfa, e: Transition, v: Valuation, final: Valuation)
    requires SelfCallShape(c, e)
    ensures forall x | x in c.outputs :: Get(Returned(e.outputs, v, final), x) == Get(final, x)
  {
    forall x | x in c.outputs ensures Get(Returned(e.outputs, v, final), x) == Get(final, x) {
      var a :| a in e.outputs && a.value == VarRef(x);
      var i :| 0 <= i < |e.outputs| && e.outputs[i] == a;
      ReturnedAt(e.outputs, v, final, i);
      assert Eval(VarRef(x), final) == Get(final, x);
    }
  }

  lemma {:induction false} ErrorReported(I: Inlining, l: Loc, v: Valuation, w: Valuation, choices: seq<Value>, rest: Failure, code: Value)
    requires InClone(I, l, v, w) && l in I.Callee().errors
    requires var e' := ErrorEdge(I.Callee(), l, I.Offset(), I.error, I.field);
             Fails(I.Result(), I.root, I.error, Exec(e'.assigns, w, choices), rest, code)
    ensures Fails(I.S, I.F(), l, v, Here, code)
  {
    var c := I.Callee();
    var field := c.errors[l];
    NoWayOn(I, Exec([Assignment(I.field, field)], w, choices), rest, code);
    SingleAssign(Assignment(I.field, field), w, choices);
    assert ClosedCode(field);
    TypeSoundness(field, w);
    EvalCongruence(field, v, w);
    hide Exec, Eval;
  }

  lemma {:induction false} ErrorIsFinal(I: Inlining, e': Transition)
    requires I.InRange() && I.Valid() && e' in I.NewRoot().edges && !e'.Disconnected?
    ensures e'.source != I.error
  {
    hide InlinedEdges, RenameAssigns, RenameInputs, RenameOutputs, BackArgs, EntryArgs, Renamed, Vars;
    var o := OriginOf(I, e');
    assert I.Edge() in I.Root().edges;
  }

  /** No edge leaves the unique error location. */
  lemma {:induction false} NoWayOn(I: Inlining, w: Valuation, fail: Failure, code: Value)
    requires I.InRange() && I.Valid() && Fails(I.Result(), I.root, I.error, w, fail, code)
    ensures fail.Here? && code == Get(w, I.field)
  {
    if fail.Here? {
      assert Eval(VarRef(I.field), w) == Get(w, I.field);
    } else {
      ErrorIsFinal(I, fail.edge);
    }
  }

  /** The edge of the callee behind an edge of the new root that leaves a cloned location. */
  lemma {:induction false} CloneSource(I: Inlining, l: Loc, e': Transition) returns (g: Origin)
    requires I.InRange() && I.Valid() && l < I.Callee().numLocations
    requires e' in I.NewRoot().edges && !e'.Disconnected? && e'.source == I.Offset() + l
    ensures Originates(I, e', g)
    ensures (g.FromExit? && l == I.Callee().exit) || (g.ToError? && g.l == l) || (g.Cloned? && !g.e.Disconnected? && g.e.source == l)
    ensures !g.Cloned? ==> e'.Assign?
    ensures g.Cloned? ==> var e := g.e;
              && e in I.Callee().edges && e' == I.Clone(e)
              && (e.Assign? ==> e'.Assign? && e'.target == I.Offset() + e.target)
              && (e.Call? && e.callee == I.F() ==> e'.Assign? && e'.target == I.Offset() + I.Callee().entry)
              && (e.Call? && e.callee != I.F() ==> e'.Call? && e'.callee == e.callee && e'.target == I.Offset() + e.target)
  {
    hide InlinedEdges, RenameAssigns, RenameInputs, RenameOutputs, BackArgs, EntryArgs, Renamed, Vars;
    g := OriginOf(I, e');
    assert g.Kept? ==> EdgeScoped(e', I.Offset(), VariablesOf(I.Root()));
    assert EdgeScoped(I.Edge(), I.Offset(), VariablesOf(I.Root()));
  }

  /** A run that takes a clone of an assignment edge. */
  lemma {:induction false} StepBack(I: Inlining, l: Loc, v: Valuation, w: Valuation, e: Transition, choices: seq<Value>)
    requires InClone(I, l, v, w) && e in I.Callee().edges && e.Assign? && e.source == l && Holds(I.Clone(e).guard, w)
    ensures CanTake(I.S, I.F(), l, v, e)
    ensures e.target < I.Callee().numLocations && InClone(I, e.target, Exec(e.assigns, v, choices), Exec(I.Clone(e).assigns, w, choices))
    ensures RestKept(I, w, Exec(I.Clone(e).assigns, w, choices))
  {
    var xs := VariablesOf(I.Callee());
    assert EdgeScoped(e, I.Callee().numLocations, xs);
    ReadsWithinScope(e.assigns, xs, xs);
    AssignCloned(I, e, v, w, choices, xs);
    hide Exec, CloneEdge, ReadsWithin;
  }

  /** A run that takes a back-edge: a nested call with the arguments it assigned. */
  lemma {:induction false} LoopBack(I: Inlining, l: Loc, v: Valuation, w: Valuation, e: Transition, choices: seq<Value>)
    requires InClone(I, l, v, w) && e in I.Callee().edges && e.Call? && e.callee == I.F()
    ensures var w' := Exec(I.Clone(e).assigns, w, choices);
            Passes(e.inputs, v, Pull(w', I.ren)) && I.Callee().entry < I.Callee().numLocations
            && InClone(I, I.Callee().entry, Pull(w', I.ren), w') && RestKept(I, w, w')
  {
    var xs, c := VariablesOf(I.Callee()), I.Callee();
    assert EdgeScoped(e, c.numLocations, xs) && SelfCallShape(c, e);
    LoopedBack(I, e, v, w, choices, xs);
    ReceivesPasses(e.inputs, c.inputs, I.ren, v, Exec(I.Clone(e).assigns, w, choices), choices);
    hide Exec, CloneEdge, Receives, Pull, Passes;
  }

  /** A run that takes a clone of a call to another automaton. */
  lemma {:induction false} CallBack(I: Inlining, l: Loc, v: Valuation, w: Valuation, e: Transition, init: Valuation)
    requires I.InRange() && InClone(I, l, v, w) && e in I.Callee().edges && e.Call? && e.callee != I.F() && e.source == l
    requires CanCall(I.Result(), I.root, I.Offset() + l, w, I.Clone(e), init)
    ensures CanCall(I.S, I.F(), l, v, e, init) && e.callee != I.root
  {
    var xs := VariablesOf(I.Callee());
    assert EdgeScoped(e, I.Callee().numLocations, xs);
    EvalRenamed(e.guard, v, w, I.ren, xs);
    PassesRenamed(e.inputs, v, w, init, I.ren, xs);
    hide Eval, Renamed, Passes;
  }

  lemma {:induction false} ReturnBack(I: Inlining, l: Loc, v: Valuation, w: Valuation, e: Transition, final: Valuation)
    requires I.InRange() && InClone(I, l, v, w) && e in I.Callee().edges && e.Call? && e.callee != I.F() && e.source == l
    ensures var w' := Returned(I.Clone(e).outputs, w, final);
            e.target < I.Callee().numLocations && InClone(I, e.target, Returned(e.outputs, v, final), w') && RestKept(I, w, w')
  {
    var xs := VariablesOf(I.Callee());
    assert EdgeScoped(e, I.Callee().numLocations, xs);
    CallCloned(I, e, v, w, final, xs);
    hide Returned, CloneEdge;
  }

  lemma {:induction false} NewRootNeverCalls(I: Inlining, e: Transition)
    requires I.InRange() && I.Valid() && e in I.NewRoot().edges && e.Call?
    ensures e.callee != I.root
  {
    hide InlinedEdges, RenameAssigns, RenameInputs, RenameOutputs, BackArgs, EntryArgs, Renamed, Vars;
    var g := OriginOf(I, e);
  }

  lemma {:induction false} ResultNeverCalls(I: Inlining)
    requires I.InRange() && I.Valid()
    ensures NeverCalls(I.Result(), I.root)
  {
    var T := I.Result();
    forall f, e | 0 <= f < |T| && e in T[f].edges && e.Call? ensures e.callee != I.root {
      if f == I.root {
        NewRootNeverCalls(I, e);
      }
      hide InlinedEdges;
    }
  }

  lemma {:induction false} BodyElsewhere(I: Inlining, f: nat, init: Valuation, body: Run, final: Valuation)
    requires I.InRange() && I.Valid() && f < |I.S| && f != I.root
    requires Leads(I.Result(), f, I.Result()[f].entry, init, body, I.Result()[f].exit, final)
    ensures Leads(I.S, f, I.S[f].entry, init, body, I.S[f].exit, final)
  {
    hide InlinedEdges, RenameAssigns, RenameInputs, RenameOutputs, BackArgs, EntryArgs, Renamed;
    ResultNeverCalls(I);
    hide NeverCalls;
    RunsElsewhere(I.Result(), I.S, I.root, f, I.S[f].entry, init, body, I.S[f].exit, final);
  }

  lemma {:induction false} FailureElsewhere(I: Inlining, f: nat, init: Valuation, inner: Failure, code: Value)
    requires I.InRange() && I.Valid() && f < |I.S| && f != I.root && Fails(I.Result(), f, I.Result()[f].entry, init, inner, code)
    ensures Fails(I.S, f, I.S[f].entry, init, inner, code)
  {
    hide InlinedEdges, RenameAssigns, RenameInputs, RenameOutputs, BackArgs, EntryArgs, Renamed;
    ResultNeverCalls(I);
    hide NeverCalls;
    FailsElsewhere(I.Result(), I.S, I.root, f, I.S[f].entry, init, inner, code);
  }

  lemma {:induction false} FromCloneEnd(I: Inlining, l: Loc, v: Valuation, w: Valuation, e': Transition, choices: seq<Value>, rest: Failure, code: Value, g: Origin)
    returns (o: CloneOutcome)
    requires I.InRange() && InClone(I, l, v, w) && e'.Assign? && Originates(I, e', g) && ((g.FromExit? && l == I.Callee().exit) || (g.ToError? && g.l == l))
    requires Fails(I.Result(), I.root, e'.target, Exec(e'.assigns, w, choices), rest, code)
    ensures Accounts(I, l, v, w, Size(rest) + 1, code, o)
  {
    if g.FromExit? {
      assert Exec(e'.assigns, w, choices) == w;
      o := LeavesWith(Stop, v, w, rest);
    } else {
      ErrorReported(I, l, v, w, choices, rest, code);
      o := FailsThere(Here);
    }
  }

  lemma {:induction false} FromCloneStep(I: Inlining, l: Loc, v: Valuation, w: Valuation, e': Transition, choices: seq<Value>, rest: Failure, code: Value)
    returns (o: CloneOutcome)
    requires I.InRange() && I.Valid() && InClone(I, l, v, w) && l < I.Callee().numLocations
    requires e' in I.NewRoot().edges && e'.Assign? && e'.source == I.Offset() + l && Holds(e'.guard, w)
    requires Fails(I.Result(), I.root, e'.target, Exec(e'.assigns, w, choices), rest, code)
    ensures Accounts(I, l, v, w, Size(rest) + 1, code, o)
    decreases Size(rest) + 1, 1
  {
    hide *;
    var g := CloneSource(I, l, e');
    if !g.Cloned? {
      o := FromCloneEnd(I, l, v, w, e', choices, rest, code, g);
    } else if g.e.Assign? {
      o := FromCloneAssign(I, l, v, w, g.e, choices, rest, code);
    } else {
      o := FromCloneLoop(I, l, v, w, g.e, choices, rest, code);
    }
  }

  lemma {:induction false} FromCloneAssign(I: Inlining, l: Loc, v: Valuation, w: Valuation, e: Transition, choices: seq<Value>, rest: Failure, code: Value)
    returns (o: CloneOutcome)
    requires I.InRange() && I.Valid() && InClone(I, l, v, w) && e in I.Callee().edges && e.Assign? && e.source == l && I.Clone(e).Assign? && Holds(I.Clone(e).guard, w)
    requires Fails(I.Result(), I.root, I.Offset() + e.target, Exec(I.Clone(e).assigns, w, choices), rest, code)
    ensures Accounts(I, l, v, w, Size(rest) + 1, code, o)
    decreases Size(rest) + 1, 0
  {
    hide *;
    StepBack(I, l, v, w, e, choices);
    var w' := Exec(I.Clone(e).assigns, w, choices);
    o := FromClone(I, e.target, Exec(e.assigns, v, choices), w', rest, code);
    o := Prepend(I, l, v, w, e, choices, w', Size(rest), code, o);
  }

  lemma {:induction false} FromCloneLoop(I: Inlining, l: Loc, v: Valuation, w: Valuation, e: Transition, choices: seq<Value>, rest: Failure, code: Value)
    returns (o: CloneOutcome)
    requires I.InRange() && I.Valid() && InClone(I, l, v, w) && e in I.Callee().edges && e.Call? && e.callee == I.F() && e.source == l
    requires I.Clone(e).Assign? && Fails(I.Result(), I.root, I.Offset() + I.Callee().entry, Exec(I.Clone(e).assigns, w, choices), rest, code)
    ensures Accounts(I, l, v, w, Size(rest) + 1, code, o)
    decreases Size(rest) + 1, 0
  {
    hide *;
    LoopBack(I, l, v, w, e, choices);
    var w' := Exec(I.Clone(e).assigns, w, choices);
    var init := Pull(w', I.ren);

    o := FromClone(I, I.Callee().entry, init, w', rest, code);
    o := Nest(I, l, v, w, e, init, w', Size(rest), code, o);
  }

  lemma {:induction false} FromCloneCall(I: Inlining, l: Loc, v: Valuation, w: Valuation, e': Transition, init: Valuation, body: Run, final: Valuation, rest: Failure, code: Value)
    returns (o: CloneOutcome)
    requires I.InRange() && I.Valid() && InClone(I, l, v, w) && l < I.Callee().numLocations
    requires e' in I.NewRoot().edges && e'.Call? && e'.source == I.Offset() + l && e'.callee < |I.S| && |I.Result()| == |I.S|
    requires CanCall(I.Result(), I.root, I.Offset() + l, w, e', init)
    requires Leads(I.Result(), e'.callee, I.Result()[e'.callee].entry, init, body, I.Result()[e'.callee].exit, final)
    requires Fails(I.Result(), I.root, e'.target, Returned(e'.outputs, w, final), rest, code)
    ensures Accounts(I, l, v, w, Size(rest) + 1, code, o)
    decreases Size(rest) + 1, 0
  {
    hide *;
    var g := CloneSource(I, l, e');
    CallBack(I, l, v, w, g.e, init);
    BodyElsewhere(I, e'.callee, init, body, final);
    ReturnBack(I, l, v, w, g.e, final);
    var w' := Returned(e'.outputs, w, final);
    o := FromClone(I, g.e.target, Returned(g.e.outputs, v, final), w', rest, code);
    o := PrependCall(I, l, v, w, g.e, init, body, final, w', Size(rest), code, o);
  }

  lemma {:induction false} ResultFacts(I: Inlining)
    requires I.InRange()
    ensures |I.Result()| == |I.S| && I.Result()[I.root] == I.NewRoot()
  {
    hide InlinedEdges;
  }

  lemma {:induction false} CloneNotError(I: Inlining, l: Loc, w: Valuation, code: Value)
    requires I.InRange() && I.Valid()
    ensures !ErrorAt(I.Result(), I.root, I.Offset() + l, w, code)
  {
    hide InlinedEdges;
  }

  lemma {:induction false} FromCloneInside(I: Inlining, l: Loc, v: Valuation, w: Valuation, e': Transition, init: Valuation, inner: Failure, code: Value)
    returns (o: CloneOutcome)
    requires I.InRange() && I.Valid() && InClone(I, l, v, w) && l < I.Callee().numLocations
    requires e' in I.NewRoot().edges && e'.Call? && e'.source == I.Offset() + l && e'.callee < |I.S| && |I.Result()| == |I.S|
    requires CanCall(I.Result(), I.root, I.Offset() + l, w, e', init) && Fails(I.Result(), e'.callee, I.Result()[e'.callee].entry, init, inner, code)
    ensures Accounts(I, l, v, w, Size(inner) + 1, code, o)
  {
    hide InlinedEdges, CloneEdge, Inlining.Valid;
    var g := CloneSource(I, l, e');
    CallBack(I, l, v, w, g.e, init);
    FailureElsewhere(I, e'.callee, init, inner, code);
    o := FailsThere(Inside(g.e, init, inner));
  }

  /** Whatever fails from a cloned location is accounted for by the callee itself. */
  lemma {:induction false} FromClone(I: Inlining, l: Loc, v: Valuation, w: Valuation, fail: Failure, code: Value) returns (o: CloneOutcome)
    requires I.InRange() && I.Valid() && InClone(I, l, v, w) && l < I.Callee().numLocations
    requires Fails(I.Result(), I.root, I.Offset() + l, w, fail, code)
    ensures Accounts(I, l, v, w, Size(fail), code, o)
    decreases Size(fail), 2
  {
    SizeOf(fail);
    hide *;
    ResultFacts(I);
    UnfoldFailure(I.Result(), I.root, I.Offset() + l, w, fail, code);
    match fail
    case Here => CloneNotError(I, l, w, code); o := FailsThere(Here);
    case After(e', choices, rest) => o := FromCloneStep(I, l, v, w, e', choices, rest, code);
    case Past(e', init, body, final, rest) => o := FromCloneCall(I, l, v, w, e', init, body, final, rest, code);
    case Inside(e', init, inner) => o := FromCloneInside(I, l, v, w, e', init, inner, code);
  }

  lemma {:induction false} SizeOf(fail: Failure)
    ensures match fail
            case Here => true
            case After(_, _, rest) => Size(fail) == Size(rest) + 1
            case Past(_, _, _, _, rest) => Size(fail) == Size(rest) + 1
            case Inside(_, _, inner) => Size(fail) == Size(inner) + 1
  {
  }

  // ---- The root ----

  ghost predicate AtRoot(I: Inlining, l: Loc, v: Valuation, w: Valuation) {
    I.InRange() && I.Valid() && l < I.Offset() && Same(v, w, VariablesOf(I.Root()))
  }

  /** The root's own edge behind an edge of the new root that leaves one of its old locations. */
  lemma {:induction false} RootSource(I: Inlining, l: Loc, e': Transition) returns (g: Origin)
    requires I.InRange() && I.Valid() && l < I.Offset() && e' in I.NewRoot().edges && !e'.Disconnected? && e'.source == l
    ensures Originates(I, e', g) && (g.Kept? || (g.ToEntry? && l == I.Edge().source))
  {
    hide InlinedEdges, RenameAssigns, RenameInputs, RenameOutputs, BackArgs, EntryArgs, Renamed;
    g := OriginOf(I, e');
  }

  lemma {:induction false} RootSteps(I: Inlining, l: Loc, v: Valuation, w: Valuation, e: Transition, choices: seq<Value>)
    requires AtRoot(I, l, v, w) && e in I.Root().edges && e.Assign?
    ensures Holds(e.guard, v) <==> Holds(e.guard, w)
    ensures AtRoot(I, e.target, Exec(e.assigns, v, choices), Exec(e.assigns, w, choices))
  {
    var xs := VariablesOf(I.Root());
    assert EdgeScoped(e, I.Offset(), xs);
    EvalCongruence(e.guard, v, w);
    ExecSame(e.assigns, v, w, choices, xs);
    hide Exec;
  }

  lemma {:induction false} RootCalls(I: Inlining, l: Loc, v: Valuation, w: Valuation, e: Transition, init: Valuation)
    requires AtRoot(I, l, v, w) && e in I.Root().edges && e.Call?
    ensures Holds(e.guard, v) <==> Holds(e.guard, w)
    ensures Passes(e.inputs, v, init) <==> Passes(e.inputs, w, init)
    ensures forall final :: AtRoot(I, e.target, Returned(e.outputs, v, final), Returned(e.outputs, w, final))
  {
    var xs := VariablesOf(I.Root());
    assert EdgeScoped(e, I.Offset(), xs);
    EvalCongruence(e.guard, v, w);
    forall a | a in e.inputs ensures Eval(a.value, v) == Eval(a.value, w) { EvalCongruence(a.value, v, w); }
    hide Eval;
    forall final ensures AtRoot(I, e.target, Returned(e.outputs, v, final), Returned(e.outputs, w, final)) {
      ReturnedSame(e.outputs, v, w, final, xs);
    }
  }

  /** Entering the clone is entering the call. */
  lemma {:induction false} RootEnters(I: Inlining, l: Loc, v: Valuation, w: Valuation, choices: seq<Value>)
    requires AtRoot(I, l, v, w) && l == I.Edge().source && Holds(I.Edge().guard, w)
    ensures var w' := Exec(EntryEdge(I.Edge(), I.Callee(), I.ren, I.Offset()).assigns, w, choices);
            && CanCall(I.S, I.root, l, v, I.Edge(), Pull(w', I.ren)) && InClone(I, I.Callee().entry, Pull(w', I.ren), w')
            && Same(v, w', VariablesOf(I.Root()))
  {
    RootCalls(I, l, v, w, I.Edge(), map[]);
    Entered(I, v, w, choices);
    var w' := Exec(EntryEdge(I.Edge(), I.Callee(), I.ren, I.Offset()).assigns, w, choices);
    ReceivesPasses(I.Edge().inputs, I.Callee().inputs, I.ren, v, w', choices);
    hide Exec, Receives, Pull, Passes;
  }

  /** Leaving the clone gives the root what the returning call would have given it. */
  lemma {:induction false} RootResumes(I: Inlining, v: Valuation, w: Valuation, w': Valuation, final: Valuation)
    requires I.InRange() && I.Valid() && Same(v, w, VariablesOf(I.Root())) && RestKept(I, w, w') && Outputs(I, final, w')
    ensures AtRoot(I, I.Edge().target, Returned(I.Edge().outputs, v, final), w')
  {
    var outs := I.Edge().outputs;
    assert EdgeScoped(I.Edge(), I.Offset(), VariablesOf(I.Root()));
    forall y | y in VariablesOf(I.Root()) ensures Get(Returned(outs, v, final), y) == Get(w', y) {
      if y in Written(outs) {
        var i :| 0 <= i < |outs| && outs[i].variable == y;
        ReturnedAt(outs, v, final, i);
        var o := outs[i].value.variable;
        assert outs[i] in outs && o in VariablesOf(I.Callee());
        assert Eval(outs[i].value, final) == Get(final, o);
        hide Returned;
      } else {
        ReturnedFrame(outs, v, final, y);
      }
    }
  }

  lemma {:induction false} FromRootEntry(I: Inlining, l: Loc, v: Valuation, w: Valuation, choices: seq<Value>, rest: Failure, code: Value) returns (fail: Failure)
    requires AtRoot(I, l, v, w) && l == I.Edge().source && Holds(I.Edge().guard, w)
    requires Fails(I.Result(), I.root, I.Offset() + I.Callee().entry,
                   Exec(EntryEdge(I.Edge(), I.Callee(), I.ren, I.Offset()).assigns, w, choices), rest, code)
    ensures Fails(I.S, I.root, l, v, fail, code)
    decreases Size(rest) + 1, 0
  {
    RootEnters(I, l, v, w, choices);
    var w' := Exec(EntryEdge(I.Edge(), I.Callee(), I.ren, I.Offset()).assigns, w, choices);
    var init := Pull(w', I.ren);
    var o := FromClone(I, I.Callee().entry, init, w', rest, code);
    match o
    case FailsThere(inner) => fail := Inside(I.Edge(), init, inner);
    case LeavesWith(run, final, w'', later) =>
      RootResumes(I, v, w', w'', final);
      fail := FromRoot(I, I.Edge().target, Returned(I.Edge().outputs, v, final), w'', later, code);
      fail := Past(I.Edge(), init, run, final, fail);
  }

  lemma {:induction false} FromRootStep(I: Inlining, l: Loc, v: Valuation, w: Valuation, e: Transition, choices: seq<Value>, rest: Failure, code: Value) returns (fail: Failure)
    requires AtRoot(I, l, v, w) && CanTake(I.Result(), I.root, l, w, e) && Fails(I.Result(), I.root, e.target, Exec(e.assigns, w, choices), rest, code)
    ensures Fails(I.S, I.root, l, v, fail, code)
    decreases Size(rest) + 1, 1
  {
    var g := RootSource(I, l, e);
    if g.ToEntry? {
      fail := FromRootEntry(I, l, v, w, choices, rest, code);
    } else {
      RootSteps(I, l, v, w, e, choices);
      fail := FromRoot(I, e.target, Exec(e.assigns, v, choices), Exec(e.assigns, w, choices), rest, code);
      fail := After(e, choices, fail);
    }
  }

  /** A failure of the new root, replayed in the recursive system. */
  lemma {:induction false} FromRoot(I: Inlining, l: Loc, v: Valuation, w: Valuation, fail: Failure, code: Value) returns (fail': Failure)
    requires AtRoot(I, l, v, w) && Fails(I.Result(), I.root, l, w, fail, code)
    ensures Fails(I.S, I.root, l, v, fail', code)
    decreases Size(fail), 2
  {
    match fail
    case Here =>
      EvalCongruence(I.Root().errors[l], v, w);
      fail' := Here;
    case After(e, choices, rest) => fail' := FromRootStep(I, l, v, w, e, choices, rest, code);
    case Past(e, init, body, final, rest) =>
      var g := RootSource(I, l, e);
      RootCalls(I, l, v, w, e, init);
      BodyElsewhere(I, e.callee, init, body, final);
      fail' := FromRoot(I, e.target, Returned(e.outputs, v, final), Returned(e.outputs, w, final), rest, code);
      fail' := Past(e, init, body, final, fail');
    case Inside(e, init, inner) =>
      var g := RootSource(I, l, e);
      RootCalls(I, l, v, w, e, init);
      FailureElsewhere(I, e.callee, init, inner, code);
      fail' := Inside(e, init, inner);
  }

  /** Whatever code the cyclic root can report, the recursive system can report. */
  lemma {:induction false} CyclicErrorsAreReal(I: Inlining, code: Value)
    requires I.InRange() && I.Valid() && CanFail(I.Result(), I.root, code)
    ensures CanFail(I.S, I.root, code)
  {
    StackIffDerivation(I.Result(), I.root, code);
    StackIffDerivation(I.S, I.root, code);
    hide Fails, CanFail;
    var w, fail :| Fails(I.Result(), I.root, I.Result()[I.root].entry, w, fail, code);
    var fail' := FromRoot(I, I.Root().entry, w, w, fail, code);
    assert Fails(I.S, I.root, I.S[I.root].entry, w, fail', code);
  }
}
