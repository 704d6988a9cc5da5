/** Every error of the recursive system is an error of the cyclic root, provided the inlined
    automaton defines its locals and outputs before it uses them: the clone keeps the values of
    earlier iterations where a fresh activation would start with arbitrary ones. */
module RecursiveToCyclicProof {
  import opened Exprs
  import opened Automata
  import opened AssignLists
  import opened TailInlining
  import opened TailInliningProof
  import opened CyclicToRecursive

  /** `D[l]` is a set of variables that every path from the entry to `l` has defined. */
  ghost predicate EdgeDefines(e: Transition, f: nat, D: seq<set<Variable>>) {
    match e
    case Disconnected => true
    case Assign(s, t, g, assigns) =>
      s < |D| && t < |D| && Vars(g) <= D[s] && ReadsWithin(assigns, D[s]) && D[t] <= D[s] + Written(assigns)
    case Call(s, t, g, callee, ins, outs) =>
      && s < |D| && t < |D| && Vars(g) <= D[s] && (forall a | a in ins :: Vars(a.value) <= D[s])
      && (callee != f ==> D[t] <= D[s] + Written(outs))
  }

  ghost predicate DefinedBeforeUse(c: Cfa, f: nat, D: seq<set<Variable>>) {
    && |D| == c.numLocations && c.entry < |D| && c.exit < |D|
    && (forall l | 0 <= l < |D| :: D[l] <= VariablesOf(c))
    && (forall x | x in D[c.entry] :: x in c.inputs)
    && D[c.exit] == (set x | x in c.outputs)
    && (forall e | e in c.edges :: EdgeDefines(e, f, D))
  }

  /** The clone agrees with the activation on what is defined at the current location. */
  ghost predicate Tracks(I: Inlining, D: seq<set<Variable>>, l: Loc, v: Valuation, w: Valuation) {
    && I.InRange() && I.Valid() && DefinedBeforeUse(I.Callee(), I.F(), D)
    && l < I.Callee().numLocations && Agree(v, w, I.ren, D[l])
  }

  lemma {:induction false} TrackStep(I: Inlining, D: seq<set<Variable>>, l: Loc, v: Valuation, w: Valuation, e: Transition, choices: seq<Value>)
    requires Tracks(I, D, l, v, w) && CanTake(I.S, I.F(), l, v, e)
    ensures CanTake(I.Result(), I.root, I.Offset() + l, w, I.Clone(e)) && I.Clone(e).target == I.Offset() + e.target
    ensures Tracks(I, D, e.target, Exec(e.assigns, v, choices), Exec(I.Clone(e).assigns, w, choices))
    ensures RestKept(I, w, Exec(I.Clone(e).assigns, w, choices))
  {
    hide InlinedEdges, RenameAssigns, RenameInputs, RenameOutputs, BackArgs, EntryArgs, Renamed;
    assert EdgeDefines(e, I.F(), D);
    AssignCloned(I, e, v, w, choices, D[l]);
    EdgeCloned(I, e);
  }

  lemma {:induction false} TrackCall(I: Inlining, D: seq<set<Variable>>, l: Loc, v: Valuation, w: Valuation, e: Transition, init: Valuation)
    requires Tracks(I, D, l, v, w) && CanCall(I.S, I.F(), l, v, e, init) && e.callee != I.F()
    ensures CanCall(I.Result(), I.root, I.Offset() + l, w, I.Clone(e), init) && I.Clone(e).target == I.Offset() + e.target
    ensures e.callee != I.root && I.Clone(e).callee == e.callee
  {
    hide InlinedEdges, RenameAssigns, RenameInputs, RenameOutputs, BackArgs, EntryArgs, Renamed;
    assert EdgeDefines(e, I.F(), D);
    EvalRenamed(e.guard, v, w, I.ren, D[l]);
    PassesRenamed(e.inputs, v, w, init, I.ren, D[l]);
    EdgeCloned(I, e);
    hide Eval, Renamed, Passes;
  }

  lemma {:induction false} TrackReturn(I: Inlining, D: seq<set<Variable>>, l: Loc, v: Valuation, w: Valuation, e: Transition, final: Valuation)
    requires Tracks(I, D, l, v, w) && e in I.Callee().edges && e.Call? && e.callee != I.F() && e.source == l
    ensures var w' := Returned(I.Clone(e).outputs, w, final);
            Tracks(I, D, e.target, Returned(e.outputs, v, final), w') && RestKept(I, w, w')
  {
    assert EdgeDefines(e, I.F(), D);
    CallCloned(I, e, v, w, final, D[l]);
    hide Returned;
  }

  /** A recursive call becomes a step along its back-edge. */
  lemma {:induction false} TrackLoop(I: Inlining, D: seq<set<Variable>>, l: Loc, v: Valuation, w: Valuation, e: Transition, init: Valuation)
    requires Tracks(I, D, l, v, w) && CanCall(I.S, I.F(), l, v, e, init) && e.callee == I.F()
    ensures var choices := StartValues(I.Callee().inputs, init);
            && I.Clone(e).Assign? && CanTake(I.Result(), I.root, I.Offset() + l, w, I.Clone(e))
            && I.Clone(e).target == I.Offset() + I.Callee().entry
            && Tracks(I, D, I.Callee().entry, init, Exec(I.Clone(e).assigns, w, choices))
            && RestKept(I, w, Exec(I.Clone(e).assigns, w, choices))
  {
    hide InlinedEdges, RenameAssigns, RenameInputs, RenameOutputs, BackArgs, EntryArgs, Renamed;
    var c := I.Callee();
    var choices := StartValues(c.inputs, init);
    assert EdgeDefines(e, I.F(), D) && SelfCallShape(c, e);
    assert Holds(True(), w);
    LoopedBack(I, e, v, w, choices, D[l]);
    PassesReceives(e.inputs, c.inputs, I.ren, v, Exec(I.Clone(e).assigns, w, choices), init);
    EdgeCloned(I, e);
  }

  lemma {:induction false} NowElsewhere(I: Inlining, f: nat, init: Valuation, body: Run, final: Valuation)
    requires I.InRange() && I.Valid() && f < |I.S| && f != I.root && Leads(I.S, f, I.S[f].entry, init, body, I.S[f].exit, final)
    ensures Leads(I.Result(), f, I.Result()[f].entry, init, body, I.Result()[f].exit, final)
  {
    hide InlinedEdges, RenameAssigns, RenameInputs, RenameOutputs, BackArgs, EntryArgs, Renamed;
    RunsElsewhere(I.S, I.Result(), I.root, f, I.S[f].entry, init, body, I.S[f].exit, final);
  }

  lemma {:induction false} FailsNowElsewhere(I: Inlining, f: nat, init: Valuation, inner: Failure, code: Value)
    requires I.InRange() && I.Valid() && f < |I.S| && f != I.root && Fails(I.S, f, I.S[f].entry, init, inner, code)
    ensures Fails(I.Result(), f, I.Result()[f].entry, init, inner, code)
  {
    hide InlinedEdges, RenameAssigns, RenameInputs, RenameOutputs, BackArgs, EntryArgs, Renamed;
    FailsElsewhere(I.S, I.Result(), I.root, f, I.S[f].entry, init, inner, code);
  }

  /** A completed stretch of the callee, replayed in the clone up to the clone of the exit. */
  lemma {:induction false} ReplayRun(I: Inlining, D: seq<set<Variable>>, l: Loc, v: Valuation, w: Valuation, run: Run, u: Valuation)
    returns (run': Run, w': Valuation)
    requires Tracks(I, D, l, v, w) && Leads(I.S, I.F(), l, v, run, I.Callee().exit, u)
    ensures Leads(I.Result(), I.root, I.Offset() + l, w, run', I.Offset() + I.Callee().exit, w')
    ensures Outputs(I, u, w') && RestKept(I, w, w')
    decreases run, 1
  {
    match run
    case Stop => run', w' := Stop, w;
    case Step(e, choices, rest) =>
      TrackStep(I, D, l, v, w, e, choices);
      run', w' := ReplayRun(I, D, e.target, Exec(e.assigns, v, choices), Exec(I.Clone(e).assigns, w, choices), rest, u);
      run' := Step(I.Clone(e), choices, run');
    case Through(e, init, body, final, rest) =>
      if e.callee == I.F() {
        run', w' := ReplayLoop(I, D, l, v, w, e, init, body, final, rest, u);
      } else {
        CallReplayed(I, D, l, v, w, e, init, body, final);
        run', w' := ReplayRun(I, D, e.target, Returned(e.outputs, v, final), Returned(I.Clone(e).outputs, w, final), rest, u);
        run' := Through(I.Clone(e), init, body, final, run');
      }
  }

  /** A call to another automaton that comes back does so in the clone as well. */
  lemma {:induction false} CallReplayed(I: Inlining, D: seq<set<Variable>>, l: Loc, v: Valuation, w: Valuation,
                                        e: Transition, init: Valuation, body: Run, final: Valuation)
    requires Tracks(I, D, l, v, w) && CanCall(I.S, I.F(), l, v, e, init) && e.callee != I.F()
    requires Leads(I.S, e.callee, I.S[e.callee].entry, init, body, I.S[e.callee].exit, final)
    ensures var e' := I.Clone(e); var w' := Returned(e'.outputs, w, final); var T := I.Result();
            && e'.Call? && CanCall(T, I.root, I.Offset() + l, w, e', init)
            && Leads(T, e'.callee, T[e'.callee].entry, init, body, T[e'.callee].exit, final)
            && e'.target == I.Offset() + e.target
            && Tracks(I, D, e.target, Returned(e.outputs, v, final), w') && RestKept(I, w, w')
  {
    TrackCall(I, D, l, v, w, e, init);
    TrackReturn(I, D, l, v, w, e, final);
    NowElsewhere(I, e.callee, init, body, final);
    hide Leads, Returned, Tracks, RestKept, CanCall;
  }

  /** A recursive call that came back is the last thing its caller did: the rest is the loop. */
  lemma {:induction false} ReplayLoop(I: Inlining, D: seq<set<Variable>>, l: Loc, v: Valuation, w: Valuation,
                                      e: Transition, init: Valuation, body: Run, final: Valuation, rest: Run, u: Valuation)
    returns (run': Run, w': Valuation)
    requires I.InRange() && I.Valid() && Tracks(I, D, l, v, w) && CanCall(I.S, I.F(), l, v, e, init)
    requires e in I.Callee().edges && e.Call? && e.callee == I.F()
    requires Leads(I.S, I.F(), I.Callee().entry, init, body, I.Callee().exit, final)
    requires Leads(I.S, I.F(), e.target, Returned(e.outputs, v, final), rest, I.Callee().exit, u)
    ensures Leads(I.Result(), I.root, I.Offset() + l, w, run', I.Offset() + I.Callee().exit, w')
    ensures Outputs(I, u, w') && RestKept(I, w, w')
    decreases body, 2
  {
    hide *;
    SelfCallsShaped(I, e);
    ExitIsFinal(I, Returned(e.outputs, v, final), rest, u);
    TrackLoop(I, D, l, v, w, e, init);
    var choices := StartValues(I.Callee().inputs, init);
    var w0 := Exec(I.Clone(e).assigns, w, choices);
    run', w' := ReplayRun(I, D, I.Callee().entry, init, w0, body, final);
    OutputsHandedOn(I, e, v, final, w');
    KeptTwice(I, w, w0, w');
    LeadStep(I.Result(), I.root, I.Offset() + l, w, I.Clone(e), choices, run', I.Offset() + I.Callee().exit, w');
    run' := Step(I.Clone(e), choices, run');
  }

  lemma {:induction false} SelfCallsShaped(I: Inlining, e: Transition)
    requires I.InRange() && I.Valid() && e in I.Callee().edges && e.Call? && e.callee == I.F()
    ensures SelfCallShape(I.Callee(), e) && e.target == I.Callee().exit
  {
  }

  lemma {:induction false} OutputsHandedOn(I: Inlining, e: Transition, v: Valuation, final: Valuation, w: Valuation)
    requires I.InRange() && SelfCallShape(I.Callee(), e) && Outputs(I, final, w)
    ensures Outputs(I, Returned(e.outputs, v, final), w)
  {
    IdentityOutputs(I.Callee(), e, v, final);
  }

  lemma {:induction false} KeptTwice(I: Inlining, a: Valuation, b: Valuation, c: Valuation)
    requires I.InRange() && RestKept(I, a, b) && RestKept(I, b, c)
    ensures RestKept(I, a, c)
  {
  }

  lemma {:induction false} ExitIsFinal(I: Inlining, v: Valuation, rest: Run, u: Valuation)
    requires I.InRange() && I.Valid() && Leads(I.S, I.F(), I.Callee().exit, v, rest, I.Callee().exit, u)
    ensures rest == Stop && u == v
  {
  }

  /** A failure of the callee, replayed in the clone. */
  lemma {:induction false} ReplayFailure(I: Inlining, D: seq<set<Variable>>, l: Loc, v: Valuation, w: Valuation, fail: Failure, code: Value)
    returns (fail': Failure)
    requires Tracks(I, D, l, v, w) && Fails(I.S, I.F(), l, v, fail, code)
    ensures Fails(I.Result(), I.root, I.Offset() + l, w, fail', code)
    decreases fail, 1
  {
    match fail
    case Here => fail' := ReportError(I, l, v, w, code);
    case After(e, choices, rest) => fail' := ReplayFailingStep(I, D, l, v, w, e, choices, rest, code);
    case Past(e, init, body, final, rest) => fail' := ReplayFailingPast(I, D, l, v, w, e, init, body, final, rest, code);
    case Inside(e, init, inner) =>
      if e.callee == I.F() {
        fail' := ReplayFailingLoop(I, D, l, v, w, e, init, inner, code);
      } else {
        fail' := ReplayFailingCall(I, D, l, v, w, e, init, inner, code);
      }
  }

  lemma {:induction false} ReplayFailingStep(I: Inlining, D: seq<set<Variable>>, l: Loc, v: Valuation, w: Valuation, e: Transition, choices: seq<Value>, rest: Failure, code: Value)
    returns (fail': Failure)
    requires Tracks(I, D, l, v, w) && CanTake(I.S, I.F(), l, v, e) && Fails(I.S, I.F(), e.target, Exec(e.assigns, v, choices), rest, code)
    ensures Fails(I.Result(), I.root, I.Offset() + l, w, fail', code)
    decreases rest, 2
  {
    hide Inlining.Valid, CloneEdge, Exec, InlinedEdges;
    TrackStep(I, D, l, v, w, e, choices);
    fail' := ReplayFailure(I, D, e.target, Exec(e.assigns, v, choices), Exec(I.Clone(e).assigns, w, choices), rest, code);
    FailAfter(I.Result(), I.root, I.Offset() + l, w, I.Clone(e), choices, fail', code);
    fail' := After(I.Clone(e), choices, fail');
  }

  lemma {:induction false} ReplayFailingPast(I: Inlining, D: seq<set<Variable>>, l: Loc, v: Valuation, w: Valuation,
                                             e: Transition, init: Valuation, body: Run, final: Valuation, rest: Failure, code: Value)
    returns (fail': Failure)
    requires Tracks(I, D, l, v, w) && Fails(I.S, I.F(), l, v, Past(e, init, body, final, rest), code)
    ensures Fails(I.Result(), I.root, I.Offset() + l, w, fail', code)
    decreases rest, 2
  {
    NotPastRecursion(I, l, v, e, init, body, final, rest, code);
    CallReplayed(I, D, l, v, w, e, init, body, final);
    fail' := ReplayFailure(I, D, e.target, Returned(e.outputs, v, final), Returned(I.Clone(e).outputs, w, final), rest, code);
    fail' := Past(I.Clone(e), init, body, final, fail');
  }

  lemma {:induction false} ReplayFailingCall(I: Inlining, D: seq<set<Variable>>, l: Loc, v: Valuation, w: Valuation, e: Transition, init: Valuation, inner: Failure, code: Value)
    returns (fail': Failure)
    requires Tracks(I, D, l, v, w) && CanCall(I.S, I.F(), l, v, e, init) && e.callee != I.F()
    requires Fails(I.S, e.callee, I.S[e.callee].entry, init, inner, code)
    ensures Fails(I.Result(), I.root, I.Offset() + l, w, fail', code)
  {
    TrackCall(I, D, l, v, w, e, init);
    FailsNowElsewhere(I, e.callee, init, inner, code);
    fail' := Inside(I.Clone(e), init, inner);
  }

  lemma {:induction false} ReplayFailingLoop(I: Inlining, D: seq<set<Variable>>, l: Loc, v: Valuation, w: Valuation, e: Transition, init: Valuation, inner: Failure, code: Value)
    returns (fail': Failure)
    requires Tracks(I, D, l, v, w) && CanCall(I.S, I.F(), l, v, e, init) && e.callee == I.F()
    requires Fails(I.S, I.F(), I.Callee().entry, init, inner, code)
    ensures Fails(I.Result(), I.root, I.Offset() + l, w, fail', code)
    decreases inner, 2
  {
    hide Inlining.Valid, CloneEdge, Exec, InlinedEdges, StartValues;
    TrackLoop(I, D, l, v, w, e, init);
    var choices := StartValues(I.Callee().inputs, init);
    fail' := ReplayFailure(I, D, I.Callee().entry, init, Exec(I.Clone(e).assigns, w, choices), inner, code);
    FailAfter(I.Result(), I.root, I.Offset() + l, w, I.Clone(e), choices, fail', code);
    fail' := After(I.Clone(e), choices, fail');
  }

  /** Nothing fails after a recursive call came back: it came back to the exit. */
  lemma {:induction false} NotPastRecursion(I: Inlining, l: Loc, v: Valuation, e: Transition, init: Valuation, body: Run, final: Valuation, rest: Failure, code: Value)
    requires I.InRange() && I.Valid() && Fails(I.S, I.F(), l, v, Past(e, init, body, final, rest), code)
    ensures e.callee != I.F()
  {
    assert e.callee == I.F() ==> SelfCallShape(I.Callee(), e);
  }

  lemma {:induction false} ReportError(I: Inlining, l: Loc, v: Valuation, w: Valuation, code: Value) returns (fail: Failure)
    requires I.InRange() && I.Valid() && l < I.Callee().numLocations && ErrorAt(I.S, I.F(), l, v, code)
    ensures Fails(I.Result(), I.root, I.Offset() + l, w, fail, code)
  {
    hide InlinedEdges, RenameAssigns, RenameInputs, RenameOutputs, BackArgs, EntryArgs, Renamed;
    var c := I.Callee();
    var e := ErrorEdge(c, l, I.Offset(), I.error, I.field);
    var field := c.errors[l];
    ErrorWired(I, l);
    SingleAssign(Assignment(I.field, field), w, []);
    assert ClosedCode(field);
    TypeSoundness(field, w);
    EvalCongruence(field, v, w);
    var w' := Exec(e.assigns, w, []);
    assert Eval(VarRef(I.field), w') == Get(w', I.field);
    assert Holds(True(), w);
    assert Fails(I.Result(), I.root, I.error, w', Here, code);
    fail := After(e, [], Here);
  }

  // ---- The root ----

  lemma {:induction false} RootKeeps(I: Inlining, l: Loc, v: Valuation, w: Valuation, e: Transition)
    requires AtRoot(I, l, v, w) && e in I.Root().edges && e != I.Edge()
    ensures e in I.Result()[I.root].edges
  {
    EdgesKept(I, e);
  }

  /** Taking the inlined call is taking the entry edge. */
  lemma {:induction false} TrackEntry(I: Inlining, D: seq<set<Variable>>, l: Loc, v: Valuation, w: Valuation, init: Valuation)
    requires AtRoot(I, l, v, w) && DefinedBeforeUse(I.Callee(), I.F(), D) && CanCall(I.S, I.root, l, v, I.Edge(), init)
    ensures var e := EntryEdge(I.Edge(), I.Callee(), I.ren, I.Offset());
            var w' := Exec(e.assigns, w, StartValues(I.Callee().inputs, init));
            && CanTake(I.Result(), I.root, l, w, e) && Tracks(I, D, I.Callee().entry, init, w') && Same(v, w', VariablesOf(I.Root()))
  {
    hide InlinedEdges, RenameAssigns, RenameInputs, RenameOutputs, BackArgs, EntryArgs, Renamed;
    var c := I.Callee();
    var choices := StartValues(c.inputs, init);
    RootCalls(I, l, v, w, I.Edge(), init);
    Entered(I, v, w, choices);
    var e := EntryEdge(I.Edge(), c, I.ren, I.Offset());
    PassesReceives(I.Edge().inputs, c.inputs, I.ren, v, Exec(e.assigns, w, choices), init);
    EdgesAdded(I);
    hide Exec, Receives, Passes, StartValues;
  }

  lemma {:induction false} LeaveClone(I: Inlining, w: Valuation)
    requires I.InRange() && I.Valid()
    ensures Leads(I.Result(), I.root, I.Offset() + I.Callee().exit, w, Step(ExitEdge(I.Edge(), I.Callee(), I.Offset()), [], Stop), I.Edge().target, w)
  {
    hide InlinedEdges, RenameAssigns, RenameInputs, RenameOutputs, BackArgs, EntryArgs, Renamed;
    var leave := ExitEdge(I.Edge(), I.Callee(), I.Offset());
    EdgesAdded(I);
    assert Holds(True(), w) && Exec(leave.assigns, w, []) == w;
    assert Leads(I.Result(), I.root, I.Edge().target, w, Stop, I.Edge().target, w);
    hide InlinedEdges;
  }

  lemma {:induction false} ToRootPast(I: Inlining, D: seq<set<Variable>>, l: Loc, v: Valuation, w: Valuation, init: Valuation, body: Run, final: Valuation, code: Value)
    returns (run: Run, w': Valuation)
    requires AtRoot(I, l, v, w) && DefinedBeforeUse(I.Callee(), I.F(), D) && CanCall(I.S, I.root, l, v, I.Edge(), init)
    requires Leads(I.S, I.F(), I.Callee().entry, init, body, I.Callee().exit, final)
    ensures Leads(I.Result(), I.root, l, w, run, I.Edge().target, w')
    ensures AtRoot(I, I.Edge().target, Returned(I.Edge().outputs, v, final), w')
  {
    hide Exec, InlinedEdges, StartValues, EntryArgs, Join;
    TrackEntry(I, D, l, v, w, init);
    var choices := StartValues(I.Callee().inputs, init);
    var enter, leave := EntryEdge(I.Edge(), I.Callee(), I.ren, I.Offset()), ExitEdge(I.Edge(), I.Callee(), I.Offset());
    var w0 := Exec(enter.assigns, w, choices);
    run, w' := ReplayRun(I, D, I.Callee().entry, init, w0, body, final);
    RootResumes(I, v, w0, w', final);
    LeaveClone(I, w');
    JoinLeads(I.Result(), I.root, I.Offset() + I.Callee().entry, w0, run, I.Offset() + I.Callee().exit, w', Step(leave, [], Stop), I.Edge().target, w');
    run := Join(run, Step(leave, [], Stop));
    LeadStep(I.Result(), I.root, l, w, enter, choices, run, I.Edge().target, w');
    run := Step(enter, choices, run);
  }

  lemma {:induction false} ToRootInside(I: Inlining, D: seq<set<Variable>>, l: Loc, v: Valuation, w: Valuation, init: Valuation, inner: Failure, code: Value)
    returns (fail: Failure)
    requires AtRoot(I, l, v, w) && DefinedBeforeUse(I.Callee(), I.F(), D) && CanCall(I.S, I.root, l, v, I.Edge(), init)
    requires Fails(I.S, I.F(), I.Callee().entry, init, inner, code)
    ensures Fails(I.Result(), I.root, l, w, fail, code)
  {
    hide Exec, InlinedEdges, StartValues, EntryArgs;
    TrackEntry(I, D, l, v, w, init);
    var choices := StartValues(I.Callee().inputs, init);
    var enter := EntryEdge(I.Edge(), I.Callee(), I.ren, I.Offset());
    fail := ReplayFailure(I, D, I.Callee().entry, init, Exec(enter.assigns, w, choices), inner, code);
    FailAfter(I.Result(), I.root, l, w, enter, choices, fail, code);
    fail := After(enter, choices, fail);
  }

  /** A failure of the recursive system, replayed by the new root. */
  lemma {:induction false} ToRoot(I: Inlining, D: seq<set<Variable>>, l: Loc, v: Valuation, w: Valuation, fail: Failure, code: Value)
    returns (fail': Failure)
    requires AtRoot(I, l, v, w) && DefinedBeforeUse(I.Callee(), I.F(), D) && Fails(I.S, I.root, l, v, fail, code)
    ensures Fails(I.Result(), I.root, l, w, fail', code)
    decreases fail
  {
    hide InlinedEdges, RenameAssigns, RenameInputs, RenameOutputs, BackArgs, EntryArgs, Renamed;
    match fail
    case Here =>
      EvalCongruence(I.Root().errors[l], v, w);
      fail' := Here;
    case After(e, choices, rest) =>
      RootSteps(I, l, v, w, e, choices);
      RootKeeps(I, l, v, w, e);
      fail' := ToRoot(I, D, e.target, Exec(e.assigns, v, choices), Exec(e.assigns, w, choices), rest, code);
      fail' := After(e, choices, fail');
    case Past(e, init, body, final, rest) =>
      if e == I.Edge() {
        var run, w' := ToRootPast(I, D, l, v, w, init, body, final, code);
        fail' := ToRoot(I, D, e.target, Returned(e.outputs, v, final), w', rest, code);
        AppendFails(I.Result(), I.root, l, w, run, e.target, w', fail', code);
        fail' := Append(run, fail');
      } else {
        RootCalls(I, l, v, w, e, init);
        RootKeeps(I, l, v, w, e);
        NowElsewhere(I, e.callee, init, body, final);
        fail' := ToRoot(I, D, e.target, Returned(e.outputs, v, final), Returned(e.outputs, w, final), rest, code);
        fail' := Past(e, init, body, final, fail');
      }
    case Inside(e, init, inner) =>
      if e == I.Edge() {
        fail' := ToRootInside(I, D, l, v, w, init, inner, code);
      } else {
        RootCalls(I, l, v, w, e, init);
        RootKeeps(I, l, v, w, e);
        FailsNowElsewhere(I, e.callee, init, inner, code);
        fail' := Inside(e, init, inner);
      }
  }

  /** Inlining a loop that defines its variables before use keeps exactly the reachable error codes. */
  lemma {:induction false} InliningKeepsErrors(I: Inlining, D: seq<set<Variable>>, code: Value)
    requires I.InRange() && I.Valid() && DefinedBeforeUse(I.Callee(), I.F(), D)
    ensures CanFail(I.Result(), I.root, code) <==> CanFail(I.S, I.root, code)
  {
    hide InlinedEdges, RenameAssigns, RenameInputs, RenameOutputs, BackArgs, EntryArgs, Renamed;
    if CanFail(I.Result(), I.root, code) {
      CyclicErrorsAreReal(I, code);
    }
    if CanFail(I.S, I.root, code) {
      StackIffDerivation(I.S, I.root, code);
      StackIffDerivation(I.Result(), I.root, code);
      hide Fails, CanFail;
      var v, fail :| Fails(I.S, I.root, I.S[I.root].entry, v, fail, code);
      var fail' := ToRoot(I, D, I.Root().entry, v, v, fail, code);
      assert Fails(I.Result(), I.root, I.Result()[I.root].entry, v, fail', code);
    }
  }
}
