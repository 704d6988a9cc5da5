/** What the root does when nothing fails: an inlining keeps which of the root's own locations are
    reached, and with which values, its exit among them. A run to a location is turned into a failure
    of a probed system, whose only other error is the unique error location, so that the two replays
    of failing runs speak about all runs. */
module RootRuns {
  import opened Exprs
  import opened Automata
  import opened AssignLists
  import opened TailInlining
  import opened TailInliningProof
  import opened CyclicToRecursive
  import opened RecursiveToCyclicProof

  /** Started in `v`, automaton `f` can stand at `l` with the values of `u` in `xs`. */
  ghost predicate Arrives(S: System, f: nat, v: Valuation, l: Loc, u: Valuation, xs: set<Variable>) {
    f < |S| && exists run, w :: Leads(S, f, S[f].entry, v, run, l, w) && Same(u, w, xs)
  }

  // ---- Probes ----

  /** An expression that is true exactly when the variables `xs` have the values of `u`. */
  ghost function Snapshot(xs: set<Variable>, u: Valuation): seq<Expr>
    decreases xs
  {
    if xs == {} then [] else
      var x :| x in xs;
      [Binary(Compare(Eq), VarRef(x), Lit(Get(u, x)))] + Snapshot(xs - {x}, u)
  }

  lemma {:induction false} SnapshotMeans(xs: set<Variable>, u: Valuation, w: Valuation)
    ensures (forall o | o in Snapshot(xs, u) :: Holds(o, w)) <==> Same(u, w, xs)
    ensures VarsOfAll(Snapshot(xs, u)) <= xs
    decreases xs
  {
    if xs != {} {
      var ops := Snapshot(xs, u);
      var x :| x in xs && ops == [Binary(Compare(Eq), VarRef(x), Lit(Get(u, x)))] + Snapshot(xs - {x}, u);
      var rest := Snapshot(xs - {x}, u);
      SnapshotMeans(xs - {x}, u, w);
      var o := Binary(Compare(Eq), VarRef(x), Lit(Get(u, x)));
      assert Eval(VarRef(x), w) == Get(w, x) && Eval(Lit(Get(u, x)), w) == Get(u, x);
      assert Holds(o, w) <==> Get(w, x) == Get(u, x);
      assert Vars(o) == {x};
      hide Eval, Vars, Snapshot;
      assert ops[0] == o && forall i | 0 <= i < |rest| :: ops[i + 1] == rest[i];
      assert forall p :: p in ops <==> p == o || p in rest;
    }
  }

  ghost function Probe(xs: set<Variable>, u: Valuation): Expr { And(Snapshot(xs, u)) }

  lemma {:induction false} ProbeMeans(xs: set<Variable>, u: Valuation, w: Valuation)
    ensures Eval(Probe(xs, u), w) == BoolVal(Same(u, w, xs)) && Vars(Probe(xs, u)) <= xs
  {
    SnapshotMeans(xs, u, w);
    assert Eval(Probe(xs, u), w) == BoolVal(forall o | o in Snapshot(xs, u) :: Holds(o, w));
    hide Snapshot;
  }

  /** The automaton with no error but the goal and a probe at `l`. */
  function ProbedRoot(c: Cfa, error: Loc, field: Variable, l: Loc, probe: Expr): Cfa {
    c.(errors := map[error := VarRef(field), l := probe])
  }

  /** Of the other automata, only `kept` keeps its errors. */
  function Probed(S: System, root: nat, kept: nat, error: Loc, field: Variable, l: Loc, probe: Expr): (T: System)
    ensures |T| == |S|
    ensures forall f | 0 <= f < |S| ::
              T[f] == if f == root then ProbedRoot(S[f], error, field, l, probe) else if f == kept then S[f] else S[f].(errors := map[])
  {
    seq(|S|, f requires 0 <= f < |S| =>
      if f == root then ProbedRoot(S[f], error, field, l, probe) else if f == kept then S[f] else S[f].(errors := map[]))
  }

  /** The systems differ in errors only. */
  ghost predicate SameButErrors(S: System, T: System) {
    |S| == |T| && forall f | 0 <= f < |S| :: S[f].edges == T[f].edges && S[f].entry == T[f].entry && S[f].exit == T[f].exit
  }

  lemma {:induction false} RunsIgnoreErrors(S: System, T: System, f: nat, l: Loc, v: Valuation, run: Run, l': Loc, w: Valuation)
    requires SameButErrors(S, T) && Leads(S, f, l, v, run, l', w)
    ensures Leads(T, f, l, v, run, l', w)
    decreases run
  {
    match run
    case Stop =>
    case Step(e, choices, rest) => RunsIgnoreErrors(S, T, f, e.target, Exec(e.assigns, v, choices), rest, l', w);
    case Through(e, init, body, final, rest) =>
      RunsIgnoreErrors(S, T, e.callee, S[e.callee].entry, init, body, S[e.callee].exit, final);
      RunsIgnoreErrors(S, T, f, e.target, Returned(e.outputs, v, final), rest, l', w);
  }

  /** Outside the root, which nobody calls, error codes are integers. */
  ghost predicate IntCodesElsewhere(T: System, root: nat) {
    NeverCalls(T, root) && forall g, l | 0 <= g < |T| && g != root && l in T[g].errors :: WellTyped(T[g].errors[l]) && TypeOf(T[g].errors[l]) == IntType
  }

  lemma {:induction false} IntegerCode(T: System, root: nat, f: nat, l: Loc, v: Valuation, fail: Failure, code: Value)
    requires IntCodesElsewhere(T, root) && f != root && Fails(T, f, l, v, fail, code)
    ensures code.IntVal?
    decreases fail
  {
    UnfoldFailure(T, f, l, v, fail, code);
    match fail
    case Here => TypeSoundness(T[f].errors[l], v);
    case After(e, choices, rest) => IntegerCode(T, root, f, e.target, Exec(e.assigns, v, choices), rest, code);
    case Past(e, _, _, final, rest) => IntegerCode(T, root, f, e.target, Returned(e.outputs, v, final), rest, code);
    case Inside(e, init, inner) => IntegerCode(T, root, e.callee, T[e.callee].entry, init, inner, code);
  }

  /** A failure with a truth value as its code is a run to the probe. */
  lemma {:induction false} FailureIsRun(T: System, root: nat, error: Loc, field: Variable, l': Loc, probe: Expr, l: Loc, v: Valuation, fail: Failure)
    returns (run: Run, w: Valuation)
    requires root < |T| && IntCodesElsewhere(T, root) && T[root].errors == map[error := VarRef(field), l' := probe] && field.typ == IntType
    requires Fails(T, root, l, v, fail, BoolVal(true))
    ensures Leads(T, root, l, v, run, l', w) && Eval(probe, w) == BoolVal(true)
    decreases fail
  {
    UnfoldFailure(T, root, l, v, fail, BoolVal(true));
    match fail
    case Here =>
      assert Eval(VarRef(field), v) == Get(v, field) && Get(v, field).IntVal?;
      run, w := Stop, v;
    case After(e, choices, rest) =>
      run, w := FailureIsRun(T, root, error, field, l', probe, e.target, Exec(e.assigns, v, choices), rest);
      run := Step(e, choices, run);
    case Past(e, init, body, final, rest) =>
      run, w := FailureIsRun(T, root, error, field, l', probe, e.target, Returned(e.outputs, v, final), rest);
      run := Through(e, init, body, final, run);
    case Inside(e, init, inner) =>
      IntegerCode(T, root, e.callee, T[e.callee].entry, init, inner, BoolVal(true));
      assert false;
  }

  lemma {:induction false} RunIsFailure(T: System, root: nat, l: Loc, v: Valuation, run: Run, l': Loc, w: Valuation)
    requires root < |T| && Leads(T, root, l, v, run, l', w) && l' in T[root].errors && Eval(T[root].errors[l'], w) == BoolVal(true)
    ensures Fails(T, root, l, v, Append(run, Here), BoolVal(true))
  {
    AppendFails(T, root, l, v, run, l', w, Here, BoolVal(true));
  }

  // ---- Probing an inlining ----

  ghost function ProbedInlining(I: Inlining, l: Loc, probe: Expr): Inlining
    requires I.InRange()
  {
    I.(S := Probed(I.S, I.root, I.F(), I.error, I.field, l, probe))
  }

  lemma {:induction false} ProbedIsValid(I: Inlining, l: Loc, probe: Expr)
    requires I.InRange() && I.Valid() && l < I.Offset() && l != I.error && Vars(probe) <= VariablesOf(I.Root())
    ensures var P := ProbedInlining(I, l, probe);
            && P.InRange() && P.Valid() && P.root == I.root && P.F() == I.F() && P.Callee() == I.Callee()
            && P.Root() == ProbedRoot(I.Root(), I.error, I.field, l, probe)
  {
    var P := ProbedInlining(I, l, probe);
    assert P.InRange() && VariablesOf(P.Root()) == VariablesOf(I.Root()) && P.Callee() == I.Callee();
    hide Vars, EdgeScoped, LoopShape, Supplies, Collects;
    assert NeverCalls(P.S, I.root);
    assert P.RootShape();
  }

  /** The probed inlining inlines into the probed root. */
  lemma {:induction false} ProbedResult(I: Inlining, l: Loc, probe: Expr)
    requires I.InRange() && I.Valid() && l < I.Offset() && l != I.error && Vars(probe) <= VariablesOf(I.Root())
    ensures var P := ProbedInlining(I, l, probe);
            && P.InRange() && SameButErrors(I.S, P.S) && SameButErrors(P.S, I.S)
            && SameButErrors(I.Result(), P.Result()) && SameButErrors(P.Result(), I.Result())
            && P.Result()[I.root].errors == map[I.error := VarRef(I.field), l := probe]
            && IntCodesElsewhere(P.S, I.root) && IntCodesElsewhere(P.Result(), I.root)
            && I.field.typ == IntType && |I.Result()| == |I.S| && I.Result()[I.root].entry == I.Root().entry < I.Offset()
  {
    hide Inlining.Valid, InlinedEdges, Vars, Inlining.NewRoot, IntCodesElsewhere, Probed, ProbedRoot;
    var P := ProbedInlining(I, l, probe);
    ShapeFacts(I);
    ProbedIsValid(I, l, probe);
    ProbedNewRoot(I, l, probe);
    ProbedCodes(I, l, probe);
    assert forall f | 0 <= f < |I.S| && f != I.root :: I.Result()[f] == I.S[f] && P.Result()[f] == P.S[f];
  }

  lemma ShapeFacts(I: Inlining)
    requires I.InRange() && I.Valid()
    ensures I.field.typ == IntType && I.Root().entry < I.Offset() && I.F() != I.root
  {
  }

  lemma {:induction false} ProbedNewRoot(I: Inlining, l: Loc, probe: Expr)
    requires I.InRange() && I.F() != I.root && ProbedInlining(I, l, probe).InRange()
    ensures var P := ProbedInlining(I, l, probe);
            && P.NewRoot() == ProbedRoot(I.NewRoot(), I.error, I.field, l, probe) && SameButErrors(I.S, P.S)
            && I.NewRoot().entry == I.Root().entry && P.S[I.root].errors == map[I.error := VarRef(I.field), l := probe]
            && P.NewRoot().errors == map[I.error := VarRef(I.field), l := probe] && P.NewRoot().edges == I.NewRoot().edges
            && P.NewRoot().entry == I.NewRoot().entry && P.NewRoot().exit == I.NewRoot().exit
  {
    hide InlinedEdges;
  }

  lemma {:induction false} ProbedCodes(I: Inlining, l: Loc, probe: Expr)
    requires I.InRange() && ProbedInlining(I, l, probe).InRange() && I.Valid() && ProbedInlining(I, l, probe).Valid()
    ensures var P := ProbedInlining(I, l, probe); IntCodesElsewhere(P.S, I.root) && IntCodesElsewhere(P.Result(), I.root)
  {
    var P := ProbedInlining(I, l, probe);
    ResultNeverCalls(P);
    assert forall k | k in I.Callee().errors :: ClosedCode(I.Callee().errors[k]);
    hide InlinedEdges, EdgeScoped, SelfCallShape, NeverCalls, Inlining.FreshNames, Inlining.RootShape, TypeOf, WellTyped;
  }

  // ---- Runs of the root ----

  /** Whatever the new root reaches among the root's own locations was reached before. */
  lemma {:induction false} CyclicRunsAreReal(I: Inlining, v: Valuation, l: Loc, u: Valuation)
    requires I.InRange() && I.Valid() && l < I.Offset() && l != I.error && Arrives(I.Result(), I.root, v, l, u, VariablesOf(I.Root()))
    ensures Arrives(I.S, I.root, v, l, u, VariablesOf(I.Root()))
  {
    hide Leads, Fails, Inlining.Valid, InlinedEdges, Eval, Vars, VariablesOf, Same, Append, IntCodesElsewhere, SameButErrors, Arrives, Probe, Probed, AtRoot, DefinedBeforeUse;
    var xs := VariablesOf(I.Root());
    var run, w := ArrivalOf(I.Result(), I.root, v, l, u, xs);
    ProbeMeans(xs, u, w);
    ProbedIsValid(I, l, Probe(xs, u));
    ProbedResult(I, l, Probe(xs, u));
    var P := ProbedInlining(I, l, Probe(xs, u));
    RunsIgnoreErrors(I.Result(), P.Result(), I.root, I.Root().entry, v, run, l, w);
    RunIsFailure(P.Result(), I.root, I.Root().entry, v, run, l, w);
    StartAtRoot(P, v);
    var fail := FromRoot(P, I.Root().entry, v, v, Append(run, Here), BoolVal(true));
    var run', w' := FailureIsRun(P.S, I.root, I.error, I.field, l, Probe(xs, u), I.Root().entry, v, fail);
    RunsIgnoreErrors(P.S, I.S, I.root, I.Root().entry, v, run', l, w');
    ProbeMeans(xs, u, w');
    Arrived(I.S, I.root, v, run', l, w', u, xs);
  }

  /** With variables defined before use, whatever the root reached it still reaches. */
  lemma {:induction false} RootStillRuns(I: Inlining, D: seq<set<Variable>>, v: Valuation, l: Loc, u: Valuation)
    requires I.InRange() && I.Valid() && DefinedBeforeUse(I.Callee(), I.F(), D) && l < I.Offset() && l != I.error
    requires Arrives(I.S, I.root, v, l, u, VariablesOf(I.Root()))
    ensures Arrives(I.Result(), I.root, v, l, u, VariablesOf(I.Root()))
  {
    hide Leads, Fails, Inlining.Valid, InlinedEdges, Eval, Vars, VariablesOf, Same, Append, IntCodesElsewhere, SameButErrors, Arrives, Probe, Probed, AtRoot, DefinedBeforeUse;
    var xs := VariablesOf(I.Root());
    var run, w := ArrivalOf(I.S, I.root, v, l, u, xs);
    ProbeMeans(xs, u, w);
    ProbedIsValid(I, l, Probe(xs, u));
    ProbedResult(I, l, Probe(xs, u));
    var P := ProbedInlining(I, l, Probe(xs, u));
    RunsIgnoreErrors(I.S, P.S, I.root, I.Root().entry, v, run, l, w);
    RunIsFailure(P.S, I.root, I.Root().entry, v, run, l, w);
    StartAtRoot(P, v);
    var fail := ToRoot(P, D, I.Root().entry, v, v, Append(run, Here), BoolVal(true));
    var run', w' := FailureIsRun(P.Result(), I.root, I.error, I.field, l, Probe(xs, u), I.Root().entry, v, fail);
    RunsIgnoreErrors(P.Result(), I.Result(), I.root, I.Root().entry, v, run', l, w');
    ProbeMeans(xs, u, w');
    Arrived(I.Result(), I.root, v, run', l, w', u, xs);
  }

  lemma ArrivalOf(S: System, f: nat, v: Valuation, l: Loc, u: Valuation, xs: set<Variable>) returns (run: Run, w: Valuation)
    requires Arrives(S, f, v, l, u, xs)
    ensures f < |S| && Leads(S, f, S[f].entry, v, run, l, w) && Same(u, w, xs)
  {
    hide Leads, Same;
    run, w :| Leads(S, f, S[f].entry, v, run, l, w) && Same(u, w, xs);
  }

  lemma Arrived(S: System, f: nat, v: Valuation, run: Run, l: Loc, w: Valuation, u: Valuation, xs: set<Variable>)
    requires f < |S| && Leads(S, f, S[f].entry, v, run, l, w) && Same(u, w, xs)
    ensures Arrives(S, f, v, l, u, xs)
  {
    hide Leads, Same;
  }

  /** Of `T`'s root nothing is asked but what `S`'s root can do as well. */
  ghost predicate RunsAreReal(S: System, T: System, root: nat) {
    root < |S| && forall v, l: Loc, u | l < S[root].numLocations && Arrives(T, root, v, l, u, VariablesOf(S[root])) :: Arrives(S, root, v, l, u, VariablesOf(S[root]))
  }

  ghost predicate RunsRemain(S: System, T: System, root: nat) {
    root < |S| && forall v, l: Loc, u | l < S[root].numLocations && Arrives(S, root, v, l, u, VariablesOf(S[root])) :: Arrives(T, root, v, l, u, VariablesOf(S[root]))
  }

  /** The root has grown: its own variables and locations, entry and exit are what they were. */
  ghost predicate Grown(c0: Cfa, c: Cfa) {
    && c.entry == c0.entry && c.exit == c0.exit && c.inputs == c0.inputs && c.outputs == c0.outputs
    && c0.numLocations <= c.numLocations && VariablesOf(c0) <= VariablesOf(c)
  }

  lemma {:induction false} ArrivesNarrower(S: System, T: System, f: nat, v: Valuation, l: Loc, u: Valuation, xs: set<Variable>, ys: set<Variable>)
    requires xs <= ys && Arrives(S, f, v, l, u, xs) && forall w | Arrives(S, f, v, l, w, ys) :: Arrives(T, f, v, l, w, ys)
    ensures Arrives(T, f, v, l, u, xs)
  {
    var run, w := ArrivalOf(S, f, v, l, u, xs);
    assert Same(w, w, ys);
    Arrived(S, f, v, run, l, w, w, ys);
    var run', w' := ArrivalOf(T, f, v, l, w, ys);
    hide Leads, Arrives;
    assert Same(u, w', xs);
    Arrived(T, f, v, run', l, w', u, xs);
  }

  /** One more inlining: runs of the root stay those of the system it started from. */
  lemma {:induction false} StillReal(S: System, I: Inlining)
    requires I.InRange() && I.Valid() && RunsAreReal(S, I.S, I.root) && Grown(S[I.root], I.Root()) && S[I.root].numLocations <= I.error
    ensures RunsAreReal(S, I.Result(), I.root)
  {
    hide Inlining.Valid, Arrives, VariablesOf, InlinedEdges;
    var xs, ys := VariablesOf(S[I.root]), VariablesOf(I.Root());
    forall v, l: Loc, u | l < S[I.root].numLocations && Arrives(I.Result(), I.root, v, l, u, xs) ensures Arrives(S, I.root, v, l, u, xs) {
      forall w | Arrives(I.Result(), I.root, v, l, w, ys) ensures Arrives(I.S, I.root, v, l, w, ys) { CyclicRunsAreReal(I, v, l, w); }
      ArrivesNarrower(I.Result(), I.S, I.root, v, l, u, xs, ys);
    }
  }

  lemma {:induction false} StillRemain(S: System, I: Inlining, D: seq<set<Variable>>)
    requires I.InRange() && I.Valid() && RunsRemain(S, I.S, I.root) && Grown(S[I.root], I.Root()) && S[I.root].numLocations <= I.error
    requires DefinedBeforeUse(I.Callee(), I.F(), D)
    ensures RunsRemain(S, I.Result(), I.root)
  {
    hide Inlining.Valid, Arrives, VariablesOf, InlinedEdges, DefinedBeforeUse;
    var xs, ys := VariablesOf(S[I.root]), VariablesOf(I.Root());
    forall v, l: Loc, u | l < S[I.root].numLocations && Arrives(S, I.root, v, l, u, xs) ensures Arrives(I.Result(), I.root, v, l, u, xs) {
      forall w | Arrives(I.S, I.root, v, l, w, ys) ensures Arrives(I.Result(), I.root, v, l, w, ys) { RootStillRuns(I, D, v, l, w); }
      ArrivesNarrower(I.S, I.Result(), I.root, v, l, u, xs, ys);
    }
  }

  /** An inlining leaves the root's own parts alone, and every assignment edge in place. */
  lemma {:induction false} InliningGrows(I: Inlining)
    requires I.InRange()
    ensures Grown(I.Root(), I.NewRoot()) && forall e | e in I.Root().edges && e.Assign? :: e in I.NewRoot().edges
  {
    forall e | e in I.Root().edges && e.Assign? ensures e in I.NewRoot().edges { EdgesKept(I, e); }
    hide InlinedEdges;
  }

  lemma StartAtRoot(I: Inlining, v: Valuation)
    requires I.InRange() && I.Valid()
    ensures AtRoot(I, I.Root().entry, v, v)
  {
  }
}
