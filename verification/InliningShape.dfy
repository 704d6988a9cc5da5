/** What inlining keeps about the root, so that further calls can be inlined: its edges stay in
    scope, its calls keep fitting their callees, its error locations stay wired to the goal. */
module InliningShape {
  import opened Exprs
  import opened ExprRewrite
  import opened Automata
  import opened AssignLists
  import opened TailInlining
  import opened TailInliningProof
  import opened CyclicToRecursive
  import opened BackEdges
  import opened UniqueError

  predicate SelfCall(e: Transition, f: nat) { e.Call? && e.callee == f }

  /** Some call to itself, and every call to itself goes straight to the exit. */
  predicate TailRecursive(c: Cfa, f: nat) {
    (exists e | e in c.edges :: SelfCall(e, f)) && (forall e | e in c.edges && SelfCall(e, f) :: e.target == c.exit)
  }

  predicate CallsLoop(S: System, e: Transition) {
    e.Call? && e.callee < |S| && TailRecursive(S[e.callee], e.callee)
  }

  ghost predicate CallFits(S: System, e: Transition) {
    e.Call? ==> && e.callee < |S|
                && (CallsLoop(S, e) ==> Supplies(e.inputs, S[e.callee].inputs) && Collects(e.outputs, S[e.callee].outputs))
  }

  lemma ScopeGrows(e: Transition, n: nat, xs: set<Variable>, m: nat, ys: set<Variable>)
    requires EdgeScoped(e, n, xs) && n <= m && xs <= ys
    ensures EdgeScoped(e, m, ys)
  {
  }

  lemma {:induction false} NamesInScope(I: Inlining)
    requires I.InRange() && I.Valid()
    ensures I.ren.Values <= VariablesOf(I.NewRoot()) && VariablesOf(I.Root()) <= VariablesOf(I.NewRoot())
    ensures forall i | 0 <= i < |I.temps| :: I.temps[i] in VariablesOf(I.NewRoot())
  {
    hide InlinedEdges;
    var ys := VariablesOf(I.NewRoot());
    forall y | y in VariablesOf(I.Root()) ensures y in ys { }
    forall y | y in I.ren.Values ensures y in ys {
      var x :| x in I.ren && I.ren[x] == y;
      if x in I.Callee().outputs {
        assert EdgeScoped(I.Edge(), I.Offset(), VariablesOf(I.Root()));
        var a :| a in I.Edge().outputs && a.value == VarRef(x);
        assert y == a.variable;
      } else {
        assert y in I.added;
      }
    }
    forall i | 0 <= i < |I.temps| ensures I.temps[i] in ys {
      assert I.temps[i] in I.temps;
    }
  }

  lemma {:induction false} RenamedScope(e: Expr, ren: Renaming, ys: set<Variable>)
    requires Vars(e) <= ren.Keys && ren.Values <= ys
    ensures Vars(Renamed(e, ren)) <= ys
  {
    forall x | x in Vars(Renamed(e, ren)) ensures x in ys { RenamedVars(e, ren, x); }
  }

  lemma {:induction false} RenamedAssignsScope(assigns: seq<Assignment>, ren: Renaming, ys: set<Variable>)
    requires ren.Values <= ys
    ensures (forall a | a in assigns :: a.variable in ren && Vars(a.value) <= ren.Keys)
            ==> forall a | a in RenameAssigns(assigns, ren) :: a.variable in ys && Vars(a.value) <= ys
    ensures (forall a | a in assigns :: Vars(a.value) <= ren.Keys) ==> forall a | a in RenameInputs(assigns, ren) :: Vars(a.value) <= ys
    ensures (forall a | a in assigns :: a.variable in ren) ==> forall a | a in RenameOutputs(assigns, ren) :: a.variable in ys
  {
    hide Vars, Renamed;
    var r := RenameAssigns(assigns, ren);
    forall i | 0 <= i < |assigns| && Vars(assigns[i].value) <= ren.Keys ensures Vars(r[i].value) <= ys {
      RenamedScope(assigns[i].value, ren, ys);
    }
    forall a | a in r && (forall b | b in assigns :: b.variable in ren && Vars(b.value) <= ren.Keys) ensures a.variable in ys && Vars(a.value) <= ys {
      var i :| 0 <= i < |r| && r[i] == a;
      assert assigns[i] in assigns;
    }
    var ins := RenameInputs(assigns, ren);
    forall a | a in ins && (forall b | b in assigns :: Vars(b.value) <= ren.Keys) ensures Vars(a.value) <= ys {
      var i :| 0 <= i < |ins| && ins[i] == a;
      assert assigns[i] in assigns;
    }
    var outs := RenameOutputs(assigns, ren);
    forall a | a in outs && (forall b | b in assigns :: b.variable in ren) ensures a.variable in ys {
      var i :| 0 <= i < |outs| && outs[i] == a;
      assert assigns[i] in assigns;
    }
  }

  lemma {:induction false} BackArgsScope(args: seq<Assignment>, c: Cfa, temps: seq<Variable>, ren: Renaming, ys: set<Variable>)
    requires LoopNames(c, temps, ren) && ren.Values <= ys && (forall i | 0 <= i < |temps| :: temps[i] in ys)
    requires forall x | x in c.inputs :: Vars(Argument(args, x)) <= ren.Keys
    ensures forall a | a in BackArgs(args, c, temps, ren) :: a.variable in ys && Vars(a.value) <= ys
  {
    TempArgsFull(args, c.inputs, temps, ren);
    var first, second := TempArgs(args, c.inputs, temps, ren), InputArgs(c.inputs, temps, ren);
    hide Renamed, Argument, TempArgs, InputArgs;
    forall a: Assignment | a in first + second ensures a.variable in ys && Vars(a.value) <= ys {
      if a in first {
        var i :| 0 <= i < |first| && first[i] == a;
        assert c.inputs[i] in c.inputs;
        RenamedScope(Argument(args, c.inputs[i]), ren, ys);
      } else {
        var i :| 0 <= i < |second| && second[i] == a;
        assert c.inputs[i] in c.inputs;
        assert c.inputs[i] in VariablesOf(c);
        assert Vars(VarRef(temps[i])) == {temps[i]};
        assert ren[c.inputs[i]] in ren.Values;
      }
    }
  }

  lemma {:induction false} BackEdgeScoped(I: Inlining, e: Transition)
    requires I.InRange() && I.Valid() && e in I.Callee().edges && SelfCall(e, I.F())
    ensures EdgeScoped(I.Clone(e), I.NewRoot().numLocations, VariablesOf(I.NewRoot()))
  {
    hide InlinedEdges, BackArgs, Argument;
    var c := I.Callee();
    assert EdgeScoped(e, c.numLocations, VariablesOf(c)) && SelfCallShape(c, e);
    NamesInScope(I);
    ValidNames(I);
    ArgumentVars(e.inputs, c.inputs, VariablesOf(c));
    BackArgsScope(e.inputs, c, I.temps, I.ren, VariablesOf(I.NewRoot()));
    assert Vars(True()) == {};
  }

  lemma {:induction false} OrdinaryClone(e: Transition, c: Cfa, f: nat, ren: Renaming, temps: seq<Variable>, offset: nat, size: nat, ys: set<Variable>)
    requires |temps| == |c.inputs| && !SelfCall(e, f) && EdgeScoped(e, c.numLocations, ren.Keys) && ren.Values <= ys && offset + c.numLocations <= size
    ensures EdgeScoped(CloneEdge(e, c, f, ren, temps, offset), size, ys)
  {
    hide RenameAssigns, RenameInputs, RenameOutputs, BackArgs, Renamed, Vars;
    if !e.Disconnected? {
      RenamedScope(e.guard, ren, ys);
      if e.Assign? {
        RenamedAssignsScope(e.assigns, ren, ys);
      } else {
        RenamedAssignsScope(e.inputs, ren, ys);
        RenamedAssignsScope(e.outputs, ren, ys);
      }
    }
  }

  lemma {:induction false} CloneScoped(I: Inlining, e: Transition)
    requires I.InRange() && I.Valid() && e in I.Callee().edges
    ensures EdgeScoped(I.Clone(e), I.NewRoot().numLocations, VariablesOf(I.NewRoot()))
  {
    hide InlinedEdges, EdgeScoped, CloneEdge, VariablesOf;
    if SelfCall(e, I.F()) {
      BackEdgeScoped(I, e);
    } else {
      assert EdgeScoped(e, I.Callee().numLocations, VariablesOf(I.Callee()));
      NamesInScope(I);
      OrdinaryClone(e, I.Callee(), I.F(), I.ren, I.temps, I.Offset(), I.NewRoot().numLocations, VariablesOf(I.NewRoot()));
    }
  }

  lemma {:induction false} EntryScoped(I: Inlining)
    requires I.InRange() && I.Valid()
    ensures EdgeScoped(EntryEdge(I.Edge(), I.Callee(), I.ren, I.Offset()), I.NewRoot().numLocations, VariablesOf(I.NewRoot()))
  {
    hide InlinedEdges;
    var c, args := I.Callee(), I.Edge().inputs;
    var ys := VariablesOf(I.NewRoot());
    NamesInScope(I);
    ValidNames(I);
    assert EdgeScoped(I.Edge(), I.Offset(), VariablesOf(I.Root()));
    var r := EntryArgs(args, c.inputs, I.ren);
    hide EntryArgs, Argument, Vars;
    forall a | a in r ensures a.variable in ys && Vars(a.value) <= ys {
      var i :| 0 <= i < |r| && r[i] == a;
      assert I.ren[c.inputs[i]] in I.ren.Values;
    }
  }

  /** Every edge of the new root is in scope and leaves the goal alone. */
  lemma {:induction false} NewEdgeScoped(I: Inlining, e: Transition)
    requires I.InRange() && I.Valid() && e in I.NewRoot().edges && I.field in VariablesOf(I.Root())
    ensures EdgeScoped(e, I.NewRoot().numLocations, VariablesOf(I.NewRoot())) && (e.Disconnected? || e.source != I.error)
  {
    hide InlinedEdges, RenameAssigns, RenameInputs, RenameOutputs, BackArgs, EntryArgs, Renamed;
    var g := OriginOf(I, e);
    var n, ys := I.NewRoot().numLocations, VariablesOf(I.NewRoot());
    NamesInScope(I);
    if !e.Disconnected? {
      ErrorIsFinal(I, e);
    }
    match g
    case Kept => ScopeGrows(e, I.Offset(), VariablesOf(I.Root()), n, ys);
    case Removed =>
    case ToEntry => EntryScoped(I);
    case FromExit =>
      ScopeGrows(I.Edge(), I.Offset(), VariablesOf(I.Root()), n, ys);
      assert Vars(True()) == {};
    case Cloned(e0) => CloneScoped(I, e0);
    case ToError(l) =>
      assert ClosedCode(I.Callee().errors[l]);
      assert Vars(True()) == {};
  }

  lemma {:induction false} CloneFits(I: Inlining, e: Transition)
    requires I.InRange() && I.Valid() && e in I.Callee().edges && CallFits(I.S, e)
    ensures CallFits(I.S, I.Clone(e)) && (CallsLoop(I.S, I.Clone(e)) <==> CallsLoop(I.S, e) && e.callee != I.F())
  {
    if e.Call? && e.callee != I.F() {
      assert EdgeScoped(e, I.Callee().numLocations, VariablesOf(I.Callee()));
      if CallsLoop(I.S, e) {
        SuppliesRenamed(e.inputs, I.S[e.callee].inputs, I.ren);
        CollectsRenamed(e.outputs, I.S[e.callee].outputs, I.ren);
      }
      hide RenameInputs, RenameOutputs, Renamed, Supplies, Collects, LoopShape;
    }
  }

  lemma {:induction false} SuppliesRenamed(args: seq<Assignment>, params: seq<Variable>, ren: Renaming)
    requires Supplies(args, params)
    ensures Supplies(RenameInputs(args, ren), params)
  {
    var r := RenameInputs(args, ren);
    hide RenameInputs, Renamed;
    forall a | a in r ensures a.variable in params {
      var i :| 0 <= i < |r| && r[i] == a;
      assert args[i] in args;
    }
    forall x | x in params ensures exists a :: a in r && a.variable == x {
      var b :| b in args && b.variable == x;
      var i :| 0 <= i < |args| && args[i] == b;
      assert r[i] in r;
    }
  }

  lemma {:induction false} CollectsRenamed(outs: seq<Assignment>, outputs: seq<Variable>, ren: Renaming)
    requires Collects(outs, outputs) && ValidRenaming(ren) && forall a | a in outs :: a.variable in ren
    ensures Collects(RenameOutputs(outs, ren), outputs)
  {
    var r := RenameOutputs(outs, ren);
    hide RenameOutputs;
    forall a | a in r ensures a.value.VarRef? && a.value.variable in outputs && a.variable.typ == a.value.variable.typ {
      var i :| 0 <= i < |r| && r[i] == a;
      assert outs[i] in outs;
    }
    forall i, j | 0 <= i < j < |r| ensures r[i].variable != r[j].variable {
      assert outs[i] in outs && outs[j] in outs;
    }
    forall o | o in outputs ensures exists a :: a in r && a.value == VarRef(o) {
      var b :| b in outs && b.value == VarRef(o);
      var i :| 0 <= i < |outs| && outs[i] == b;
      assert r[i] in r;
    }
  }

  /** The root as the transformer keeps it between two inlinings. */
  ghost predicate RootReady(S: System, root: nat, main: Cfa, error: Loc, field: Variable) {
    && (forall e | e in main.edges ::
          && EdgeScoped(e, main.numLocations, VariablesOf(main)) && (e.Disconnected? || e.source != error)
          && CallFits(S, e) && (e.Call? ==> e.callee != root))
    && main.entry < main.numLocations
    && (forall l | l in main.errors :: l < main.numLocations && IntCode(main.errors[l], VariablesOf(main)))
    && error in main.errors && main.errors[error] == VarRef(field) && field.typ == IntType && field in VariablesOf(main)
    && (forall l | l in main.errors && l != error :: Assign(l, error, True(), [Assignment(field, main.errors[l])]) in main.edges)
  }

  lemma {:induction false} NewEdgeReady(I: Inlining, e: Transition)
    requires I.InRange() && I.Valid() && RootReady(I.S, I.root, I.Root(), I.error, I.field) && e in I.NewRoot().edges
    requires forall e0 | e0 in I.Callee().edges :: CallFits(I.S, e0)
    ensures CallFits(I.S, e) && (e.Call? ==> e.callee != I.root)
  {
    hide InlinedEdges, RenameAssigns, RenameInputs, RenameOutputs, BackArgs, EntryArgs, Renamed;
    var g := OriginOf(I, e);
    if g.Cloned? {
      CloneFits(I, g.e);
    }
    if e.Call? {
      NewRootNeverCalls(I, e);
    }
  }

  /** After an inlining the root is as ready for the next one as it was before. */
  lemma {:induction false} StaysReady(I: Inlining)
    requires I.InRange() && I.Valid() && RootReady(I.S, I.root, I.Root(), I.error, I.field)
    requires forall e | e in I.Callee().edges :: CallFits(I.S, e)
    ensures RootReady(I.S, I.root, I.NewRoot(), I.error, I.field)
  {
    hide InlinedEdges;
    var main := I.NewRoot();
    NamesInScope(I);
    assert main.errors == I.Root().errors && main.entry == I.Root().entry && main.numLocations >= I.Offset();
    forall e | e in main.edges
      ensures EdgeScoped(e, main.numLocations, VariablesOf(main)) && (e.Disconnected? || e.source != I.error)
              && CallFits(I.S, e) && (e.Call? ==> e.callee != I.root)
    {
      NewEdgeScoped(I, e);
      NewEdgeReady(I, e);
    }
    forall l | l in main.errors && l != I.error
      ensures Assign(l, I.error, True(), [Assignment(I.field, main.errors[l])]) in main.edges
    {
      EdgesKept(I, Assign(l, I.error, True(), [Assignment(I.field, main.errors[l])]));
    }
  }
}
