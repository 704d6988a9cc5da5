/** Inlining a tail-recursive call keeps the reachable error codes. From the cyclic root back to
    the recursive system this holds whatever the callee's variables start with; the other way the
    callee must define its variables before it uses them. */
module TailInliningProof {
  import opened Exprs
  import opened ExprRewrite
  import opened Automata
  import opened AssignLists
  import opened TailInlining
  import opened BackEdges

  // ---- Edges of the new root ----

  lemma {:induction false} EdgesKept(I: Inlining, e: Transition)
    requires I.InRange() && e in I.Root().edges && e != I.Edge()
    ensures e in I.NewRoot().edges
  {
    var edges := I.Root().edges;
    var i :| 0 <= i < |edges| && edges[i] == e;
    assert edges[I.at := Disconnected][i] == e;
    hide ErrorEdges, CloneEdges, EntryEdge, ExitEdge;
  }

  lemma {:induction false} EdgesAdded(I: Inlining)
    requires I.InRange()
    ensures EntryEdge(I.Edge(), I.Callee(), I.ren, I.Offset()) in I.NewRoot().edges
    ensures ExitEdge(I.Edge(), I.Callee(), I.Offset()) in I.NewRoot().edges
  {
    hide ErrorEdges, CloneEdges, EntryEdge, ExitEdge;
  }

  lemma {:induction false} EdgeCloned(I: Inlining, e: Transition)
    requires I.InRange() && e in I.Callee().edges
    ensures I.Clone(e) in I.NewRoot().edges
  {
    var edges := I.Callee().edges;
    var i :| 0 <= i < |edges| && edges[i] == e;
    hide ErrorEdges, EntryEdge, ExitEdge, CloneEdge;
    assert CloneEdges(edges, I.Callee(), I.F(), I.ren, I.temps, I.Offset())[i] == I.Clone(e);
  }

  lemma {:induction false} ErrorWired(I: Inlining, l: Loc)
    requires I.InRange() && l in I.Callee().errors && l < I.Callee().numLocations
    ensures ErrorEdge(I.Callee(), l, I.Offset(), I.error, I.field) in I.NewRoot().edges
  {
    hide CloneEdges, EntryEdge, ExitEdge, ErrorEdge;
  }

  /** Where an edge of the new root comes from. */
  datatype Origin = Kept | Removed | ToEntry | FromExit | Cloned(e: Transition) | ToError(l: Loc)

  ghost predicate Originates(I: Inlining, e': Transition, o: Origin)
    requires I.InRange()
  {
    match o
    case Kept => e' in I.Root().edges
    case Removed => e'.Disconnected?
    case ToEntry => e' == EntryEdge(I.Edge(), I.Callee(), I.ren, I.Offset())
    case FromExit => e' == ExitEdge(I.Edge(), I.Callee(), I.Offset())
    case Cloned(e) => e in I.Callee().edges && e' == I.Clone(e)
    case ToError(l) => l in I.Callee().errors && e' == ErrorEdge(I.Callee(), l, I.Offset(), I.error, I.field)
  }

  lemma {:induction false} OriginOf(I: Inlining, e': Transition) returns (o: Origin)
    requires I.InRange() && e' in I.NewRoot().edges
    ensures Originates(I, e', o)
  {
    var c := I.Callee();
    var kept := I.Root().edges[I.at := Disconnected];
    var clones := CloneEdges(c.edges, c, I.F(), I.ren, I.temps, I.Offset());
    var errors := ErrorEdges(c, c.numLocations, I.Offset(), I.error, I.field);
    var ends := [EntryEdge(I.Edge(), c, I.ren, I.Offset()), ExitEdge(I.Edge(), c, I.Offset())];
    assert I.NewRoot().edges == kept + errors + clones + ends;
    assert e' in kept || e' in errors || e' in clones || e' in ends;
    if e' in kept {
      var i :| 0 <= i < |kept| && kept[i] == e';
      o := if i == I.at then Removed else Kept;
      assert i != I.at ==> e' == I.Root().edges[i];
    } else if e' in errors {
      o := ErrorOrigin(I, e');
    } else if e' in clones {
      o := CloneOrigin(I, e');
    } else {
      o := if e' == ends[0] then ToEntry else FromExit;
    }
    hide ErrorEdges, CloneEdges, EntryEdge, ExitEdge, CloneEdge, InlinedEdges;
  }

  lemma {:induction false} ErrorOrigin(I: Inlining, e': Transition) returns (o: Origin)
    requires I.InRange() && e' in ErrorEdges(I.Callee(), I.Callee().numLocations, I.Offset(), I.error, I.field)
    ensures Originates(I, e', o)
  {
    var c := I.Callee();
    var l :| l in c.errors && l < c.numLocations && e' == ErrorEdge(c, l, I.Offset(), I.error, I.field);
    o := ToError(l);
  }

  lemma {:induction false} CloneOrigin(I: Inlining, e': Transition) returns (o: Origin)
    requires I.InRange() && e' in CloneEdges(I.Callee().edges, I.Callee(), I.F(), I.ren, I.temps, I.Offset())
    ensures Originates(I, e', o)
  {
    var c := I.Callee();
    var clones := CloneEdges(c.edges, c, I.F(), I.ren, I.temps, I.Offset());
    hide CloneEdge, CloneEdges;
    var i :| 0 <= i < |clones| && clones[i] == e';
    o := Cloned(c.edges[i]);
  }

  // ---- Passing arguments ----

  /** After entering or looping back, the renamed inputs hold the arguments as evaluated in `v`. */
  ghost predicate Receives(args: seq<Assignment>, inputs: seq<Variable>, ren: Renaming, v: Valuation, w: Valuation, choices: seq<Value>) {
    forall i | 0 <= i < |inputs| ::
      var x := inputs[i]; var value := Argument(args, x);
      x in ren && Get(w, ren[x]) == Fit(if value.Undef? then ChoiceAt(choices, i, x.typ) else Eval(value, v), x.typ)
  }

  lemma {:induction false} ReceivesPasses(args: seq<Assignment>, inputs: seq<Variable>, ren: Renaming, v: Valuation, w: Valuation, choices: seq<Value>)
    requires Supplies(args, inputs) && ValidRenaming(ren) && Receives(args, inputs, ren, v, w, choices)
    ensures Passes(args, v, Pull(w, ren))
  {
    forall a | a in args && !a.value.Undef? ensures Get(Pull(w, ren), a.variable) == Fit(Eval(a.value, v), a.variable.typ) {
      ArgumentOf(args, a);
      hide Eval, Argument, Pull;
      var i :| 0 <= i < |inputs| && inputs[i] == a.variable;
      assert Get(w, ren[inputs[i]]) == Fit(Eval(a.value, v), a.variable.typ);
    }
  }

  /** The choices that make undefined arguments come out as in a given start valuation. */
  function StartValues(inputs: seq<Variable>, init: Valuation): seq<Value> {
    seq(|inputs|, i requires 0 <= i < |inputs| => Get(init, inputs[i]))
  }

  lemma {:induction false} PassesReceives(args: seq<Assignment>, inputs: seq<Variable>, ren: Renaming, v: Valuation, w: Valuation, init: Valuation)
    requires Supplies(args, inputs) && Passes(args, v, init) && Receives(args, inputs, ren, v, w, StartValues(inputs, init))
    ensures Agree(init, w, ren, set x | x in inputs)
  {
    forall x | x in inputs ensures x in ren && Get(init, x) == Get(w, ren[x]) {
      var i :| 0 <= i < |inputs| && inputs[i] == x;
      ArgumentIn(args, inputs, x);
      hide Eval, Argument;
      assert ChoiceAt(StartValues(inputs, init), i, x.typ) == Get(init, x);
    }
  }

  // ---- What a step inside the clone does ----

  /** Root variables other than the call's outputs are as they were. */
  ghost predicate RestKept(I: Inlining, w: Valuation, w': Valuation)
    requires I.InRange()
  {
    forall y | y in VariablesOf(I.Root()) && y !in Written(I.Edge().outputs) :: Get(w, y) == Get(w', y)
  }

  lemma {:induction false} OutsideNames(I: Inlining, y: Variable)
    requires I.InRange() && I.Valid() && y in VariablesOf(I.Root()) && y !in Written(I.Edge().outputs)
    ensures y !in I.ren.Values && y !in I.temps
  {
  }

  lemma {:induction false} AssignCloned(I: Inlining, e: Transition, v: Valuation, w: Valuation, choices: seq<Value>, xs: set<Variable>)
    requires I.InRange() && I.Valid() && e in I.Callee().edges && e.Assign? && xs <= VariablesOf(I.Callee())
    requires ReadsWithin(e.assigns, xs) && Vars(e.guard) <= xs && Agree(v, w, I.ren, xs)
    ensures Holds(I.Clone(e).guard, w) <==> Holds(e.guard, v)
    ensures var w' := Exec(I.Clone(e).assigns, w, choices);
            Agree(Exec(e.assigns, v, choices), w', I.ren, xs + Written(e.assigns)) && RestKept(I, w, w')
  {
    assert EdgeScoped(e, I.Callee().numLocations, VariablesOf(I.Callee()));
    EvalRenamed(e.guard, v, w, I.ren, xs);
    ExecRenamed(e.assigns, v, w, choices, I.ren, xs);
    var renamed := RenameAssigns(e.assigns, I.ren);
    hide Exec, Renamed, Eval, RenameAssigns;
    forall y | y in VariablesOf(I.Root()) && y !in Written(I.Edge().outputs) ensures Get(w, y) == Get(Exec(renamed, w, choices), y) {
      OutsideNames(I, y);
      if y in Written(renamed) {
        WrittenRenamed(e.assigns, I.ren, y);
      }
      ExecFrame(renamed, w, choices, y);
    }
  }

  lemma {:induction false} CallCloned(I: Inlining, e: Transition, v: Valuation, w: Valuation, final: Valuation, xs: set<Variable>)
    requires I.InRange() && I.Valid() && e in I.Callee().edges && e.Call? && e.callee != I.F() && Agree(v, w, I.ren, xs)
    ensures var w' := Returned(I.Clone(e).outputs, w, final);
            Agree(Returned(e.outputs, v, final), w', I.ren, xs + Written(e.outputs)) && RestKept(I, w, w')
  {
    assert EdgeScoped(e, I.Callee().numLocations, VariablesOf(I.Callee()));
    ReturnedRenamed(e.outputs, v, w, final, I.ren, xs);
    var renamed := RenameOutputs(e.outputs, I.ren);
    hide Returned, Eval, RenameOutputs;
    forall y | y in VariablesOf(I.Root()) && y !in Written(I.Edge().outputs) ensures Get(w, y) == Get(Returned(renamed, w, final), y) {
      OutsideNames(I, y);
      if y in Written(renamed) {
        WrittenRenamed(e.outputs, I.ren, y);
      }
      ReturnedFrame(renamed, w, final, y);
    }
  }

  lemma {:induction false} ArgumentVars(args: seq<Assignment>, inputs: seq<Variable>, xs: set<Variable>)
    requires Supplies(args, inputs) && forall a | a in args :: Vars(a.value) <= xs
    ensures forall x | x in inputs :: Vars(Argument(args, x)) <= xs
  {
    forall x | x in inputs ensures Vars(Argument(args, x)) <= xs {
      ArgumentIn(args, inputs, x);
    }
  }

  /** The names of the inputs are new to the caller, whose variables are `xs`. */
  ghost predicate NewInputNames(args: seq<Assignment>, inputs: seq<Variable>, ren: Renaming, xs: set<Variable>) {
    && (forall i | 0 <= i < |inputs| :: inputs[i] in ren && ren[inputs[i]] !in xs && ren[inputs[i]].typ == inputs[i].typ)
    && (forall i, j | 0 <= i < j < |inputs| :: ren[inputs[i]] != ren[inputs[j]])
    && (forall i | 0 <= i < |inputs| :: Vars(Argument(args, inputs[i])) <= xs)
  }

  lemma {:induction false} EntryIndependent(args: seq<Assignment>, inputs: seq<Variable>, ren: Renaming, xs: set<Variable>)
    requires NewInputNames(args, inputs, ren, xs)
    ensures Independent(EntryArgs(args, inputs, ren))
  {
    var r := EntryArgs(args, inputs, ren);
    hide EntryArgs, Argument, Vars;
    forall a, b | a in r && b in r ensures b.variable !in Vars(a.value) {
      var i :| 0 <= i < |r| && r[i] == a;
      var j :| 0 <= j < |r| && r[j] == b;
    }
  }

  lemma {:induction false} EntryReceives(args: seq<Assignment>, inputs: seq<Variable>, ren: Renaming, xs: set<Variable>, v: Valuation, w: Valuation, choices: seq<Value>)
    requires NewInputNames(args, inputs, ren, xs) && Same(v, w, xs)
    ensures Receives(args, inputs, ren, v, Exec(EntryArgs(args, inputs, ren), w, choices), choices)
    ensures Same(w, Exec(EntryArgs(args, inputs, ren), w, choices), xs)
  {
    var assigns := EntryArgs(args, inputs, ren);
    var w' := Exec(assigns, w, choices);
    EntryIndependent(args, inputs, ren, xs);
    hide Exec, Eval, Argument, Vars, EntryArgs;
    forall i | 0 <= i < |inputs|
      ensures var value := Argument(args, inputs[i]);
              Get(w', ren[inputs[i]]) == Fit(if value.Undef? then ChoiceAt(choices, i, inputs[i].typ) else Eval(value, v), inputs[i].typ)
    {
      ParallelExec(assigns, w, choices, i);
      EvalCongruence(Argument(args, inputs[i]), v, w);
    }
    forall y | y in xs ensures Get(w, y) == Get(w', y) {
      ExecFrame(assigns, w, choices, y);
    }
  }

  lemma {:induction false} BackReceives(args: seq<Assignment>, c: Cfa, temps: seq<Variable>, ren: Renaming, xs: set<Variable>, v: Valuation, w: Valuation, choices: seq<Value>)
    requires LoopNames(c, temps, ren) && xs <= ren.Keys && Agree(v, w, ren, xs)
    requires forall x | x in c.inputs :: Vars(Argument(args, x)) <= xs
    ensures Receives(args, c.inputs, ren, v, Exec(BackArgs(args, c, temps, ren), w, choices), choices)
  {
    hide Exec, Renamed, Eval, Argument, Vars, BackArgs;
    forall i | 0 <= i < |c.inputs|
      ensures var value := Argument(args, c.inputs[i]);
              c.inputs[i] in ren && Get(Exec(BackArgs(args, c, temps, ren), w, choices), ren[c.inputs[i]])
              == Fit(if value.Undef? then ChoiceAt(choices, i, c.inputs[i].typ) else Eval(value, v), c.inputs[i].typ)
    {
      BackEdgeIsParallel(args, c, temps, ren, w, choices, i);
      EvalRenamed(Argument(args, c.inputs[i]), v, w, ren, xs);
    }
  }

  lemma {:induction false} ValidNames(I: Inlining)
    requires I.InRange() && I.Valid()
    ensures LoopNames(I.Callee(), I.temps, I.ren)
    ensures NewInputNames(I.Edge().inputs, I.Callee().inputs, I.ren, VariablesOf(I.Root()))
  {
    var c := I.Callee();
    assert EdgeScoped(I.Edge(), I.Offset(), VariablesOf(I.Root()));
    ArgumentVars(I.Edge().inputs, c.inputs, VariablesOf(I.Root()));
    hide Vars, Argument;
    forall i | 0 <= i < |c.inputs|
      ensures c.inputs[i] in I.ren && I.ren[c.inputs[i]] !in VariablesOf(I.Root())
              && Vars(Argument(I.Edge().inputs, c.inputs[i])) <= VariablesOf(I.Root())
    {
      assert c.inputs[i] in c.inputs;
    }
  }

  /** A back-edge hands the recursive arguments to the renamed inputs. */
  lemma {:induction false} LoopedBack(I: Inlining, e: Transition, v: Valuation, w: Valuation, choices: seq<Value>, xs: set<Variable>)
    requires I.InRange() && I.Valid() && e in I.Callee().edges && e.Call? && e.callee == I.F()
    requires xs <= VariablesOf(I.Callee()) && (forall a | a in e.inputs :: Vars(a.value) <= xs) && Agree(v, w, I.ren, xs)
    ensures var w' := Exec(I.Clone(e).assigns, w, choices);
            Receives(e.inputs, I.Callee().inputs, I.ren, v, w', choices) && RestKept(I, w, w')
  {
    var c := I.Callee();
    var back := BackArgs(e.inputs, c, I.temps, I.ren);
    assert SelfCallShape(c, e) && I.Clone(e).assigns == back;
    ArgumentVars(e.inputs, c.inputs, xs);
    ValidNames(I);
    BackReceives(e.inputs, c, I.temps, I.ren, xs, v, w, choices);
    hide Exec, Eval, Argument, Vars, BackArgs, CloneEdge, Receives;
    forall y | y in VariablesOf(I.Root()) && y !in Written(I.Edge().outputs) ensures Get(w, y) == Get(Exec(back, w, choices), y) {
      OutsideNames(I, y);
      if y in Written(back) {
        BackArgsWrites(e.inputs, c, I.temps, I.ren, y);
      }
      ExecFrame(back, w, choices, y);
    }
  }

  /** The entry edge hands the call's arguments to the renamed inputs and leaves the root's variables. */
  lemma {:induction false} Entered(I: Inlining, v: Valuation, w: Valuation, choices: seq<Value>)
    requires I.InRange() && I.Valid() && Same(v, w, VariablesOf(I.Root()))
    ensures var w' := Exec(EntryEdge(I.Edge(), I.Callee(), I.ren, I.Offset()).assigns, w, choices);
            Receives(I.Edge().inputs, I.Callee().inputs, I.ren, v, w', choices) && Same(w, w', VariablesOf(I.Root()))
  {
    ValidNames(I);
    EntryReceives(I.Edge().inputs, I.Callee().inputs, I.ren, VariablesOf(I.Root()), v, w, choices);
    hide Inlining.Valid, Receives, Exec, Same;
  }
}
