/** Back-edges of an inlined loop: the list of temporaries and inputs assigned on one is a single
    parallel assignment of the recursive call's arguments. */
module BackEdges {
  import opened Exprs
  import opened ExprRewrite
  import opened Automata
  import opened AssignLists
  import opened TailInlining

  // ---- Arguments ----

  lemma {:induction false} ArgumentOf(args: seq<Assignment>, a: Assignment)
    requires a in args && DistinctTargets(args)
    ensures Argument(args, a.variable) == a.value
  {
    if args[0] != a {
      assert a in args[1..];
      ArgumentOf(args[1..], a);
      var i :| 0 <= i < |args| && args[i] == a;
    }
  }

  lemma {:induction false} ArgumentIn(args: seq<Assignment>, params: seq<Variable>, x: Variable)
    requires Supplies(args, params) && x in params
    ensures Assignment(x, Argument(args, x)) in args
  {
    var a :| a in args && a.variable == x;
    ArgumentOf(args, a);
  }

  lemma {:induction false} RenamedVars(e: Expr, ren: Renaming, x: Variable)
    requires Vars(e) <= ren.Keys && x in Vars(Renamed(e, ren))
    ensures x in ren.Values
    decreases e
  {
    var s := AsRewriting(ren);
    match e
    case Lit(_) =>
    case Undef(_) =>
    case VarRef(y) => assert x == ren[y];
    case Not(op) => RenamedVars(op, ren, x);
    case Extend(_, op, _) => RenamedVars(op, ren, x);
    case Extract(op, _, _) => RenamedVars(op, ren, x);
    case Binary(kind, l, r) =>
      assert x in Vars(Renamed(l, ren)) || x in Vars(Renamed(r, ren));
      if x in Vars(Renamed(l, ren)) { RenamedVars(l, ren, x); } else { RenamedVars(r, ren, x); }
    case And(ops) => RenamedVarsOfAll(ops, ren, x);
    case Or(ops) => RenamedVarsOfAll(ops, ren, x);
    case Select(c, t, f) =>
      if x in Vars(Renamed(c, ren)) { RenamedVars(c, ren, x); }
      else if x in Vars(Renamed(t, ren)) { RenamedVars(t, ren, x); }
      else { RenamedVars(f, ren, x); }
  }

  lemma {:induction false} RenamedVarsOfAll(ops: seq<Expr>, ren: Renaming, x: Variable)
    requires VarsOfAll(ops) <= ren.Keys && x in VarsOfAll(RewriteAll(Plain, ops, AsRewriting(ren)))
    ensures x in ren.Values
    decreases ops, 0
  {
    var r := RewriteAll(Plain, ops, AsRewriting(ren));
    var o :| o in r && x in Vars(o);
    var i :| 0 <= i < |r| && r[i] == o;
    VarsOfOperand(ops, ops[i]);
    RenamedVars(ops[i], ren, x);
  }

  lemma {:induction false} RenamedIsNot(e: Expr, ren: Renaming, t: Variable)
    requires Vars(e) <= ren.Keys && t !in ren.Values
    ensures Renamed(e, ren) != VarRef(t)
  {
    if Renamed(e, ren) == VarRef(t) {
      assert t in Vars(VarRef(t));
      RenamedVars(e, ren, t);
    }
  }

  /** The recursive arguments never name a temporary, so none of them is skipped. */
  lemma {:induction false} TempArgsFull(args: seq<Assignment>, inputs: seq<Variable>, temps: seq<Variable>, ren: Renaming)
    requires |inputs| == |temps| && (forall i | 0 <= i < |temps| :: temps[i] !in ren.Values)
    requires forall x | x in inputs :: Vars(Argument(args, x)) <= ren.Keys
    ensures var r := TempArgs(args, inputs, temps, ren);
            |r| == |inputs| && forall i | 0 <= i < |r| :: r[i] == Assignment(temps[i], Renamed(Argument(args, inputs[i]), ren))
  {
    hide Renamed, Vars, Argument;
    if inputs != [] {
      var n := |inputs| - 1;
      assert forall x | x in inputs[..n] :: x in inputs;
      TempArgsFull(args, inputs[..n], temps[..n], ren);
      RenamedIsNot(Argument(args, inputs[n]), ren, temps[n]);
    }
  }

  /** The inputs of a loop and their temporaries, as a back-edge needs them. */
  ghost predicate LoopNames(c: Cfa, temps: seq<Variable>, ren: Renaming) {
    && |temps| == |c.inputs| && NoDuplicates(c.inputs) && NoDuplicates(temps)
    && ValidRenaming(ren) && ren.Keys == VariablesOf(c)
    && (forall i | 0 <= i < |temps| :: temps[i].typ == c.inputs[i].typ && temps[i] !in ren.Values)
  }

  /** Running a back-edge's list of temporaries and then inputs, in order, is one parallel
      assignment of the recursive arguments to the inputs. */
  lemma {:induction false} BackEdgeIsParallel(args: seq<Assignment>, c: Cfa, temps: seq<Variable>, ren: Renaming, w: Valuation, choices: seq<Value>, i: nat)
    requires LoopNames(c, temps, ren) && i < |c.inputs|
    requires forall x | x in c.inputs :: Vars(Argument(args, x)) <= ren.Keys
    ensures var x := c.inputs[i]; var value := Argument(args, x);
            Get(Exec(BackArgs(args, c, temps, ren), w, choices), ren[x])
            == Fit(if value.Undef? then ChoiceAt(choices, i, x.typ) else Eval(Renamed(value, ren), w), x.typ)
  {
    var first, second := TempArgs(args, c.inputs, temps, ren), InputArgs(c.inputs, temps, ren);
    assert Eval(VarRef(temps[i]), Exec(first, w, choices)) == Get(Exec(first, w, choices), temps[i]);
    hide Renamed, Exec, Vars, Argument, TempArgs, InputArgs, Eval;
    TempArgsFull(args, c.inputs, temps, ren);
    TempsIndependent(args, c, temps, ren);
    InputsIndependent(c, temps, ren);
    ExecConcat(first, second, w, choices);
    ParallelExec(first, w, choices, i);
    ParallelExec(second, Exec(first, w, choices), Drop(choices, |first|), i);
    RenamedUndef(Argument(args, c.inputs[i]), ren);
  }

  lemma {:induction false} TempsIndependent(args: seq<Assignment>, c: Cfa, temps: seq<Variable>, ren: Renaming)
    requires LoopNames(c, temps, ren) && forall x | x in c.inputs :: Vars(Argument(args, x)) <= ren.Keys
    ensures Independent(TempArgs(args, c.inputs, temps, ren))
  {
    var r := TempArgs(args, c.inputs, temps, ren);
    TempArgsFull(args, c.inputs, temps, ren);
    forall a, b | a in r && b in r ensures b.variable !in Vars(a.value) {
      var i :| 0 <= i < |r| && r[i] == a;
      var j :| 0 <= j < |r| && r[j] == b;
      if temps[j] in Vars(a.value) {
        RenamedVars(Argument(args, c.inputs[i]), ren, temps[j]);
      }
    }
  }

  lemma {:induction false} InputsIndependent(c: Cfa, temps: seq<Variable>, ren: Renaming)
    requires LoopNames(c, temps, ren)
    ensures Independent(InputArgs(c.inputs, temps, ren))
  {
    var r := InputArgs(c.inputs, temps, ren);
    hide InputArgs;
    forall i, j | 0 <= i < |r| && 0 <= j < |r| ensures r[j].variable !in Vars(r[i].value) && (i != j ==> r[i].variable != r[j].variable) {
      assert c.inputs[i] in ren && c.inputs[j] in ren;
      assert Vars(r[i].value) == {temps[i]};
      hide Vars;
    }
    hide Vars;
    forall a, b | a in r && b in r ensures b.variable !in Vars(a.value) {
      var i :| 0 <= i < |r| && r[i] == a;
      var j :| 0 <= j < |r| && r[j] == b;
    }
  }

  lemma {:induction false} BackArgsWrites(args: seq<Assignment>, c: Cfa, temps: seq<Variable>, ren: Renaming, y: Variable)
    requires LoopNames(c, temps, ren) && forall x | x in c.inputs :: Vars(Argument(args, x)) <= ren.Keys
    requires y in Written(BackArgs(args, c, temps, ren))
    ensures y in temps || exists x :: x in c.inputs && y == ren[x]
  {
    TempArgsFull(args, c.inputs, temps, ren);
    var r := BackArgs(args, c, temps, ren);
    var a :| a in r && a.variable == y;
    var i :| 0 <= i < |r| && r[i] == a;
    var n := |c.inputs|;
    if i >= n {
      assert y == ren[c.inputs[i - n]] && c.inputs[i - n] in c.inputs;
    }
  }
}
