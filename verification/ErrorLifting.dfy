/** Lifting errors into the entry procedure (src/LLVM/Transform/LiftErrorsPass.cpp), over procedures
    given as automata: an error location stands for a block that calls the error function, a call
    edge for a call instruction. The lifted entry holds one copy of every procedure that may fail;
    a call that fails is a jump into the copy of its callee, a call that succeeds runs the callee
    without its errors. Both programs reach the same error codes. */
module ErrorLifting {
  import opened Exprs
  import opened ExprRewrite
  import opened Automata
  import opened AssignLists
  import opened TailInlining
  import opened BackEdges

  // ---- Which procedures may fail ----

  ghost predicate Calls(S: System, f: nat, g: nat) {
    f < |S| && exists e :: e in S[f].edges && e.Call? && e.callee == g
  }

  /** A chain of calls through the procedures `p`. */
  ghost predicate CallChain(S: System, p: seq<nat>) {
    && p != [] && (forall i | 0 <= i < |p| :: p[i] < |S|)
    && forall i | 0 <= i < |p| - 1 :: Calls(S, p[i], p[i + 1])
  }

  /** Some chain of calls from `f` leads to a procedure with an error of its own. */
  ghost predicate MayFail(S: System, f: nat) {
    exists p :: CallChain(S, p) && p[0] == f && S[p[|p| - 1]].errors != map[]
  }

  lemma {:induction false} MayFailHere(S: System, f: nat)
    requires f < |S| && S[f].errors != map[]
    ensures MayFail(S, f)
  {
    assert CallChain(S, [f]) && [f][0] == f;
  }

  lemma {:induction false} MayFailThere(S: System, f: nat, e: Transition)
    requires f < |S| && e in S[f].edges && e.Call? && MayFail(S, e.callee)
    ensures MayFail(S, f)
  {
    var p :| CallChain(S, p) && p[0] == e.callee && S[p[|p| - 1]].errors != map[];
    var q := [f] + p;
    assert Calls(S, f, e.callee);
    assert forall i | 0 <= i < |q| - 1 :: q[i + 1] == p[i] && (i > 0 ==> q[i] == p[i - 1]);
    forall i | 0 <= i < |q| - 1 ensures Calls(S, q[i], q[i + 1]) {
      if i > 0 {
        var j := i - 1;
        assert Calls(S, p[j], p[j + 1]);
      }
    }
    assert CallChain(S, q) && q[0] == f && q[|q| - 1] == p[|p| - 1];
  }

  /** A procedure that may fail has an error of its own or calls one that may fail. */
  lemma {:induction false} MayFailBecause(S: System, f: nat)
    requires MayFail(S, f)
    ensures f < |S| && (S[f].errors != map[] || exists e :: e in S[f].edges && e.Call? && MayFail(S, e.callee))
  {
    var p :| CallChain(S, p) && p[0] == f && S[p[|p| - 1]].errors != map[];
    if |p| > 1 {
      var q := p[1..];
      forall i | 0 <= i < |q| - 1 ensures Calls(S, q[i], q[i + 1]) { assert Calls(S, p[i + 1], p[i + 1 + 1]); }
      assert CallChain(S, q) && q[0] == p[1] && q[|q| - 1] == p[|p| - 1];
      assert Calls(S, p[0], p[0 + 1]);
    }
  }

  /** Whatever fails was found able to fail. */
  lemma {:induction false} FailsMayFail(S: System, f: nat, l: Loc, v: Valuation, fail: Failure, code: Value)
    requires Fails(S, f, l, v, fail, code)
    ensures MayFail(S, f)
    decreases fail
  {
    UnfoldFailure(S, f, l, v, fail, code);
    hide MayFail, Fails;
    match fail
    case Here => MayFailHere(S, f);
    case After(e, choices, rest) => FailsMayFail(S, f, e.target, Exec(e.assigns, v, choices), rest, code);
    case Past(e, _, _, final, rest) => FailsMayFail(S, f, e.target, Returned(e.outputs, v, final), rest, code);
    case Inside(e, init, inner) =>
      FailsMayFail(S, e.callee, S[e.callee].entry, init, inner, code);
      MayFailThere(S, f, e);
  }

  // ---- The lifted entry ----

  /** Arguments become assignments to the parameters of the callee's copy. */
  function JumpArgs(args: seq<Assignment>, own: bool, ren: Renaming, ren': Renaming): (r: seq<Assignment>)
    ensures |r| == |args|
    ensures forall i | 0 <= i < |args| :: r[i] == Assignment(Name(ren', args[i].variable), ExprIn(args[i].value, own, ren))
  {
    if args == [] then []
    else [Assignment(Name(ren', args[0].variable), ExprIn(args[0].value, own, ren))] + JumpArgs(args[1..], own, ren, ren')
  }

  /** An expression inside a copy; the entry's own code is not renamed. */
  function ExprIn(e: Expr, own: bool, ren: Renaming): Expr { if own then e else Renamed(e, ren) }

  function CopyEdge(e: Transition, own: bool, ren: Renaming, base: nat): Transition {
    if own then e else
    match e
    case Disconnected => Disconnected
    case Assign(s, t, g, assigns) => Assign(base + s, base + t, Renamed(g, ren), RenameAssigns(assigns, ren))
    case Call(s, t, g, callee, ins, outs) => Call(base + s, base + t, Renamed(g, ren), callee, RenameInputs(ins, ren), RenameOutputs(outs, ren))
  }

  function JumpEdge(e: Transition, own: bool, ren: Renaming, base: nat, ren': Renaming, target: Loc): Transition
    requires e.Call?
  {
    Assign(base + e.source, target, ExprIn(e.guard, own, ren), JumpArgs(e.inputs, own, ren, ren'))
  }

  /** Where an edge of the lifted entry comes from: a copied edge, a call that fails, or the error
      block of a copy. */
  datatype Origin = Copied(f: nat, edge: Transition) | Jumped(f: nat, edge: Transition) | Wired(f: nat, loc: Loc)

  /** Procedures a program may consist of; an error code is a value the error field can hold. */
  ghost predicate Sound(S: System, c: Cfa, t: Type) {
    && c.entry < c.numLocations && c.exit < c.numLocations
    && (forall e | e in c.edges :: EdgeScoped(e, c.numLocations, VariablesOf(c)) && (e.Call? ==> Fitting(S, e)))
    && (forall l | l in c.errors :: l < c.numLocations && CodeOf(c.errors[l], VariablesOf(c), t))
  }

  ghost predicate CodeOf(e: Expr, xs: set<Variable>, t: Type) {
    !e.Undef? && Vars(e) <= xs && WellTyped(e) && TypeOf(e) == t
  }

  /** Arguments go to different parameters of the callee. */
  ghost predicate Fitting(S: System, e: Transition)
    requires e.Call?
  {
    e.callee < |S| && DistinctTargets(e.inputs) && forall a | a in e.inputs :: a.variable in VariablesOf(S[e.callee])
  }

  /** `rank` orders the call graph. */
  ghost predicate Acyclic(S: System, rank: seq<nat>) {
    && |rank| == |S|
    && forall f, e | 0 <= f < |S| && e in S[f].edges && e.Call? :: e.callee < |S| && rank[e.callee] < rank[f]
  }

  /** The copies placed in the entry: `base` is where the locations of a copy start, `ren` names
      its variables. The entry counts as its own copy. */
  datatype Lift = Lift(S: System, entry: nat, rank: seq<nat>, error: Loc, field: Variable, base: map<nat, nat>, ren: map<nat, Renaming>) {

    ghost predicate InRange() {
      entry < |S| && entry in base && base.Keys == ren.Keys && forall f | f in base :: f < |S|
    }

    ghost predicate In(f: nat, x: Loc)
      requires InRange() && f in base
    {
      base[f] <= x < base[f] + S[f].numLocations
    }

    ghost predicate NamesAreSeparate()
      requires InRange()
    {
      && (forall f | f in base :: ValidRenaming(ren[f]) && ren[f].Keys == VariablesOf(S[f]))
      && (forall x | x in ren[entry] :: ren[entry][x] == x)
      && (forall f, g | f in base && g in base && f != g :: ren[f].Values !! ren[g].Values)
    }

    ghost predicate LocationsAreSeparate()
      requires InRange()
    {
      base[entry] == 0 && forall f, g, x | f in base && g in base && f != g && In(f, x) :: !In(g, x)
    }

    /** The entry has one error location, where nothing follows. */
    ghost predicate EntryShape()
      requires InRange()
    {
      && S[entry].errors == map[error := VarRef(field)] && error < S[entry].numLocations && field in VariablesOf(S[entry])
      && (forall e | e in S[entry].edges :: e.Disconnected? || e.source != error)
    }

    ghost predicate Valid()
      requires InRange()
    {
      && (forall f :: f in base <==> MayFail(S, f))
      && Acyclic(S, rank) && NeverCalls(S, entry) && (forall f | 0 <= f < |S| :: Sound(S, S[f], field.typ))
      && EntryShape() && NamesAreSeparate() && LocationsAreSeparate()
    }

    ghost predicate IsOrigin(o: Origin)
      requires InRange()
    {
      match o
      case Copied(f, e) => f in base && e in S[f].edges
      case Jumped(f, e) => f in base && e in S[f].edges && e.Call? && e.callee in base
      case Wired(f, l) => f in base && f != entry && l in S[f].errors
    }

    ghost function EdgeOf(o: Origin): Transition
      requires InRange() && IsOrigin(o)
    {
      match o
      case Copied(f, e) => CopyEdge(e, f == entry, ren[f], base[f])
      case Jumped(f, e) => JumpEdge(e, f == entry, ren[f], base[f], ren[e.callee], base[e.callee] + S[e.callee].entry)
      case Wired(f, l) => Assign(base[f] + l, error, True(), [Assignment(field, Renamed(S[f].errors[l], ren[f]))])
    }

    /** `T` is the lifted program. */
    ghost predicate LiftsTo(T: System)
      requires InRange()
    {
      && |T| == |S| && T[entry].entry == S[entry].entry && T[entry].exit == S[entry].exit && T[entry].errors == S[entry].errors
      && (forall o | IsOrigin(o) :: EdgeOf(o) in T[entry].edges)
      && (forall e | e in T[entry].edges :: exists o :: IsOrigin(o) && EdgeOf(o) == e)
      && (forall g | 0 <= g < |S| && g != entry :: T[g] == S[g].(errors := map[]))
    }
  }

  // ---- Procedures other than the entry ----

  /** Apart from the entry, which nobody calls, the systems differ in errors only. */
  ghost predicate SameBodies(S: System, T: System, entry: nat) {
    |S| == |T| && NeverCalls(S, entry) && NeverCalls(T, entry)
    && forall g | 0 <= g < |S| && g != entry :: S[g].edges == T[g].edges && S[g].entry == T[g].entry && S[g].exit == T[g].exit
  }

  lemma {:induction false} RunsWithoutErrors(S: System, T: System, entry: nat, f: nat, l: Loc, v: Valuation, run: Run, l': Loc, w: Valuation)
    requires SameBodies(S, T, entry) && f != entry && Leads(S, f, l, v, run, l', w)
    ensures Leads(T, f, l, v, run, l', w)
    decreases run
  {
    match run
    case Stop =>
    case Step(e, choices, rest) => RunsWithoutErrors(S, T, entry, f, e.target, Exec(e.assigns, v, choices), rest, l', w);
    case Through(e, init, body, final, rest) =>
      RunsWithoutErrors(S, T, entry, e.callee, S[e.callee].entry, init, body, S[e.callee].exit, final);
      RunsWithoutErrors(S, T, entry, f, e.target, Returned(e.outputs, v, final), rest, l', w);
  }

  /** Without errors outside the entry, no other procedure fails. */
  lemma {:induction false} NoFailureElsewhere(T: System, entry: nat, f: nat, l: Loc, v: Valuation, fail: Failure, code: Value)
    requires NeverCalls(T, entry) && (forall g | 0 <= g < |T| && g != entry :: T[g].errors == map[])
    requires f != entry
    ensures !Fails(T, f, l, v, fail, code)
    decreases fail
  {
    if Fails(T, f, l, v, fail, code) {
      UnfoldFailure(T, f, l, v, fail, code);
      match fail
      case Here =>
      case After(e, choices, rest) => NoFailureElsewhere(T, entry, f, e.target, Exec(e.assigns, v, choices), rest, code);
      case Past(e, _, _, final, rest) => NoFailureElsewhere(T, entry, f, e.target, Returned(e.outputs, v, final), rest, code);
      case Inside(e, init, inner) => NoFailureElsewhere(T, entry, e.callee, T[e.callee].entry, init, inner, code);
    }
  }

  lemma {:induction false} LiftedCalls(L: Lift, T: System, e: Transition)
    requires L.InRange() && NeverCalls(L.S, L.entry) && L.LiftsTo(T) && e in T[L.entry].edges && e.Call?
    ensures e.callee != L.entry
  {
    hide RenameInputs, RenameOutputs, RenameAssigns, Renamed, JumpArgs;
    var o :| L.IsOrigin(o) && L.EdgeOf(o) == e;
    assert o.Copied? && o.edge in L.S[o.f].edges && o.edge.callee == e.callee;
  }

  lemma {:induction false} LiftedBodies(L: Lift, T: System)
    requires L.InRange() && NeverCalls(L.S, L.entry) && L.LiftsTo(T)
    ensures SameBodies(L.S, T, L.entry) && |T| == |L.S| && NeverCalls(T, L.entry) && forall g | 0 <= g < |T| && g != L.entry :: T[g].errors == map[]
  {
    forall f, e | 0 <= f < |T| && e in T[f].edges && e.Call? ensures e.callee != L.entry {
      if f == L.entry {
        LiftedCalls(L, T, e);
      } else {
        assert T[f].edges == L.S[f].edges;
      }
    }
    hide Lift.EdgeOf, Lift.IsOrigin;
  }

  // ---- What one step does in a copy ----

  lemma {:induction false} AgreeIsSame(v: Valuation, w: Valuation, ren: Renaming, xs: set<Variable>)
    requires xs <= ren.Keys && forall x | x in ren :: ren[x] == x
    ensures Agree(v, w, ren, xs) <==> Same(v, w, xs)
  {
  }

  lemma {:induction false} ExprInMeans(e: Expr, own: bool, ren: Renaming, v: Valuation, w: Valuation)
    requires Vars(e) <= ren.Keys && Agree(v, w, ren, ren.Keys) && (own ==> forall x | x in ren :: ren[x] == x)
    ensures Eval(ExprIn(e, own, ren), w) == Eval(e, v) && (ExprIn(e, own, ren).Undef? <==> e.Undef?)
  {
    if own {
      AgreeIsSame(v, w, ren, ren.Keys);
      EvalCongruence(e, v, w);
    } else {
      EvalRenamed(e, v, w, ren, ren.Keys);
      RenamedUndef(e, ren);
    }
  }

  lemma {:induction false} ExprInVars(e: Expr, own: bool, ren: Renaming)
    requires Vars(e) <= ren.Keys && (own ==> forall x | x in ren :: ren[x] == x)
    ensures Vars(ExprIn(e, own, ren)) <= ren.Values
  {
    forall x | x in Vars(ExprIn(e, own, ren)) ensures x in ren.Values {
      if own {
        assert ren[x] == x;
      } else {
        RenamedVars(e, ren, x);
      }
    }
  }

  lemma {:induction false} AssignCopied(e: Transition, n: nat, own: bool, ren: Renaming, base: nat, v: Valuation, w: Valuation, choices: seq<Value>)
    requires e.Assign? && EdgeScoped(e, n, ren.Keys) && ValidRenaming(ren) && (own ==> forall x | x in ren :: ren[x] == x)
    requires Agree(v, w, ren, ren.Keys)
    ensures var e' := CopyEdge(e, own, ren, base);
            && e'.Assign? && (Holds(e'.guard, w) <==> Holds(e.guard, v))
            && Agree(Exec(e.assigns, v, choices), Exec(e'.assigns, w, choices), ren, ren.Keys)
  {
    ExprInMeans(e.guard, own, ren, v, w);
    if own {
      AgreeIsSame(v, w, ren, ren.Keys);
      ExecSame(e.assigns, v, w, choices, ren.Keys);
      AgreeIsSame(Exec(e.assigns, v, choices), Exec(e.assigns, w, choices), ren, ren.Keys);
    } else {
      ReadsWithinScope(e.assigns, ren.Keys, ren.Keys);
      ExecRenamed(e.assigns, v, w, choices, ren, ren.Keys);
      assert ren.Keys + Written(e.assigns) == ren.Keys;
    }
  }

  lemma {:induction false} CallCopied(e: Transition, n: nat, own: bool, ren: Renaming, base: nat, v: Valuation, w: Valuation, init: Valuation, final: Valuation)
    requires e.Call? && EdgeScoped(e, n, ren.Keys) && ValidRenaming(ren) && (own ==> forall x | x in ren :: ren[x] == x)
    requires Agree(v, w, ren, ren.Keys)
    ensures var e' := CopyEdge(e, own, ren, base);
            && e'.Call? && e'.callee == e.callee && (Holds(e'.guard, w) <==> Holds(e.guard, v))
            && (Passes(e'.inputs, w, init) <==> Passes(e.inputs, v, init))
            && Agree(Returned(e.outputs, v, final), Returned(e'.outputs, w, final), ren, ren.Keys)
  {
    hide Eval, Returned, RenameOutputs, RenameInputs, Passes;
    ExprInMeans(e.guard, own, ren, v, w);
    if own {
      AgreeIsSame(v, w, ren, ren.Keys);
      ReturnedSame(e.outputs, v, w, final, ren.Keys);
      AgreeIsSame(Returned(e.outputs, v, final), Returned(e.outputs, w, final), ren, ren.Keys);
      PassesSame(e.inputs, v, w, init, ren.Keys);
    } else {
      PassesRenamed(e.inputs, v, w, init, ren, ren.Keys);
      ReturnedRenamed(e.outputs, v, w, final, ren, ren.Keys);
      assert ren.Keys + Written(e.outputs) == ren.Keys;
    }
  }

  lemma {:induction false} PassesSame(args: seq<Assignment>, v: Valuation, w: Valuation, init: Valuation, xs: set<Variable>)
    requires Same(v, w, xs) && forall a | a in args :: Vars(a.value) <= xs
    ensures Passes(args, v, init) <==> Passes(args, w, init)
  {
    forall a | a in args ensures Eval(a.value, v) == Eval(a.value, w) { EvalCongruence(a.value, v, w); }
    hide Eval;
  }

  // ---- Jumping into a copy ----

  lemma {:induction false} JumpIndependent(args: seq<Assignment>, own: bool, ren: Renaming, ren': Renaming)
    requires DistinctTargets(args) && ValidRenaming(ren') && ren.Values !! ren'.Values && (own ==> forall x | x in ren :: ren[x] == x)
    requires forall a | a in args :: a.variable in ren' && Vars(a.value) <= ren.Keys
    ensures Independent(JumpArgs(args, own, ren, ren'))
  {
    hide JumpArgs, ExprIn, Vars;
    var r := JumpArgs(args, own, ren, ren');
    forall i, j | 0 <= i < j < |r| ensures r[i].variable != r[j].variable {
      assert args[i] in args && args[j] in args && args[i].variable != args[j].variable;
    }
    forall a, b | a in r && b in r ensures b.variable !in Vars(a.value) {
      var i :| 0 <= i < |r| && r[i] == a;
      var j :| 0 <= j < |r| && r[j] == b;
      assert args[i] in args && args[j] in args;
      ExprInVars(args[i].value, own, ren);
      assert b.variable == ren'[args[j].variable] && b.variable in ren'.Values;
    }
  }

  /** After a jump each parameter of the copy holds its argument, an undefined one the choice made. */
  lemma {:induction false} JumpSets(args: seq<Assignment>, own: bool, ren: Renaming, ren': Renaming, v: Valuation, w: Valuation, choices: seq<Value>, i: nat)
    requires DistinctTargets(args) && ValidRenaming(ren') && ren.Values !! ren'.Values && (own ==> forall x | x in ren :: ren[x] == x)
    requires forall a | a in args :: a.variable in ren' && Vars(a.value) <= ren.Keys
    requires Agree(v, w, ren, ren.Keys) && i < |args|
    ensures var a := args[i]; var value := if a.value.Undef? then ChoiceAt(choices, i, a.variable.typ) else Eval(a.value, v);
            a in args && a.variable in ren' && Get(Exec(JumpArgs(args, own, ren, ren'), w, choices), ren'[a.variable]) == Fit(value, a.variable.typ)
  {
    assert args[i] in args;
    JumpIndependent(args, own, ren, ren');
    ParallelExec(JumpArgs(args, own, ren, ren'), w, choices, i);
    ExprInMeans(args[i].value, own, ren, v, w);
    hide JumpArgs, Exec, Eval, ExprIn;
  }

  lemma {:induction false} JumpPasses(args: seq<Assignment>, own: bool, ren: Renaming, ren': Renaming, v: Valuation, w: Valuation, choices: seq<Value>)
    requires DistinctTargets(args) && ValidRenaming(ren') && ren.Values !! ren'.Values && (own ==> forall x | x in ren :: ren[x] == x)
    requires forall a | a in args :: a.variable in ren' && Vars(a.value) <= ren.Keys
    requires Agree(v, w, ren, ren.Keys)
    ensures Passes(args, v, Pull(Exec(JumpArgs(args, own, ren, ren'), w, choices), ren'))
  {
    var w' := Exec(JumpArgs(args, own, ren, ren'), w, choices);
    forall a | a in args && !a.value.Undef? ensures Get(Pull(w', ren'), a.variable) == Fit(Eval(a.value, v), a.variable.typ) {
      var i :| 0 <= i < |args| && args[i] == a;
      JumpSets(args, own, ren, ren', v, w, choices, i);
    }
    hide Exec, JumpArgs, Eval, Pull;
  }

  /** The choices that give undefined arguments the values the callee started with. */
  ghost function StartValues(args: seq<Assignment>, init: Valuation): (r: seq<Value>)
    ensures |r| == |args| && forall i | 0 <= i < |r| :: r[i] == Get(init, args[i].variable)
  {
    if args == [] then [] else [Get(init, args[0].variable)] + StartValues(args[1..], init)
  }

  /** Jumping with those choices, into a copy whose other variables are as the callee started. */
  lemma {:induction false} JumpStarts(args: seq<Assignment>, own: bool, ren: Renaming, ren': Renaming, v: Valuation, w: Valuation, init: Valuation)
    requires DistinctTargets(args) && ValidRenaming(ren') && ren.Values !! ren'.Values && (own ==> forall x | x in ren :: ren[x] == x)
    requires forall a | a in args :: a.variable in ren' && Vars(a.value) <= ren.Keys
    requires Agree(v, w, ren, ren.Keys) && Passes(args, v, init) && Agree(init, w, ren', ren'.Keys)
    ensures Agree(init, Exec(JumpArgs(args, own, ren, ren'), w, StartValues(args, init)), ren', ren'.Keys)
  {
    var r, choices := JumpArgs(args, own, ren, ren'), StartValues(args, init);
    var w' := Exec(r, w, choices);
    hide Exec, JumpArgs, Eval, StartValues;
    forall x | x in ren' ensures Get(init, x) == Get(w', ren'[x]) {
      if i :| 0 <= i < |args| && args[i].variable == x {
        JumpSets(args, own, ren, ren', v, w, choices, i);
        assert args[i] in args;
      } else {
        forall b | b in r ensures b.variable != ren'[x] {
          var j :| 0 <= j < |r| && r[j] == b;
          assert args[j] in args;
        }
        ExecFrame(r, w, choices, ren'[x]);
      }
    }
  }

  // ---- From the lifted program back ----

  /** An edge of the lifted entry starts in the copy it belongs to. */
  lemma {:induction false} OriginAt(L: Lift, T: System, f: nat, l: Loc, e: Transition) returns (o: Origin)
    requires L.InRange() && L.Valid() && L.LiftsTo(T) && f in L.base && l < L.S[f].numLocations
    requires e in T[L.entry].edges && !e.Disconnected? && e.source == L.base[f] + l
    ensures L.IsOrigin(o) && L.EdgeOf(o) == e && o.f == f && EdgeScopedIn(L, f, o)
    ensures if o.Wired? then o.loc == l else !o.edge.Disconnected? && o.edge.source == l
    ensures o.Jumped? ==> o.edge.Call?
  {
    hide *;
    o := SomeOrigin(L, T, e);
    OriginScoped(L, o);
    EntryBase(L);
    OriginSource(L, o);
    CopiesApart(L, f, l, o.f, if o.Wired? then o.loc else o.edge.source);
  }

  lemma SomeOrigin(L: Lift, T: System, e: Transition) returns (o: Origin)
    requires L.InRange() && L.LiftsTo(T) && e in T[L.entry].edges
    ensures o.f in L.base && L.IsOrigin(o) && L.EdgeOf(o) == e && (o.Jumped? ==> o.edge.Call?)
  {
    hide Lift.EdgeOf;
    o :| L.IsOrigin(o) && L.EdgeOf(o) == e;
  }

  lemma CopiesApart(L: Lift, f: nat, l: Loc, g: nat, l': Loc)
    requires L.InRange() && L.Valid() && f in L.base && g in L.base
    requires l < L.S[f].numLocations && l' < L.S[g].numLocations && L.base[f] + l == L.base[g] + l'
    ensures f == g && l == l'
  {
    hide MayFail, Acyclic, NeverCalls, Sound, Lift.EntryShape, Lift.NamesAreSeparate;
    assert L.In(f, L.base[f] + l) && L.In(g, L.base[f] + l);
  }

  lemma {:induction false} OriginSource(L: Lift, o: Origin)
    requires L.InRange() && L.base[L.entry] == 0 && o.f in L.base && L.IsOrigin(o) && EdgeScopedIn(L, o.f, o) && !L.EdgeOf(o).Disconnected?
    ensures !o.Wired? ==> !o.edge.Disconnected?
    ensures var l := if o.Wired? then o.loc else o.edge.source; l < L.S[o.f].numLocations && L.EdgeOf(o).source == L.base[o.f] + l
  {
    hide Renamed, RenameAssigns, RenameInputs, RenameOutputs, JumpArgs, CodeOf, Fitting, CopyEdge, EdgeScoped;
    match o
    case Copied(f, e) => CopySource(e, f == L.entry, L.ren[f], L.base[f], L.S[f].numLocations, VariablesOf(L.S[f]));
    case Jumped(f, e) => ScopedEnds(e, L.S[f].numLocations, VariablesOf(L.S[f]));
    case Wired(_, _) =>
  }

  lemma ScopedEnds(e: Transition, n: nat, xs: set<Variable>)
    requires EdgeScoped(e, n, xs) && !e.Disconnected?
    ensures e.source < n && e.target < n
  {
  }

  lemma CopySource(e: Transition, own: bool, ren: Renaming, base: nat, n: nat, xs: set<Variable>)
    requires EdgeScoped(e, n, xs) && (own ==> base == 0) && !CopyEdge(e, own, ren, base).Disconnected?
    ensures !e.Disconnected? && e.source < n && e.target < n
    ensures var e' := CopyEdge(e, own, ren, base);
            e'.source == base + e.source && e'.target == base + e.target && (e'.Call? <==> e.Call?)
  {
    hide Renamed, RenameAssigns, RenameInputs, RenameOutputs;
  }

  ghost predicate EdgeScopedIn(L: Lift, f: nat, o: Origin)
    requires L.InRange() && f in L.base
  {
    var c := L.S[f];
    match o
    case Wired(_, l) => l < c.numLocations && l in c.errors && CodeOf(c.errors[l], VariablesOf(c), L.field.typ)
    case _ => EdgeScoped(o.edge, c.numLocations, VariablesOf(c)) && (o.edge.Call? ==> Fitting(L.S, o.edge))
  }

  lemma {:induction false} OriginScoped(L: Lift, o: Origin)
    requires L.InRange() && L.Valid() && L.IsOrigin(o)
    ensures EdgeScopedIn(L, o.f, o)
  {
    hide MayFail, Acyclic, NeverCalls, EdgeScoped, Fitting, CodeOf;
    assert Sound(L.S, L.S[o.f], L.field.typ);
  }

  /** Nothing follows the error location of the lifted entry. */
  lemma {:induction false} ErrorIsFinal(L: Lift, T: System, w: Valuation, fail: Failure, code: Value)
    requires L.InRange() && L.Valid() && L.LiftsTo(T) && Fails(T, L.entry, L.error, w, fail, code)
    ensures fail.Here? && code == Get(w, L.field)
  {
    hide *;
    UnfoldFailure(T, L.entry, L.error, w, fail, code);
    EntryFacts(L, T);
    if fail.Here? {
      CodeAtError(L, T, w, code);
    } else {
      var o := OriginAt(L, T, L.entry, L.error, fail.edge);
      NothingFromError(L, o);
      assert false;
    }
  }

  lemma EntryFacts(L: Lift, T: System)
    requires L.InRange() && L.Valid() && L.LiftsTo(T)
    ensures L.entry in L.base && L.entry in L.ren && L.entry < |L.S| && L.entry < |T| && L.base[L.entry] == 0 && L.error < L.S[L.entry].numLocations
    ensures L.S[L.entry].errors == map[L.error := VarRef(L.field)] && T[L.entry].errors == L.S[L.entry].errors
    ensures L.field in VariablesOf(L.S[L.entry])
  {
    hide MayFail, Acyclic, NeverCalls, Sound, Lift.NamesAreSeparate, Lift.IsOrigin, Lift.EdgeOf;
  }

  lemma CodeAtError(L: Lift, T: System, w: Valuation, code: Value)
    requires L.entry < |T| && T[L.entry].errors == map[L.error := VarRef(L.field)] && ErrorAt(T, L.entry, L.error, w, code)
    ensures code == Get(w, L.field)
  {
    assert Eval(VarRef(L.field), w) == Get(w, L.field);
  }

  lemma NothingFromError(L: Lift, o: Origin)
    requires L.InRange() && L.Valid() && o.f == L.entry && L.IsOrigin(o)
    ensures o.Copied? || o.Jumped?
    ensures o.edge.Disconnected? || o.edge.source != L.error
  {
    hide MayFail, Acyclic, NeverCalls, Sound, Lift.NamesAreSeparate, Lift.LocationsAreSeparate;
  }

  lemma {:induction false} ErrorCode(code: Expr, ren: Renaming, field: Variable, v: Valuation, w: Valuation, choices: seq<Value>)
    requires CodeOf(code, ren.Keys, field.typ) && Agree(v, w, ren, ren.Keys)
    ensures Get(Exec([Assignment(field, Renamed(code, ren))], w, choices), field) == Eval(code, v)
  {
    EvalRenamed(code, v, w, ren, ren.Keys);
    RenamedUndef(code, ren);
    TypeSoundness(code, v);
    SingleAssign(Assignment(field, Renamed(code, ren)), w, choices);
  }

  /** What separates two copies, for a call from one into the other. */
  lemma {:induction false} CallSeparates(L: Lift, f: nat, e: Transition)
    requires L.InRange() && L.Valid() && f in L.base && e in L.S[f].edges && e.Call? && e.callee in L.base
    ensures e.callee != f && L.rank[e.callee] < L.rank[f] && L.ren[f].Values !! L.ren[e.callee].Values
    ensures ValidRenaming(L.ren[e.callee]) && DistinctTargets(e.inputs) && L.S[e.callee].entry < L.S[e.callee].numLocations
    ensures forall a | a in e.inputs :: a.variable in L.ren[e.callee] && Vars(a.value) <= L.ren[f].Keys
  {
    hide MayFail, NeverCalls, CodeOf;
    assert Sound(L.S, L.S[f], L.field.typ) && Sound(L.S, L.S[e.callee], L.field.typ);
    assert EdgeScoped(e, L.S[f].numLocations, VariablesOf(L.S[f])) && Fitting(L.S, e);
  }

  lemma {:induction false} CopyNames(L: Lift, f: nat)
    requires L.InRange() && L.Valid() && f in L.base
    ensures f < |L.S| && f in L.ren && ValidRenaming(L.ren[f]) && L.ren[f].Keys == VariablesOf(L.S[f])
    ensures f == L.entry ==> forall x | x in L.ren[f] :: L.ren[f][x] == x
  {
    hide MayFail, NeverCalls, Sound, Acyclic;
  }

  /** A failure of the lifted entry inside the copy of `f` is a failure of `f`. */
  lemma {:induction false} LiftedErrorsAreReal(L: Lift, T: System, f: nat, l: Loc, v: Valuation, w: Valuation, fail: Failure, code: Value) returns (fail': Failure)
    requires L.InRange() && L.Valid() && L.LiftsTo(T) && f in L.base && l < L.S[f].numLocations
    requires Agree(v, w, L.ren[f], L.ren[f].Keys) && Fails(T, L.entry, L.base[f] + l, w, fail, code)
    ensures Fails(L.S, f, l, v, fail', code)
    decreases fail
  {
    hide *;
    UnfoldFailure(T, L.entry, L.base[f] + l, w, fail, code);
    CopyNames(L, f);
    match fail
    case Here => fail' := HereIsReal(L, T, f, l, v, w, code);
    case After(e, choices, rest) =>
      var o := OriginAt(L, T, f, l, e);
      match o {
        case Copied(_, d) =>
          StepIsReal(L, f, l, d, e, v, w, choices);
          fail' := LiftedErrorsAreReal(L, T, f, d.target, Exec(d.assigns, v, choices), Exec(e.assigns, w, choices), rest, code);
          FailAfter(L.S, f, l, v, d, choices, fail', code);
          fail' := After(d, choices, fail');
        case Jumped(_, d) =>
          var init := JumpIsReal(L, f, l, d, e, v, w, choices);
          fail' := LiftedErrorsAreReal(L, T, d.callee, L.S[d.callee].entry, init, Exec(e.assigns, w, choices), rest, code);
          FailInside(L.S, f, l, v, d, init, fail', code);
          fail' := Inside(d, init, fail');
        case Wired(_, _) =>
          fail' := WireIsReal(L, T, f, l, e, v, w, choices, rest, code);
      }
    case Past(e, init, body, final, rest) =>
      var o := OriginAt(L, T, f, l, e);
      var d := CallIsReal(L, T, f, l, o, e, v, w, init, body, final);
      fail' := LiftedErrorsAreReal(L, T, f, d.target, Returned(d.outputs, v, final), Returned(e.outputs, w, final), rest, code);
      FailPast(L.S, f, l, v, d, init, body, final, fail', code);
      fail' := Past(d, init, body, final, fail');
    case Inside(e, init, inner) =>
      NoCallFails(L, T, e, init, inner, code);
      assert false;
  }

  lemma FailInside(S: System, f: nat, l: Loc, v: Valuation, e: Transition, init: Valuation, inner: Failure, code: Value)
    requires CanCall(S, f, l, v, e, init) && Fails(S, e.callee, S[e.callee].entry, init, inner, code)
    ensures Fails(S, f, l, v, Inside(e, init, inner), code)
  {
  }

  lemma FailPast(S: System, f: nat, l: Loc, v: Valuation, e: Transition, init: Valuation, body: Run, final: Valuation, rest: Failure, code: Value)
    requires CanCall(S, f, l, v, e, init) && Leads(S, e.callee, S[e.callee].entry, init, body, S[e.callee].exit, final)
    requires Fails(S, f, e.target, Returned(e.outputs, v, final), rest, code)
    ensures Fails(S, f, l, v, Past(e, init, body, final, rest), code)
  {
  }

  lemma {:induction false} HereIsReal(L: Lift, T: System, f: nat, l: Loc, v: Valuation, w: Valuation, code: Value) returns (fail': Failure)
    requires L.InRange() && L.Valid() && L.LiftsTo(T) && f in L.base && l < L.S[f].numLocations
    requires Agree(v, w, L.ren[f], L.ren[f].Keys) && ErrorAt(T, L.entry, L.base[f] + l, w, code)
    ensures Fails(L.S, f, l, v, fail', code)
  {
    EntryFacts(L, T);
    assert L.base[f] + l == L.error;
    CopiesApart(L, f, l, L.entry, L.error);
    CopyNames(L, f);
    hide Lift.Valid, Lift.LiftsTo, Fails, Eval;
    assert Get(v, L.field) == Get(w, L.field);
    CodeAtError(L, T, w, code);
    fail' := ErrorHere(L, v, code);
  }

  lemma ErrorHere(L: Lift, v: Valuation, code: Value) returns (fail': Failure)
    requires L.entry < |L.S| && L.S[L.entry].errors == map[L.error := VarRef(L.field)] && code == Get(v, L.field)
    ensures Fails(L.S, L.entry, L.error, v, fail', code)
  {
    assert Eval(VarRef(L.field), v) == Get(v, L.field);
    fail' := Here;
  }

  lemma {:induction false} StepIsReal(L: Lift, f: nat, l: Loc, d: Transition, e: Transition, v: Valuation, w: Valuation, choices: seq<Value>)
    requires L.InRange() && L.Valid() && f in L.base && L.IsOrigin(Copied(f, d)) && L.EdgeOf(Copied(f, d)) == e && !d.Disconnected? && d.source == l
    requires EdgeScopedIn(L, f, Copied(f, d)) && Agree(v, w, L.ren[f], L.ren[f].Keys) && e.Assign? && Holds(e.guard, w)
    ensures d.Assign? && d.target < L.S[f].numLocations && e.target == L.base[f] + d.target && CanTake(L.S, f, l, v, d)
    ensures Agree(Exec(d.assigns, v, choices), Exec(e.assigns, w, choices), L.ren[f], L.ren[f].Keys)
  {
    CopyNames(L, f);
    hide Lift.Valid, Exec, Renamed, RenameAssigns, Agree, Eval;
    AssignCopied(d, L.S[f].numLocations, f == L.entry, L.ren[f], L.base[f], v, w, choices);
    EntryBase(L);
  }

  lemma EntryBase(L: Lift)
    requires L.InRange() && L.Valid()
    ensures L.base[L.entry] == 0
  {
  }

  lemma {:induction false} JumpIsReal(L: Lift, f: nat, l: Loc, d: Transition, e: Transition, v: Valuation, w: Valuation, choices: seq<Value>) returns (init: Valuation)
    requires L.InRange() && L.Valid() && f in L.base && L.IsOrigin(Jumped(f, d)) && L.EdgeOf(Jumped(f, d)) == e && d.Call? && d.source == l
    requires EdgeScopedIn(L, f, Jumped(f, d)) && Agree(v, w, L.ren[f], L.ren[f].Keys) && e.Assign? && Holds(e.guard, w)
    ensures d.callee in L.base && L.S[d.callee].entry < L.S[d.callee].numLocations && e.target == L.base[d.callee] + L.S[d.callee].entry
    ensures d.callee < |L.S| && CanCall(L.S, f, l, v, d, init)
    ensures Agree(init, Exec(e.assigns, w, choices), L.ren[d.callee], L.ren[d.callee].Keys)
  {
    CopyNames(L, f);
    CallSeparates(L, f, d);
    hide Lift.Valid, Exec, Renamed, JumpArgs, Eval, Pull;
    var ren' := L.ren[d.callee];
    ExprInMeans(d.guard, f == L.entry, L.ren[f], v, w);
    JumpPasses(d.inputs, f == L.entry, L.ren[f], ren', v, w, choices);
    init := Pull(Exec(e.assigns, w, choices), ren');
  }

  lemma {:induction false} WireIsReal(L: Lift, T: System, f: nat, l: Loc, e: Transition, v: Valuation, w: Valuation, choices: seq<Value>, rest: Failure, code: Value)
    returns (fail': Failure)
    requires L.InRange() && L.Valid() && L.LiftsTo(T) && f in L.base && L.IsOrigin(Wired(f, l)) && L.EdgeOf(Wired(f, l)) == e
    requires EdgeScopedIn(L, f, Wired(f, l)) && Agree(v, w, L.ren[f], L.ren[f].Keys)
    requires Fails(T, L.entry, e.target, Exec(e.assigns, w, choices), rest, code)
    ensures Fails(L.S, f, l, v, fail', code)
  {
    CopyNames(L, f);
    hide Lift.Valid, Lift.LiftsTo, Renamed, Exec, CodeOf;
    ErrorIsFinal(L, T, Exec(e.assigns, w, choices), rest, code);
    ErrorCode(L.S[f].errors[l], L.ren[f], L.field, v, w, choices);
    fail' := Here;
  }

  lemma {:induction false} CallIsReal(L: Lift, T: System, f: nat, l: Loc, o: Origin, e: Transition, v: Valuation, w: Valuation, init: Valuation, body: Run, final: Valuation)
    returns (d: Transition)
    requires L.InRange() && L.Valid() && L.LiftsTo(T) && f in L.base && o.f == f && L.IsOrigin(o) && L.EdgeOf(o) == e && EdgeScopedIn(L, f, o)
    requires if o.Wired? then o.loc == l else !o.edge.Disconnected? && o.edge.source == l
    requires Agree(v, w, L.ren[f], L.ren[f].Keys) && CanCall(T, L.entry, L.base[f] + l, w, e, init)
    requires Leads(T, e.callee, T[e.callee].entry, init, body, T[e.callee].exit, final)
    ensures d.Call? && d.target < L.S[f].numLocations && e.Call? && e.target == L.base[f] + d.target && d.callee < |L.S| && CanCall(L.S, f, l, v, d, init)
    ensures Leads(L.S, d.callee, L.S[d.callee].entry, init, body, L.S[d.callee].exit, final)
    ensures Agree(Returned(d.outputs, v, final), Returned(e.outputs, w, final), L.ren[f], L.ren[f].Keys)
  {
    CopyNames(L, f);
    EntryBase(L);
    BodyIsReal(L, T, e, init, body, final);
    hide Lift.Valid, Lift.LiftsTo, Leads, Returned, Renamed, RenameInputs, RenameOutputs, Agree, JumpArgs, Eval, CopyEdge, EdgeScoped, CodeOf, Passes;
    assert o.Copied?;
    d := o.edge;
    CopySource(d, f == L.entry, L.ren[f], L.base[f], L.S[f].numLocations, VariablesOf(L.S[f]));
    CallCopied(d, L.S[f].numLocations, f == L.entry, L.ren[f], L.base[f], v, w, init, final);
  }

  lemma Uncalled(L: Lift)
    requires L.InRange() && L.Valid()
    ensures NeverCalls(L.S, L.entry)
  {
  }

  lemma BodiesAlike(S: System, T: System, entry: nat, g: nat)
    requires SameBodies(S, T, entry) && g != entry && g < |S|
    ensures |S| == |T| && S[g].entry == T[g].entry && S[g].exit == T[g].exit && SameBodies(T, S, entry) && NeverCalls(T, entry)
  {
    hide NeverCalls;
  }

  /** A call of the lifted entry comes back exactly as in the original. */
  lemma {:induction false} BodyIsReal(L: Lift, T: System, e: Transition, init: Valuation, body: Run, final: Valuation)
    requires L.InRange() && L.Valid() && L.LiftsTo(T) && e in T[L.entry].edges && e.Call? && e.callee < |T|
    requires Leads(T, e.callee, T[e.callee].entry, init, body, T[e.callee].exit, final)
    ensures Leads(L.S, e.callee, L.S[e.callee].entry, init, body, L.S[e.callee].exit, final)
  {
    hide *;
    Uncalled(L);
    LiftedBodies(L, T);
    LiftedCalls(L, T, e);
    BodiesAlike(L.S, T, L.entry, e.callee);
    RunsWithoutErrors(T, L.S, L.entry, e.callee, T[e.callee].entry, init, body, T[e.callee].exit, final);
  }

  lemma {:induction false} NoCallFails(L: Lift, T: System, e: Transition, init: Valuation, inner: Failure, code: Value)
    requires L.InRange() && L.Valid() && L.LiftsTo(T) && e in T[L.entry].edges && e.Call? && e.callee < |T|
    ensures !Fails(T, e.callee, T[e.callee].entry, init, inner, code)
  {
    hide *;
    Uncalled(L);
    LiftedBodies(L, T);
    LiftedCalls(L, T, e);
    NoFailureElsewhere(T, L.entry, e.callee, T[e.callee].entry, init, inner, code);
  }

  // ---- From the original program to the lifted one ----

  /** Every copy that the failure will enter already holds the values its callee starts with. */
  ghost predicate Primed(L: Lift, w: Valuation, fail: Failure)
    decreases fail
  {
    match fail
    case Here => true
    case After(_, _, rest) => Primed(L, w, rest)
    case Past(_, _, _, _, rest) => Primed(L, w, rest)
    case Inside(e, init, inner) =>
      e.Call? && e.callee in L.ren && Agree(init, w, L.ren[e.callee], L.ren[e.callee].Keys) && Primed(L, w, inner)
  }

  /** Nothing changed in the copies of procedures below `f` in the call graph. */
  ghost predicate SameBelow(L: Lift, f: nat, w: Valuation, w': Valuation)
    requires L.InRange() && |L.rank| == |L.S| && f < |L.S|
  {
    forall g, x | g in L.ren && L.rank[g] < L.rank[f] && x in L.ren[g].Values :: Get(w, x) == Get(w', x)
  }

  /** What the failure of `f` needs is in the copies below `f`. */
  lemma {:induction false} PrimedBelow(L: Lift, f: nat, l: Loc, v: Valuation, fail: Failure, code: Value, w: Valuation, w': Valuation)
    requires L.InRange() && Acyclic(L.S, L.rank) && f < |L.S| && Fails(L.S, f, l, v, fail, code) && SameBelow(L, f, w, w') && Primed(L, w, fail)
    ensures Primed(L, w', fail)
    decreases fail
  {
    UnfoldFailure(L.S, f, l, v, fail, code);
    hide Fails;
    match fail
    case Here =>
    case After(e, choices, rest) => PrimedBelow(L, f, e.target, Exec(e.assigns, v, choices), rest, code, w, w');
    case Past(e, _, _, final, rest) => PrimedBelow(L, f, e.target, Returned(e.outputs, v, final), rest, code, w, w');
    case Inside(e, init, inner) =>
      var g := e.callee;
      assert L.rank[g] < L.rank[f];
      PrimedBelow(L, g, L.S[g].entry, init, inner, code, w, w');
      forall x | x in L.ren[g] ensures Get(w, L.ren[g][x]) == Get(w', L.ren[g][x]) { assert L.ren[g][x] in L.ren[g].Values; }
  }

  /** `w` with the values `init` gives to the old names stored under the new ones. */
  ghost function Push(init: Valuation, ren: Renaming, w: Valuation): Valuation
    requires ValidRenaming(ren)
  {
    w + map y | y in ren.Values :: Get(init, OldName(ren, y))
  }

  ghost function OldName(ren: Renaming, y: Variable): (x: Variable)
    requires y in ren.Values
    ensures x in ren && ren[x] == y
  {
    var x :| x in ren && ren[x] == y; x
  }

  lemma {:induction false} Pushed(init: Valuation, ren: Renaming, w: Valuation)
    requires ValidRenaming(ren)
    ensures Agree(init, Push(init, ren, w), ren, ren.Keys)
    ensures forall y | y !in ren.Values :: Get(Push(init, ren, w), y) == Get(w, y)
  {
    forall x | x in ren ensures Get(init, x) == Get(Push(init, ren, w), ren[x]) {
      assert ren[x] in ren.Values && OldName(ren, ren[x]) == x;
    }
  }

  /** Values that lie in no copy below `f`. */
  ghost predicate Outside(L: Lift, f: nat, y: Variable)
    requires L.InRange() && |L.rank| == |L.S| && f < |L.S|
  {
    forall g | g in L.ren && L.rank[g] < L.rank[f] :: y !in L.ren[g].Values
  }

  /** Some start of the lifted entry has everything the failure needs. */
  lemma {:induction false} Prime(L: Lift, f: nat, l: Loc, v: Valuation, fail: Failure, code: Value, w: Valuation) returns (w': Valuation)
    requires L.InRange() && L.Valid() && Acyclic(L.S, L.rank) && f < |L.S| && Fails(L.S, f, l, v, fail, code)
    ensures Primed(L, w', fail) && forall y | Outside(L, f, y) :: Get(w', y) == Get(w, y)
    decreases fail
  {
    UnfoldFailure(L.S, f, l, v, fail, code);
    hide Fails, Agree, MayFail, Lift.Valid;
    match fail
    case Here => w' := w;
    case After(e, choices, rest) => w' := Prime(L, f, e.target, Exec(e.assigns, v, choices), rest, code, w);
    case Past(e, _, _, final, rest) => w' := Prime(L, f, e.target, Returned(e.outputs, v, final), rest, code, w);
    case Inside(e, init, inner) =>
      var g := e.callee;
      FailsMayFail(L.S, g, L.S[g].entry, init, inner, code);
      CopyOf(L, g);
      var u := Prime(L, g, L.S[g].entry, init, inner, code, w);
      w' := Push(init, L.ren[g], u);
      Pushed(init, L.ren[g], u);
      hide Push;
      PushedBelow(L, g, init, u);
      PrimedBelow(L, g, L.S[g].entry, init, inner, code, u, w');
      forall y | Outside(L, f, y) ensures Get(w', y) == Get(w, y) { assert Outside(L, g, y); }
  }

  lemma {:induction false} PushedBelow(L: Lift, g: nat, init: Valuation, u: Valuation)
    requires L.InRange() && L.Valid() && |L.rank| == |L.S| && g in L.ren && ValidRenaming(L.ren[g])
    ensures SameBelow(L, g, u, Push(init, L.ren[g], u))
  {
    Disjoint(L, g);
    Pushed(init, L.ren[g], u);
    hide Lift.Valid, Push;
  }

  lemma {:induction false} CopyOf(L: Lift, g: nat)
    requires L.InRange() && L.Valid() && MayFail(L.S, g)
    ensures g in L.base && g in L.ren && ValidRenaming(L.ren[g])
  {
    hide Acyclic, NeverCalls, Sound, MayFail;
  }

  lemma {:induction false} Disjoint(L: Lift, f: nat)
    requires L.InRange() && L.Valid() && f in L.ren
    ensures forall g, y | g in L.ren && g != f && y in L.ren[g].Values :: y !in L.ren[f].Values
  {
    hide Acyclic, NeverCalls, Sound, MayFail;
  }

  /** A step inside the copy of `f` leaves the copies below alone. */
  lemma {:induction false} StepBelow(L: Lift, f: nat, assigns: seq<Assignment>, w: Valuation, choices: seq<Value>)
    requires L.InRange() && L.Valid() && f in L.ren && |L.rank| == |L.S| && Written(assigns) <= L.ren[f].Values
    ensures SameBelow(L, f, w, Exec(assigns, w, choices))
  {
    Disjoint(L, f);
    hide Exec, Lift.Valid, Written;
    forall g, x | g in L.ren && L.rank[g] < L.rank[f] && x in L.ren[g].Values ensures Get(w, x) == Get(Exec(assigns, w, choices), x) {
      ExecFrame(assigns, w, choices, x);
    }
  }

  lemma {:induction false} ReturnBelow(L: Lift, f: nat, outs: seq<Assignment>, w: Valuation, final: Valuation)
    requires L.InRange() && L.Valid() && f in L.ren && |L.rank| == |L.S| && Written(outs) <= L.ren[f].Values
    ensures SameBelow(L, f, w, Returned(outs, w, final))
  {
    Disjoint(L, f);
    hide Returned, Lift.Valid, Written;
    forall g, x | g in L.ren && L.rank[g] < L.rank[f] && x in L.ren[g].Values ensures Get(w, x) == Get(Returned(outs, w, final), x) {
      ReturnedFrame(outs, w, final, x);
    }
  }

  lemma {:induction false} CopyWrites(e: Transition, n: nat, own: bool, ren: Renaming, base: nat)
    requires EdgeScoped(e, n, ren.Keys) && !e.Disconnected? && (own ==> forall x | x in ren :: ren[x] == x)
    ensures var e' := CopyEdge(e, own, ren, base);
            (e'.Assign? ==> Written(e'.assigns) <= ren.Values) && (e'.Call? ==> Written(e'.outputs) <= ren.Values)
  {
    hide Renamed, RenameInputs, RenameAssigns, RenameOutputs;
    var assigns := if e.Assign? then e.assigns else e.outputs;
    var r := if own then assigns else if e.Assign? then RenameAssigns(assigns, ren) else RenameOutputs(assigns, ren);
    forall y | y in Written(r) ensures y in ren.Values {
      if own {
        assert ren[y] == y;
      } else {
        WrittenRenamed(assigns, ren, y);
      }
    }
  }

  lemma {:induction false} JumpWrites(args: seq<Assignment>, own: bool, ren: Renaming, ren': Renaming)
    requires forall a | a in args :: a.variable in ren'
    ensures Written(JumpArgs(args, own, ren, ren')) <= ren'.Values
  {
    hide ExprIn, JumpArgs;
    var r := JumpArgs(args, own, ren, ren');
    forall y | y in Written(r) ensures y in ren'.Values {
      var b :| b in r && b.variable == y;
      var i :| 0 <= i < |r| && r[i] == b;
      assert args[i] in args && y == ren'[args[i].variable];
    }
  }

  /** A failure of `f` is found in the lifted entry, inside the copy of `f`. */
  lemma {:induction false} ErrorsAreLifted(L: Lift, T: System, f: nat, l: Loc, v: Valuation, w: Valuation, fail: Failure, code: Value) returns (fail': Failure)
    requires L.InRange() && L.Valid() && L.LiftsTo(T) && f in L.base && l < L.S[f].numLocations
    requires Agree(v, w, L.ren[f], L.ren[f].Keys) && Fails(L.S, f, l, v, fail, code) && Primed(L, w, fail)
    ensures Fails(T, L.entry, L.base[f] + l, w, fail', code)
    decreases fail
  {
    hide *;
    UnfoldFailure(L.S, f, l, v, fail, code);
    CopyNames(L, f);
    Graph(L);
    UnfoldPrimed(L, w, fail);
    match fail
    case Here => fail' := LiftHere(L, T, f, l, v, w, code);
    case After(d, choices, rest) =>
      var e := LiftStep(L, T, f, l, d, v, w, choices);
      PrimedBelow(L, f, d.target, Exec(d.assigns, v, choices), rest, code, w, Exec(e.assigns, w, choices));
      fail' := ErrorsAreLifted(L, T, f, d.target, Exec(d.assigns, v, choices), Exec(e.assigns, w, choices), rest, code);
      FailAfter(T, L.entry, L.base[f] + l, w, e, choices, fail', code);
      fail' := After(e, choices, fail');
    case Past(d, init, body, final, rest) =>
      var e := LiftCall(L, T, f, l, d, v, w, init, body, final);
      PrimedBelow(L, f, d.target, Returned(d.outputs, v, final), rest, code, w, Returned(e.outputs, w, final));
      fail' := ErrorsAreLifted(L, T, f, d.target, Returned(d.outputs, v, final), Returned(e.outputs, w, final), rest, code);
      FailPast(T, L.entry, L.base[f] + l, w, e, init, body, final, fail', code);
      fail' := Past(e, init, body, final, fail');
    case Inside(d, init, inner) =>
      var g := d.callee;
      FailsMayFail(L.S, g, L.S[g].entry, init, inner, code);
      CopyOf(L, g);
      var e, choices := LiftJump(L, T, f, l, d, v, w, init);
      PrimedBelow(L, g, L.S[g].entry, init, inner, code, w, Exec(e.assigns, w, choices));
      fail' := ErrorsAreLifted(L, T, g, L.S[g].entry, init, Exec(e.assigns, w, choices), inner, code);
      FailAfter(T, L.entry, L.base[f] + l, w, e, choices, fail', code);
      fail' := After(e, choices, fail');
  }

  lemma Graph(L: Lift)
    requires L.InRange() && L.Valid()
    ensures Acyclic(L.S, L.rank) && |L.rank| == |L.S|
  {
  }

  lemma UnfoldPrimed(L: Lift, w: Valuation, fail: Failure)
    requires Primed(L, w, fail)
    ensures match fail
            case Here => true
            case After(_, _, rest) => Primed(L, w, rest)
            case Past(_, _, _, _, rest) => Primed(L, w, rest)
            case Inside(e, init, inner) =>
              e.Call? && e.callee in L.ren && Agree(init, w, L.ren[e.callee], L.ren[e.callee].Keys) && Primed(L, w, inner)
  {
  }

  lemma {:induction false} EdgeLifted(L: Lift, T: System, o: Origin)
    requires L.InRange() && L.Valid() && L.LiftsTo(T) && L.IsOrigin(o)
    ensures L.entry < |T| == |L.S| && L.EdgeOf(o) in T[L.entry].edges && o.f in L.base && EdgeScopedIn(L, o.f, o) && L.base[L.entry] == 0
  {
    OriginScoped(L, o);
    EntryBase(L);
    hide Lift.Valid, Lift.IsOrigin, Lift.EdgeOf;
  }

  lemma {:induction false} LiftHere(L: Lift, T: System, f: nat, l: Loc, v: Valuation, w: Valuation, code: Value) returns (fail': Failure)
    requires L.InRange() && L.Valid() && L.LiftsTo(T) && f in L.base && l < L.S[f].numLocations
    requires Agree(v, w, L.ren[f], L.ren[f].Keys) && ErrorAt(L.S, f, l, v, code)
    ensures Fails(T, L.entry, L.base[f] + l, w, fail', code)
  {
    hide *;
    EntryFacts(L, T);
    if f == L.entry {
      fail' := LiftOwnError(L, T, l, v, w, code);
    } else {
      var e := WireLifted(L, T, f, l, v, w, code);
      fail' := ErrorHere(L.(S := T), Exec(e.assigns, w, []), code);
      FailAfter(T, L.entry, L.base[f] + l, w, e, [], fail', code);
      fail' := After(e, [], fail');
    }
  }

  lemma {:induction false} LiftOwnError(L: Lift, T: System, l: Loc, v: Valuation, w: Valuation, code: Value) returns (fail': Failure)
    requires L.InRange() && L.Valid() && L.LiftsTo(T) && Agree(v, w, L.ren[L.entry], L.ren[L.entry].Keys) && ErrorAt(L.S, L.entry, l, v, code)
    ensures Fails(T, L.entry, l, w, fail', code)
  {
    EntryFacts(L, T);
    CopyNames(L, L.entry);
    hide Lift.Valid, Lift.LiftsTo, Fails, Eval;
    assert Get(v, L.field) == Get(w, L.field);
    CodeAtError(L, L.S, v, code);
    fail' := ErrorHere(L.(S := T), w, code);
  }

  lemma {:induction false} WireLifted(L: Lift, T: System, f: nat, l: Loc, v: Valuation, w: Valuation, code: Value) returns (e: Transition)
    requires L.InRange() && L.Valid() && L.LiftsTo(T) && f in L.base && f != L.entry
    requires Agree(v, w, L.ren[f], L.ren[f].Keys) && ErrorAt(L.S, f, l, v, code)
    ensures e.Assign? && e.target == L.error && CanTake(T, L.entry, L.base[f] + l, w, e) && code == Get(Exec(e.assigns, w, []), L.field)
  {
    hide *;
    var expr := WireIn(L, T, f, l, v, code);
    e := Assign(L.base[f] + l, L.error, True(), [Assignment(L.field, Renamed(expr, L.ren[f]))]);
    ErrorCode(expr, L.ren[f], L.field, v, w, []);
    TrueHolds(w);
    FoldTake(T, L.entry, L.base[f] + l, w, e);
  }

  lemma {:induction false} WireIn(L: Lift, T: System, f: nat, l: Loc, v: Valuation, code: Value) returns (expr: Expr)
    requires L.InRange() && L.Valid() && L.LiftsTo(T) && f in L.base && f != L.entry && ErrorAt(L.S, f, l, v, code)
    ensures f in L.ren && CodeOf(expr, L.ren[f].Keys, L.field.typ) && Eval(expr, v) == code && L.entry < |T|
    ensures Assign(L.base[f] + l, L.error, True(), [Assignment(L.field, Renamed(expr, L.ren[f]))]) in T[L.entry].edges
  {
    hide Lift.Valid, Lift.LiftsTo, Renamed, CodeOf, Eval;
    CopyNames(L, f);
    EdgeLifted(L, T, Wired(f, l));
    expr := L.S[f].errors[l];
  }

  lemma TrueHolds(w: Valuation)
    ensures Holds(True(), w)
  {
  }

  lemma {:induction false} LiftStep(L: Lift, T: System, f: nat, l: Loc, d: Transition, v: Valuation, w: Valuation, choices: seq<Value>) returns (e: Transition)
    requires L.InRange() && L.Valid() && L.LiftsTo(T) && f in L.base && |L.rank| == |L.S|
    requires Agree(v, w, L.ren[f], L.ren[f].Keys) && CanTake(L.S, f, l, v, d)
    ensures d.Assign? && d.target < L.S[f].numLocations && e.Assign? && e.target == L.base[f] + d.target
    ensures CanTake(T, L.entry, L.base[f] + l, w, e) && SameBelow(L, f, w, Exec(e.assigns, w, choices))
    ensures Agree(Exec(d.assigns, v, choices), Exec(e.assigns, w, choices), L.ren[f], L.ren[f].Keys)
  {
    hide *;
    CopyNames(L, f);
    UnfoldTake(L.S, f, l, v, d);
    var own, ren, base, n := f == L.entry, L.ren[f], L.base[f], L.S[f].numLocations;
    e := CopyLifted(L, T, f, d);
    AssignCopied(d, n, own, ren, base, v, w, choices);
    CopySource(d, own, ren, base, n, ren.Keys);
    CopyWrites(d, n, own, ren, base);
    StepBelow(L, f, e.assigns, w, choices);
    FoldTake(T, L.entry, base + l, w, e);
  }

  lemma UnfoldTake(S: System, f: nat, l: Loc, v: Valuation, d: Transition)
    requires CanTake(S, f, l, v, d)
    ensures f < |S| && d in S[f].edges && d.Assign? && d.source == l && Holds(d.guard, v)
  {
  }

  lemma FoldTake(S: System, f: nat, l: Loc, v: Valuation, d: Transition)
    requires f < |S| && d in S[f].edges && d.Assign? && d.source == l && Holds(d.guard, v)
    ensures CanTake(S, f, l, v, d)
  {
  }

  lemma {:induction false} LiftCall(L: Lift, T: System, f: nat, l: Loc, d: Transition, v: Valuation, w: Valuation, init: Valuation, body: Run, final: Valuation)
    returns (e: Transition)
    requires L.InRange() && L.Valid() && L.LiftsTo(T) && f in L.base && |L.rank| == |L.S|
    requires Agree(v, w, L.ren[f], L.ren[f].Keys) && CanCall(L.S, f, l, v, d, init)
    requires Leads(L.S, d.callee, L.S[d.callee].entry, init, body, L.S[d.callee].exit, final)
    ensures d.Call? && d.target < L.S[f].numLocations && e.Call? && e.target == L.base[f] + d.target
    ensures CanCall(T, L.entry, L.base[f] + l, w, e, init) && SameBelow(L, f, w, Returned(e.outputs, w, final))
    ensures Leads(T, e.callee, T[e.callee].entry, init, body, T[e.callee].exit, final)
    ensures Agree(Returned(d.outputs, v, final), Returned(e.outputs, w, final), L.ren[f], L.ren[f].Keys)
  {
    hide *;
    CopyNames(L, f);
    UnfoldCall(L.S, f, l, v, d, init);
    var own, ren, base, n := f == L.entry, L.ren[f], L.base[f], L.S[f].numLocations;
    e := CopyLifted(L, T, f, d);
    BodyIsLifted(L, T, f, d, init, body, final);
    CallCopied(d, n, own, ren, base, v, w, init, final);
    CopySource(d, own, ren, base, n, ren.Keys);
    CopyWrites(d, n, own, ren, base);
    ReturnBelow(L, f, e.outputs, w, final);
    FoldCall(T, L.entry, base + l, w, e, init);
  }

  lemma UnfoldCall(S: System, f: nat, l: Loc, v: Valuation, d: Transition, init: Valuation)
    requires CanCall(S, f, l, v, d, init)
    ensures f < |S| && d in S[f].edges && d.Call? && d.source == l && Holds(d.guard, v) && d.callee < |S| && Passes(d.inputs, v, init)
  {
  }

  lemma FoldCall(S: System, f: nat, l: Loc, v: Valuation, d: Transition, init: Valuation)
    requires f < |S| && d in S[f].edges && d.Call? && d.source == l && Holds(d.guard, v) && d.callee < |S| && Passes(d.inputs, v, init)
    ensures CanCall(S, f, l, v, d, init)
  {
  }

  lemma {:induction false} CopyLifted(L: Lift, T: System, f: nat, d: Transition) returns (e: Transition)
    requires L.InRange() && L.Valid() && L.LiftsTo(T) && f in L.base && d in L.S[f].edges && !d.Disconnected?
    ensures L.entry < |T| == |L.S| && e == CopyEdge(d, f == L.entry, L.ren[f], L.base[f]) && e in T[L.entry].edges
    ensures EdgeScoped(d, L.S[f].numLocations, L.ren[f].Keys) && (f == L.entry ==> L.base[f] == 0) && !e.Disconnected?
    ensures L.ren[f].Keys == VariablesOf(L.S[f])
  {
    CopyNames(L, f);
    EdgeLifted(L, T, Copied(f, d));
    hide Lift.LiftsTo, Lift.Valid, Renamed, RenameAssigns, RenameInputs, RenameOutputs, EdgeScoped, Fitting;
    e := L.EdgeOf(Copied(f, d));
  }

  lemma {:induction false} BodyIsLifted(L: Lift, T: System, f: nat, d: Transition, init: Valuation, body: Run, final: Valuation)
    requires L.InRange() && L.Valid() && L.LiftsTo(T) && f < |L.S| && d in L.S[f].edges && d.Call? && d.callee < |L.S|
    requires Leads(L.S, d.callee, L.S[d.callee].entry, init, body, L.S[d.callee].exit, final)
    ensures |T| == |L.S| && Leads(T, d.callee, T[d.callee].entry, init, body, T[d.callee].exit, final)
  {
    hide *;
    Uncalled(L);
    LiftedBodies(L, T);
    NotEntry(L.S, L.entry, f, d);
    BodiesAlike(L.S, T, L.entry, d.callee);
    RunsWithoutErrors(L.S, T, L.entry, d.callee, L.S[d.callee].entry, init, body, L.S[d.callee].exit, final);
  }

  lemma NotEntry(S: System, entry: nat, f: nat, d: Transition)
    requires NeverCalls(S, entry) && f < |S| && d in S[f].edges && d.Call?
    ensures d.callee != entry
  {
  }

  lemma {:induction false} LiftJump(L: Lift, T: System, f: nat, l: Loc, d: Transition, v: Valuation, w: Valuation, init: Valuation)
    returns (e: Transition, choices: seq<Value>)
    requires L.InRange() && L.Valid() && L.LiftsTo(T) && f in L.base && |L.rank| == |L.S| && d.Call? && d.callee in L.base && d.callee in L.ren
    requires Agree(v, w, L.ren[f], L.ren[f].Keys) && CanCall(L.S, f, l, v, d, init) && Agree(init, w, L.ren[d.callee], L.ren[d.callee].Keys)
    ensures L.S[d.callee].entry < L.S[d.callee].numLocations && e.Assign? && e.target == L.base[d.callee] + L.S[d.callee].entry
    ensures CanTake(T, L.entry, L.base[f] + l, w, e) && SameBelow(L, d.callee, w, Exec(e.assigns, w, choices))
    ensures Agree(init, Exec(e.assigns, w, choices), L.ren[d.callee], L.ren[d.callee].Keys)
  {
    hide *;
    CopyNames(L, f);
    UnfoldCall(L.S, f, l, v, d, init);
    CallSeparates(L, f, d);
    var own, ren, ren' := f == L.entry, L.ren[f], L.ren[d.callee];
    e := JumpLifted(L, T, f, d, v, w);
    choices := StartValues(d.inputs, init);
    JumpStarts(d.inputs, own, ren, ren', v, w, init);
    JumpWrites(d.inputs, own, ren, ren');
    StepBelow(L, d.callee, e.assigns, w, choices);
  }

  lemma {:induction false} JumpLifted(L: Lift, T: System, f: nat, d: Transition, v: Valuation, w: Valuation) returns (e: Transition)
    requires L.InRange() && L.Valid() && L.LiftsTo(T) && f in L.base && d in L.S[f].edges && d.Call? && d.callee in L.base
    requires Agree(v, w, L.ren[f], L.ren[f].Keys) && Holds(d.guard, v)
    ensures e.Assign? && e.target == L.base[d.callee] + L.S[d.callee].entry && CanTake(T, L.entry, L.base[f] + d.source, w, e)
    ensures e.assigns == JumpArgs(d.inputs, f == L.entry, L.ren[f], L.ren[d.callee])
  {
    hide ExprIn, JumpArgs, Fitting, Eval, Agree, Lift.Valid, Lift.LiftsTo;
    CopyNames(L, f);
    EdgeLifted(L, T, Jumped(f, d));
    ExprInMeans(d.guard, f == L.entry, L.ren[f], v, w);
    e := L.EdgeOf(Jumped(f, d));
  }

  // ---- The equivalence ----

  lemma {:induction false} StartsAlike(L: Lift, f: nat, v: Valuation, w: Valuation)
    requires L.InRange() && L.Valid() && f in L.base && |L.rank| == |L.S| && forall y | Outside(L, f, y) :: Get(w, y) == Get(v, y)
    requires forall x | x in L.ren[f] :: L.ren[f][x] == x
    ensures Agree(v, w, L.ren[f], L.ren[f].Keys)
  {
    Disjoint(L, f);
    hide Lift.Valid;
    forall x | x in L.ren[f] ensures Get(v, x) == Get(w, x) {
      assert L.ren[f][x] in L.ren[f].Values;
      assert Outside(L, f, x);
    }
  }

  /** The lifted program reaches exactly the error codes of the original. */
  lemma {:induction false} LiftingKeepsErrors(L: Lift, T: System, code: Value)
    requires L.InRange() && L.Valid() && L.LiftsTo(T)
    ensures CanFail(T, L.entry, code) <==> CanFail(L.S, L.entry, code)
  {
    hide *;
    StackIffDerivation(L.S, L.entry, code);
    StackIffDerivation(T, L.entry, code);
    EntryFacts(L, T);
    CopyNames(L, L.entry);
    Graph(L);
    Entries(L, T);
    if Derivable(T, L.entry, code) {
      var w, fail := DerivationOf(T, L.entry, code);
      SelfAgree(w, L.ren[L.entry]);
      var fail' := LiftedErrorsAreReal(L, T, L.entry, L.S[L.entry].entry, w, w, fail, code);
      Derived(L.S, L.entry, w, fail', code);
    }
    if Derivable(L.S, L.entry, code) {
      var v, fail := DerivationOf(L.S, L.entry, code);
      var w := Prime(L, L.entry, L.S[L.entry].entry, v, fail, code, v);
      StartsAlike(L, L.entry, v, w);
      var fail' := ErrorsAreLifted(L, T, L.entry, L.S[L.entry].entry, v, w, fail, code);
      Derived(T, L.entry, w, fail', code);
    }
  }

  lemma SelfAgree(w: Valuation, ren: Renaming)
    requires forall x | x in ren :: ren[x] == x
    ensures Agree(w, w, ren, ren.Keys)
  {
  }

  lemma Entries(L: Lift, T: System)
    requires L.InRange() && L.Valid() && L.LiftsTo(T)
    ensures L.entry < |T| == |L.S| && T[L.entry].entry == L.S[L.entry].entry < L.S[L.entry].numLocations
  {
    assert Sound(L.S, L.S[L.entry], L.field.typ);
    hide Lift.EdgeOf, Lift.IsOrigin, MayFail, NeverCalls;
  }

  lemma DerivationOf(S: System, f: nat, code: Value) returns (v: Valuation, fail: Failure)
    requires Derivable(S, f, code)
    ensures f < |S| && Fails(S, f, S[f].entry, v, fail, code)
  {
    hide Fails;
    v, fail :| Fails(S, f, S[f].entry, v, fail, code);
  }

  lemma Derived(S: System, f: nat, v: Valuation, fail: Failure, code: Value)
    requires f < |S| && Fails(S, f, S[f].entry, v, fail, code)
    ensures Derivable(S, f, code)
  {
    hide Fails;
  }
}
