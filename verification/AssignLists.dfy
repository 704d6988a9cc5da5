/** Effects of assignment lists: when running a list in order is one parallel assignment, and how
    a list acts on renamed variables. */
module AssignLists {
  import opened Exprs
  import opened ExprRewrite
  import opened Automata

  function Written(assigns: seq<Assignment>): set<Variable> {
    set a | a in assigns :: a.variable
  }

  /** Expressions read by the list are over `xs` and what the list itself has written before. */
  predicate ReadsWithin(assigns: seq<Assignment>, xs: set<Variable>) {
    assigns == [] || (Vars(assigns[0].value) <= xs && ReadsWithin(assigns[1..], xs + {assigns[0].variable}))
  }

  lemma {:induction false} ReadsWithinScope(assigns: seq<Assignment>, xs: set<Variable>, ys: set<Variable>)
    requires forall a | a in assigns :: a.variable in ys && Vars(a.value) <= ys
    requires ys <= xs
    ensures ReadsWithin(assigns, xs)
  {
    if assigns != [] {
      ReadsWithinScope(assigns[1..], xs + {assigns[0].variable}, ys);
    }
  }

  /** Variables a list does not write keep their value. */
  lemma {:induction false} ExecFrame(assigns: seq<Assignment>, v: Valuation, choices: seq<Value>, y: Variable)
    requires y !in Written(assigns)
    ensures Get(Exec(assigns, v, choices), y) == Get(v, y)
    decreases |assigns|
  {
    if assigns != [] {
      assert assigns[0].variable in Written(assigns);
      ExecFrame(assigns[1..], AssignOne(assigns[0], v, choices), Tail(choices), y);
    }
  }

  lemma {:induction false} SingleAssign(a: Assignment, v: Valuation, choices: seq<Value>)
    requires !a.value.Undef?
    ensures Get(Exec([a], v, choices), a.variable) == Fit(Eval(a.value, v), a.variable.typ)
  {
    assert [a][1..] == [];
    assert Exec([a], v, choices) == Exec([], AssignOne(a, v, choices), Tail(choices));
  }

  lemma {:induction false} ReturnedFrame(outs: seq<Assignment>, v: Valuation, final: Valuation, y: Variable)
    requires y !in Written(outs)
    ensures Get(Returned(outs, v, final), y) == Get(v, y)
  {
    if outs != [] {
      assert outs[0].variable in Written(outs);
      ReturnedFrame(outs[1..], v[outs[0].variable := Eval(outs[0].value, final)], final, y);
    }
  }

  /** A list that reads only `xs` acts alike on valuations that agree on `xs`. */
  lemma {:induction false} ExecSame(assigns: seq<Assignment>, v: Valuation, w: Valuation, choices: seq<Value>, xs: set<Variable>)
    requires Same(v, w, xs) && forall a | a in assigns :: Vars(a.value) <= xs
    ensures Same(Exec(assigns, v, choices), Exec(assigns, w, choices), xs)
    decreases |assigns|
  {
    if assigns != [] {
      EvalCongruence(assigns[0].value, v, w);
      ExecSame(assigns[1..], AssignOne(assigns[0], v, choices), AssignOne(assigns[0], w, choices), Tail(choices), xs);
    }
  }

  lemma {:induction false} ReturnedSame(outs: seq<Assignment>, v: Valuation, w: Valuation, final: Valuation, xs: set<Variable>)
    requires Same(v, w, xs)
    ensures Same(Returned(outs, v, final), Returned(outs, w, final), xs)
  {
    if outs != [] {
      var value := Eval(outs[0].value, final);
      ReturnedSame(outs[1..], v[outs[0].variable := value], w[outs[0].variable := value], final, xs);
    }
  }

  ghost predicate DistinctTargets(assigns: seq<Assignment>) {
    forall i, j | 0 <= i < j < |assigns| :: assigns[i].variable != assigns[j].variable
  }

  lemma {:induction false} ReturnedAt(outs: seq<Assignment>, v: Valuation, final: Valuation, i: nat)
    requires i < |outs| && DistinctTargets(outs)
    ensures Get(Returned(outs, v, final), outs[i].variable) == Fit(Eval(outs[i].value, final), outs[i].variable.typ)
  {
    var v' := v[outs[0].variable := Eval(outs[0].value, final)];
    if i == 0 {
      ReturnedFrame(outs[1..], v', final, outs[0].variable);
    } else {
      ReturnedAt(outs[1..], v', final, i - 1);
    }
  }

  /** No value of the list reads a variable the list writes. */
  ghost predicate Independent(assigns: seq<Assignment>) {
    DistinctTargets(assigns) && forall a, b | a in assigns && b in assigns :: b.variable !in Vars(a.value)
  }

  function ChoiceAt(choices: seq<Value>, i: nat, t: Type): Value { if i < |choices| then choices[i] else Default(t) }

  /** Each target of an independent list receives its value as computed before the whole list. */
  lemma {:induction false} ParallelExec(assigns: seq<Assignment>, v: Valuation, choices: seq<Value>, i: nat)
    requires Independent(assigns) && i < |assigns|
    ensures var a := assigns[i]; var value := if a.value.Undef? then ChoiceAt(choices, i, a.variable.typ) else Eval(a.value, v);
            Get(Exec(assigns, v, choices), a.variable) == Fit(value, a.variable.typ)
    decreases |assigns|
  {
    var a := assigns[0];
    assert a in assigns;
    var v' := AssignOne(a, v, choices);
    if i == 0 {
      ExecFrame(assigns[1..], v', Tail(choices), a.variable);
    } else {
      ParallelExec(assigns[1..], v', Tail(choices), i - 1);
      assert assigns[i] in assigns;
      EvalCongruence(assigns[i].value, v, v');
    }
  }

  function Drop(choices: seq<Value>, n: nat): seq<Value> { if n <= |choices| then choices[n..] else [] }

  lemma {:induction false} ExecConcat(a: seq<Assignment>, b: seq<Assignment>, v: Valuation, choices: seq<Value>)
    ensures Exec(a + b, v, choices) == Exec(b, Exec(a, v, choices), Drop(choices, |a|))
    decreases |a|
  {
    if a == [] {
      assert a + b == b;
    } else {
      assert (a + b)[1..] == a[1..] + b;
      ExecConcat(a[1..], b, AssignOne(a[0], v, choices), Tail(choices));
    }
  }

  // ---- Renaming ----

  type Renaming = map<Variable, Variable>

  ghost predicate ValidRenaming(ren: Renaming) {
    && (forall x | x in ren :: ren[x].typ == x.typ)
    && (forall x, y | x in ren && y in ren && x != y :: ren[x] != ren[y])
  }

  function AsRewriting(ren: Renaming): Rewriting { map x | x in ren :: VarRef(ren[x]) }

  /** `w` holds, under the new names, the values `v` gives to `xs`. */
  ghost predicate Agree(v: Valuation, w: Valuation, ren: Renaming, xs: set<Variable>) {
    forall x | x in xs && x in ren :: Get(v, x) == Get(w, ren[x])
  }

  function Renamed(e: Expr, ren: Renaming): Expr { Rewrite(Plain, e, AsRewriting(ren)) }

  lemma {:induction false} RenamedUndef(e: Expr, ren: Renaming)
    ensures Renamed(e, ren).Undef? <==> e.Undef?
  {
  }

  lemma {:induction false} EvalRenamed(e: Expr, v: Valuation, w: Valuation, ren: Renaming, xs: set<Variable>)
    requires Vars(e) <= xs && xs <= ren.Keys && Agree(v, w, ren, xs)
    ensures Eval(Renamed(e, ren), w) == Eval(e, v)
  {
    var s := AsRewriting(ren);
    forall x | x in Vars(e) ensures Eval(Image(s, x), w) == Get(v, x) {
      assert x in ren;
      assert Image(s, x) == VarRef(ren[x]);
    }
    PlainRewrite(e, s, w, v);
  }

  function Name(ren: Renaming, x: Variable): Variable { if x in ren then ren[x] else x }

  function RenameAssigns(assigns: seq<Assignment>, ren: Renaming): (r: seq<Assignment>)
    ensures |r| == |assigns|
    ensures forall i | 0 <= i < |assigns| :: r[i] == Assignment(Name(ren, assigns[i].variable), Renamed(assigns[i].value, ren))
  {
    if assigns == [] then []
    else [Assignment(Name(ren, assigns[0].variable), Renamed(assigns[0].value, ren))] + RenameAssigns(assigns[1..], ren)
  }

  /** Arguments of a call keep the callee's own parameter on the left. */
  function RenameInputs(args: seq<Assignment>, ren: Renaming): (r: seq<Assignment>)
    ensures |r| == |args|
    ensures forall i | 0 <= i < |args| :: r[i] == Assignment(args[i].variable, Renamed(args[i].value, ren))
  {
    if args == [] then [] else [Assignment(args[0].variable, Renamed(args[0].value, ren))] + RenameInputs(args[1..], ren)
  }

  /** Outputs of a call keep the callee's own variable on the right. */
  function RenameOutputs(outs: seq<Assignment>, ren: Renaming): (r: seq<Assignment>)
    ensures |r| == |outs|
    ensures forall i | 0 <= i < |outs| :: r[i] == Assignment(Name(ren, outs[i].variable), outs[i].value)
  {
    if outs == [] then [] else [Assignment(Name(ren, outs[0].variable), outs[0].value)] + RenameOutputs(outs[1..], ren)
  }

  lemma {:induction false} PassesRenamed(args: seq<Assignment>, v: Valuation, w: Valuation, init: Valuation, ren: Renaming, xs: set<Variable>)
    requires xs <= ren.Keys && Agree(v, w, ren, xs) && forall a | a in args :: Vars(a.value) <= xs
    ensures Passes(RenameInputs(args, ren), w, init) <==> Passes(args, v, init)
  {
    var r := RenameInputs(args, ren);
    forall i | 0 <= i < |args| ensures Eval(r[i].value, w) == Eval(args[i].value, v) && (r[i].value.Undef? <==> args[i].value.Undef?) {
      assert args[i] in args;
      EvalRenamed(args[i].value, v, w, ren, xs);
      RenamedUndef(args[i].value, ren);
    }
    hide Eval, Renamed, RenameInputs;
    if Passes(args, v, init) {
      forall a | a in r && !a.value.Undef? ensures Get(init, a.variable) == Fit(Eval(a.value, w), a.variable.typ) {
        var i :| 0 <= i < |r| && r[i] == a;
        assert args[i] in args;
      }
    }
    if Passes(r, w, init) {
      forall a | a in args && !a.value.Undef? ensures Get(init, a.variable) == Fit(Eval(a.value, v), a.variable.typ) {
        var i :| 0 <= i < |args| && args[i] == a;
        assert r[i] in r;
      }
    }
  }

  lemma {:induction false} ReturnedRenamed(outs: seq<Assignment>, v: Valuation, w: Valuation, final: Valuation, ren: Renaming, xs: set<Variable>)
    requires ValidRenaming(ren) && (forall a | a in outs :: a.variable in ren) && Agree(v, w, ren, xs)
    ensures Agree(Returned(outs, v, final), Returned(RenameOutputs(outs, ren), w, final), ren, xs + Written(outs))
    decreases |outs|
  {
    if outs != [] {
      var a := outs[0];
      var value := Eval(a.value, final);
      var v', w' := v[a.variable := value], w[ren[a.variable] := value];
      assert Agree(v', w', ren, xs + {a.variable});
      assert RenameOutputs(outs, ren)[1..] == RenameOutputs(outs[1..], ren);
      ReturnedRenamed(outs[1..], v', w', final, ren, xs + {a.variable});
      assert xs + Written(outs) == xs + {a.variable} + Written(outs[1..]);
    }
  }

  lemma {:induction false} AssignOneRenamed(a: Assignment, v: Valuation, w: Valuation, choices: seq<Value>, ren: Renaming, xs: set<Variable>)
    requires ValidRenaming(ren) && xs <= ren.Keys && a.variable in ren && Vars(a.value) <= xs && Agree(v, w, ren, xs)
    ensures var b := Assignment(ren[a.variable], Renamed(a.value, ren));
            Agree(AssignOne(a, v, choices), AssignOne(b, w, choices), ren, xs + {a.variable})
  {
    EvalRenamed(a.value, v, w, ren, xs);
    RenamedUndef(a.value, ren);
    hide Eval, Renamed;
  }

  /** A renamed list does to the new names what the list does to the old ones. */
  lemma {:induction false} ExecRenamed(assigns: seq<Assignment>, v: Valuation, w: Valuation, choices: seq<Value>, ren: Renaming, xs: set<Variable>)
    requires ValidRenaming(ren) && xs <= ren.Keys && (forall a | a in assigns :: a.variable in ren)
    requires ReadsWithin(assigns, xs) && Agree(v, w, ren, xs)
    ensures Agree(Exec(assigns, v, choices), Exec(RenameAssigns(assigns, ren), w, choices), ren, xs + Written(assigns))
    decreases |assigns|
  {
    if assigns != [] {
      var a := assigns[0];
      var renamed := RenameAssigns(assigns, ren);
      AssignOneRenamed(a, v, w, choices, ren, xs);
      assert renamed[1..] == RenameAssigns(assigns[1..], ren);
      ExecRenamed(assigns[1..], AssignOne(a, v, choices), AssignOne(renamed[0], w, choices), Tail(choices), ren, xs + {a.variable});
      assert xs + Written(assigns) == xs + {a.variable} + Written(assigns[1..]);
      hide AssignOne, Agree;
    }
  }

  lemma WrittenRenamed(assigns: seq<Assignment>, ren: Renaming, y: Variable)
    requires forall a | a in assigns :: a.variable in ren
    requires y in Written(RenameAssigns(assigns, ren)) || y in Written(RenameOutputs(assigns, ren))
    ensures y in ren.Values
  {
    var r := if y in Written(RenameAssigns(assigns, ren)) then RenameAssigns(assigns, ren) else RenameOutputs(assigns, ren);
    var b :| b in r && b.variable == y;
    var i :| 0 <= i < |assigns| && r[i] == b;
    assert assigns[i] in assigns;
    assert y == ren[assigns[i].variable];
  }

  /** The valuation that gives each old name the value of its new name. */
  function Pull(w: Valuation, ren: Renaming): (v: Valuation)
    ensures forall x | x in ren && ren[x].typ == x.typ :: Get(v, x) == Get(w, ren[x])
  {
    map x | x in ren :: Get(w, ren[x])
  }
}
