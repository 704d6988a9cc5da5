/** Why loops must define their variables before use for the recursive transform to keep every error
    (src/Automaton/RecursiveToCyclicCfa.cpp, back-edges of `inlineCallIntoRoot`): a loop whose local
    is never assigned has an error that is lost when the recursive call becomes a back-edge, because
    the local keeps its value from one round to the next. */
module StaleLocals {
  import opened Exprs
  import opened ExprRewrite
  import opened Automata
  import opened AssignLists
  import opened TailInlining
  import opened TailInliningProof
  import opened BackEdges
  import opened RecursiveToCyclicProof

  const N := Variable(1, IntType)       // the loop's input
  const X := Variable(2, IntType)       // the loop's local, never assigned
  const FIELD := Variable(3, IntType)
  const NCopy := Variable(10, IntType)
  const XCopy := Variable(11, IntType)
  const NTemp := Variable(12, IntType)

  function IsNumber(x: Variable, n: int): Expr { Binary(Compare(Eq), VarRef(x), IntLit(n)) }

  /** Enter the next round when the local is 0. */
  function Again(): Transition { Assign(0, 2, IsNumber(X, 0), []) }

  /** Call the loop itself with input 1. */
  function Recurse(): Transition { Call(2, 1, True(), 0, [Assignment(N, IntLit(1))], []) }

  /** Fail in round 1 when the local is 1. */
  function ToError(): Transition { Assign(0, 3, And([IsNumber(N, 1), IsNumber(X, 1)]), []) }

  function Start(): Transition { Call(0, 1, True(), 0, [Assignment(N, IntLit(0))], []) }

  function Loop(): Cfa { Cfa([N], [], [X], 4, 0, 1, map[3 := IntLit(7)], [Again(), Recurse(), ToError()]) }

  function Root(): Cfa { Cfa([], [], [FIELD], 3, 0, 1, map[2 := VarRef(FIELD)], [Start()]) }

  function Names(): Renaming { map[N := NCopy, X := XCopy] }

  function Inlined(): Inlining { Inlining([Loop(), Root()], 1, 0, Names(), [NTemp], [NCopy, XCopy, NTemp], 2, FIELD) }

  lemma {:induction false} NumberMeans(x: Variable, n: int, v: Valuation)
    requires x.typ == IntType
    ensures Holds(IsNumber(x, n), v) <==> Get(v, x) == IntVal(n)
    ensures Vars(IsNumber(x, n)) == {x}
  {
    assert Eval(IsNumber(x, n), v) == BoolVal(Eval(VarRef(x), v) == Eval(IntLit(n), v));
    assert Vars(IsNumber(x, n)) == Vars(VarRef(x)) + Vars(IntLit(n));
  }

  lemma {:induction false} BothMean(v: Valuation)
    ensures Holds(ToError().guard, v) <==> Get(v, N) == IntVal(1) && Get(v, X) == IntVal(1)
    ensures Vars(ToError().guard) <= {N, X}
  {
    var ops := [IsNumber(N, 1), IsNumber(X, 1)];
    NumberMeans(N, 1, v);
    NumberMeans(X, 1, v);
    AllByIndex(ops, v);
    assert ops[0] == IsNumber(N, 1) && ops[1] == IsNumber(X, 1);
    hide Eval, IsNumber;
  }

  // ---- The inputs are ones the transform accepts ----

  lemma {:induction false} ScopesOf(xs: set<Variable>)
    requires xs == {N, X}
    ensures EdgeScoped(Again(), 4, xs) && EdgeScoped(Recurse(), 4, xs) && EdgeScoped(ToError(), 4, xs)
  {
    NumberMeans(X, 0, map[]);
    BothMean(map[]);
    assert Vars(True()) == {} && Vars(IntLit(1)) == {};
    hide IsNumber, Vars;
  }

  lemma EdgesOfLoop(e: Transition)
    ensures e in Loop().edges <==> e == Again() || e == Recurse() || e == ToError()
  {
    hide Again, Recurse, ToError;
  }

  lemma VariablesHere()
    ensures VariablesOf(Loop()) == {N, X} && VariablesOf(Root()) == {FIELD}
    ensures Names().Keys == {N, X} && Names().Values == {NCopy, XCopy}
  {
    hide Again, Recurse, ToError, Start;
    assert Names()[N] == NCopy && Names()[X] == XCopy;
    assert forall x :: x in [N] <==> x == N;
    assert forall x :: x in [X] <==> x == X;
    assert forall x :: x in [FIELD] <==> x == FIELD;
    assert NCopy in Names().Values && XCopy in Names().Values;
  }

  lemma {:induction false} RecurseIsShaped()
    ensures SelfCallShape(Loop(), Recurse())
  {
    assert forall x | x in [N] :: x == N;
    assert Assignment(N, IntLit(1)) in Recurse().inputs;
  }

  lemma {:induction false} LoopIsShaped()
    ensures LoopShape(Loop(), 0)
  {
    VariablesHere();
    RecurseIsShaped();
    ScopesOf(VariablesOf(Loop()));
    assert ClosedCode(IntLit(7));
    hide EdgeScoped, SelfCallShape, VariablesOf, ClosedCode, IsNumber;
    assert Loop().edges == [Again(), Recurse(), ToError()];
    forall e | e in Loop().edges ensures e == Again() || e == Recurse() || e == ToError() { EdgesOfLoop(e); }
  }

  lemma {:induction false} StartIsShaped()
    ensures Supplies(Start().inputs, Loop().inputs) && Collects(Start().outputs, Loop().outputs)
    ensures EdgeScoped(Start(), 3, {FIELD}) && NeverCalls([Loop(), Root()], 1)
  {
    assert Assignment(N, IntLit(0)) in Start().inputs;
    assert forall x | x in [N] :: x == N;
    assert Vars(True()) == {} && Vars(IntLit(0)) == {};
    hide Vars, IsNumber;
    forall f, e | 0 <= f < 2 && e in [Loop(), Root()][f].edges && e.Call? ensures e.callee != 1 {
      if f == 0 { EdgesOfLoop(e); } else { assert e == Start(); }
    }
  }

  lemma {:induction false} InliningAccepted()
    ensures Inlined().InRange() && Inlined().Valid()
  {
    LoopIsShaped();
    StartIsShaped();
    assert Inlined().InRange();
    RootIsShaped();
    NamesAreFresh();
    hide LoopShape, Supplies, Collects, EdgeScoped, NeverCalls, VariablesOf, Names, Again, Recurse, ToError, Inlining.RootShape, Inlining.FreshNames;
    assert Inlined().Edge() == Start() && Inlined().Callee() == Loop();
  }

  lemma {:induction false} RootIsShaped()
    requires Inlined().InRange()
    ensures Inlined().RootShape()
  {
    StartIsShaped();
    VariablesHere();
    assert Vars(VarRef(FIELD)) == {FIELD};
    hide Supplies, Collects, EdgeScoped, NeverCalls, VariablesOf, Vars, Names, Loop;
    assert Inlined().Root() == Root();
  }

  lemma {:induction false} NamesAreFresh()
    requires Inlined().InRange()
    ensures Inlined().FreshNames()
  {
    VariablesHere();
    InlinedParts();
    var I := Inlined();
    assert ValidRenaming(Names());
    hide VariablesOf, ValidRenaming;
    assert forall x | x in Names() :: Names()[x] == NCopy || Names()[x] == XCopy;
    assert I.Root() == Root() && I.Callee().outputs == [] && I.Edge().outputs == [];
    hide Again, Recurse, ToError, Inlining.FreshNames;
    FreshParts(I, NTemp);
  }

  lemma {:induction false} FreshParts(I: Inlining, t: Variable)
    requires I.InRange() && ValidRenaming(I.ren) && I.ren.Keys == VariablesOf(I.Callee()) && I.Callee().outputs == [] && I.Edge().outputs == []
    requires forall x | x in I.ren :: I.ren[x] !in VariablesOf(I.Root()) && I.ren[x] in I.added
    requires I.temps == [t] && t.typ == I.Callee().inputs[0].typ && t !in VariablesOf(I.Root()) && t !in I.ren.Values && t in I.added
    requires forall y | y in I.added :: y == t || y in I.ren.Values
    ensures I.FreshNames()
  {
    hide VariablesOf, ValidRenaming;
    assert t in [t];
  }

  // ---- Before: the second round may start with another local ----

  const Zeros: Valuation := map[N := IntVal(0), X := IntVal(0)]
  const Ones: Valuation := map[N := IntVal(1), X := IntVal(1)]

  lemma {:induction false} SecondRound(S: System)
    requires S == [Loop(), Root()]
    ensures Fails(S, 0, 0, Ones, After(ToError(), [], Here), IntVal(7))
  {
    BothMean(Ones);
    EdgesOfLoop(ToError());
    assert Eval(IntLit(7), Ones) == IntVal(7);
    hide IsNumber, Eval, Again, Recurse;
    assert Exec([], Ones, []) == Ones;
    assert Fails(S, 0, 3, Ones, Here, IntVal(7));
    FailAfter(S, 0, 0, Ones, ToError(), [], Here, IntVal(7));
  }

  lemma {:induction false} FirstRound(S: System, later: Failure)
    requires S == [Loop(), Root()] && Fails(S, 0, 0, Ones, later, IntVal(7))
    ensures Fails(S, 0, 0, Zeros, After(Again(), [], Inside(Recurse(), Ones, later)), IntVal(7))
  {
    NumberMeans(X, 0, Zeros);
    EdgesOfLoop(Again());
    EdgesOfLoop(Recurse());
    TrueHolds(Zeros);
    assert Eval(IntLit(1), Zeros) == IntVal(1);
    assert Exec([], Zeros, []) == Zeros;
    assert S[0].entry == 0;
    hide IsNumber, Eval, ToError, Loop;
    assert Fails(S, 0, 2, Zeros, Inside(Recurse(), Ones, later), IntVal(7));
    FailAfter(S, 0, 0, Zeros, Again(), [], Inside(Recurse(), Ones, later), IntVal(7));
  }

  lemma {:induction false} FailsBefore()
    ensures CanFail([Loop(), Root()], 1, IntVal(7))
  {
    var S := [Loop(), Root()];
    var later := After(ToError(), [], Here);
    SecondRound(S);
    FirstRound(S, later);
    TrueHolds(map[]);
    assert Eval(IntLit(0), map[]) == IntVal(0);
    assert S[0].entry == 0 && S[1].entry == 0 && Start() in S[1].edges;
    var once := After(Again(), [], Inside(Recurse(), Ones, later));
    hide IsNumber, Eval, ToError, Again, Recurse, Loop;
    assert Fails(S, 1, 0, map[], Inside(Start(), Zeros, once), IntVal(7));
    hide Fails, CanFail;
    StackIffDerivation(S, 1, IntVal(7));
  }

  lemma TrueHolds(w: Valuation)
    ensures Holds(True(), w)
  {
  }

  // ---- After: the local cannot change ----

  /** What holds of the root while it runs through the inlined loop. */
  ghost predicate Stuck(l: Loc, w: Valuation) {
    match l
    case 2 => false
    case 3 => Get(w, NCopy) == IntVal(0) || Get(w, XCopy) == IntVal(0)
    case 5 => Get(w, XCopy) == IntVal(0)
    case 6 => false
    case _ => true
  }

  /** The edges of the new root: what replaced the call, and clones. */
  ghost predicate IsNewEdge(e: Transition) {
    || e == Disconnected
    || e == Assign(6, 2, True(), [Assignment(FIELD, IntLit(7))])
    || e == CloneEdge(Again(), Loop(), 0, Names(), [NTemp], 3)
    || e == CloneEdge(Recurse(), Loop(), 0, Names(), [NTemp], 3)
    || e == CloneEdge(ToError(), Loop(), 0, Names(), [NTemp], 3)
    || e == Assign(0, 3, True(), EntryArgs([Assignment(N, IntLit(0))], [N], Names()))
    || e == Assign(4, 1, True(), [])
  }

  lemma {:induction false} OnlyCall(call: Transition, c: Cfa, ren: Renaming, temps: seq<Variable>, offset: nat, error: Loc, field: Variable, e: Transition)
    requires call.Call? && |temps| == |c.inputs| && e in InlinedEdges([call], 0, c, ren, temps, offset, error, field)
    ensures || e == Disconnected || (exists l :: l in c.errors && e == ErrorEdge(c, l, offset, error, field))
            || (exists d :: d in c.edges && e == CloneEdge(d, c, call.callee, ren, temps, offset))
            || e == EntryEdge(call, c, ren, offset) || e == ExitEdge(call, c, offset)
  {
    hide CloneEdge, CloneEdges, ErrorEdges, EntryEdge, ExitEdge;
    assert [call][0 := Disconnected] == [Disconnected];
    var clones, errors := CloneEdges(c.edges, c, call.callee, ren, temps, offset), ErrorEdges(c, c.numLocations, offset, error, field);
    if e in clones {
      var i :| 0 <= i < |clones| && clones[i] == e;
      assert c.edges[i] in c.edges;
    }
  }

  lemma {:induction false} NewEdges(e: Transition)
    requires Inlined().InRange() && e in Inlined().NewRoot().edges
    ensures IsNewEdge(e)
  {
    hide CloneEdge, CloneEdges, ErrorEdges, EntryArgs, Again, Recurse, ToError, InlinedEdges;
    var c := Loop();
    assert Inlined().NewRoot().edges == InlinedEdges([Start()], 0, c, Names(), [NTemp], 3, 2, FIELD);
    OnlyCall(Start(), c, Names(), [NTemp], 3, 2, FIELD, e);
    if d :| d in c.edges && e == CloneEdge(d, c, 0, Names(), [NTemp], 3) {
      EdgesOfLoop(d);
    }
  }

  lemma {:induction false} CloneShapes()
    ensures var a := CloneEdge(Again(), Loop(), 0, Names(), [NTemp], 3); a == Assign(3, 5, Renamed(Again().guard, Names()), [])
    ensures var b := CloneEdge(Recurse(), Loop(), 0, Names(), [NTemp], 3);
            b == Assign(5, 3, True(), BackArgs([Assignment(N, IntLit(1))], Loop(), [NTemp], Names()))
    ensures var d := CloneEdge(ToError(), Loop(), 0, Names(), [NTemp], 3); d == Assign(3, 6, Renamed(ToError().guard, Names()), [])
  {
    hide Renamed, BackArgs, IsNumber;
    assert RenameAssigns([], Names()) == [];
  }

  lemma {:induction false} CopiedGuard(g: Expr, w: Valuation)
    requires Vars(g) <= {N, X}
    ensures Holds(Renamed(g, Names()), w) <==> Holds(g, Pull(w, Names()))
    ensures Get(Pull(w, Names()), N) == Get(w, NCopy) && Get(Pull(w, Names()), X) == Get(w, XCopy)
  {
    var ren := Names();
    assert ren.Keys == {N, X};
    EvalRenamed(g, Pull(w, ren), w, ren, ren.Keys);
  }

  lemma {:induction false} BackEdgeKeeps(w: Valuation, choices: seq<Value>)
    ensures Get(Exec(BackArgs([Assignment(N, IntLit(1))], Loop(), [NTemp], Names()), w, choices), XCopy) == Get(w, XCopy)
  {
    var back := BackArgs([Assignment(N, IntLit(1))], Loop(), [NTemp], Names());
    assert TempArgs([Assignment(N, IntLit(1))], [N], [NTemp], Names()) == [Assignment(NTemp, Renamed(IntLit(1), Names()))] by {
      var inputs, temps := [N], [NTemp];
      assert inputs[..0] == [] && temps[..0] == [];
      assert Argument([Assignment(N, IntLit(1))], N) == IntLit(1);
    }
    assert InputArgs([N], [NTemp], Names()) == [Assignment(NCopy, VarRef(NTemp))];
    assert back == [Assignment(NTemp, Renamed(IntLit(1), Names())), Assignment(NCopy, VarRef(NTemp))];
    ExecFrame(back, w, choices, XCopy);
  }

  lemma {:induction false} EntrySets(w: Valuation, choices: seq<Value>)
    ensures Get(Exec(EntryArgs([Assignment(N, IntLit(0))], [N], Names()), w, choices), NCopy) == IntVal(0)
  {
    assert Argument([Assignment(N, IntLit(0))], N) == IntLit(0);
    assert EntryArgs([Assignment(N, IntLit(0))], [N], Names()) == [Assignment(NCopy, IntLit(0))];
    SingleAssign(Assignment(NCopy, IntLit(0)), w, choices);
    assert Eval(IntLit(0), w) == IntVal(0);
  }

  /** Every step of the new root keeps the invariant; none of its edges is a call. */
  lemma {:induction false} StaysStuck(e: Transition, w: Valuation, choices: seq<Value>)
    requires IsNewEdge(e)
    ensures !e.Call?
    ensures e.Assign? && Holds(e.guard, w) && Stuck(e.source, w) ==> Stuck(e.target, Exec(e.assigns, w, choices))
  {
    CloneShapes();
    NumberMeans(X, 0, Pull(w, Names()));
    BothMean(Pull(w, Names()));
    NumberMeans(X, 0, map[]);
    CopiedGuard(Again().guard, w);
    CopiedGuard(ToError().guard, w);
    BackEdgeKeeps(w, choices);
    EntrySets(w, choices);
    assert Exec([], w, choices) == w;
    hide IsNumber, Eval, Renamed, BackArgs, EntryArgs, Exec, CloneEdge, Loop, Names, Pull, Vars;
  }

  /** A system whose second automaton is the new root. */
  ghost predicate HasNewRoot(T: System) {
    && |T| == 2 && T[1].errors == map[2 := VarRef(FIELD)] && T[1].entry == 0
    && forall e | e in T[1].edges :: IsNewEdge(e)
  }

  lemma {:induction false} ResultIs()
    requires Inlined().InRange()
    ensures HasNewRoot(Inlined().Result())
  {
    hide InlinedEdges, Loop, IsNewEdge;
    forall e | e in Inlined().NewRoot().edges ensures IsNewEdge(e) { NewEdges(e); }
  }

  lemma {:induction false} NeverFails(T: System, l: Loc, w: Valuation, fail: Failure, code: Value)
    requires HasNewRoot(T) && Stuck(l, w)
    ensures !Fails(T, 1, l, w, fail, code)
    decreases fail
  {
    hide IsNewEdge, Exec;
    if Fails(T, 1, l, w, fail, code) {
      UnfoldFailure(T, 1, l, w, fail, code);
      hide Fails;
      if !fail.Here? {
        StaysStuck(fail.edge, w, if fail.After? then fail.choices else []);
      }
      if fail.After? {
        NeverFails(T, fail.edge.target, Exec(fail.edge.assigns, w, fail.choices), fail.rest, code);
      }
    }
  }

  lemma {:induction false} NoErrorLeft(T: System, code: Value)
    requires HasNewRoot(T)
    ensures !CanFail(T, 1, code)
  {
    hide IsNewEdge, CanFail, Fails;
    StackIffDerivation(T, 1, code);
    forall w, fail ensures !Fails(T, 1, 0, w, fail, code) { NeverFails(T, 0, w, fail, code); }
  }

  lemma InlinedParts()
    requires Inlined().InRange()
    ensures Inlined().S == [Loop(), Root()] && Inlined().root == 1 && Inlined().Callee() == Loop() && Inlined().F() == 0
  {
    hide Loop;
  }

  /** The error is reachable before the inlining and no error is after it; the loop reads its local
      before defining it. */
  lemma {:induction false} ErrorIsLost()
    ensures Inlined().InRange() && Inlined().Valid()
    ensures CanFail(Inlined().S, 1, IntVal(7)) && forall code :: !CanFail(Inlined().Result(), 1, code)
    ensures forall D :: !DefinedBeforeUse(Loop(), 0, D)
  {
    hide *;
    InliningAccepted();
    FailsBefore();
    InlinedParts();
    ResultIs();
    forall code ensures !CanFail(Inlined().Result(), 1, code) { NoErrorLeft(Inlined().Result(), code); }
    forall D ensures !DefinedBeforeUse(Loop(), 0, D) {
      if DefinedBeforeUse(Loop(), 0, D) { InliningKeepsErrors(Inlined(), D, IntVal(7)); }
    }
  }
}
