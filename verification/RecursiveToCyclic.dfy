/** The transformer that replaces tail-recursive calls of the root by loops
    (src/Automaton/RecursiveToCyclicCfa.cpp, with `isTailRecursive` of src/Automaton/CallGraph.cpp):
    its worklist ends, leaves no call to a tail-recursive automaton, and keeps the error codes. */
module RecursiveToCyclic {
  import opened Exprs
  import opened ExprRewrite
  import opened Automata
  import opened AssignLists
  import opened TailInlining
  import opened InliningShape
  import opened UniqueError
  import opened CyclicToRecursive
  import opened RecursiveToCyclicProof
  import opened RootRuns

  // ---- Systems the transformer accepts ----

  /** `rank` orders the call graph without self-calls. */
  ghost predicate Ranked(S: System, rank: seq<nat>) {
    && |rank| == |S|
    && forall f, e | 0 <= f < |S| && e in S[f].edges && e.Call? && e.callee != f :: e.callee < |S| && rank[e.callee] < rank[f]
  }

  ghost predicate Amenable(S: System, root: nat, rank: seq<nat>) {
    && root < |S| && NeverCalls(S, root) && PlainRoot(S[root]) && Ranked(S, rank)
    && (forall f, e | 0 <= f < |S| && e in S[f].edges :: CallFits(S, e))
    && (forall f | 0 <= f < |S| && TailRecursive(S[f], f) :: LoopShape(S[f], f) && NoDuplicates(S[f].locals))
  }

  /** Every tail-recursive automaton defines its locals and outputs before use. */
  ghost predicate LoopsDefineBeforeUse(S: System) {
    forall f | 0 <= f < |S| && TailRecursive(S[f], f) :: exists D :: DefinedBeforeUse(S[f], f, D)
  }

  method IsTailRecursive(c: Cfa, f: nat) returns (b: bool)
    ensures b == TailRecursive(c, f)
    ensures b <==> (exists e | e in c.edges :: e.Call? && e.callee == f) && forall e | e in c.edges && e.Call? && e.callee == f :: e.target == c.exit
  {
    var isRecursive, isTail := false, true;
    for i := 0 to |c.edges|
      invariant isTail
      invariant isRecursive <==> exists e | e in c.edges[..i] :: SelfCall(e, f)
      invariant forall e | e in c.edges[..i] && SelfCall(e, f) :: e.target == c.exit
    {
      var call := c.edges[i];
      assert c.edges[..i + 1] == c.edges[..i] + [call];
      if SelfCall(call, f) {
        isRecursive := true;
        if call.target != c.exit {
          assert call in c.edges;
          return false;
        }
      }
    }
    assert c.edges[..|c.edges|] == c.edges;
    b := isRecursive && isTail;
  }

  // ---- Argument lists, built input by input ----

  /** First loop over the inputs: the temporaries. */
  method BuildTempArgs(args: seq<Assignment>, inputs: seq<Variable>, temps: seq<Variable>, ren: Renaming) returns (r: seq<Assignment>)
    requires |temps| == |inputs|
    ensures r == TempArgs(args, inputs, temps, ren)
  {
    hide Renamed, Argument;
    r := [];
    for i := 0 to |inputs|
      invariant r == TempArgs(args, inputs[..i], temps[..i], ren)
    {
      var value := Renamed(Argument(args, inputs[i]), ren);
      assert inputs[..i + 1][..i] == inputs[..i] && temps[..i + 1][..i] == temps[..i];
      if VarRef(temps[i]) != value {
        r := r + [Assignment(temps[i], value)];
      }
    }
    assert inputs[..|inputs|] == inputs && temps[..|inputs|] == temps;
  }

  /** Second loop: the inputs themselves. */
  method BuildInputArgs(inputs: seq<Variable>, temps: seq<Variable>, ren: Renaming) returns (r: seq<Assignment>)
    requires |temps| == |inputs|
    ensures r == InputArgs(inputs, temps, ren)
  {
    r := [];
    for i := 0 to |inputs|
      invariant r == InputArgs(inputs[..i], temps[..i], ren)
    {
      assert inputs[..i + 1][..i] == inputs[..i] && temps[..i + 1][..i] == temps[..i];
      r := r + [Assignment(Name(ren, inputs[i]), VarRef(temps[i]))];
    }
    assert inputs[..|inputs|] == inputs && temps[..|inputs|] == temps;
  }

  method BuildEntryArgs(args: seq<Assignment>, inputs: seq<Variable>, ren: Renaming) returns (r: seq<Assignment>)
    ensures r == EntryArgs(args, inputs, ren)
  {
    r := [];
    for i := 0 to |inputs|
      invariant r == EntryArgs(args, inputs[..i], ren)
    {
      r := r + [Assignment(Name(ren, inputs[i]), Argument(args, inputs[i]))];
      assert inputs[..i + 1][..i] == inputs[..i];
    }
    assert inputs[..|inputs|] == inputs;
  }

  /** The caller's variable that the first matching output argument names. */
  function OutputVariable(outs: seq<Assignment>, o: Variable): Variable {
    if outs == [] then o else if outs[0].value == VarRef(o) then outs[0].variable else OutputVariable(outs[1..], o)
  }

  lemma {:induction false} OutputVariableOf(outs: seq<Assignment>, outputs: seq<Variable>, a: Assignment)
    requires Collects(outs, outputs) && a in outs
    ensures OutputVariable(outs, a.value.variable) == a.variable
  {
    var i :| 0 <= i < |outs| && outs[i] == a;
    OutputVariableAt(outs, i);
  }

  lemma {:induction false} OutputVariableAt(outs: seq<Assignment>, i: nat)
    requires i < |outs| && outs[i].value.VarRef? && forall j, k | 0 <= j < k < |outs| :: outs[j].value != outs[k].value
    ensures OutputVariable(outs, outs[i].value.variable) == outs[i].variable
  {
    if i > 0 {
      OutputVariableAt(outs[1..], i - 1);
    }
  }

  // ---- Names for one inlining ----

  /** Names given so far: new ids from `base` up to `next`, all different. */
  ghost predicate Naming(ren: Renaming, temps: seq<Variable>, added: seq<Variable>, base: nat, next: nat) {
    && base <= next && ValidRenaming(ren) && NoDuplicates(temps)
    && (forall x | x in ren :: base <= ren[x].id < next && ren[x] in added)
    && (forall i | 0 <= i < |temps| :: base <= temps[i].id < next && temps[i] in added && temps[i] !in ren.Values)
    && (forall y | y in added :: base <= y.id < next && (y in temps || y in ren.Values))
  }

  lemma NameOneMore(ren: Renaming, temps: seq<Variable>, added: seq<Variable>, base: nat, next: nat, x: Variable)
    requires Naming(ren, temps, added, base, next) && x !in ren
    ensures var y := Variable(next, x.typ); Naming(ren[x := y], temps, added + [y], base, next + 1)
  {
    var ren' := ren[x := Variable(next, x.typ)];
    assert ren'[x] in ren'.Values;
    forall y | y in ren.Values ensures y in ren'.Values {
      var z :| z in ren && ren[z] == y;
      assert ren'[z] == y;
    }
  }

  lemma AddTemporary(ren: Renaming, temps: seq<Variable>, added: seq<Variable>, base: nat, next: nat, t: Type)
    requires Naming(ren, temps, added, base, next)
    ensures var y := Variable(next, t); Naming(ren, temps + [y], added + [y], base, next + 1)
  {
    var y := Variable(next, t);
    assert y !in ren.Values;
  }

  /** Locals that are not outputs get clones in the root. */
  method NameLocals(c: Cfa, base: nat) returns (ren: Renaming, added: seq<Variable>, next: nat)
    requires NoDuplicates(c.locals)
    ensures Naming(ren, [], added, base, next)
    ensures ren.Keys == set x | x in c.locals && x !in c.outputs
  {
    ren, added, next := map[], [], base;
    for i := 0 to |c.locals|
      invariant Naming(ren, [], added, base, next)
      invariant forall x :: x in ren <==> x in c.locals[..i] && x !in c.outputs
    {
      var local := c.locals[i];
      if local !in c.outputs {
        NameOneMore(ren, [], added, base, next, local);
        var clone := Variable(next, local.typ);
        ren, added, next := ren[local := clone], added + [clone], next + 1;
      }
    }
  }

  /** Inputs get a clone and a temporary each. */
  method NameInputs(c: Cfa, base: nat, ren0: Renaming, added0: seq<Variable>, next0: nat)
    returns (ren: Renaming, temps: seq<Variable>, added: seq<Variable>, next: nat)
    requires NoDuplicates(c.inputs) && Naming(ren0, [], added0, base, next0) && forall x | x in c.inputs :: x !in ren0
    ensures Naming(ren, temps, added, base, next)
    ensures ren.Keys == ren0.Keys + (set x | x in c.inputs)
    ensures |temps| == |c.inputs| && forall i | 0 <= i < |temps| :: temps[i].typ == c.inputs[i].typ
  {
    ren, temps, added, next := ren0, [], added0, next0;
    for i := 0 to |c.inputs|
      invariant Naming(ren, temps, added, base, next) && |temps| == i
      invariant forall x :: x in ren <==> x in ren0 || x in c.inputs[..i]
      invariant forall j | 0 <= j < i :: temps[j].typ == c.inputs[j].typ
    {
      var input := c.inputs[i];
      NameOneMore(ren, temps, added, base, next, input);
      var clone := Variable(next, input.typ);
      ren, added, next := ren[input := clone], added + [clone], next + 1;
      AddTemporary(ren, temps, added, base, next, input.typ);
      var temp := Variable(next, input.typ);
      temps, added, next := temps + [temp], added + [temp], next + 1;
    }
  }

  /** Outputs stand for the variables the call stores them in. */
  method NameOutputs(c: Cfa, outs: seq<Assignment>, ren0: Renaming) returns (ren: Renaming)
    requires forall o | o in c.outputs :: o !in ren0
    ensures ren.Keys == ren0.Keys + (set x | x in c.outputs)
    ensures forall x | x in ren0 :: ren[x] == ren0[x]
    ensures forall x | x in c.outputs :: ren[x] == OutputVariable(outs, x)
  {
    ren := ren0;
    for i := 0 to |c.outputs|
      invariant forall x :: x in ren <==> x in ren0 || x in c.outputs[..i]
      invariant forall x | x in ren0 :: ren[x] == ren0[x]
      invariant forall x | x in c.outputs[..i] :: ren[x] == OutputVariable(outs, x)
    {
      ren := ren[c.outputs[i] := OutputVariable(outs, c.outputs[i])];
    }
    assert c.outputs[..|c.outputs|] == c.outputs;
  }

  /** The outcome of naming: `own` are the new variables, `ren` adds the outputs. */
  ghost predicate NamesOf(c: Cfa, outs: seq<Assignment>, base: nat, own: Renaming, ren: Renaming, temps: seq<Variable>, added: seq<Variable>, next: nat) {
    && Naming(own, temps, added, base, next) && own.Keys == (set x | x in c.locals && x !in c.outputs) + (set x | x in c.inputs)
    && |temps| == |c.inputs| && (forall i | 0 <= i < |temps| :: temps[i].typ == c.inputs[i].typ)
    && ren.Keys == own.Keys + (set x | x in c.outputs) && (forall x | x in own :: ren[x] == own[x])
    && (forall x | x in c.outputs :: ren[x] == OutputVariable(outs, x))
  }

  method NameVariables(c: Cfa, outs: seq<Assignment>, base: nat)
    returns (ghost own: Renaming, ren: Renaming, temps: seq<Variable>, added: seq<Variable>, next: nat)
    requires NoDuplicates(c.inputs) && NoDuplicates(c.locals) && (forall x | x in c.inputs :: x !in c.outputs && x !in c.locals)
    ensures NamesOf(c, outs, base, own, ren, temps, added, next) && |temps| == |c.inputs|
  {
    hide Naming, OutputVariable;
    ren, added, next := NameLocals(c, base);
    ren, temps, added, next := NameInputs(c, base, ren, added, next);
    own := ren;
    ren := NameOutputs(c, outs, ren);
  }

  /** The names for a whole callee are as an inlining needs them. */
  lemma {:induction false} NamesFit(c: Cfa, outs: seq<Assignment>, own: Renaming, ren: Renaming, temps: seq<Variable>, added: seq<Variable>, base: nat, next: nat)
    requires Naming(own, temps, added, base, next) && Collects(outs, c.outputs) && (forall a | a in outs :: a.variable.id < base)
    requires (forall o | o in c.outputs :: o !in own) && ren.Keys == own.Keys + (set x | x in c.outputs)
    requires (forall x | x in own :: ren[x] == own[x]) && (forall x | x in c.outputs :: ren[x] == OutputVariable(outs, x))
    ensures ValidRenaming(ren)
    ensures forall a | a in outs && a.value.VarRef? && a.value.variable in ren :: ren[a.value.variable] == a.variable
    ensures forall i | 0 <= i < |temps| :: temps[i] !in ren.Values
    ensures forall x | x in ren && x !in c.outputs :: base <= ren[x].id < next && ren[x] in added
    ensures forall y | y in added :: y in temps || y in ren.Values
  {
    forall y | y in added && y !in temps ensures y in ren.Values {
      var x :| x in own && own[x] == y;
      assert x in ren;
    }
    forall a | a in outs ensures OutputVariable(outs, a.value.variable) == a.variable { OutputVariableOf(outs, c.outputs, a); }
    hide OutputVariable;
    forall x | x in c.outputs ensures exists a :: a in outs && a.value == VarRef(x) && ren[x] == a.variable {
      var a :| a in outs && a.value == VarRef(x);
    }
    forall x, y | x in ren && y in ren && x != y ensures ren[x] != ren[y] {
      if x in c.outputs && y in c.outputs {
        var a :| a in outs && a.value == VarRef(x) && ren[x] == a.variable;
        var b :| b in outs && b.value == VarRef(y) && ren[y] == b.variable;
        var i :| 0 <= i < |outs| && outs[i] == a;
        var j :| 0 <= j < |outs| && outs[j] == b;
        assert i != j;
      }
    }
  }

  // ---- The worklist measure ----

  /** How many inlinings a call to `f` causes, itself included. */
  ghost function Cost(S: System, rank: seq<nat>, f: nat): nat
    requires Ranked(S, rank) && f < |S|
    decreases rank[f], |S[f].edges| + 1
  {
    1 + EdgeCosts(S, rank, f, |S[f].edges|)
  }

  ghost function EdgeCosts(S: System, rank: seq<nat>, f: nat, n: nat): nat
    requires Ranked(S, rank) && f < |S| && n <= |S[f].edges|
    decreases rank[f], n
  {
    if n == 0 then 0
    else
      var e := S[f].edges[n - 1];
      EdgeCosts(S, rank, f, n - 1) + (if e.Call? && e.callee != f && CallsLoop(S, e) then Cost(S, rank, e.callee) else 0)
  }

  /** The inlinings still caused by the listed edges. */
  ghost function Pending(S: System, rank: seq<nat>, edges: seq<Transition>, list: seq<nat>): nat
    requires Ranked(S, rank) && forall i | i in list :: i < |edges| && CallsLoop(S, edges[i])
  {
    if list == [] then 0
    else
      var n := |list| - 1;
      assert forall i | i in list[..n] :: i in list;
      assert list[n] in list && CallsLoop(S, edges[list[n]]);
      Pending(S, rank, edges, list[..n]) + Cost(S, rank, edges[list[n]].callee)
  }

  lemma {:induction false} PendingStable(S: System, rank: seq<nat>, edges: seq<Transition>, edges': seq<Transition>, list: seq<nat>)
    requires Ranked(S, rank) && (forall i | i in list :: i < |edges| && CallsLoop(S, edges[i]))
    requires forall i | i in list :: i < |edges'| && edges'[i] == edges[i]
    ensures Pending(S, rank, edges', list) == Pending(S, rank, edges, list)
  {
    if list != [] {
      var n := |list| - 1;
      assert forall i | i in list[..n] :: i in list;
      assert list[n] in list;
      PendingStable(S, rank, edges, edges', list[..n]);
    }
  }

  /** The list holds exactly the live calls to tail-recursive automata, except possibly `skip`. */
  ghost predicate Listed(S: System, edges: seq<Transition>, list: seq<nat>, skip: int) {
    && (forall i, j | 0 <= i < j < |list| :: list[i] != list[j])
    && (forall i | i in list :: i < |edges| && i != skip && CallsLoop(S, edges[i]))
    && (forall i | 0 <= i < |edges| && i != skip && CallsLoop(S, edges[i]) :: i in list)
  }

  lemma {:induction false} NewlyListed(S: System, edges: seq<Transition>, list: seq<nat>, skip: int, e: Transition)
    requires Listed(S, edges, list, skip) && skip < |edges|
    ensures Listed(S, edges + [e], if CallsLoop(S, e) then list + [|edges|] else list, skip)
  {
    var list' := if CallsLoop(S, e) then list + [|edges|] else list;
    assert forall i | 0 <= i < |list| :: list[i] in list;
    forall i | i in list' ensures i < |edges + [e]| && i != skip && CallsLoop(S, (edges + [e])[i]) {
      assert i in list || i == |edges|;
    }
    forall i | 0 <= i < |edges + [e]| && i != skip && CallsLoop(S, (edges + [e])[i]) ensures i in list' {
      if i == |edges| {
        assert list'[|list|] == i;
      }
    }
  }

  // ---- Clearing disconnected edges ----

  function Live(edges: seq<Transition>): seq<Transition> {
    if edges == [] then [] else
      Live(edges[..|edges| - 1]) + (if edges[|edges| - 1].Disconnected? then [] else [edges[|edges| - 1]])
  }

  lemma {:induction false} LiveMembers(edges: seq<Transition>, e: Transition)
    ensures e in Live(edges) <==> e in edges && !e.Disconnected?
  {
    if edges != [] {
      var n := |edges| - 1;
      assert edges == edges[..n] + [edges[n]];
      LiveMembers(edges[..n], e);
    }
  }

  /** The location has an incoming or outgoing edge. */
  predicate Touched(edges: seq<Transition>, l: Loc) { exists e | e in edges :: !e.Disconnected? && (e.source == l || e.target == l) }

  /** Two roots with the same entry, errors and live edges, which nobody calls, fail alike. */
  lemma {:induction false} SameLiveEdges(S: System, T: System, root: nat, l: Loc, v: Valuation, fail: Failure, code: Value)
    requires root < |S| && NeverCalls(S, root) && |T| == |S| && (forall g | 0 <= g < |S| && g != root :: S[g] == T[g])
    requires T[root].errors == S[root].errors && forall e | e in S[root].edges && !e.Disconnected? :: e in T[root].edges
    requires Fails(S, root, l, v, fail, code)
    ensures Fails(T, root, l, v, fail, code)
    decreases fail
  {
    match fail
    case Here =>
    case After(e, choices, rest) => SameLiveEdges(S, T, root, e.target, Exec(e.assigns, v, choices), rest, code);
    case Past(e, init, body, final, rest) =>
      RunsElsewhere(S, T, root, e.callee, S[e.callee].entry, init, body, S[e.callee].exit, final);
      SameLiveEdges(S, T, root, e.target, Returned(e.outputs, v, final), rest, code);
    case Inside(e, init, inner) => FailsElsewhere(S, T, root, e.callee, S[e.callee].entry, init, inner, code);
  }

  lemma {:induction false} RunsAlongLiveEdges(S: System, T: System, root: nat, l: Loc, v: Valuation, run: Run, l': Loc, w: Valuation)
    requires root < |S| && NeverCalls(S, root) && |T| == |S| && (forall g | 0 <= g < |S| && g != root :: S[g] == T[g])
    requires (forall e | e in S[root].edges && !e.Disconnected? :: e in T[root].edges) && Leads(S, root, l, v, run, l', w)
    ensures Leads(T, root, l, v, run, l', w)
    decreases run
  {
    match run
    case Stop =>
    case Step(e, choices, rest) => RunsAlongLiveEdges(S, T, root, e.target, Exec(e.assigns, v, choices), rest, l', w);
    case Through(e, init, body, final, rest) =>
      RunsElsewhere(S, T, root, e.callee, S[e.callee].entry, init, body, S[e.callee].exit, final);
      RunsAlongLiveEdges(S, T, root, e.target, Returned(e.outputs, v, final), rest, l', w);
  }

  lemma {:induction false} ClearedNeverCalls(S: System, root: nat, main: Cfa)
    requires root < |S| && NeverCalls(S[root := main], root)
    ensures NeverCalls(S[root := main.(edges := Live(main.edges))], root)
  {
    var A, B := S[root := main], S[root := main.(edges := Live(main.edges))];
    forall f, e | 0 <= f < |B| && e in B[f].edges && e.Call? ensures e.callee != root {
      LiveMembers(main.edges, e);
      assert e in A[f].edges;
    }
  }

  /** Dropping disconnected edges changes no run of the root. */
  lemma {:induction false} ClearingKeepsRuns(S: System, root: nat, main: Cfa, v: Valuation, l: Loc, u: Valuation, xs: set<Variable>)
    requires root < |S| && NeverCalls(S[root := main], root)
    ensures Arrives(S[root := main.(edges := Live(main.edges))], root, v, l, u, xs) <==> Arrives(S[root := main], root, v, l, u, xs)
  {
    var A, B := S[root := main], S[root := main.(edges := Live(main.edges))];
    forall e ensures e in Live(main.edges) <==> e in main.edges && !e.Disconnected? { LiveMembers(main.edges, e); }
    ClearedNeverCalls(S, root, main);
    hide Live, NeverCalls, Leads, Same;
    if Arrives(A, root, v, l, u, xs) {
      var run, w := ArrivalOf(A, root, v, l, u, xs);
      RunsAlongLiveEdges(A, B, root, main.entry, v, run, l, w);
      Arrived(B, root, v, run, l, w, u, xs);
    }
    if Arrives(B, root, v, l, u, xs) {
      var run, w := ArrivalOf(B, root, v, l, u, xs);
      RunsAlongLiveEdges(B, A, root, main.entry, v, run, l, w);
      Arrived(A, root, v, run, l, w, u, xs);
    }
  }

  lemma {:induction false} ClearingKeepsErrors(S: System, root: nat, main: Cfa, code: Value)
    requires root < |S| && NeverCalls(S[root := main], root)
    ensures CanFail(S[root := main.(edges := Live(main.edges))], root, code) <==> CanFail(S[root := main], root, code)
  {
    var A, B := S[root := main], S[root := main.(edges := Live(main.edges))];
    forall e ensures e in Live(main.edges) <==> e in main.edges && !e.Disconnected? { LiveMembers(main.edges, e); }
    hide Live;
    assert NeverCalls(B, root) by {
      forall f, e | 0 <= f < |B| && e in B[f].edges && e.Call? ensures e.callee != root {
        assert e in A[f].edges;
      }
    }
    StackIffDerivation(A, root, code);
    StackIffDerivation(B, root, code);
    hide Fails, CanFail;
    if Derivable(A, root, code) {
      var v, fail :| Fails(A, root, A[root].entry, v, fail, code);
      SameLiveEdges(A, B, root, A[root].entry, v, fail, code);
      assert Fails(B, root, B[root].entry, v, fail, code);
    }
    if Derivable(B, root, code) {
      var v, fail :| Fails(B, root, B[root].entry, v, fail, code);
      SameLiveEdges(B, A, root, B[root].entry, v, fail, code);
      assert Fails(A, root, A[root].entry, v, fail, code);
    }
  }

  // ---- The goal ----

  /** The root alone walks from its entry to the unique error location with this code in the field. */
  ghost predicate GoalReached(S: System, root: nat, error: Loc, field: Variable, code: Value) {
    root < |S| && exists v, run, w :: Leads(S, root, S[root].entry, v, run, error, w) && Get(w, field) == code
  }

  /** The root walks to a call that then fails with this code. */
  ghost predicate CalleeFails(S: System, root: nat, code: Value) {
    root < |S| && exists v, run, l, w, e, init, inner ::
      Leads(S, root, S[root].entry, v, run, l, w) && Fails(S, root, l, w, Inside(e, init, inner), code)
  }

  /** How a failure of the root ends: at the goal, or in a call. */
  datatype Ending = AtGoal(run: Run, final: Valuation) | InCall(run: Run, loc: Loc, final: Valuation, edge: Transition, init: Valuation, inner: Failure)

  ghost predicate Ends(S: System, root: nat, error: Loc, field: Variable, l: Loc, v: Valuation, code: Value, o: Ending) {
    match o
    case AtGoal(run, w) => Leads(S, root, l, v, run, error, w) && Get(w, field) == code
    case InCall(run, l', w, e, init, inner) => Leads(S, root, l, v, run, l', w) && Fails(S, root, l', w, Inside(e, init, inner), code)
  }

  lemma {:induction false} EndsHere(S: System, root: nat, error: Loc, field: Variable, l: Loc, v: Valuation, code: Value) returns (o: Ending)
    requires root < |S| && RootReady(S, root, S[root], error, field) && ErrorAt(S, root, l, v, code)
    ensures Ends(S, root, error, field, l, v, code, o)
  {
    var c := S[root];
    if l == error {
      assert Eval(VarRef(field), v) == Get(v, field);
      o := AtGoal(Stop, v);
    } else {
      var e := Assign(l, error, True(), [Assignment(field, c.errors[l])]);
      SingleAssign(Assignment(field, c.errors[l]), v, [code]);
      TypeSoundness(c.errors[l], v);
      assert Holds(True(), v);
      var w := Exec(e.assigns, v, [code]);
      assert Leads(S, root, error, w, Stop, error, w);
      LeadStep(S, root, l, v, e, [code], Stop, error, w);
      o := AtGoal(Step(e, [code], Stop), w);
    }
  }

  lemma {:induction false} FailureAsRun(S: System, root: nat, error: Loc, field: Variable, l: Loc, v: Valuation, fail: Failure, code: Value) returns (o: Ending)
    requires root < |S| && RootReady(S, root, S[root], error, field) && Fails(S, root, l, v, fail, code)
    ensures Ends(S, root, error, field, l, v, code, o)
    decreases fail
  {
    hide RootReady;
    match fail
    case Here => o := EndsHere(S, root, error, field, l, v, code);
    case Inside(e, init, inner) => o := InCall(Stop, l, v, e, init, inner);
    case After(e, choices, rest) =>
      o := FailureAsRun(S, root, error, field, e.target, Exec(e.assigns, v, choices), rest, code);
      o := o.(run := Step(e, choices, o.run));
    case Past(e, init, body, final, rest) =>
      o := FailureAsRun(S, root, error, field, e.target, Returned(e.outputs, v, final), rest, code);
      o := o.(run := Through(e, init, body, final, o.run));
  }

  /** The error codes of the system are what the goal can be reached with, and the codes of callees
      that fail when the root calls them. */
  lemma {:induction false} GoalIffFailure(S: System, root: nat, error: Loc, field: Variable, code: Value)
    requires root < |S| && RootReady(S, root, S[root], error, field)
    ensures CanFail(S, root, code) <==> GoalReached(S, root, error, field, code) || CalleeFails(S, root, code)
  {
    StackIffDerivation(S, root, code);
    if GoalReached(S, root, error, field, code) {
      var v, run, w :| Leads(S, root, S[root].entry, v, run, error, w) && Get(w, field) == code;
      assert Eval(VarRef(field), w) == Get(w, field);
      assert Fails(S, root, error, w, Here, code);
      AppendFails(S, root, S[root].entry, v, run, error, w, Here, code);
    }
    hide RootReady, Fails, Leads, CanFail;
    if CalleeFails(S, root, code) {
      var v, run, l, w, e, init, inner :| Leads(S, root, S[root].entry, v, run, l, w) && Fails(S, root, l, w, Inside(e, init, inner), code);
      AppendFails(S, root, S[root].entry, v, run, l, w, Inside(e, init, inner), code);
    }
    if Derivable(S, root, code) {
      var v, fail :| Fails(S, root, S[root].entry, v, fail, code);
      var o := FailureAsRun(S, root, error, field, S[root].entry, v, fail, code);
    }
  }

  /** A callee fails only where a call is left whose callee can fail. */
  lemma {:induction false} CalleeFailsByCall(S: System, root: nat, code: Value)
    requires root < |S| && CalleeFails(S, root, code)
    ensures exists e :: e in S[root].edges && e.Call? && CanFail(S, e.callee, code)
  {
    hide CanFail, Leads;
    var v, run, l, w, e, init, inner :| Leads(S, root, S[root].entry, v, run, l, w) && Fails(S, root, l, w, Inside(e, init, inner), code);
    UnfoldFailure(S, root, l, w, Inside(e, init, inner), code);
    StackIffDerivation(S, e.callee, code);
  }

  /** No callee of a call edge can fail with this code. */
  ghost predicate CalleesSucceed(S: System, edges: seq<Transition>, code: Value) {
    forall e | e in edges && e.Call? :: !CanFail(S, e.callee, code)
  }

  /** What callees can fail with does not depend on the root, which nobody calls. */
  lemma {:induction false} NoCalleeFails(S: System, root: nat, main: Cfa, code: Value)
    requires root < |S| && NeverCalls(S[root := main], root) && CalleesSucceed(S, main.edges, code)
    ensures !CalleeFails(S[root := main], root, code)
  {
    var T := S[root := main];
    if CalleeFails(T, root, code) {
      CalleeFailsByCall(T, root, code);
      hide CalleeFails, CanFail, Fails;
      var e :| e in T[root].edges && e.Call? && CanFail(T, e.callee, code);
      StackIffDerivation(T, e.callee, code);
      StackIffDerivation(S, e.callee, code);
      var v, fail :| Fails(T, e.callee, T[e.callee].entry, v, fail, code);
      FailsElsewhere(T, S, root, e.callee, T[e.callee].entry, v, fail, code);
    }
  }

  // ---- The transformer ----

  /** Collects the error locations, then wires each of them, or adds the dummy edge. */
  method BuildGoalEdges(c: Cfa, error: Loc, field: Variable) returns (edges: seq<Transition>)
    requires forall l | l in c.errors :: l < c.numLocations
    ensures edges == NewEdges(c, error, field)
  {
    var errors := FindErrors(c);
    if errors == [] {
      edges := [DummyEdge(c, error, field)];
      assert c.errors == map[];
    } else {
      edges := WireErrors(c, errors, error, field);
      assert errors[0] in errors;
      WiresAreEdges(c, c.numLocations, error, field);
    }
  }

  lemma {:induction false} EdgeAfterUniqueError(S: System, root: nat, rank: seq<nat>, field: Variable, e: Transition)
    requires Amenable(S, root, rank) && field.typ == IntType && e in WithUniqueError(S[root], field).edges
    ensures var main, error := WithUniqueError(S[root], field), S[root].numLocations;
            EdgeScoped(e, main.numLocations, VariablesOf(main)) && (e.Disconnected? || e.source != error)
            && CallFits(S, e) && (e.Call? ==> e.callee != root)
  {
    var c := S[root];
    var main := WithUniqueError(c, field);
    assert Vars(True()) == {} && Vars(False()) == {} && Vars(IntLit(0)) == {};
    hide Vars, Ranked, NeverCalls, WellTyped, TypeOf, TailRecursive;
    EdgeKind(c, field, e);
    if e in c.edges {
      ScopeGrows(e, c.numLocations, VariablesOf(c), main.numLocations, VariablesOf(main));
    }
    hide NewEdges;
  }

  lemma {:induction false} ReadyAfterUniqueError(S: System, root: nat, rank: seq<nat>, field: Variable)
    requires Amenable(S, root, rank) && field.typ == IntType
    ensures RootReady(S, root, WithUniqueError(S[root], field), S[root].numLocations, field)
  {
    var c, error := S[root], S[root].numLocations;
    var main := WithUniqueError(c, field);
    var ys := VariablesOf(main);
    assert main.errors[error] == VarRef(field) && Vars(VarRef(field)) == {field};
    assert IntCode(VarRef(field), ys);
    hide Vars, Ranked, NeverCalls, WellTyped, TypeOf, TailRecursive, EdgeScoped, CallFits;
    forall e | e in main.edges
      ensures EdgeScoped(e, main.numLocations, ys) && (e.Disconnected? || e.source != error) && CallFits(S, e) && (e.Call? ==> e.callee != root)
    {
      EdgeAfterUniqueError(S, root, rank, field, e);
    }
    forall l | l in main.errors && l != error ensures Assign(l, error, True(), [Assignment(field, main.errors[l])]) in main.edges {
      assert WireEdge(c, l, error, field) in WireEdges(c, c.numLocations, error, field);
    }
  }

  method AppendErrorEdges(ghost S: System, edges0: seq<Transition>, ghost calls: seq<nat>, ghost at: nat, c: Cfa, offset: nat, error: Loc, field: Variable)
    returns (edges: seq<Transition>)
    requires Listed(S, edges0, calls, at) && at < |edges0|
    ensures edges == edges0 + ErrorEdges(c, c.numLocations, offset, error, field) && Listed(S, edges, calls, at)
  {
    edges := edges0;
    for l := 0 to c.numLocations
      invariant edges == edges0 + ErrorEdges(c, l, offset, error, field) && Listed(S, edges, calls, at)
    {
      if l in c.errors {
        NewlyListed(S, edges, calls, at, ErrorEdge(c, l, offset, error, field));
        edges := edges + [ErrorEdge(c, l, offset, error, field)];
      }
    }
  }

  method MakeClone(e: Transition, c: Cfa, f: nat, ren: Renaming, temps: seq<Variable>, offset: nat) returns (e': Transition)
    requires |temps| == |c.inputs|
    ensures e' == CloneEdge(e, c, f, ren, temps, offset)
  {
    if SelfCall(e, f) {
      hide Renamed, Argument, TempArgs, InputArgs;
      var first := BuildTempArgs(e.inputs, c.inputs, temps, ren);
      var second := BuildInputArgs(c.inputs, temps, ren);
      e' := Assign(offset + e.source, offset + c.entry, e.guard, first + second);
    } else {
      e' := CloneEdge(e, c, f, ren, temps, offset);
    }
  }

  lemma {:induction false} PendingGrows(S: System, rank: seq<nat>, edges: seq<Transition>, list: seq<nat>, at: nat, e: Transition)
    requires Ranked(S, rank) && Listed(S, edges, list, at)
    ensures Pending(S, rank, edges + [e], list) == Pending(S, rank, edges, list)
    ensures CallsLoop(S, e) ==> (forall i | i in list + [|edges|] :: i < |edges + [e]| && CallsLoop(S, (edges + [e])[i]))
                                && Pending(S, rank, edges + [e], list + [|edges|]) == Pending(S, rank, edges, list) + Cost(S, rank, e.callee)
  {
    PendingStable(S, rank, edges, edges + [e], list);
    if CallsLoop(S, e) {
      assert (list + [|edges|])[..|list|] == list;
      assert forall i | i in list + [|edges|] :: i in list || i == |edges|;
    }
  }

  lemma {:induction false} CloneListed(S: System, rank: seq<nat>, edges: seq<Transition>, calls: seq<nat>, at: nat,
                                       f: nat, i: nat, ren: Renaming, temps: seq<Variable>, offset: nat, clone: Transition)
    requires Ranked(S, rank) && f < |S| && |temps| == |S[f].inputs| && Listed(S, edges, calls, at) && at < |edges| && i < |S[f].edges|
    requires clone == CloneEdge(S[f].edges[i], S[f], f, ren, temps, offset) && (S[f].edges[i].Call? ==> S[f].edges[i].callee < |S|)
    ensures clone.Call? ==> clone.callee < |S|
    ensures var calls' := if CallsLoop(S, clone) then calls + [|edges|] else calls;
            && Listed(S, edges + [clone], calls', at)
            && Pending(S, rank, edges + [clone], calls') == Pending(S, rank, edges, calls) + EdgeCosts(S, rank, f, i + 1) - EdgeCosts(S, rank, f, i)
  {
    hide RenameAssigns, RenameInputs, RenameOutputs, BackArgs, Renamed, TailRecursive;
    var e := S[f].edges[i];
    assert CallsLoop(S, clone) <==> e.Call? && e.callee != f && CallsLoop(S, e);
    NewlyListed(S, edges, calls, at, clone);
    PendingGrows(S, rank, edges, calls, at, clone);
  }

  lemma {:induction false} CloneNothing(S: System, rank: seq<nat>, f: nat, ren: Renaming, temps: seq<Variable>, offset: nat)
    requires Ranked(S, rank) && f < |S| && |temps| == |S[f].inputs|
    ensures CloneEdges([], S[f], f, ren, temps, offset) == [] && EdgeCosts(S, rank, f, 0) == 0
  {
  }

  lemma {:induction false} CloneEdgesStep(edges: seq<Transition>, i: nat, c: Cfa, f: nat, ren: Renaming, temps: seq<Variable>, offset: nat)
    requires i < |edges| && |temps| == |c.inputs|
    ensures CloneEdges(edges[..i + 1], c, f, ren, temps, offset)
            == CloneEdges(edges[..i], c, f, ren, temps, offset) + [CloneEdge(edges[i], c, f, ren, temps, offset)]
  {
    assert edges[..i + 1][..i] == edges[..i];
  }

  /** Clones one edge of the callee. */
  method AppendClone(S: System, ghost rank: seq<nat>, edges0: seq<Transition>, calls0: seq<nat>, ghost at: nat,
                     f: nat, i: nat, ren: Renaming, temps: seq<Variable>, offset: nat)
    returns (edges: seq<Transition>, calls: seq<nat>)
    requires Ranked(S, rank) && f < |S| && |temps| == |S[f].inputs| && Listed(S, edges0, calls0, at) && at < |edges0|
    requires i < |S[f].edges| && (S[f].edges[i].Call? ==> S[f].edges[i].callee < |S|)
    ensures edges == edges0 + [CloneEdge(S[f].edges[i], S[f], f, ren, temps, offset)] && Listed(S, edges, calls, at)
    ensures Pending(S, rank, edges, calls) == Pending(S, rank, edges0, calls0) + EdgeCosts(S, rank, f, i + 1) - EdgeCosts(S, rank, f, i)
  {
    hide CloneEdge, Pending, EdgeCosts, Ranked, TailRecursive, Cost;
    var clone := MakeClone(S[f].edges[i], S[f], f, ren, temps, offset);
    CloneListed(S, rank, edges0, calls0, at, f, i, ren, temps, offset, clone);
    edges, calls := edges0 + [clone], calls0;
    if clone.Call? {
      var tail := IsTailRecursive(S[clone.callee], clone.callee);
      if tail {
        calls := calls + [|edges0|];
      }
    }
  }

  /** Clones every edge of the callee; calls to other tail-recursive automata join the worklist. */
  method AppendClones(S: System, ghost rank: seq<nat>, edges0: seq<Transition>, calls0: seq<nat>, ghost at: nat,
                      f: nat, ren: Renaming, temps: seq<Variable>, offset: nat)
    returns (edges: seq<Transition>, calls: seq<nat>)
    requires Ranked(S, rank) && f < |S| && |temps| == |S[f].inputs| && Listed(S, edges0, calls0, at) && at < |edges0|
    requires forall e | e in S[f].edges && e.Call? :: e.callee < |S|
    ensures edges == edges0 + CloneEdges(S[f].edges, S[f], f, ren, temps, offset) && Listed(S, edges, calls, at)
    ensures Pending(S, rank, edges, calls) == Pending(S, rank, edges0, calls0) + EdgeCosts(S, rank, f, |S[f].edges|)
  {
    hide CloneEdge, CloneEdges, Pending, EdgeCosts, Ranked, TailRecursive, Cost;
    var c := S[f];
    edges, calls := edges0, calls0;
    CloneNothing(S, rank, f, ren, temps, offset);
    assert c.edges[..0] == [] && edges0 + [] == edges0;
    for i := 0 to |c.edges|
      invariant |edges| == |edges0| + i && edges == edges0 + CloneEdges(c.edges[..i], c, f, ren, temps, offset)
      invariant Listed(S, edges, calls, at)
      invariant Pending(S, rank, edges, calls) == Pending(S, rank, edges0, calls0) + EdgeCosts(S, rank, f, i)
    {
      assert c.edges[i] in c.edges;
      CloneEdgesStep(c.edges, i, c, f, ren, temps, offset);
      edges, calls := AppendClone(S, rank, edges, calls, at, f, i, ren, temps, offset);
    }
    assert c.edges[..|c.edges|] == c.edges;
  }

  /** What is known of a call edge of the root that is about to be inlined. */
  lemma {:induction false} CallFacts(S: System, root: nat, rank: seq<nat>, main: Cfa, error: Loc, field: Variable, at: nat)
    requires Amenable(S, root, rank) && RootReady(S, root, main, error, field) && at < |main.edges| && CallsLoop(S, main.edges[at])
    ensures root < |S| && Ranked(S, rank)
    ensures var call := main.edges[at]; var c := S[call.callee];
            && call.callee != root && NoDuplicates(c.locals) && NoDuplicates(c.inputs)
            && (forall x | x in c.inputs :: x !in c.outputs && x !in c.locals)
            && (forall e | e in c.edges && e.Call? :: e.callee < |S|)
            && Collects(call.outputs, c.outputs) && (forall a | a in call.outputs :: a.variable in VariablesOf(main))
  {
    var call := main.edges[at];
    assert call in main.edges;
    var c := S[call.callee];
    assert LoopShape(c, call.callee);
    assert EdgeScoped(call, main.numLocations, VariablesOf(main)) && CallFits(S, call);
    forall e | e in c.edges && e.Call? ensures e.callee < |S| { assert CallFits(S, e); }
  }

  /** The names an inlining uses come from the naming loops. */
  ghost predicate Named(S: System, main: Cfa, base: nat, next: nat, own: Renaming, I: Inlining)
    requires I.at < |main.edges| && CallsLoop(S, main.edges[I.at])
  {
    && NamesOf(S[main.edges[I.at].callee], main.edges[I.at].outputs, base, own, I.ren, I.temps, I.added, next)
    && forall x | x in VariablesOf(main) :: x.id < base
  }

  /** The inlining is one of the root `main` of the system `S`. */
  ghost predicate InliningOf(S: System, root: nat, rank: seq<nat>, main: Cfa, I: Inlining) {
    && Amenable(S, root, rank) && RootReady(S, root, main, I.error, I.field) && I.at < |main.edges| && CallsLoop(S, main.edges[I.at])
    && I.S == S[root := main] && I.root == root
  }

  lemma {:induction false} NamesAreFresh(S: System, root: nat, rank: seq<nat>, main: Cfa, base: nat, next: nat, own: Renaming, I: Inlining)
    requires InliningOf(S, root, rank, main, I) && Named(S, main, base, next, own, I)
    ensures I.InRange() && I.FreshNames()
  {
    hide Amenable, RootReady, TailRecursive, OutputVariable;
    var call := main.edges[I.at];
    var c := S[call.callee];
    CallFacts(S, root, rank, main, I.error, I.field, I.at);
    NamesFit(c, call.outputs, own, I.ren, I.temps, I.added, base, next);
    assert I.InRange();
    assert I.ren.Keys == VariablesOf(c);
    assert forall y | y in I.temps :: y in I.added;
  }

  lemma {:induction false} RootIsShaped(S: System, root: nat, rank: seq<nat>, main: Cfa, I: Inlining)
    requires InliningOf(S, root, rank, main, I) && I.InRange()
    ensures I.F() != root && NeverCalls(I.S, root) && I.RootShape() && LoopShape(I.Callee(), I.F())
    ensures Supplies(I.Edge().inputs, I.Callee().inputs) && Collects(I.Edge().outputs, I.Callee().outputs)
  {
    var call := main.edges[I.at];
    assert call in main.edges && CallFits(S, call) && LoopShape(S[call.callee], call.callee);
    hide LoopShape, EdgeScoped, Supplies, Collects;
  }

  lemma {:induction false} InliningIsValid(S: System, root: nat, rank: seq<nat>, main: Cfa, base: nat, next: nat, own: Renaming, I: Inlining)
    requires InliningOf(S, root, rank, main, I) && Named(S, main, base, next, own, I)
    ensures I.InRange() && I.Valid()
  {
    NamesAreFresh(S, root, rank, main, base, next, own, I);
    RootIsShaped(S, root, rank, main, I);
    hide InliningOf, Named, Inlining.FreshNames, Inlining.RootShape, LoopShape, NeverCalls, Supplies, Collects, Inlining.InRange;
  }

  /** Checking calls against the current system or against the original one makes no difference. */
  lemma FitsAgree(S: System, root: nat, main: Cfa, e: Transition)
    requires root < |S| && (e.Call? ==> e.callee != root)
    ensures CallFits(S[root := main], e) <==> CallFits(S, e)
  {
  }

  lemma {:induction false} ReadyAgrees(S: System, root: nat, main: Cfa, c: Cfa, error: Loc, field: Variable)
    requires root < |S|
    ensures RootReady(S[root := main], root, c, error, field) <==> RootReady(S, root, c, error, field)
  {
    forall e | e in c.edges && (e.Call? ==> e.callee != root) ensures CallFits(S[root := main], e) <==> CallFits(S, e) { FitsAgree(S, root, main, e); }
    hide CallFits, EdgeScoped, IntCode;
  }

  lemma {:induction false} CalleeFits(S: System, root: nat, rank: seq<nat>, main: Cfa, I: Inlining)
    requires InliningOf(S, root, rank, main, I) && I.InRange() && I.F() != root
    ensures forall e | e in I.Callee().edges :: CallFits(I.S, e)
  {
    forall e | e in I.Callee().edges ensures CallFits(I.S, e) {
      assert e in S[I.F()].edges;
      assert CallFits(S, e) && (e.Call? ==> e.callee != root);
      FitsAgree(S, root, main, e);
    }
  }

  /** Once the root is replaced by the inlined one, everything holds for the next call. */
  lemma {:induction false} ReadyAgain(S: System, root: nat, rank: seq<nat>, main: Cfa, base: nat, next: nat, own: Renaming, I: Inlining)
    requires InliningOf(S, root, rank, main, I) && Named(S, main, base, next, own, I) && I.InRange() && I.Valid()
    ensures RootReady(S, root, I.NewRoot(), I.error, I.field)
    ensures forall x | x in VariablesOf(I.NewRoot()) :: x.id < next
    ensures I.Result() == S[root := I.NewRoot()]
  {
    hide RootReady, InlinedEdges, Amenable, CallFits, TailRecursive;
    AmenableRoot(S, root, rank);
    ReadyAgrees(S, root, main, main, I.error, I.field);
    ReadyAgrees(S, root, main, I.NewRoot(), I.error, I.field);
    assert I.Root() == main && I.F() != root;
    CalleeFits(S, root, rank, main, I);
    StaysReady(I);
    forall x | x in VariablesOf(I.NewRoot()) ensures x.id < next {
      assert x in VariablesOf(main) || x in I.added;
    }
  }

  lemma {:induction false} InlinedEdgesAre(edges: seq<Transition>, at: nat, c: Cfa, ren: Renaming, temps: seq<Variable>, offset: nat, error: Loc, field: Variable, r: seq<Transition>)
    requires at < |edges| && edges[at].Call? && |temps| == |c.inputs|
    requires r == edges[at := Disconnected] + ErrorEdges(c, c.numLocations, offset, error, field)
                  + CloneEdges(c.edges, c, edges[at].callee, ren, temps, offset)
                  + [Assign(edges[at].source, offset + c.entry, edges[at].guard, EntryArgs(edges[at].inputs, c.inputs, ren)),
                     Assign(offset + c.exit, edges[at].target, True(), [])]
    ensures r == InlinedEdges(edges, at, c, ren, temps, offset, error, field)
  {
    hide ErrorEdges, CloneEdges, EntryArgs;
  }

  lemma {:induction false} RemovedLast(a: seq<Transition>, at: nat, b: seq<Transition>, c: seq<Transition>, d: seq<Transition>)
    requires at < |a|
    ensures (a + b + c + d)[at := Disconnected] == a[at := Disconnected] + b + c + d
  {
  }

  lemma {:induction false} PendingKept(S: System, rank: seq<nat>, edges: seq<Transition>, edges': seq<Transition>, calls: seq<nat>, at: nat)
    requires Ranked(S, rank) && Listed(S, edges, calls, at) && edges <= edges' && Listed(S, edges', calls, at)
    ensures Pending(S, rank, edges', calls) == Pending(S, rank, edges, calls)
  {
    PendingStable(S, rank, edges, edges', calls);
  }

  /** The entry and exit edges are no calls, and the inlined call is gone. */
  lemma {:induction false} Finish(S: System, rank: seq<nat>, edges: seq<Transition>, calls: seq<nat>, at: nat, entry: Transition, exit: Transition)
    requires Ranked(S, rank) && Listed(S, edges, calls, at) && at < |edges| && entry.Assign? && exit.Assign?
    ensures var edges' := (edges + [entry, exit])[at := Disconnected];
            Listed(S, edges', calls, -1) && Pending(S, rank, edges', calls) == Pending(S, rank, edges, calls)
  {
    var edges' := (edges + [entry, exit])[at := Disconnected];
    forall i | 0 <= i < |edges'| && CallsLoop(S, edges'[i]) ensures i in calls {
      assert i < |edges| && edges'[i] == edges[i];
    }
    PendingStable(S, rank, edges, edges', calls);
  }

  /** The edges of the root after inlining the call `at`, and the worklist that goes with them. */
  method BuildEdges(S: System, ghost rank: seq<nat>, edges0: seq<Transition>, calls0: seq<nat>, at: nat,
                    ren: Renaming, temps: seq<Variable>, offset: nat, error: Loc, field: Variable)
    returns (edges: seq<Transition>, calls: seq<nat>)
    requires Ranked(S, rank) && at < |edges0| && CallsLoop(S, edges0[at]) && Listed(S, edges0, calls0, at)
    requires |temps| == |S[edges0[at].callee].inputs| && forall e | e in S[edges0[at].callee].edges && e.Call? :: e.callee < |S|
    ensures edges == InlinedEdges(edges0, at, S[edges0[at].callee], ren, temps, offset, error, field)
    ensures Listed(S, edges, calls, -1)
    ensures Pending(S, rank, edges, calls) == Pending(S, rank, edges0, calls0) + Cost(S, rank, edges0[at].callee) - 1
  {
    hide TailRecursive, CloneEdges, ErrorEdges, EntryArgs, InlinedEdges;
    var call := edges0[at];
    var f := call.callee;
    var c := S[f];
    edges := AppendErrorEdges(S, edges0, calls0, at, c, offset, error, field);
    PendingKept(S, rank, edges0, edges, calls0, at);
    edges, calls := AppendClones(S, rank, edges, calls0, at, f, ren, temps, offset);
    var inputs := BuildEntryArgs(call.inputs, c.inputs, ren);
    var entry := Assign(call.source, offset + c.entry, call.guard, inputs);
    var exit := Assign(offset + c.exit, call.target, True(), []);
    Finish(S, rank, edges, calls, at, entry, exit);
    RemovedLast(edges0, at, ErrorEdges(c, c.numLocations, offset, error, field), CloneEdges(c.edges, c, f, ren, temps, offset), [entry, exit]);
    edges := (edges + [entry, exit])[at := Disconnected];
    InlinedEdgesAre(edges0, at, c, ren, temps, offset, error, field, edges);
  }

  /** `T` reports no code that `S` cannot report, and exactly the codes of `S` when its loops
      define their variables before use. */
  ghost predicate SameErrors(S: System, T: System, root: nat) {
    && (forall code :: CanFail(T, root, code) ==> CanFail(S, root, code))
    && (LoopsDefineBeforeUse(S) ==> forall code :: CanFail(S, root, code) ==> CanFail(T, root, code))
  }

  /** `T`'s root arrives nowhere among the locations of `S`'s root where that does not arrive with the
      same values, and exactly where it does when loops define their variables before use. */
  ghost predicate SameRuns(S: System, T: System, root: nat) {
    RunsAreReal(S, T, root) && (LoopsDefineBeforeUse(S) ==> RunsRemain(S, T, root))
  }

  lemma {:induction false} RunsWithGoalAdded(S: System, root: nat, rank: seq<nat>, field: Variable)
    requires Amenable(S, root, rank) && field.typ == IntType && field !in VariablesOf(S[root])
    ensures SameRuns(S, S[root := WithUniqueError(S[root], field)], root) && Grown(S[root], WithUniqueError(S[root], field))
  {
    var T, xs := S[root := WithUniqueError(S[root], field)], VariablesOf(S[root]);
    assert Extends(S, T, root, field) && T[root].entry == S[root].entry;
    forall y | y in xs ensures y in VariablesOf(WithUniqueError(S[root], field)) { }
    hide WithUniqueError, Extends, Leads, Amenable, Same;
    forall v, l: Loc, u | l < S[root].numLocations ensures Arrives(T, root, v, l, u, xs) <==> Arrives(S, root, v, l, u, xs) {
      if Arrives(T, root, v, l, u, xs) {
        var run, w := ArrivalOf(T, root, v, l, u, xs);
        RunsWithoutGoal(S, T, root, field, S[root].entry, v, run, l, w);
        Arrived(S, root, v, run, l, w, u, xs);
      }
      if Arrives(S, root, v, l, u, xs) {
        var run, w := ArrivalOf(S, root, v, l, u, xs);
        RunsWithGoal(S, T, root, field, S[root].entry, v, run, l, w);
        Arrived(T, root, v, run, l, w, u, xs);
      }
    }
  }

  lemma {:induction false} StillSameRuns(S: System, A: System, B: System, root: nat, rank: seq<nat>, I: Inlining)
    requires Amenable(S, root, rank) && SameRuns(S, A, root) && I.InRange() && I.Valid() && I.root == root && I.S == A && B == I.Result()
    requires |A| == |S| && (forall f | 0 <= f < |S| && f != root :: A[f] == S[f]) && CallsLoop(S, I.Edge()) && I.F() != root
    requires Grown(S[root], A[root]) && S[root].numLocations <= I.error
    ensures SameRuns(S, B, root)
  {
    hide InlinedEdges, Inlining.Valid, DefinedBeforeUse, TailRecursive, RunsAreReal, RunsRemain, Grown;
    StillReal(S, I);
    if LoopsDefineBeforeUse(S) {
      var D :| DefinedBeforeUse(S[I.F()], I.F(), D);
      StillRemain(S, I, D);
    }
  }

  lemma {:induction false} ClearedSameRuns(S: System, root: nat, rank: seq<nat>, main: Cfa, error: Loc, field: Variable)
    requires Amenable(S, root, rank) && RootReady(S, root, main, error, field) && SameRuns(S, S[root := main], root)
    ensures SameRuns(S, S[root := main.(edges := Live(main.edges))], root)
  {
    assert NeverCalls(S[root := main], root);
    hide RootReady, Amenable, Arrives, VariablesOf, NeverCalls, Live, LoopsDefineBeforeUse;
    var xs := VariablesOf(S[root]);
    var A, B := S[root := main], S[root := main.(edges := Live(main.edges))];
    forall v, l: Loc, u ensures Arrives(B, root, v, l, u, xs) <==> Arrives(A, root, v, l, u, xs) {
      ClearingKeepsRuns(S, root, main, v, l, u, xs);
    }
  }

  lemma {:induction false} GoalAdded(S: System, root: nat, rank: seq<nat>, field: Variable)
    requires Amenable(S, root, rank) && field.typ == IntType && field !in VariablesOf(S[root])
    ensures SameErrors(S, S[root := WithUniqueError(S[root], field)], root)
  {
    var T := S[root := WithUniqueError(S[root], field)];
    assert Extends(S, T, root, field);
    hide CanFail, WithUniqueError, Extends;
    forall code ensures CanFail(T, root, code) <==> CanFail(S, root, code) { UniqueErrorKeepsErrors(S, T, root, field, code); }
  }

  lemma {:induction false} PopListed(S: System, rank: seq<nat>, edges: seq<Transition>, list: seq<nat>)
    requires Ranked(S, rank) && Listed(S, edges, list, -1) && list != []
    ensures var at := list[|list| - 1]; var rest := list[..|list| - 1];
            && at < |edges| && CallsLoop(S, edges[at]) && Listed(S, edges, rest, at)
            && Pending(S, rank, edges, list) == Pending(S, rank, edges, rest) + Cost(S, rank, edges[at].callee)
  {
    hide Cost, TailRecursive;
    var n := |list| - 1;
    assert list[n] in list;
    assert forall i | i in list[..n] :: i in list;
    assert forall i | 0 <= i < n :: list[i] != list[n];
    forall i | 0 <= i < |edges| && i != list[n] && CallsLoop(S, edges[i]) ensures i in list[..n] {
      var k :| 0 <= k < |list| && list[k] == i;
      assert list[..n][k] == i;
    }
  }

  lemma {:induction false} StillSameErrors(S: System, A: System, B: System, root: nat, rank: seq<nat>, I: Inlining)
    requires Amenable(S, root, rank) && SameErrors(S, A, root) && I.InRange() && I.Valid() && I.root == root && I.S == A && B == I.Result()
    requires |A| == |S| && (forall f | 0 <= f < |S| && f != root :: A[f] == S[f]) && CallsLoop(S, I.Edge()) && I.F() != root
    ensures SameErrors(S, B, root)
  {
    hide CanFail, InlinedEdges, Inlining.Valid, DefinedBeforeUse, TailRecursive;
    forall code ensures CanFail(B, root, code) ==> CanFail(S, root, code) {
      if CanFail(B, root, code) { CyclicErrorsAreReal(I, code); }
    }
    if LoopsDefineBeforeUse(S) {
      var D :| DefinedBeforeUse(S[I.F()], I.F(), D);
      forall code ensures CanFail(S, root, code) ==> CanFail(B, root, code) { InliningKeepsErrors(I, D, code); }
    }
  }

  lemma {:induction false} NothingListed(S: System, edges: seq<Transition>)
    requires Listed(S, edges, [], -1)
    ensures forall e | e in edges :: !CallsLoop(S, e)
  {
    hide TailRecursive;
    forall e | e in edges ensures !CallsLoop(S, e) {
      var i :| 0 <= i < |edges| && edges[i] == e;
    }
  }

  lemma {:induction false} Cleared(S: System, root: nat, rank: seq<nat>, main: Cfa, error: Loc, field: Variable)
    requires Amenable(S, root, rank) && RootReady(S, root, main, error, field) && SameErrors(S, S[root := main], root)
    requires forall e | e in main.edges :: !CallsLoop(S, e)
    ensures var main' := main.(edges := Live(main.edges));
            && RootReady(S, root, main', error, field) && SameErrors(S, S[root := main'], root)
            && forall e | e in main'.edges :: !e.Disconnected? && !CallsLoop(S, e)
  {
    var main' := main.(edges := Live(main.edges));
    forall e ensures e in Live(main.edges) <==> e in main.edges && !e.Disconnected? { LiveMembers(main.edges, e); }
    assert NeverCalls(S[root := main], root);
    hide Live, CanFail, EdgeScoped, IntCode, CallFits, TailRecursive, Amenable;
    AmenableRoot(S, root, rank);
    var A, B := S[root := main], S[root := main'];
    forall code ensures CanFail(B, root, code) <==> CanFail(A, root, code) {
      ClearingKeepsErrors(S, root, main, code);
    }
  }

  lemma AmenableRoot(S: System, root: nat, rank: seq<nat>)
    requires Amenable(S, root, rank)
    ensures root < |S| && NeverCalls(S, root) && Ranked(S, rank) && forall l | l in S[root].errors :: l < S[root].numLocations
  {
  }

  /** Clearing leaves exactly the locations that its edges touch. */
  lemma {:induction false} EndsRemain(S: System, root: nat, last: Cfa, main: Cfa, error: Loc, field: Variable)
    requires RootReady(S, root, main, error, field) && main.edges == Live(last.edges)
    ensures forall l: Loc :: Touched(main.edges, l) <==> Touched(last.edges, l)
    ensures forall e | e in main.edges ::
              !e.Disconnected? && e.source < main.numLocations && e.target < main.numLocations && Touched(main.edges, e.source) && Touched(main.edges, e.target)
  {
    forall e ensures e in main.edges <==> e in last.edges && !e.Disconnected? { LiveMembers(last.edges, e); }
    hide Live;
  }

  /** What reaching the goal of the result says about the input. */
  lemma {:induction false} GoalOfResult(S: System, root: nat, main: Cfa, error: Loc, field: Variable)
    requires root < |S| && NeverCalls(S, root) && RootReady(S, root, main, error, field) && SameErrors(S, S[root := main], root)
    ensures var T := S[root := main];
            && (forall code :: GoalReached(T, root, error, field, code) ==> CanFail(S, root, code))
            && (LoopsDefineBeforeUse(S) ==> forall code :: CanFail(S, root, code) <==> GoalReached(T, root, error, field, code) || CalleeFails(T, root, code))
            && (LoopsDefineBeforeUse(S) ==> forall code | CalleesSucceed(S, main.edges, code) :: CanFail(S, root, code) <==> GoalReached(T, root, error, field, code))
  {
    var T := S[root := main];
    assert NeverCalls(T, root);
    hide RootReady, CanFail, GoalReached, CalleeFails, CalleesSucceed, LoopsDefineBeforeUse, NeverCalls;
    ReadyAgrees(S, root, main, main, error, field);
    forall code ensures CanFail(T, root, code) <==> GoalReached(T, root, error, field, code) || CalleeFails(T, root, code) {
      GoalIffFailure(T, root, error, field, code);
    }
    forall code | CalleesSucceed(S, main.edges, code) ensures !CalleeFails(T, root, code) {
      NoCalleeFails(S, root, main, code);
    }
  }

  lemma NoneListed(S: System, edges: seq<Transition>)
    ensures Listed(S, edges[..0], [], -1)
  {
  }

  lemma EdgeFits(S: System, root: nat, main: Cfa, error: Loc, field: Variable, e: Transition)
    requires RootReady(S, root, main, error, field) && e in main.edges
    ensures e.Call? ==> e.callee < |S|
  {
    assert CallFits(S, e);
  }

  lemma GrownTwice(a: Cfa, b: Cfa, c: Cfa)
    requires Grown(a, b) && Grown(b, c)
    ensures Grown(a, c)
  {
    hide VariablesOf;
  }

  /** Clearing leaves the root's own parts, and the edges into the unique error location. */
  lemma {:induction false} GoalRemains(c0: Cfa, last: Cfa, main: Cfa, error: Loc)
    requires Grown(c0, last) && main == last.(edges := Live(last.edges)) && exists e :: e in last.edges && e.Assign? && e.target == error
    ensures Grown(c0, main) && exists e :: e in main.edges && e.Assign? && e.target == error
  {
    var e :| e in last.edges && e.Assign? && e.target == error;
    LiveMembers(last.edges, e);
    assert VariablesOf(main) == VariablesOf(last);
    hide Live, VariablesOf;
  }

  /** What holds of the root once its calls are inlined still holds when it is cleared. */
  lemma {:induction false} Finished(S: System, root: nat, rank: seq<nat>, last: Cfa, main: Cfa, error: Loc, field: Variable)
    requires Amenable(S, root, rank) && RootReady(S, root, last, error, field) && Grown(S[root], last) && main == last.(edges := Live(last.edges))
    requires SameErrors(S, S[root := last], root) && SameRuns(S, S[root := last], root) && forall e | e in last.edges :: !CallsLoop(S, e)
    requires exists e :: e in last.edges && e.Assign? && e.target == error
    ensures RootReady(S, root, main, error, field) && Grown(S[root], main) && exists e :: e in main.edges && e.Assign? && e.target == error
    ensures SameErrors(S, S[root := main], root) && SameRuns(S, S[root := main], root)
    ensures forall e | e in main.edges :: !e.Disconnected? && !CallsLoop(S, e)
    ensures forall l: Loc :: Touched(main.edges, l) <==> Touched(last.edges, l)
    ensures forall e | e in main.edges ::
              !e.Disconnected? && e.source < main.numLocations && e.target < main.numLocations && Touched(main.edges, e.source) && Touched(main.edges, e.target)
    ensures var T := S[root := main];
            && (forall code :: GoalReached(T, root, error, field, code) ==> CanFail(S, root, code))
            && (LoopsDefineBeforeUse(S) ==> forall code :: CanFail(S, root, code) <==> GoalReached(T, root, error, field, code) || CalleeFails(T, root, code))
            && (LoopsDefineBeforeUse(S) ==> forall code | CalleesSucceed(S, main.edges, code) :: CanFail(S, root, code) <==> GoalReached(T, root, error, field, code))
  {
    hide RootReady, Amenable, CanFail, TailRecursive, Live, GoalReached, CalleeFails, CalleesSucceed, SameErrors, SameRuns, LoopsDefineBeforeUse, NeverCalls, Touched, Grown;
    AmenableRoot(S, root, rank);
    Cleared(S, root, rank, last, error, field);
    EndsRemain(S, root, last, main, error, field);
    ClearedSameRuns(S, root, rank, last, error, field);
    GoalRemains(S[root], last, main, error);
    GoalOfResult(S, root, main, error, field);
  }

  class Transformer {
    const automata: System
    const root: nat
    ghost const rank: seq<nat>
    var main: Cfa                  // the root, changed in place
    var calls: seq<nat>            // edges of the root that call tail-recursive automata
    var error: Loc
    var field: Variable
    var nextVariable: nat          // the context's supply of new variables
    var locations: seq<Loc>        // the locations of the root that clearing leaves

    ghost function Current(): System
      reads this
      requires root < |automata|
    {
      automata[root := main]
    }

    /** The unique error location comes after the root's own ones, and some edge ends there. */
    ghost predicate Attached()
      reads this
    {
      && root < |automata| && Grown(automata[root], main) && error == automata[root].numLocations
      && exists e :: e in main.edges && e.Assign? && e.target == error
    }

    ghost predicate Started()
      reads this
    {
      && Amenable(automata, root, rank) && RootReady(automata, root, main, error, field) && Attached()
      && (forall x | x in VariablesOf(main) :: x.id < nextVariable)
    }

    ghost predicate Valid()
      reads this
    {
      Started() && Listed(automata, main.edges, calls, -1)
    }

    constructor (automata: System, root: nat, ghost rank: seq<nat>, nextVariable: nat)
      requires Amenable(automata, root, rank) && forall x | x in VariablesOf(automata[root]) :: x.id < nextVariable
      ensures this.automata == automata && this.root == root && this.rank == rank && this.nextVariable == nextVariable
      ensures main == automata[root] && calls == []
    {
      this.automata, this.root, this.rank, this.nextVariable := automata, root, rank, nextVariable;
      main, calls, error, field, locations := automata[root], [], 0, Variable(0, IntType), [];
    }

    method AddUniqueErrorLocation()
      requires Amenable(automata, root, rank) && main == automata[root] && forall x | x in VariablesOf(main) :: x.id < nextVariable
      modifies this`main, this`error, this`field, this`nextVariable
      ensures Started() && field == Variable(old(nextVariable), IntType)
      ensures exists e :: e in main.edges && e.Assign? && e.target == error
      ensures main == WithUniqueError(automata[root], field) && error == automata[root].numLocations
    {
      hide RootReady, Amenable;
      AmenableRoot(automata, root, rank);
      var c := main;
      error, field, nextVariable := c.numLocations, Variable(nextVariable, IntType), nextVariable + 1;
      var edges := BuildGoalEdges(c, error, field);
      main := c.(numLocations := c.numLocations + 1, locals := c.locals + [field],
                 errors := c.errors[error := VarRef(field)], edges := c.edges + edges);
      ReadyAfterUniqueError(automata, root, rank, field);
      RunsWithGoalAdded(automata, root, rank, field);
      GoalIsAttached(c, field);
    }

    method CollectCalls()
      requires Started() && calls == []
      modifies this`calls
      ensures Valid()
    {
      hide Amenable, RootReady, TailRecursive, Listed;
      NoneListed(automata, main.edges);
      for i := 0 to |main.edges|
        invariant Listed(automata, main.edges[..i], calls, -1)
      {
        var edge := main.edges[i];
        EdgeFits(automata, root, main, error, field, edge);
        if edge.Call? {
          var tail := IsTailRecursive(automata[edge.callee], edge.callee);
          NewlyListed(automata, main.edges[..i], calls, -1, edge);
          if tail {
            calls := calls + [i];
          }
        } else {
          NewlyListed(automata, main.edges[..i], calls, -1, edge);
        }
        assert main.edges[..i + 1] == main.edges[..i] + [edge];
      }
      assert main.edges[..|main.edges|] == main.edges;
    }
  
    /** Replaces the call edge `at` by a copy of its callee with back-edges. */
    method InlineCallIntoRoot(at: nat) returns (ghost I: Inlining)
      requires Started() && at < |main.edges| && CallsLoop(automata, main.edges[at]) && Listed(automata, main.edges, calls, at)
      modifies this`main, this`calls, this`nextVariable
      ensures Valid() && I.InRange() && I.Valid() && I.root == root && I.S == old(Current()) && I.Result() == Current()
      ensures I.F() == old(main.edges[at].callee) && Grown(automata[root], I.Root()) && automata[root].numLocations <= I.error
      ensures Pending(automata, rank, main.edges, calls)
              < old(Pending(automata, rank, main.edges, calls)) + Cost(automata, rank, I.F())
    {
      hide RootReady, Amenable, TailRecursive, Inlining.Valid, InlinedEdges, Cost, Pending, NamesOf, Ranked;
      CallFacts(automata, root, rank, main, error, field, at);
      var f := main.edges[at].callee;
      var c := automata[f];
      ghost var own;
      var ren, temps, added, next;
      own, ren, temps, added, next := NameVariables(c, main.edges[at].outputs, nextVariable);
      I := Inlining(Current(), root, at, ren, temps, added, error, field);
      InliningIsValid(automata, root, rank, main, nextVariable, next, own, I);
      ReadyAgain(automata, root, rank, main, nextVariable, next, own, I);
      InliningGrows(I);
      GrownTwice(automata[root], main, I.NewRoot());
      var edges;
      edges, calls := BuildEdges(automata, rank, main.edges, calls, at, ren, temps, main.numLocations, error, field);
      main := main.(locals := main.locals + added, numLocations := main.numLocations + c.numLocations, edges := edges);
      nextVariable := next;
    }
  
    /** Erases locations without edges and disconnected edges. */
    method ClearDisconnectedElements()
      modifies this`main, this`locations
      ensures main == old(main).(edges := Live(old(main.edges)))
      ensures forall l: Loc :: l in locations <==> l < main.numLocations && Touched(old(main.edges), l)
      ensures forall i, j | 0 <= i < j < |locations| :: locations[i] < locations[j]
    {
      var remaining: seq<Loc> := [];
      for l := 0 to main.numLocations
        invariant forall k: Loc :: k in remaining <==> k < l && Touched(main.edges, k)
        invariant forall i, j | 0 <= i < j < |remaining| :: remaining[i] < remaining[j]
      {
        assert forall i | 0 <= i < |remaining| :: remaining[i] in remaining;
        if Touched(main.edges, l) {
          remaining := remaining + [l];
        }
      }
      var edges: seq<Transition> := [];
      for i := 0 to |main.edges|
        invariant edges == Live(main.edges[..i])
      {
        assert main.edges[..i + 1][..i] == main.edges[..i];
        if !main.edges[i].Disconnected? {
          edges := edges + [main.edges[i]];
        }
      }
      assert main.edges[..|main.edges|] == main.edges;
      main, locations := main.(edges := edges), remaining;
    }

    /** Takes the last call off the worklist and inlines it. */
    method InlineLast()
      requires Valid() && SameErrors(automata, Current(), root) && SameRuns(automata, Current(), root) && calls != []
      modifies this`main, this`calls, this`nextVariable
      ensures Valid() && SameErrors(automata, Current(), root) && SameRuns(automata, Current(), root)
      ensures Pending(automata, rank, main.edges, calls) < old(Pending(automata, rank, main.edges, calls))
    {
      hide RootReady, Amenable, TailRecursive, Pending, Cost, SameErrors, SameRuns, NeverCalls, Grown, InlinedEdges;
      AmenableRoot(automata, root, rank);
      var at := calls[|calls| - 1];
      PopListed(automata, rank, main.edges, calls);
      calls := calls[..|calls| - 1];
      ghost var before := Current();
      ghost var I := InlineCallIntoRoot(at);
      StillSameErrors(automata, before, Current(), root, rank, I);
      StillSameRuns(automata, before, Current(), root, rank, I);
    }

    /** Inlines calls until none to a tail-recursive automaton is left. */
    method Transform()
      requires Amenable(automata, root, rank) && main == automata[root] && calls == []
      requires forall x | x in VariablesOf(main) :: x.id < nextVariable
      modifies this
      ensures RootReady(automata, root, main, error, field)
      ensures forall e | e in main.edges :: !e.Disconnected? && !CallsLoop(automata, e)
      ensures SameErrors(automata, Current(), root)
      ensures Grown(automata[root], main) && error == automata[root].numLocations && error in locations
      ensures SameRuns(automata, Current(), root)
      ensures forall code :: GoalReached(Current(), root, error, field, code) ==> CanFail(automata, root, code)
      ensures LoopsDefineBeforeUse(automata) ==>
                forall code :: CanFail(automata, root, code) <==> GoalReached(Current(), root, error, field, code) || CalleeFails(Current(), root, code)
      ensures LoopsDefineBeforeUse(automata) ==>
                forall code | CalleesSucceed(automata, main.edges, code) :: CanFail(automata, root, code) <==> GoalReached(Current(), root, error, field, code)
      ensures forall l: Loc :: l in locations <==> l < main.numLocations && Touched(main.edges, l)
      ensures forall e | e in main.edges :: e.source in locations && e.target in locations
    {
      hide RootReady, Amenable, CanFail, WithUniqueError, TailRecursive, Pending, Cost, Live, GoalReached, CalleeFails, CalleesSucceed, SameErrors, SameRuns, LoopsDefineBeforeUse, NeverCalls, Touched, Grown;
      AmenableRoot(automata, root, rank);
      AddUniqueErrorLocation();
      GoalAdded(automata, root, rank, field);
      RunsWithGoalAdded(automata, root, rank, field);
      CollectCalls();
      while calls != []
        invariant Valid() && SameErrors(automata, Current(), root) && SameRuns(automata, Current(), root)
        decreases Pending(automata, rank, main.edges, calls)
      {
        InlineLast();
      }
      ghost var last := main;
      NothingListed(automata, main.edges);
      ClearDisconnectedElements();
      Finished(automata, root, rank, last, main, error, field);
    }
  }
}
