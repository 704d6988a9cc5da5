/** The pass that lifts error calls into the entry procedure
    (src/LLVM/Transform/LiftErrorsPass.cpp, `LiftErrorCalls`): finds the procedures that may fail,
    gives each one error block, copies them into the entry and lets failing calls jump there. */
module LiftErrors {
  import opened Exprs
  import opened ExprRewrite
  import opened Automata
  import opened AssignLists
  import opened TailInlining
  import opened UniqueError
  import opened ErrorLifting
  import opened CombinedErrors
  import opened LiftedRuns

  // ---- Finding procedures that may fail ----

  datatype FunctionInfo = FunctionInfo(selfFails: seq<Loc>, mayFailCalls: seq<Transition>) {
    predicate CanFail() { selfFails != [] || mayFailCalls != [] }
  }

  /** `order` visits callees before their callers; `rank` is its inverse. */
  ghost predicate BottomUp(S: System, order: seq<nat>, rank: seq<nat>) {
    && |order| == |S| && Acyclic(S, rank)
    && (forall i | 0 <= i < |order| :: order[i] < |S| && rank[order[i]] == i)
    && (forall f | 0 <= f < |S| :: rank[f] < |S| && order[rank[f]] == f)
  }

  /** The recorded error calls and failing calls are those of `f`. */
  ghost predicate Recorded(S: System, f: nat, info: FunctionInfo) {
    && f < |S| && info.selfFails == ErrorLocations(S[f], S[f].numLocations)
    && forall e :: e in info.mayFailCalls <==> e in S[f].edges && e.Call? && MayFail(S, e.callee)
  }

  lemma {:induction false} RecordedMayFail(S: System, f: nat, info: FunctionInfo)
    requires Recorded(S, f, info) && forall l | l in S[f].errors :: l < S[f].numLocations
    ensures info.CanFail() <==> MayFail(S, f)
  {
    hide MayFail;
    if info.selfFails != [] {
      assert info.selfFails[0] in S[f].errors;
      MayFailHere(S, f);
    }
    if info.mayFailCalls != [] {
      assert info.mayFailCalls[0] in info.mayFailCalls;
      MayFailThere(S, f, info.mayFailCalls[0]);
    }
    if MayFail(S, f) {
      MayFailBecause(S, f);
      if l :| l in S[f].errors { assert l in ErrorLocations(S[f], S[f].numLocations); }
      else { assert S[f].errors == map[]; }
    }
  }

  method FindMayFailCalls(S: System, f: nat, infos: map<nat, FunctionInfo>) returns (calls: seq<Transition>)
    requires f < |S|
    requires forall e | e in S[f].edges && e.Call? :: e.callee in infos && (infos[e.callee].CanFail() <==> MayFail(S, e.callee))
    ensures forall e :: e in calls <==> e in S[f].edges && e.Call? && MayFail(S, e.callee)
  {
    hide MayFail;
    calls := [];
    var edges := S[f].edges;
    for i := 0 to |edges|
      invariant forall e :: e in calls <==> e in edges[..i] && e.Call? && MayFail(S, e.callee)
    {
      assert edges[i] in edges && edges[..i + 1] == edges[..i] + [edges[i]];
      if edges[i].Call? && infos[edges[i].callee].CanFail() {
        calls := calls + [edges[i]];
      }
    }
    assert edges[..|edges|] == edges;
  }

  /** Bottom-up over the call graph, so that callees are known when a caller is looked at. */
  method FindFailures(S: System, order: seq<nat>, ghost rank: seq<nat>) returns (infos: map<nat, FunctionInfo>)
    requires BottomUp(S, order, rank) && forall f, l | 0 <= f < |S| && l in S[f].errors :: l < S[f].numLocations
    ensures forall f: nat :: f in infos <==> f < |S|
    ensures forall f | f in infos :: Recorded(S, f, infos[f]) && (infos[f].CanFail() <==> MayFail(S, f))
  {
    hide MayFail, ErrorLocations;
    infos := map[];
    for i := 0 to |order|
      invariant forall f :: f in infos <==> f in order[..i]
      invariant forall f | f in infos :: Recorded(S, f, infos[f]) && (infos[f].CanFail() <==> MayFail(S, f))
    {
      var f := order[i];
      var selfFails := FindErrors(S[f]);
      forall e | e in S[f].edges && e.Call? ensures e.callee in infos { assert order[..i][rank[e.callee]] == e.callee; }
      var calls := FindMayFailCalls(S, f, infos);
      RecordedMayFail(S, f, FunctionInfo(selfFails, calls));
      infos := infos[f := FunctionInfo(selfFails, calls)];
      assert order[..i + 1] == order[..i] + [f];
    }
    forall f | 0 <= f < |S| ensures f in infos { assert order[..|order|][rank[f]] == f; }
  }

  // ---- Names for the variables of a copy ----

  /** New names with ids from `base` up to `next`. */
  ghost predicate NewNames(ren: Renaming, base: nat, next: nat) {
    base <= next && ValidRenaming(ren) && forall y | y in ren.Values :: base <= y.id < next
  }

  method NameCopies(xs: seq<Variable>, base: nat) returns (ren: Renaming, next: nat)
    ensures NewNames(ren, base, next) && ren.Keys == set x | x in xs
  {
    ren, next := map[], base;
    for i := 0 to |xs|
      invariant NewNames(ren, base, next) && forall x :: x in ren <==> x in xs[..i]
    {
      if xs[i] !in ren {
        var y := Variable(next, xs[i].typ);
        assert y !in ren.Values;
        assert forall x | x in ren :: ren[x] in ren.Values && ren[x] != y;
        assert ren[xs[i] := y].Values == ren.Values + {y} by { ValuesGrow(ren, xs[i], y); }
        ren, next := ren[xs[i] := y], next + 1;
      }
    }
  }

  lemma ValuesGrow(ren: Renaming, x: Variable, y: Variable)
    requires x !in ren
    ensures ren[x := y].Values == ren.Values + {y}
  {
    var ren' := ren[x := y];
    forall z | z in ren.Values + {y} ensures z in ren'.Values {
      if z in ren.Values {
        var u :| u in ren && ren[u] == z;
        assert ren'[u] == z;
      } else {
        assert ren'[x] == z;
      }
    }
  }

  // ---- Copies of edges ----

  function CopyEdges(edges: seq<Transition>, ren: Renaming, base: nat): (r: seq<Transition>)
    ensures |r| == |edges| && forall i | 0 <= i < |r| :: r[i] == CopyEdge(edges[i], false, ren, base)
  {
    if edges == [] then [] else
      var n := |edges| - 1;
      CopyEdges(edges[..n], ren, base) + [CopyEdge(edges[n], false, ren, base)]
  }

  method CloneEdgesInto(edges: seq<Transition>, ren: Renaming, base: nat) returns (r: seq<Transition>)
    ensures r == CopyEdges(edges, ren, base)
  {
    hide CopyEdge;
    r := [];
    for i := 0 to |edges|
      invariant r == CopyEdges(edges[..i], ren, base)
    {
      assert edges[..i + 1][..i] == edges[..i];
      r := r + [CopyEdge(edges[i], false, ren, base)];
    }
    assert edges[..|edges|] == edges;
  }

  lemma {:induction false} CopiedMembers(edges: seq<Transition>, ren: Renaming, base: nat, e: Transition)
    ensures e in CopyEdges(edges, ren, base) <==> exists d :: d in edges && e == CopyEdge(d, false, ren, base)
  {
    hide CopyEdge, CopyEdges;
    var r := CopyEdges(edges, ren, base);
    if e in r {
      var i :| 0 <= i < |r| && r[i] == e;
      assert edges[i] in edges;
    }
    if d :| d in edges && e == CopyEdge(d, false, ren, base) {
      var i :| 0 <= i < |edges| && edges[i] == d;
      assert r[i] == e;
    }
  }

  /** The parameters of the callee's copy receive the arguments. */
  function ParameterArgs(args: seq<Assignment>, ren: Renaming): (r: seq<Assignment>)
    ensures |r| == |args| && forall i | 0 <= i < |r| :: r[i] == Assignment(Name(ren, args[i].variable), args[i].value)
  {
    if args == [] then [] else
      var n := |args| - 1;
      ParameterArgs(args[..n], ren) + [Assignment(Name(ren, args[n].variable), args[n].value)]
  }

  /** The failing branch beside a call that is already part of the entry. */
  function JumpBeside(call: Transition, ren: Renaming, target: Loc): Transition
    requires call.Call?
  {
    Assign(call.source, target, call.guard, ParameterArgs(call.inputs, ren))
  }

  lemma {:induction false} JumpIsBeside(e: Transition, own: bool, ren: Renaming, base: nat, ren': Renaming, target: Loc)
    requires e.Call? && (own ==> base == 0)
    ensures CopyEdge(e, own, ren, base).Call? && CopyEdge(e, own, ren, base).callee == e.callee
    ensures JumpBeside(CopyEdge(e, own, ren, base), ren', target) == JumpEdge(e, own, ren, base, ren', target)
  {
    hide Renamed, RenameOutputs, RenameInputs, ParameterArgs, JumpArgs;
    var call := CopyEdge(e, own, ren, base);
    assert |call.inputs| == |e.inputs|;
    forall i | 0 <= i < |e.inputs|
      ensures ParameterArgs(call.inputs, ren')[i] == JumpArgs(e.inputs, own, ren, ren')[i]
    {
    }
    assert ParameterArgs(call.inputs, ren') == JumpArgs(e.inputs, own, ren, ren');
  }

  method MakeJump(call: Transition, ren: Renaming, target: Loc) returns (e: Transition)
    requires call.Call?
    ensures e == JumpBeside(call, ren, target)
  {
    var args: seq<Assignment> := [];
    for i := 0 to |call.inputs|
      invariant args == ParameterArgs(call.inputs[..i], ren)
    {
      assert call.inputs[..i + 1][..i] == call.inputs[..i];
      args := args + [Assignment(Name(ren, call.inputs[i].variable), call.inputs[i].value)];
    }
    assert call.inputs[..|call.inputs|] == call.inputs;
    e := Assign(call.source, target, call.guard, args);
  }

  // ---- Programs the pass accepts ----

  ghost predicate Liftable(S: System, entry: nat, order: seq<nat>, rank: seq<nat>, t: Type, next: nat) {
    && entry < |S| && NeverCalls(S, entry) && BottomUp(S, order, rank)
    && (forall f | 0 <= f < |S| :: Sound(S, S[f], t) && forall x | x in VariablesOf(S[f]) :: x.id < next)
  }

  // ---- After combining ----

  lemma {:induction false} CombinedSound(S: System, T: System, phis: map<nat, Variable>, t: Type, f: nat)
    requires Combines(S, T, phis, t) && f < |S|
    ensures Sound(T, T[f], t)
  {
    KeepsEdges(S, T, phis, t, f);
    var c := T[f];
    assert Sound(S, S[f], t);
    forall e | e in c.edges ensures EdgeScoped(e, c.numLocations, VariablesOf(c)) && (e.Call? ==> Fitting(T, e)) {
      EdgesOf(S, T, phis, t, f, e);
      if e in S[f].edges {
        GrownScope(S, T, phis, t, f, e);
      } else {
        WireScope(S, T, phis, t, f, e);
      }
    }
    hide EdgeScoped, Fitting, WireEdges;
    forall l | l in c.errors ensures l < c.numLocations && CodeOf(c.errors[l], VariablesOf(c), t) {
      assert f in phis && Vars(VarRef(phis[f])) == {phis[f]};
      assert phis[f] in c.locals;
    }
  }

  lemma {:induction false} GrownScope(S: System, T: System, phis: map<nat, Variable>, t: Type, f: nat, e: Transition)
    requires Combines(S, T, phis, t) && f < |S| && e in S[f].edges && Sound(S, S[f], t)
    ensures EdgeScoped(e, T[f].numLocations, VariablesOf(T[f])) && (e.Call? ==> Fitting(T, e))
  {
    VariablesGrow(S, T, phis, t, f);
    assert EdgeScoped(e, S[f].numLocations, VariablesOf(S[f]));
    if e.Call? {
      VariablesGrow(S, T, phis, t, e.callee);
    }
    hide Combines, CodeOf, VariablesOf;
  }

  lemma {:induction false} VariablesGrow(S: System, T: System, phis: map<nat, Variable>, t: Type, f: nat)
    requires Combines(S, T, phis, t) && f < |S|
    ensures |T| == |S| && VariablesOf(T[f]) == VariablesOf(S[f]) + (if f in phis then {phis[f]} else {})
    ensures S[f].numLocations <= T[f].numLocations && (f in phis ==> T[f].numLocations == S[f].numLocations + 1)
  {
    hide WireEdges, Sound;
  }

  lemma {:induction false} WireScope(S: System, T: System, phis: map<nat, Variable>, t: Type, f: nat, e: Transition)
    requires Combines(S, T, phis, t) && f < |S| && Sound(S, S[f], t) && f in phis
    requires exists l :: l in S[f].errors && e == WireEdge(S[f], l, S[f].numLocations, phis[f])
    ensures EdgeScoped(e, T[f].numLocations, VariablesOf(T[f])) && !e.Call?
  {
    VariablesGrow(S, T, phis, t, f);
    hide Combines, VariablesOf, Fitting;
    assert Vars(True()) == {};
  }

  /** Calls of the combined program are those of the original. */
  lemma {:induction false} CombinedCalls(S: System, T: System, phis: map<nat, Variable>, t: Type, f: nat, e: Transition)
    requires Combines(S, T, phis, t) && f < |S| && e.Call?
    ensures |T| == |S| && (e in T[f].edges <==> e in S[f].edges)
  {
    SameSize(S, T, phis, t);
    KeepsEdges(S, T, phis, t, f);
    if e in T[f].edges {
      EdgesOf(S, T, phis, t, f, e);
    }
    hide Combines;
  }

  lemma {:induction false} CombinedGraph(S: System, T: System, phis: map<nat, Variable>, t: Type, entry: nat, rank: seq<nat>)
    requires Combines(S, T, phis, t) && NeverCalls(S, entry) && Acyclic(S, rank)
    ensures NeverCalls(T, entry) && Acyclic(T, rank)
  {
    SameSize(S, T, phis, t);
    hide Combines;
    forall f, e | 0 <= f < |T| && e in T[f].edges && e.Call? ensures e in S[f].edges { CombinedCalls(S, T, phis, t, f, e); }
  }

  /** Combining does not change which procedures may fail. */
  lemma {:induction false} CombinedMayFail(S: System, T: System, phis: map<nat, Variable>, t: Type, f: nat)
    requires Combines(S, T, phis, t) && (forall g :: g in phis <==> MayFail(S, g))
    ensures MayFail(T, f) <==> MayFail(S, f)
  {
    hide *;
    SameSize(S, T, phis, t);
    if MayFail(S, f) {
      MayFailBecause(S, f);
      KeepsEdges(S, T, phis, t, f);
      assert S[f].numLocations in T[f].errors;
      MayFailHere(T, f);
    }
    if MayFail(T, f) {
      var p := ChainOf(T, f);
      CombinedChain(S, T, phis, t, p);
    }
  }

  lemma ChainOf(S: System, f: nat) returns (p: seq<nat>)
    requires MayFail(S, f)
    ensures p != [] && p[|p| - 1] < |S| && CallChain(S, p) && p[0] == f && S[p[|p| - 1]].errors != map[]
  {
    p :| CallChain(S, p) && p[0] == f && S[p[|p| - 1]].errors != map[];
  }

  lemma {:induction false} CombinedChain(S: System, T: System, phis: map<nat, Variable>, t: Type, p: seq<nat>)
    requires Combines(S, T, phis, t) && (forall g :: g in phis <==> MayFail(S, g))
    requires CallChain(T, p) && T[p[|p| - 1]].errors != map[]
    ensures MayFail(S, p[0])
    decreases |p|
  {
    hide MayFail;
    SameSize(S, T, phis, t);
    KeepsEdges(S, T, phis, t, p[0]);
    if |p| > 1 {
      var q := p[1..];
      forall i | 0 <= i < |q| - 1 ensures Calls(T, q[i], q[i + 1]) { assert Calls(T, p[i + 1], p[i + 1 + 1]); }
      CombinedChain(S, T, phis, t, q);
      assert Calls(T, p[0], p[0 + 1]);
      var e :| e in T[p[0]].edges && e.Call? && e.callee == p[1];
      CombinedCalls(S, T, phis, t, p[0], e);
      MayFailThere(S, p[0], e);
    }
  }

  // ---- Placing copies in the entry ----

  /** `e'` is the copy, inside the entry, of a call of `f` that may fail. */
  ghost predicate FailingCall(L: Lift, f: nat, e: Transition, e': Transition)
    requires L.InRange()
  {
    f in L.base && e in L.S[f].edges && e.Call? && MayFail(L.S, e.callee) && e' == CopyEdge(e, f == L.entry, L.ren[f], L.base[f])
  }

  /** The entry holds the copies made so far, without jumps. */
  ghost predicate EdgesPlaced(L: Lift, edges: seq<Transition>)
    requires L.InRange()
  {
    && (forall o | L.IsOrigin(o) && !o.Jumped? :: L.EdgeOf(o) in edges)
    && (forall e | e in edges :: exists o :: L.IsOrigin(o) && !o.Jumped? && L.EdgeOf(o) == e)
  }

  ghost predicate CallsPlaced(L: Lift, calls: seq<Transition>)
    requires L.InRange()
  {
    && (forall f, e, e' | FailingCall(L, f, e, e') :: e' in calls)
    && (forall e' | e' in calls :: exists f, e :: FailingCall(L, f, e, e'))
  }

  ghost predicate NamesPlaced(L: Lift, size: nat, next: nat)
    requires L.InRange()
  {
    && L.NamesAreSeparate() && L.LocationsAreSeparate()
    && (forall g | g in L.base :: L.base[g] + L.S[g].numLocations <= size)
    && (forall g, y | g in L.base && y in L.ren[g].Values :: y.id < next)
  }

  function Identity(xs: set<Variable>): Renaming { map x | x in xs :: x }

  lemma {:induction false} StartPlacing(L: Lift, calls: seq<Transition>, next: nat)
    requires L.entry < |L.S| && L.base == map[L.entry := 0] && L.ren == map[L.entry := Identity(VariablesOf(L.S[L.entry]))]
    requires forall x | x in VariablesOf(L.S[L.entry]) :: x.id < next
    requires forall e :: e in calls <==> e in L.S[L.entry].edges && e.Call? && MayFail(L.S, e.callee)
    ensures L.InRange() && NamesPlaced(L, L.S[L.entry].numLocations, next) && EdgesPlaced(L, L.S[L.entry].edges) && CallsPlaced(L, calls)
  {
    hide MayFail, VariablesOf;
    assert L.InRange();
    forall e | e in L.S[L.entry].edges ensures exists o :: L.IsOrigin(o) && !o.Jumped? && L.EdgeOf(o) == e {
      assert L.IsOrigin(Copied(L.entry, e)) && L.EdgeOf(Copied(L.entry, e)) == e;
    }
    forall e' | e' in calls ensures exists f, e :: FailingCall(L, f, e, e') { assert FailingCall(L, L.entry, e', e'); }
  }

  /** `M` is `L` with a copy of `f` at `base`. */
  ghost predicate Adds(L: Lift, M: Lift, f: nat, ren: Renaming, base: nat) {
    L.InRange() && f < |L.S| && f !in L.base && M == L.(base := L.base[f := base], ren := L.ren[f := ren])
  }

  lemma AddsInRange(L: Lift, M: Lift, f: nat, ren: Renaming, base: nat)
    requires Adds(L, M, f, ren, base)
    ensures M.InRange() && M.S == L.S && M.entry == L.entry && f != L.entry
  {
  }

  lemma {:induction false} NamesAdded(L: Lift, M: Lift, f: nat, ren: Renaming, size: nat, next: nat, next': nat)
    requires Adds(L, M, f, ren, size) && NamesPlaced(L, size, next) && NewNames(ren, next, next') && ren.Keys == VariablesOf(L.S[f])
    ensures M.InRange() && NamesPlaced(M, size + L.S[f].numLocations, next')
  {
    AddsInRange(L, M, f, ren, size);
    LocationsAdded(L, M, f, ren, size, next);
    SeparateAgain(L, M, f, ren, size, next, next');
    hide Lift.LocationsAreSeparate, Lift.NamesAreSeparate, NewNames, Adds;
    forall g | g in M.base ensures forall y | y in M.ren[g].Values :: y.id < next' { NamesKept(L, M, f, ren, size, next, next', g); }
  }

  lemma {:induction false} NamesKept(L: Lift, M: Lift, f: nat, ren: Renaming, size: nat, next: nat, next': nat, g: nat)
    requires Adds(L, M, f, ren, size) && NamesPlaced(L, size, next) && NewNames(ren, next, next') && ren.Keys == VariablesOf(L.S[f])
    requires M.InRange() && g in M.base
    ensures ValidRenaming(M.ren[g]) && M.ren[g].Keys == VariablesOf(M.S[g]) && forall y | y in M.ren[g].Values :: y.id < next'
  {
    hide VariablesOf, Lift.LocationsAreSeparate, ValidRenaming;
    if g != f {
      assert g in L.base && M.ren[g] == L.ren[g];
    }
  }

  lemma {:induction false} SeparateAgain(L: Lift, M: Lift, f: nat, ren: Renaming, size: nat, next: nat, next': nat)
    requires Adds(L, M, f, ren, size) && NamesPlaced(L, size, next) && NewNames(ren, next, next') && ren.Keys == VariablesOf(L.S[f])
    ensures M.InRange() && M.NamesAreSeparate()
  {
    AddsInRange(L, M, f, ren, size);
    assert L.ren[L.entry] == M.ren[L.entry];
    assert forall x | x in M.ren[M.entry] :: M.ren[M.entry][x] == x;
    hide NamesPlaced, NewNames, Adds, ValidRenaming, VariablesOf;
    forall g, h | g in M.base && h in M.base && g != h ensures M.ren[g].Values !! M.ren[h].Values {
      StillApart(L, M, f, ren, size, next, next', g, h);
    }
    forall g | g in M.base ensures ValidRenaming(M.ren[g]) && M.ren[g].Keys == VariablesOf(M.S[g]) { NamesKept(L, M, f, ren, size, next, next', g); }
  }

  lemma {:induction false} StillApart(L: Lift, M: Lift, f: nat, ren: Renaming, size: nat, next: nat, next': nat, g: nat, h: nat)
    requires Adds(L, M, f, ren, size) && NamesPlaced(L, size, next) && NewNames(ren, next, next') && M.InRange()
    requires g in M.base && h in M.base && g != h
    ensures M.ren[g].Values !! M.ren[h].Values
  {
    hide ValidRenaming, VariablesOf, Lift.LocationsAreSeparate;
    if g != f && h != f {
      assert L.ren[g].Values !! L.ren[h].Values;
    } else {
      var other := if g == f then h else g;
      assert other in L.base && forall y | y in L.ren[other].Values :: y.id < next;
    }
  }

  lemma {:induction false} LocationsAdded(L: Lift, M: Lift, f: nat, ren: Renaming, size: nat, next: nat)
    requires Adds(L, M, f, ren, size) && NamesPlaced(L, size, next)
    ensures M.InRange() && M.LocationsAreSeparate()
    ensures forall g | g in M.base :: M.base[g] + M.S[g].numLocations <= size + L.S[f].numLocations
  {
    hide Lift.NamesAreSeparate;
    AddsInRange(L, M, f, ren, size);
    forall g, h, x | g in M.base && h in M.base && g != h && M.In(g, x) ensures !M.In(h, x) {
      if g != f && h != f {
        assert L.In(g, x);
      }
    }
  }

  lemma {:induction false} OriginKept(L: Lift, M: Lift, f: nat, ren: Renaming, base: nat, o: Origin)
    requires Adds(L, M, f, ren, base) && !o.Jumped? && M.InRange()
    ensures o.f != f ==> (L.IsOrigin(o) <==> M.IsOrigin(o))
    ensures L.IsOrigin(o) ==> o.f != f && L.EdgeOf(o) == M.EdgeOf(o)
  {
    hide Renamed, RenameAssigns, RenameInputs, RenameOutputs;
  }

  lemma {:induction false} EdgesAdded(L: Lift, M: Lift, f: nat, ren: Renaming, base: nat, edges: seq<Transition>, block: Loc, edges': seq<Transition>)
    requires Adds(L, M, f, ren, base) && EdgesPlaced(L, edges) && L.S[f].errors.Keys == {block}
    requires edges' == edges + CopyEdges(L.S[f].edges, ren, base)
                       + [Assign(base + block, L.error, True(), [Assignment(L.field, Renamed(L.S[f].errors[block], ren))])]
    ensures M.InRange() && EdgesPlaced(M, edges')
  {
    AddsInRange(L, M, f, ren, base);
    hide CopyEdge, CopyEdges, Renamed;
    var own := CopyEdges(L.S[f].edges, ren, base);
    var wire := Assign(base + block, L.error, True(), [Assignment(L.field, Renamed(L.S[f].errors[block], ren))]);
    assert block in L.S[f].errors && wire in edges';
    forall o | M.IsOrigin(o) && !o.Jumped? ensures M.EdgeOf(o) in edges' {
      OriginKept(L, M, f, ren, base, o);
      if o.f == f && o.Copied? {
        CopiedMembers(L.S[f].edges, ren, base, M.EdgeOf(o));
      }
    }
    forall e | e in edges' ensures exists o :: M.IsOrigin(o) && !o.Jumped? && M.EdgeOf(o) == e {
      if e in edges {
        var o :| L.IsOrigin(o) && !o.Jumped? && L.EdgeOf(o) == e;
        OriginKept(L, M, f, ren, base, o);
      } else if e in own {
        CopiedMembers(L.S[f].edges, ren, base, e);
        var d :| d in L.S[f].edges && e == CopyEdge(d, false, ren, base);
        assert M.IsOrigin(Copied(f, d)) && M.EdgeOf(Copied(f, d)) == e;
      } else {
        assert M.IsOrigin(Wired(f, block)) && M.EdgeOf(Wired(f, block)) == e;
      }
    }
  }

  lemma {:induction false} CallsAdded(L: Lift, M: Lift, f: nat, ren: Renaming, base: nat, calls: seq<Transition>, own: seq<Transition>, calls': seq<Transition>)
    requires Adds(L, M, f, ren, base) && CallsPlaced(L, calls) && calls' == calls + CopyEdges(own, ren, base)
    requires forall e :: e in own <==> e in L.S[f].edges && e.Call? && MayFail(L.S, e.callee)
    ensures M.InRange() && CallsPlaced(M, calls')
  {
    AddsInRange(L, M, f, ren, base);
    hide CopyEdge, CopyEdges, MayFail, FailingCall, Adds;
    forall g, e, e' | FailingCall(M, g, e, e') ensures e' in calls' {
      CallKept(L, M, f, ren, base, g, e, e');
      CopiedMembers(own, ren, base, e');
    }
    forall e' | e' in calls' ensures exists g, e :: FailingCall(M, g, e, e') {
      if e' in calls {
        var g, e :| FailingCall(L, g, e, e');
        CallKept(L, M, f, ren, base, g, e, e');
      } else {
        CopiedMembers(own, ren, base, e');
        var d :| d in own && e' == CopyEdge(d, false, ren, base);
        CallKept(L, M, f, ren, base, f, d, e');
      }
    }
  }

  lemma {:induction false} CallKept(L: Lift, M: Lift, f: nat, ren: Renaming, base: nat, g: nat, e: Transition, e': Transition)
    requires Adds(L, M, f, ren, base) && M.InRange()
    ensures FailingCall(L, g, e, e') ==> FailingCall(M, g, e, e')
    ensures FailingCall(M, g, e, e') && g != f ==> FailingCall(L, g, e, e')
    ensures FailingCall(M, f, e, e') <==> e in L.S[f].edges && e.Call? && MayFail(L.S, e.callee) && e' == CopyEdge(e, false, ren, base)
  {
    hide CopyEdge, MayFail;
  }

  // ---- Jumps ----

  /** The jump into the copy of the callee; calls without a copy get none. */
  function JumpFor(call: Transition, bases: map<nat, nat>, names: map<nat, Renaming>, S: System): Transition {
    if call.Call? && call.callee in bases && call.callee in names && call.callee < |S|
    then JumpBeside(call, names[call.callee], bases[call.callee] + S[call.callee].entry) else Disconnected
  }

  function Jumps(calls: seq<Transition>, bases: map<nat, nat>, names: map<nat, Renaming>, S: System): (r: seq<Transition>)
    ensures |r| == |calls| && forall i | 0 <= i < |r| :: r[i] == JumpFor(calls[i], bases, names, S)
  {
    if calls == [] then [] else
      var n := |calls| - 1;
      Jumps(calls[..n], bases, names, S) + [JumpFor(calls[n], bases, names, S)]
  }

  method AddJumps(edges0: seq<Transition>, calls: seq<Transition>, bases: map<nat, nat>, names: map<nat, Renaming>, S: System) returns (edges: seq<Transition>)
    requires forall e | e in calls :: e.Call? && e.callee in bases && e.callee in names && e.callee < |S|
    ensures edges == edges0 + Jumps(calls, bases, names, S)
  {
    hide JumpBeside;
    edges := edges0;
    for i := 0 to |calls|
      invariant edges == edges0 + Jumps(calls[..i], bases, names, S)
    {
      assert calls[i] in calls && calls[..i + 1][..i] == calls[..i];
      var e := MakeJump(calls[i], names[calls[i].callee], bases[calls[i].callee] + S[calls[i].callee].entry);
      edges := edges + [e];
    }
    assert calls[..|calls|] == calls;
  }

  /** A call on the list may fail, so its callee has a copy. */
  lemma {:induction false} ListedCalls(L: Lift, calls: seq<Transition>, e': Transition)
    requires L.InRange() && CallsPlaced(L, calls) && e' in calls && forall f :: f in L.base <==> MayFail(L.S, f)
    ensures e'.Call? && e'.callee in L.base && e'.callee in L.ren && e'.callee < |L.S|
  {
    var f, e :| FailingCall(L, f, e, e');
    hide MayFail, Renamed, RenameInputs, RenameOutputs;
  }

  lemma {:induction false} JumpEdgeBeside(L: Lift, f: nat, e: Transition)
    requires L.InRange() && L.base[L.entry] == 0 && L.IsOrigin(Jumped(f, e))
    ensures var e' := CopyEdge(e, f == L.entry, L.ren[f], L.base[f]);
            e'.Call? && e'.callee == e.callee && L.EdgeOf(Jumped(f, e)) == JumpBeside(e', L.ren[e.callee], L.base[e.callee] + L.S[e.callee].entry)
  {
    JumpIsBeside(e, f == L.entry, L.ren[f], L.base[f], L.ren[e.callee], L.base[e.callee] + L.S[e.callee].entry);
  }

  /** With the jumps added, the entry has exactly the edges of the lifted program. */
  lemma {:induction false} JumpsComplete(L: Lift, edges: seq<Transition>, calls: seq<Transition>, o: Origin)
    requires L.InRange() && L.base[L.entry] == 0 && EdgesPlaced(L, edges) && CallsPlaced(L, calls) && (forall f :: f in L.base <==> MayFail(L.S, f))
    requires (forall e | e in calls :: e.Call? && e.callee in L.base && e.callee in L.ren && e.callee < |L.S|) && L.IsOrigin(o)
    ensures L.EdgeOf(o) in edges + Jumps(calls, L.base, L.ren, L.S)
  {
    hide MayFail, Jumps, CopyEdge, JumpBeside, JumpEdge;
    if o.Jumped? {
      var e' := CopyEdge(o.edge, o.f == L.entry, L.ren[o.f], L.base[o.f]);
      assert FailingCall(L, o.f, o.edge, e');
      JumpEdgeBeside(L, o.f, o.edge);
      var i :| 0 <= i < |calls| && calls[i] == e';
      assert Jumps(calls, L.base, L.ren, L.S)[i] == L.EdgeOf(o);
    }
  }

  lemma {:induction false} JumpsSound(L: Lift, edges: seq<Transition>, calls: seq<Transition>, e: Transition) returns (o: Origin)
    requires L.InRange() && L.base[L.entry] == 0 && EdgesPlaced(L, edges) && CallsPlaced(L, calls) && (forall f :: f in L.base <==> MayFail(L.S, f))
    requires (forall e | e in calls :: e.Call? && e.callee in L.base && e.callee in L.ren && e.callee < |L.S|)
    requires e in edges + Jumps(calls, L.base, L.ren, L.S)
    ensures L.IsOrigin(o) && L.EdgeOf(o) == e
  {
    hide MayFail, Jumps, CopyEdge, JumpBeside, JumpEdge;
    if e in edges {
      o :| L.IsOrigin(o) && !o.Jumped? && L.EdgeOf(o) == e;
    } else {
      var r := Jumps(calls, L.base, L.ren, L.S);
      var i :| 0 <= i < |r| && r[i] == e;
      assert calls[i] in calls;
      var f, d :| FailingCall(L, f, d, calls[i]);
      o := Jumped(f, d);
      JumpEdgeBeside(L, f, d);
    }
  }

  // ---- The pass ----

  /** What combining leaves: error blocks exactly where a procedure may fail, fresh names. */
  ghost predicate Blocks(S: System, C: System, phis: map<nat, Variable>, blocks: map<nat, Loc>, t: Type, next: nat) {
    && Combines(S, C, phis, t) && (forall f :: f in phis <==> MayFail(S, f)) && blocks.Keys == phis.Keys
    && (forall f | f in blocks :: f < |S| && blocks[f] == S[f].numLocations)
    && (forall f, x | 0 <= f < |C| && x in VariablesOf(C[f]) :: x.id < next)
  }

  lemma {:induction false} BlocksFacts(S: System, C: System, phis: map<nat, Variable>, blocks: map<nat, Loc>, t: Type, next: nat, f: nat)
    requires Blocks(S, C, phis, blocks, t, next) && f in phis
    ensures |C| == |S| && f < |C| && f in blocks && C[f].errors == map[blocks[f] := VarRef(phis[f])] && MayFail(C, f) && phis[f].typ == t
    ensures blocks[f] < C[f].numLocations && phis[f] in VariablesOf(C[f])
    ensures forall e | e in C[f].edges :: e.Disconnected? || e.source != blocks[f]
  {
    hide MayFail;
    assert f < |S| && f in blocks;
    SameSize(S, C, phis, t);
    KeepsEdges(S, C, phis, t, f);
    VariablesGrow(S, C, phis, t, f);
    CombinedMayFail(S, C, phis, t, f);
    forall e | e in C[f].edges ensures e.Disconnected? || e.source != blocks[f] {
      if !e.Disconnected? { BlockIsFinal(S, C, phis, t, f, e); }
    }
    hide WithErrorBlock, Sound;
  }

  lemma {:induction false} LiftIsValid(S: System, C: System, phis: map<nat, Variable>, blocks: map<nat, Loc>, next: nat, order: seq<nat>, L: Lift, size: nat, next': nat)
    requires Liftable(S, L.entry, order, L.rank, L.field.typ, next) && Blocks(S, C, phis, blocks, L.field.typ, next')
    requires L.S == C && L.InRange() && L.base.Keys == phis.Keys && NamesPlaced(L, size, next')
    requires L.entry in phis && L.entry in blocks && L.error == blocks[L.entry] && L.field == phis[L.entry]
    ensures L.Valid()
  {
    hide *;
    var t := L.field.typ;
    LiftableFacts(S, L.entry, order, L.rank, t, next);
    BlocksCombine(S, C, phis, blocks, t, next');
    SameSize(S, C, phis, t);
    forall f: nat ensures f in L.base <==> MayFail(C, f) { CombinedMayFail(S, C, phis, t, f); }
    BlocksFacts(S, C, phis, blocks, t, next', L.entry);
    CombinedGraph(S, C, phis, t, L.entry, L.rank);
    forall f | 0 <= f < |C| ensures Sound(C, C[f], t) { CombinedSound(S, C, phis, t, f); }
    ValidLift(L, size, next');
  }

  lemma LiftableFacts(S: System, entry: nat, order: seq<nat>, rank: seq<nat>, t: Type, next: nat)
    requires Liftable(S, entry, order, rank, t, next)
    ensures entry < |S| && NeverCalls(S, entry) && Acyclic(S, rank) && BottomUp(S, order, rank)
    ensures forall f, l | 0 <= f < |S| && l in S[f].errors :: l < S[f].numLocations
  {
    hide Acyclic, NeverCalls;
  }

  lemma BlocksCombine(S: System, C: System, phis: map<nat, Variable>, blocks: map<nat, Loc>, t: Type, next: nat)
    requires Blocks(S, C, phis, blocks, t, next)
    ensures Combines(S, C, phis, t) && forall f :: f in phis <==> MayFail(S, f)
  {
    hide MayFail, Combines;
  }

  lemma {:induction false} ValidLift(L: Lift, size: nat, next: nat)
    requires L.InRange() && (forall f: nat :: f in L.base <==> MayFail(L.S, f)) && NamesPlaced(L, size, next)
    requires Acyclic(L.S, L.rank) && NeverCalls(L.S, L.entry) && (forall f | 0 <= f < |L.S| :: Sound(L.S, L.S[f], L.field.typ))
    requires L.S[L.entry].errors == map[L.error := VarRef(L.field)] && L.error < L.S[L.entry].numLocations && L.field in VariablesOf(L.S[L.entry])
    requires forall e | e in L.S[L.entry].edges :: e.Disconnected? || e.source != L.error
    ensures L.Valid() && L.base[L.entry] == 0
  {
    hide MayFail, Acyclic, NeverCalls, Sound, VariablesOf, Lift.NamesAreSeparate;
  }

  lemma {:induction false} FinishedLift(L: Lift, edges: seq<Transition>, calls: seq<Transition>, T: System)
    requires L.InRange() && L.base[L.entry] == 0 && EdgesPlaced(L, edges) && CallsPlaced(L, calls) && (forall f :: f in L.base <==> MayFail(L.S, f))
    requires forall e | e in calls :: e.Call? && e.callee in L.base && e.callee in L.ren && e.callee < |L.S|
    requires |T| == |L.S| && T[L.entry].entry == L.S[L.entry].entry && T[L.entry].exit == L.S[L.entry].exit && T[L.entry].errors == L.S[L.entry].errors
    requires T[L.entry].edges == edges + Jumps(calls, L.base, L.ren, L.S)
    requires forall g | 0 <= g < |L.S| && g != L.entry :: T[g] == L.S[g].(errors := map[])
    ensures L.LiftsTo(T)
  {
    hide MayFail, EdgesPlaced, CallsPlaced, Lift.EdgeOf, Jumps;
    forall o | L.IsOrigin(o) ensures L.EdgeOf(o) in T[L.entry].edges { JumpsComplete(L, edges, calls, o); }
    forall e | e in T[L.entry].edges ensures exists o :: L.IsOrigin(o) && L.EdgeOf(o) == e {
      var o := JumpsSound(L, edges, calls, e);
    }
  }

  /** The procedures before `n` are combined. */
  ghost predicate Combining(S: System, C: System, phis: map<nat, Variable>, blocks: map<nat, Loc>, t: Type, next: nat, n: nat) {
    && |C| == |S| && phis.Keys == blocks.Keys && n <= |S|
    && (forall g: nat :: g in phis <==> g < n && MayFail(S, g))
    && (forall g | g in phis :: C[g] == WithErrorBlock(S[g], phis[g]) && phis[g].typ == t && phis[g].id < next && blocks[g] == S[g].numLocations)
    && (forall g | 0 <= g < |S| && g !in phis :: C[g] == S[g])
  }

  lemma CombineNothing(S: System, t: Type, next: nat)
    ensures Combining(S, S, map[], map[], t, next, 0)
  {
  }

  lemma {:induction false} CombineNext(S: System, C: System, phis: map<nat, Variable>, blocks: map<nat, Loc>, t: Type, next: nat, n: nat)
    requires Combining(S, C, phis, blocks, t, next, n) && n < |S|
    ensures C[n] == S[n] && n !in phis
    ensures !MayFail(S, n) ==> Combining(S, C, phis, blocks, t, next, n + 1)
    ensures var phi := Variable(next, t);
            MayFail(S, n) ==> Combining(S, C[n := WithErrorBlock(C[n], phi)], phis[n := phi], blocks[n := C[n].numLocations], t, next + 1, n + 1)
  {
    hide MayFail, WithErrorBlock;
  }

  lemma {:induction false} CombineDone(S: System, C: System, phis: map<nat, Variable>, blocks: map<nat, Loc>, t: Type, next: nat,
                                       entry: nat, order: seq<nat>, rank: seq<nat>, next0: nat)
    requires Combining(S, C, phis, blocks, t, next, |S|) && Liftable(S, entry, order, rank, t, next0) && next0 <= next
    ensures Blocks(S, C, phis, blocks, t, next)
  {
    hide MayFail, WithErrorBlock, BottomUp, NeverCalls, Sound;
    forall g | 0 <= g < |S| && g !in phis ensures S[g].errors == map[] {
      if S[g].errors != map[] { MayFailHere(S, g); }
    }
    forall g | MayFail(S, g) ensures g in phis { MayFailBecause(S, g); }
    assert Combines(S, C, phis, t);
    forall f, x | 0 <= f < |C| && x in VariablesOf(C[f]) ensures x.id < next {
      VariablesGrow(S, C, phis, t, f);
    }
  }

  /** The procedures before `n` that may fail are copied and have lost their errors. */
  ghost predicate Copying(C: System, T: System, phis: map<nat, Variable>, copied: set<nat>, entry: nat, n: nat) {
    && |T| == |C| && n <= |C| && (forall g: nat :: g in copied <==> g == entry || (g in phis && g < n))
    && forall g | 0 <= g < |C| && g != entry :: T[g] == if g in phis && g < n then C[g].(errors := map[]) else C[g]
  }

  lemma CopyNothing(C: System, phis: map<nat, Variable>, entry: nat)
    ensures Copying(C, C, phis, {entry}, entry, 0)
  {
  }

  lemma CopyNext(C: System, T: System, phis: map<nat, Variable>, copied: set<nat>, entry: nat, n: nat)
    requires Copying(C, T, phis, copied, entry, n) && n < |C|
    ensures n != entry ==> T[n] == C[n] && n !in copied
    ensures n == entry || n !in phis ==> Copying(C, T, phis, copied, entry, n + 1)
  {
  }

  lemma CopyStep(C: System, T: System, T': System, phis: map<nat, Variable>, copied: set<nat>, copied': set<nat>, entry: nat, n: nat)
    requires Copying(C, T, phis, copied, entry, n) && n < |C| && n in phis && n != entry && |T'| == |C|
    requires copied' == copied + {n} && T'[n] == C[n].(errors := map[]) && forall g | 0 <= g < |C| && g != n && g != entry :: T'[g] == T[g]
    ensures Copying(C, T', phis, copied', entry, n + 1)
  {
  }

  lemma CopyDone(C: System, T: System, phis: map<nat, Variable>, copied: set<nat>, entry: nat)
    requires Copying(C, T, phis, copied, entry, |C|) && (forall g | g in phis :: g < |C|) && entry in phis
    requires forall g | 0 <= g < |C| && g !in phis :: C[g].errors == map[]
    ensures copied == phis.Keys && forall g | 0 <= g < |C| && g != entry :: T[g] == C[g].(errors := map[])
  {
  }

  lemma UnfoldRecorded(S: System, f: nat, info: FunctionInfo)
    requires Recorded(S, f, info)
    ensures f < |S| && info.selfFails == ErrorLocations(S[f], S[f].numLocations)
  {
  }

  class LiftErrorCalls {
    const entry: nat
    const codeType: Type
    ghost const rank: seq<nat>           // position of each procedure in the bottom-up order
    var system: System                   // the module, changed in place
    var infos: map<nat, FunctionInfo>
    var phis: map<nat, Variable>         // variable of each error block
    var blocks: map<nat, Loc>            // the error block of each procedure that may fail
    var bases: map<nat, nat>             // where each copy starts in the entry
    var names: map<nat, Renaming>        // names of the copied variables
    var calls: seq<Transition>           // calls of the entry that may fail
    var nextVariable: nat

    constructor (system: System, entry: nat, codeType: Type, ghost rank: seq<nat>, nextVariable: nat)
      ensures this.system == system && this.entry == entry && this.codeType == codeType && this.rank == rank && this.nextVariable == nextVariable
    {
      this.system, this.entry, this.codeType, this.rank, this.nextVariable := system, entry, codeType, rank, nextVariable;
      infos, phis, blocks, bases, names, calls := map[], map[], map[], map[], map[], [];
    }

    method CombineErrorsInFunction(f: nat)
      requires f < |system| && f in infos && infos[f].selfFails == ErrorLocations(system[f], system[f].numLocations)
      modifies this`system, this`phis, this`blocks, this`nextVariable
      ensures nextVariable == old(nextVariable) + 1 && phis == old(phis)[f := Variable(old(nextVariable), codeType)]
      ensures blocks == old(blocks)[f := old(system[f]).numLocations]
      ensures system == old(system)[f := WithErrorBlock(old(system[f]), phis[f])]
    {
      var c := system[f];
      var block, phi := c.numLocations, Variable(nextVariable, codeType);
      var edges := WireErrors(c, infos[f].selfFails, block, phi);
      WiresAreEdges(c, c.numLocations, block, phi);
      c := c.(numLocations := block + 1, locals := c.locals + [phi], errors := map[block := VarRef(phi)], edges := c.edges + edges);
      system, phis, blocks, nextVariable := system[f := c], phis[f := phi], blocks[f := block], nextVariable + 1;
    }

    method CombineErrors(ghost order: seq<nat>)
      requires Liftable(system, entry, order, rank, codeType, nextVariable)
      requires forall f: nat :: f in infos <==> f < |system|
      requires forall f | f in infos :: Recorded(system, f, infos[f]) && (infos[f].CanFail() <==> MayFail(system, f))
      modifies this`system, this`phis, this`blocks, this`nextVariable
      ensures Blocks(old(system), system, phis, blocks, codeType, nextVariable)
    {
      hide *;
      ghost var S := system;
      phis, blocks := map[], map[];
      CombineNothing(S, codeType, nextVariable);
      for f := 0 to |system|
        invariant old(nextVariable) <= nextVariable && |system| == |S| && Combining(S, system, phis, blocks, codeType, nextVariable, f)
      {
        UnfoldRecorded(S, f, infos[f]);
        CombineNext(S, system, phis, blocks, codeType, nextVariable, f);
        if infos[f].CanFail() {
          CombineErrorsInFunction(f);
        }
      }
      CombineDone(S, system, phis, blocks, codeType, nextVariable, entry, order, rank, old(nextVariable));
    }

    /** The copies made so far, as the theory sees them; `C` is the program after combining. */
    ghost function Copies(C: System): Lift
      reads this
      requires entry in blocks && entry in phis
    {
      Lift(C, entry, rank, blocks[entry], phis[entry], bases, names)
    }

    ghost predicate Placed(C: System)
      reads this
    {
      && entry in blocks && entry in phis && Copies(C).InRange() && |system| == |C|
      && system[entry].entry == C[entry].entry && system[entry].exit == C[entry].exit && system[entry].errors == C[entry].errors
      && NamesPlaced(Copies(C), system[entry].numLocations, nextVariable)
      && EdgesPlaced(Copies(C), system[entry].edges) && CallsPlaced(Copies(C), calls)
    }

    /** Copies the body of `f` into the entry and takes the error away from `f` itself. */
    method CopyIntoEntry(f: nat, ghost C: System)
      requires Placed(C) && f < |C| && f !in bases && f in blocks && f in infos && system[f] == C[f] && C[f].errors.Keys == {blocks[f]}
      requires forall e :: e in infos[f].mayFailCalls <==> e in C[f].edges && e.Call? && MayFail(C, e.callee)
      modifies this`system, this`bases, this`names, this`calls, this`nextVariable
      ensures Placed(C) && bases.Keys == old(bases.Keys) + {f} && nextVariable >= old(nextVariable)
      ensures system[f] == C[f].(errors := map[])
      ensures forall g | 0 <= g < |C| && g != f && g != entry :: system[g] == old(system[g])
    {
      hide MayFail, NamesPlaced, EdgesPlaced, CallsPlaced, NewNames, CopyEdges, Renamed;
      var c, main := system[f], system[entry];
      ghost var L := Copies(C);
      var ren, next := NameCopies(c.inputs + c.outputs + c.locals, nextVariable);
      assert ren.Keys == VariablesOf(c);
      var base := main.numLocations;
      var copies := CloneEdgesInto(c.edges, ren, base);
      assert blocks[f] in c.errors;
      var wire := Assign(base + blocks[f], blocks[entry], True(), [Assignment(phis[entry], Renamed(c.errors[blocks[f]], ren))]);
      var own := CloneEdgesInto(infos[f].mayFailCalls, ren, base);
      ghost var M := L.(base := L.base[f := base], ren := L.ren[f := ren]);
      assert Adds(L, M, f, ren, base);
      NamesAdded(L, M, f, ren, base, nextVariable, next);
      EdgesAdded(L, M, f, ren, base, main.edges, blocks[f], main.edges + copies + [wire]);
      CallsAdded(L, M, f, ren, base, calls, infos[f].mayFailCalls, calls + own);
      NewNamesGrow(ren, nextVariable, next);
      AddsInRange(L, M, f, ren, base);
      main := main.(numLocations := base + c.numLocations, edges := main.edges + copies + [wire]);
      system := system[entry := main][f := c.(errors := map[])];
      bases, names, calls, nextVariable := bases[f := base], names[f := ren], calls + own, next;
      assert Copies(C) == M;
    }

    /** Copies the body of every other procedure that may fail. */
    method CopyBodies(ghost S: System, ghost C: System)
      requires system == C && entry in phis && Blocks(S, C, phis, blocks, codeType, nextVariable)
      requires forall f: nat :: f in infos <==> f < |C|
      requires forall f | f in infos :: Recorded(S, f, infos[f]) && (infos[f].CanFail() <==> MayFail(S, f))
      modifies this`system, this`bases, this`names, this`calls, this`nextVariable
      ensures Placed(C) && bases.Keys == phis.Keys && nextVariable >= old(nextVariable)
      ensures forall g | 0 <= g < |C| && g != entry :: system[g] == C[g].(errors := map[])
    {
      hide MayFail, NamesPlaced, EdgesPlaced, CallsPlaced, Recorded, Blocks, Copying, Lift.InRange, VariablesOf;
      BlocksFacts(S, C, phis, blocks, codeType, nextVariable, entry);
      StartFacts(S, C, phis, blocks, codeType, nextVariable, entry, infos[entry]);
      bases, names, calls := map[entry := 0], map[entry := Identity(VariablesOf(system[entry]))], infos[entry].mayFailCalls;
      StartPlacing(Copies(C), calls, nextVariable);
      CopyNothing(C, phis, entry);
      assert bases.Keys == {entry};
      for f := 0 to |system|
        invariant Placed(C) && nextVariable >= old(nextVariable)
        invariant Copying(C, system, phis, bases.Keys, entry, f)
      {
        FailsIff(S, C, phis, blocks, codeType, old(nextVariable), f, infos[f]);
        CopyNext(C, system, phis, bases.Keys, entry, f);
        if f != entry && infos[f].CanFail() {
          BlocksFacts(S, C, phis, blocks, codeType, old(nextVariable), f);
          StartFacts(S, C, phis, blocks, codeType, old(nextVariable), f, infos[f]);
          ghost var before, copied := system, bases.Keys;
          CopyIntoEntry(f, C);
          CopyStep(C, before, system, phis, copied, bases.Keys, entry, f);
        }
      }
      forall g | 0 <= g < |C| && g !in phis ensures C[g].errors == map[] {
        FailsIff(S, C, phis, blocks, codeType, old(nextVariable), g, infos[g]);
      }
      InPhis(S, C, phis, blocks, codeType, old(nextVariable));
      CopyDone(C, system, phis, bases.Keys, entry);
    }

    /** Lifts every error into the entry; nothing changes when the entry cannot fail. */
    method Run(order: seq<nat>) returns (changed: bool)
      requires Liftable(system, entry, order, rank, codeType, nextVariable)
      modifies this
      ensures |system| == |old(system)| && (changed <==> MayFail(old(system), entry))
      ensures !changed ==> system == old(system)
      ensures changed ==> (exists l, x :: system[entry].errors == map[l := VarRef(x)]) && forall g | 0 <= g < |system| && g != entry :: system[g].errors == map[]
      ensures forall code :: CanFail(system, entry, code) <==> CanFail(old(system), entry, code)
      ensures !changed ==> forall code :: !CanFail(system, entry, code)
      ensures SameProcedures(old(system), system)
    {
      hide MayFail, CanFail, Combines, Blocks, Liftable, NamesPlaced, EdgesPlaced, CallsPlaced, Recorded, Lift.Valid, Lift.LiftsTo, Jumps, BottomUp, Leads;
      ghost var S, next0 := system, nextVariable;
      LiftableFacts(S, entry, order, rank, codeType, next0);
      infos := FindFailures(system, order, rank);
      if !infos[entry].CanFail() {
        forall code ensures !CanFail(S, entry, code) { CannotFail(S, entry, code); }
        return false;
      }
      CombineErrors(order);
      ghost var C, next1 := system, nextVariable;
      BlocksCombine(S, C, phis, blocks, codeType, next1);
      SameSize(S, C, phis, codeType);
      BlocksFacts(S, C, phis, blocks, codeType, next1, entry);
      CopyBodies(S, C);
      ghost var L := Copies(C);
      BlocksGrow(S, C, phis, blocks, codeType, next1, nextVariable);
      LiftIsValid(S, C, phis, blocks, next0, order, L, system[entry].numLocations, nextVariable);
      CopiedExactly(L);
      forall e | e in calls ensures e.Call? && e.callee in bases && e.callee in names && e.callee < |system| { ListedCalls(L, calls, e); }
      var main := system[entry];
      var edges := AddJumps(main.edges, calls, bases, names, system);
      JumpsAgree(calls, bases, names, C, system);
      system := system[entry := main.(edges := edges)];
      FinishedLift(L, main.edges, calls, system);
      forall code ensures CanFail(system, entry, code) <==> CanFail(S, entry, code) {
        LiftingKeepsErrors(L, system, code);
        CombiningKeepsErrors(S, C, phis, codeType, entry, code);
      }
      BlockPlace(S, C, phis, blocks, codeType, next1, entry);
      PassKeepsRuns(S, phis, codeType, L, system);
      changed := true;
    }
  }

  lemma BlockPlace(S: System, C: System, phis: map<nat, Variable>, blocks: map<nat, Loc>, t: Type, next: nat, f: nat)
    requires Blocks(S, C, phis, blocks, t, next) && f in blocks
    ensures f < |S| && blocks[f] == S[f].numLocations
  {
    hide MayFail, Combines, VariablesOf;
  }

  lemma CopiedExactly(L: Lift)
    requires L.InRange() && L.Valid()
    ensures L.base[L.entry] == 0 && forall f :: f in L.base <==> MayFail(L.S, f)
  {
    hide MayFail;
  }

  lemma BlocksGrow(S: System, C: System, phis: map<nat, Variable>, blocks: map<nat, Loc>, t: Type, next: nat, next': nat)
    requires Blocks(S, C, phis, blocks, t, next) && next <= next'
    ensures Blocks(S, C, phis, blocks, t, next')
  {
    hide MayFail, Combines, VariablesOf;
  }

  lemma {:induction false} StartFacts(S: System, C: System, phis: map<nat, Variable>, blocks: map<nat, Loc>, t: Type, next: nat, f: nat, info: FunctionInfo)
    requires Blocks(S, C, phis, blocks, t, next) && f in phis && Recorded(S, f, info) && f < |C|
    ensures forall e :: e in info.mayFailCalls <==> e in C[f].edges && e.Call? && MayFail(C, e.callee)
    ensures forall x | x in VariablesOf(C[f]) :: x.id < next
  {
    hide MayFail, ErrorLocations;
    forall e ensures e in info.mayFailCalls <==> e in C[f].edges && e.Call? && MayFail(C, e.callee) {
      if e.Call? {
        CombinedCalls(S, C, phis, t, f, e);
        CombinedMayFail(S, C, phis, t, e.callee);
      }
    }
  }

  lemma {:induction false} FailsIff(S: System, C: System, phis: map<nat, Variable>, blocks: map<nat, Loc>, t: Type, next: nat, f: nat, info: FunctionInfo)
    requires Blocks(S, C, phis, blocks, t, next) && f < |C| && (info.CanFail() <==> MayFail(S, f))
    ensures (info.CanFail() <==> f in phis) && (f !in phis ==> C[f].errors == map[])
  {
    hide MayFail, WithErrorBlock, Sound;
  }

  lemma InPhis(S: System, C: System, phis: map<nat, Variable>, blocks: map<nat, Loc>, t: Type, next: nat)
    requires Blocks(S, C, phis, blocks, t, next)
    ensures forall f | f in phis :: f < |C|
  {
    hide MayFail, WithErrorBlock, Sound;
    SameSize(S, C, phis, t);
  }

  lemma {:induction false} JumpsAgree(calls: seq<Transition>, bases: map<nat, nat>, names: map<nat, Renaming>, S: System, T: System)
    requires |S| == |T| && forall g | 0 <= g < |S| :: S[g].entry == T[g].entry
    ensures Jumps(calls, bases, names, S) == Jumps(calls, bases, names, T)
  {
    hide JumpBeside, Jumps;
  }

  lemma NewNamesGrow(ren: Renaming, base: nat, next: nat)
    requires NewNames(ren, base, next)
    ensures base <= next
  {
  }

  lemma {:induction false} CannotFail(S: System, entry: nat, code: Value)
    requires !MayFail(S, entry)
    ensures !CanFail(S, entry, code)
  {
    hide MayFail, CanFail, Fails;
    StackIffDerivation(S, entry, code);
    if Derivable(S, entry, code) {
      var v, fail := DerivationOf(S, entry, code);
      FailsMayFail(S, entry, S[entry].entry, v, fail, code);
    }
  }
}
