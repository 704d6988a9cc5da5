/** One error block for each procedure that may fail (src/LLVM/Transform/LiftErrorsPass.cpp,
    `combineErrorsInFunction`): every error location gets an edge to it that stores the error code
    in a variable of its own. */
module CombinedErrors {
  import opened Exprs
  import opened Automata
  import opened AssignLists
  import opened TailInlining
  import opened UniqueError
  import opened ErrorLifting

  /** The new block is the procedure's only error; its code is what the edges into it stored. */
  function WithErrorBlock(c: Cfa, phi: Variable): Cfa {
    var block := c.numLocations;
    c.(numLocations := block + 1, locals := c.locals + [phi], errors := map[block := VarRef(phi)],
       edges := c.edges + WireEdges(c, c.numLocations, block, phi))
  }

  /** `T` is `S` with an error block in each procedure that has a variable in `phis`. */
  ghost predicate Combines(S: System, T: System, phis: map<nat, Variable>, t: Type) {
    && |T| == |S| && (forall f | 0 <= f < |S| :: Sound(S, S[f], t))
    && (forall f | 0 <= f < |S| && f !in phis :: T[f] == S[f] && S[f].errors == map[])
    && (forall f | 0 <= f < |S| && f in phis :: T[f] == WithErrorBlock(S[f], phis[f]) && phis[f].typ == t)
  }

  lemma {:induction false} BlockEdges(c: Cfa, phi: Variable, e: Transition)
    requires e in WithErrorBlock(c, phi).edges
    ensures e in c.edges || exists l :: l in c.errors && e == WireEdge(c, l, c.numLocations, phi)
  {
    hide WireEdges;
  }

  lemma {:induction false} EdgesOf(S: System, T: System, phis: map<nat, Variable>, t: Type, f: nat, e: Transition)
    requires Combines(S, T, phis, t) && f < |T| && e in T[f].edges
    ensures e in S[f].edges || (f in phis && exists l :: l in S[f].errors && e == WireEdge(S[f], l, S[f].numLocations, phis[f]))
  {
    hide WithErrorBlock, Sound;
    if f in phis {
      BlockEdges(S[f], phis[f], e);
    }
  }

  lemma {:induction false} KeepsEdges(S: System, T: System, phis: map<nat, Variable>, t: Type, f: nat)
    requires Combines(S, T, phis, t) && f < |S|
    ensures T[f].entry == S[f].entry < S[f].numLocations && T[f].exit == S[f].exit < S[f].numLocations && forall e | e in S[f].edges :: e in T[f].edges
    ensures f in phis ==> forall l | l in S[f].errors :: WireEdge(S[f], l, S[f].numLocations, phis[f]) in T[f].edges
    ensures f in phis ==> T[f].errors == map[S[f].numLocations := VarRef(phis[f])]
    ensures f !in phis ==> S[f].errors == map[] && T[f].errors == map[]
    ensures forall e | e in S[f].edges && !e.Disconnected? :: e.source < S[f].numLocations && e.target < S[f].numLocations
    ensures forall l | l in S[f].errors :: l < S[f].numLocations
  {
    assert Sound(S, S[f], t);
    hide WireEdges, WireEdge, Fitting, CodeOf;
  }

  /** Nothing leaves the error block. */
  lemma {:induction false} BlockIsFinal(S: System, T: System, phis: map<nat, Variable>, t: Type, f: nat, e: Transition)
    requires Combines(S, T, phis, t) && f < |T| && e in T[f].edges && !e.Disconnected?
    ensures e.source != S[f].numLocations
  {
    EdgesOf(S, T, phis, t, f, e);
    KeepsEdges(S, T, phis, t, f);
    hide Combines;
  }

  lemma {:induction false} CombinedRuns(S: System, T: System, phis: map<nat, Variable>, t: Type, f: nat, l: Loc, v: Valuation, run: Run, l': Loc, w: Valuation)
    requires Combines(S, T, phis, t) && f < |S| && Leads(S, f, l, v, run, l', w)
    ensures Leads(T, f, l, v, run, l', w)
    decreases run
  {
    KeepsEdges(S, T, phis, t, f);
    hide Combines;
    match run
    case Stop =>
    case Step(e, choices, rest) => CombinedRuns(S, T, phis, t, f, e.target, Exec(e.assigns, v, choices), rest, l', w);
    case Through(e, init, body, final, rest) =>
      SameSize(S, T, phis, t);
      KeepsEdges(S, T, phis, t, e.callee);
      CombinedRuns(S, T, phis, t, e.callee, S[e.callee].entry, init, body, S[e.callee].exit, final);
      CombinedRuns(S, T, phis, t, f, e.target, Returned(e.outputs, v, final), rest, l', w);
  }

  lemma SameSize(S: System, T: System, phis: map<nat, Variable>, t: Type)
    requires Combines(S, T, phis, t)
    ensures |T| == |S|
  {
  }

  /** A run that does not end in the error block never goes there. */
  lemma {:induction false} UncombinedRuns(S: System, T: System, phis: map<nat, Variable>, t: Type, f: nat, l: Loc, v: Valuation, run: Run, l': Loc, w: Valuation)
    requires Combines(S, T, phis, t) && f < |S| && Leads(T, f, l, v, run, l', w) && l' < S[f].numLocations
    ensures l != S[f].numLocations && Leads(S, f, l, v, run, l', w)
    decreases run
  {
    KeepsEdges(S, T, phis, t, f);
    SameSize(S, T, phis, t);
    if !run.Stop? {
      EdgesOf(S, T, phis, t, f, run.edge);
      BlockIsFinal(S, T, phis, t, f, run.edge);
    }
    hide Combines;
    match run
    case Stop =>
    case Step(e, choices, rest) => UncombinedRuns(S, T, phis, t, f, e.target, Exec(e.assigns, v, choices), rest, l', w);
    case Through(e, init, body, final, rest) =>
      KeepsEdges(S, T, phis, t, e.callee);
      UncombinedRuns(S, T, phis, t, e.callee, T[e.callee].entry, init, body, T[e.callee].exit, final);
      UncombinedRuns(S, T, phis, t, f, e.target, Returned(e.outputs, v, final), rest, l', w);
  }

  /** The wire from an error location stores its code. */
  lemma {:induction false} StoredCode(S: System, T: System, phis: map<nat, Variable>, t: Type, f: nat, l: Loc, v: Valuation, choices: seq<Value>)
    requires Combines(S, T, phis, t) && f < |S| && f in phis && l in S[f].errors
    ensures Get(Exec(WireEdge(S[f], l, S[f].numLocations, phis[f]).assigns, v, choices), phis[f]) == Eval(S[f].errors[l], v)
  {
    assert Sound(S, S[f], t);
    hide Fitting, EdgeScoped, WithErrorBlock;
    SingleAssign(Assignment(phis[f], S[f].errors[l]), v, choices);
    TypeSoundness(S[f].errors[l], v);
  }

  lemma {:induction false} CombinedFailure(S: System, T: System, phis: map<nat, Variable>, t: Type, f: nat, l: Loc, v: Valuation, fail: Failure, code: Value)
    returns (fail': Failure)
    requires Combines(S, T, phis, t) && f < |S| && Fails(S, f, l, v, fail, code)
    ensures Fails(T, f, l, v, fail', code)
    decreases fail
  {
    KeepsEdges(S, T, phis, t, f);
    SameSize(S, T, phis, t);
    UnfoldFailure(S, f, l, v, fail, code);
    match fail
    case Here => fail' := CombinedHere(S, T, phis, t, f, l, v, code);
    case After(e, choices, rest) =>
      hide Combines, Fails;
      fail' := CombinedFailure(S, T, phis, t, f, e.target, Exec(e.assigns, v, choices), rest, code);
      FailAfter(T, f, l, v, e, choices, fail', code);
      fail' := After(e, choices, fail');
    case Past(e, init, body, final, rest) =>
      hide Combines, Fails, Leads;
      KeepsEdges(S, T, phis, t, e.callee);
      CombinedRuns(S, T, phis, t, e.callee, S[e.callee].entry, init, body, S[e.callee].exit, final);
      fail' := CombinedFailure(S, T, phis, t, f, e.target, Returned(e.outputs, v, final), rest, code);
      FailPast(T, f, l, v, e, init, body, final, fail', code);
      fail' := Past(e, init, body, final, fail');
    case Inside(e, init, inner) =>
      hide Combines, Fails;
      KeepsEdges(S, T, phis, t, e.callee);
      fail' := CombinedFailure(S, T, phis, t, e.callee, S[e.callee].entry, init, inner, code);
      FailInside(T, f, l, v, e, init, fail', code);
      fail' := Inside(e, init, fail');
  }

  lemma {:induction false} CombinedHere(S: System, T: System, phis: map<nat, Variable>, t: Type, f: nat, l: Loc, v: Valuation, code: Value)
    returns (fail': Failure)
    requires Combines(S, T, phis, t) && ErrorAt(S, f, l, v, code)
    ensures Fails(T, f, l, v, fail', code)
  {
    KeepsEdges(S, T, phis, t, f);
    StoredCode(S, T, phis, t, f, l, v, []);
    SameSize(S, T, phis, t);
    hide Combines, Exec;
    var e := WireEdge(S[f], l, S[f].numLocations, phis[f]);
    var w := Exec(e.assigns, v, []);
    assert Eval(VarRef(phis[f]), w) == Get(w, phis[f]);
    TrueHolds(v);
    assert Fails(T, f, e.target, w, Here, code);
    fail' := After(e, [], Here);
  }

  lemma {:induction false} UncombinedFailure(S: System, T: System, phis: map<nat, Variable>, t: Type, f: nat, l: Loc, v: Valuation, fail: Failure, code: Value)
    returns (fail': Failure)
    requires Combines(S, T, phis, t) && f < |S| && l != S[f].numLocations && Fails(T, f, l, v, fail, code)
    ensures Fails(S, f, l, v, fail', code)
    decreases fail
  {
    hide *;
    UnfoldFailure(T, f, l, v, fail, code);
    KeepsEdges(S, T, phis, t, f);
    SameSize(S, T, phis, t);
    if fail.Here? {
      ErrorIn(T, f, l, v, code);
      assert false;
    }
    EdgesOf(S, T, phis, t, f, fail.edge);
    match fail
    case After(e, choices, rest) =>
      if e in S[f].edges {
        fail' := UncombinedFailure(S, T, phis, t, f, e.target, Exec(e.assigns, v, choices), rest, code);
        FoldTake(S, f, l, v, e);
        FailAfter(S, f, l, v, e, choices, fail', code);
        fail' := After(e, choices, fail');
      } else {
        fail' := UncombinedWire(S, T, phis, t, f, l, v, e, choices, rest, code);
      }
    case Past(e, init, body, final, rest) =>
      CallOf(S, f, phis, e);
      KeepsEdges(S, T, phis, t, e.callee);
      UncombinedRuns(S, T, phis, t, e.callee, T[e.callee].entry, init, body, T[e.callee].exit, final);
      fail' := UncombinedFailure(S, T, phis, t, f, e.target, Returned(e.outputs, v, final), rest, code);
      UnfoldCall(T, f, l, v, e, init);
      FoldCall(S, f, l, v, e, init);
      FailPast(S, f, l, v, e, init, body, final, fail', code);
      fail' := Past(e, init, body, final, fail');
    case Inside(e, init, inner) =>
      CallOf(S, f, phis, e);
      KeepsEdges(S, T, phis, t, e.callee);
      fail' := UncombinedFailure(S, T, phis, t, e.callee, S[e.callee].entry, init, inner, code);
      UnfoldCall(T, f, l, v, e, init);
      FoldCall(S, f, l, v, e, init);
      FailInside(S, f, l, v, e, init, fail', code);
      fail' := Inside(e, init, fail');
  }

  lemma ErrorIn(T: System, f: nat, l: Loc, v: Valuation, code: Value)
    requires ErrorAt(T, f, l, v, code)
    ensures f < |T| && l in T[f].errors
  {
  }

  lemma CallOf(S: System, f: nat, phis: map<nat, Variable>, e: Transition)
    requires f < |S| && e.Call?
    requires e in S[f].edges || (f in phis && exists l :: l in S[f].errors && e == WireEdge(S[f], l, S[f].numLocations, phis[f]))
    ensures e in S[f].edges
  {
  }

  lemma {:induction false} UncombinedWire(S: System, T: System, phis: map<nat, Variable>, t: Type, f: nat, l: Loc, v: Valuation,
                                          e: Transition, choices: seq<Value>, rest: Failure, code: Value) returns (fail': Failure)
    requires Combines(S, T, phis, t) && f < |S| && f in phis && e.Assign? && e.source == l
    requires exists k :: k in S[f].errors && e == WireEdge(S[f], k, S[f].numLocations, phis[f])
    requires Fails(T, f, e.target, Exec(e.assigns, v, choices), rest, code)
    ensures Fails(S, f, l, v, fail', code)
  {
    var k :| k in S[f].errors && e == WireEdge(S[f], k, S[f].numLocations, phis[f]);
    assert k == l && e.target == S[f].numLocations;
    KeepsEdges(S, T, phis, t, f);
    SameSize(S, T, phis, t);
    StoredCode(S, T, phis, t, f, l, v, choices);
    var w := Exec(e.assigns, v, choices);
    if !rest.Here? {
      BlockIsFinal(S, T, phis, t, f, rest.edge);
      assert false;
    }
    hide Combines, Exec, WireEdge;
    assert Eval(VarRef(phis[f]), w) == Get(w, phis[f]);
    fail' := Here;
  }

  /** Error blocks change no reachable error code of any procedure. */
  lemma {:induction false} CombiningKeepsErrors(S: System, T: System, phis: map<nat, Variable>, t: Type, f: nat, code: Value)
    requires Combines(S, T, phis, t) && f < |S|
    ensures CanFail(T, f, code) <==> CanFail(S, f, code)
  {
    hide *;
    StackIffDerivation(S, f, code);
    StackIffDerivation(T, f, code);
    KeepsEdges(S, T, phis, t, f);
    SameSize(S, T, phis, t);
    if Derivable(T, f, code) {
      var v, fail := DerivationOf(T, f, code);
      fail := UncombinedFailure(S, T, phis, t, f, S[f].entry, v, fail, code);
      Derived(S, f, v, fail, code);
    }
    if Derivable(S, f, code) {
      var v, fail := DerivationOf(S, f, code);
      fail := CombinedFailure(S, T, phis, t, f, S[f].entry, v, fail, code);
      Derived(T, f, v, fail, code);
    }
  }
}
