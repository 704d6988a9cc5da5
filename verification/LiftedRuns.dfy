/** What procedures do when nothing fails (src/LLVM/Transform/LiftErrorsPass.cpp): combining errors and
    lifting them into the entry leaves every procedure exactly the runs it had. A copy in the entry is
    entered only by a call that fails, and nothing leads back out of it. */
module LiftedRuns {
  import opened Exprs
  import opened Automata
  import opened AssignLists
  import opened TailInlining
  import opened ErrorLifting
  import opened CombinedErrors

  /** Every procedure has the runs among its own locations that it had before. */
  ghost predicate SameProcedures(S: System, T: System) {
    && |T| == |S| && (forall f | 0 <= f < |S| :: T[f].entry == S[f].entry && T[f].exit == S[f].exit)
    && forall f, v, run, l, w | 0 <= f < |S| && 0 <= l < S[f].numLocations ::
         Leads(T, f, T[f].entry, v, run, l, w) <==> Leads(S, f, S[f].entry, v, run, l, w)
  }

  // ---- Inside a copy ----

  /** In the lifted entry, `l` lies in the copy of another procedure, or is the error location. */
  ghost predicate Astray(L: Lift, l: Loc)
    requires L.InRange()
  {
    l == L.error || exists f :: f in L.base && f != L.entry && L.In(f, l)
  }

  lemma {:induction false} OwnIsNotAstray(L: Lift, l: Loc)
    requires L.InRange() && L.Valid() && l < L.S[L.entry].numLocations && l != L.error
    ensures !Astray(L, l)
  {
    EntryBase(L);
    if f :| f in L.base && f != L.entry && L.In(f, l) {
      CopiesApart(L, f, l - L.base[f], L.entry, l);
    }
    hide Lift.Valid;
  }

  lemma {:induction false} CopyStrays(L: Lift, f: nat, d: Transition)
    requires L.InRange() && f in L.base && f in L.ren && f != L.entry && L.IsOrigin(Copied(f, d)) && EdgeScopedIn(L, f, Copied(f, d))
    requires !L.EdgeOf(Copied(f, d)).Disconnected?
    ensures Astray(L, L.EdgeOf(Copied(f, d)).target)
  {
    hide CodeOf, Fitting, CopyEdge, EdgeScoped;
    CopySource(d, false, L.ren[f], L.base[f], L.S[f].numLocations, VariablesOf(L.S[f]));
    assert L.In(f, L.EdgeOf(Copied(f, d)).target);
  }

  lemma {:induction false} JumpStrays(L: Lift, f: nat, d: Transition)
    requires L.InRange() && L.Valid() && f in L.base && L.IsOrigin(Jumped(f, d))
    ensures L.EdgeOf(Jumped(f, d)).Assign? && Astray(L, L.EdgeOf(Jumped(f, d)).target)
  {
    hide Lift.Valid, NeverCalls, Astray, Lift.EdgeOf;
    Uncalled(L);
    InCallee(L, f, d);
    NotEntry(L.S, L.entry, f, d);
    JumpLands(L, f, d);
  }

  lemma JumpLands(L: Lift, f: nat, d: Transition)
    requires L.InRange() && L.IsOrigin(Jumped(f, d)) && d.callee != L.entry && L.S[d.callee].entry < L.S[d.callee].numLocations
    ensures L.EdgeOf(Jumped(f, d)).Assign? && Astray(L, L.EdgeOf(Jumped(f, d)).target)
  {
    hide JumpArgs, ExprIn;
    assert L.In(d.callee, L.EdgeOf(Jumped(f, d)).target);
  }

  lemma InCallee(L: Lift, f: nat, d: Transition)
    requires L.InRange() && L.Valid() && f in L.base && L.IsOrigin(Jumped(f, d))
    ensures f < |L.S| && d in L.S[f].edges && d.Call? && L.S[d.callee].entry < L.S[d.callee].numLocations
  {
    hide Lift.Valid;
    CallSeparates(L, f, d);
  }

  /** Where an edge out of a copy leads. */
  lemma {:induction false} StaysAstray(L: Lift, T: System, f: nat, l: Loc, e: Transition)
    requires L.InRange() && L.Valid() && L.LiftsTo(T) && f in L.base && f != L.entry && l < L.S[f].numLocations
    requires e in T[L.entry].edges && !e.Disconnected? && e.source == L.base[f] + l
    ensures Astray(L, e.target)
  {
    hide Lift.Valid, Lift.LiftsTo, Lift.EdgeOf, EdgeScopedIn, Astray;
    var o := OriginAt(L, T, f, l, e);
    CopyNames(L, f);
    match o {
      case Copied(_, d) => CopyStrays(L, f, d);
      case Jumped(_, d) => JumpStrays(L, f, d);
      case Wired(_, k) => WireStrays(L, f, k);
    }
  }

  lemma WireStrays(L: Lift, f: nat, k: Loc)
    requires L.InRange() && L.IsOrigin(Wired(f, k))
    ensures Astray(L, L.EdgeOf(Wired(f, k)).target)
  {
    hide Renamed;
  }

  lemma {:induction false} NothingFromGoal(L: Lift, T: System, e: Transition)
    requires L.InRange() && L.Valid() && L.LiftsTo(T) && e in T[L.entry].edges && !e.Disconnected?
    ensures e.source != L.error
  {
    if e.source == L.error {
      EntryFacts(L, T);
      var o := OriginAt(L, T, L.entry, L.error, e);
      hide Lift.Valid, Lift.LiftsTo;
      NothingFromError(L, o);
      assert false;
    }
  }

  /** A run that is inside a copy never gets back among the entry's own locations. */
  lemma {:induction false} NoWayBack(L: Lift, T: System, l: Loc, v: Valuation, run: Run, l': Loc, w: Valuation)
    requires L.InRange() && L.Valid() && L.LiftsTo(T) && Astray(L, l) && Leads(T, L.entry, l, v, run, l', w)
    ensures Astray(L, l')
    decreases run
  {
    if !run.Stop? {
      var e := run.edge;
      assert e in T[L.entry].edges && e.source == l && !e.Disconnected?;
      NothingFromGoal(L, T, e);
      var f :| f in L.base && f != L.entry && L.In(f, l);
      StaysAstray(L, T, f, l - L.base[f], e);
    }
    hide Lift.Valid, Lift.LiftsTo, Astray;
    match run
    case Stop =>
    case Step(e, choices, rest) => NoWayBack(L, T, e.target, Exec(e.assigns, v, choices), rest, l', w);
    case Through(e, _, _, final, rest) => NoWayBack(L, T, e.target, Returned(e.outputs, v, final), rest, l', w);
  }

  // ---- The entry ----

  /** An edge of the lifted entry from one of its own locations is its own, or a jump into a copy. */
  lemma {:induction false} OwnEdge(L: Lift, T: System, l: Loc, e: Transition)
    requires L.InRange() && L.Valid() && L.LiftsTo(T) && l < L.S[L.entry].numLocations
    requires e in T[L.entry].edges && !e.Disconnected? && e.source == l
    ensures (e in L.S[L.entry].edges && e.target < L.S[L.entry].numLocations) || (e.Assign? && Astray(L, e.target))
  {
    EntryBase(L);
    EntryFacts(L, T);
    var o := OriginAt(L, T, L.entry, l, e);
    match o {
      case Copied(_, d) =>
        hide Lift.Valid, Lift.LiftsTo, Fitting;
        assert e == d && EdgeScoped(d, L.S[L.entry].numLocations, VariablesOf(L.S[L.entry]));
      case Jumped(_, d) => JumpStrays(L, L.entry, d);
      case Wired(_, _) =>
    }
  }

  lemma {:induction false} OwnRunsAreReal(L: Lift, T: System, l: Loc, v: Valuation, run: Run, l': Loc, w: Valuation)
    requires L.InRange() && L.Valid() && L.LiftsTo(T) && l < L.S[L.entry].numLocations && l' < L.S[L.entry].numLocations && l' != L.error
    requires Leads(T, L.entry, l, v, run, l', w)
    ensures Leads(L.S, L.entry, l, v, run, l', w)
    decreases run
  {
    OwnIsNotAstray(L, l');
    if !run.Stop? {
      assert run.edge in T[L.entry].edges && run.edge.source == l && !run.edge.Disconnected?;
      OwnEdge(L, T, l, run.edge);
    }
    Sizes(L, T);
    match run
    case Stop =>
    case Step(e, choices, rest) =>
      if e !in L.S[L.entry].edges { NoWayBack(L, T, e.target, Exec(e.assigns, v, choices), rest, l', w); }
      hide Lift.Valid, Lift.LiftsTo, Astray;
      OwnRunsAreReal(L, T, e.target, Exec(e.assigns, v, choices), rest, l', w);
    case Through(e, init, body, final, rest) =>
      BodyIsReal(L, T, e, init, body, final);
      hide Lift.Valid, Lift.LiftsTo, Astray;
      OwnRunsAreReal(L, T, e.target, Returned(e.outputs, v, final), rest, l', w);
  }

  lemma Sizes(L: Lift, T: System)
    requires L.InRange() && L.LiftsTo(T)
    ensures L.entry < |T| == |L.S|
  {
  }

  lemma {:induction false} OwnRunsRemain(L: Lift, T: System, l: Loc, v: Valuation, run: Run, l': Loc, w: Valuation)
    requires L.InRange() && L.Valid() && L.LiftsTo(T) && Leads(L.S, L.entry, l, v, run, l', w)
    ensures Leads(T, L.entry, l, v, run, l', w)
    decreases run
  {
    Sizes(L, T);
    if !run.Stop? {
      assert run.edge in L.S[L.entry].edges && !run.edge.Disconnected?;
      var e := CopyLifted(L, T, L.entry, run.edge);
      assert e == run.edge;
    }
    match run
    case Stop =>
    case Step(e, choices, rest) =>
      hide Lift.Valid, Lift.LiftsTo;
      OwnRunsRemain(L, T, e.target, Exec(e.assigns, v, choices), rest, l', w);
    case Through(e, init, body, final, rest) =>
      BodyIsLifted(L, T, L.entry, e, init, body, final);
      hide Lift.Valid, Lift.LiftsTo;
      OwnRunsRemain(L, T, e.target, Returned(e.outputs, v, final), rest, l', w);
  }

  // ---- All procedures ----

  /** Lifting keeps the runs of `f`, except those to the error location of the entry. */
  lemma {:induction false} LiftingKeepsRuns(L: Lift, T: System, f: nat, v: Valuation, run: Run, l: Loc, w: Valuation)
    requires L.InRange() && L.Valid() && L.LiftsTo(T) && f < |L.S| && l < L.S[f].numLocations && (f == L.entry ==> l != L.error)
    ensures |T| == |L.S| && T[f].entry == L.S[f].entry && T[f].exit == L.S[f].exit
    ensures Leads(T, f, T[f].entry, v, run, l, w) <==> Leads(L.S, f, L.S[f].entry, v, run, l, w)
  {
    Entries(L, T);
    ExitKept(L, T);
    hide Leads;
    if f == L.entry {
      hide Lift.Valid, Lift.LiftsTo;
      if Leads(T, f, T[f].entry, v, run, l, w) { OwnRunsAreReal(L, T, T[f].entry, v, run, l, w); }
      if Leads(L.S, f, L.S[f].entry, v, run, l, w) { OwnRunsRemain(L, T, T[f].entry, v, run, l, w); }
    } else {
      Uncalled(L);
      LiftedBodies(L, T);
      BodiesAlike(L.S, T, L.entry, f);
      hide Lift.Valid, Lift.LiftsTo, SameBodies;
      if Leads(T, f, T[f].entry, v, run, l, w) { RunsWithoutErrors(T, L.S, L.entry, f, T[f].entry, v, run, l, w); }
      if Leads(L.S, f, L.S[f].entry, v, run, l, w) { RunsWithoutErrors(L.S, T, L.entry, f, T[f].entry, v, run, l, w); }
    }
  }

  lemma ExitKept(L: Lift, T: System)
    requires L.InRange() && L.LiftsTo(T)
    ensures |T| == |L.S| && T[L.entry].exit == L.S[L.entry].exit
  {
  }

  /** The whole pass keeps the runs of every procedure. */
  lemma {:induction false} PassKeepsRuns(S: System, phis: map<nat, Variable>, t: Type, L: Lift, T: System)
    requires L.InRange() && L.Valid() && L.LiftsTo(T) && Combines(S, L.S, phis, t) && L.entry < |S| && S[L.entry].numLocations <= L.error
    ensures SameProcedures(S, T)
  {
    hide *;
    SameSize(S, L.S, phis, t);
    Sizes(L, T);
    forall f | 0 <= f < |S| ensures T[f].entry == S[f].entry && T[f].exit == S[f].exit {
      KeepsEdges(S, L.S, phis, t, f);
      CombinedGrows(S, L.S, phis, t, f);
      LiftingKeepsRuns(L, T, f, map[], Stop, S[f].entry, map[]);
    }
    forall f, v, run, l, w | 0 <= f < |S| && 0 <= l < S[f].numLocations
      ensures Leads(T, f, T[f].entry, v, run, l, w) <==> Leads(S, f, S[f].entry, v, run, l, w)
    {
      KeepsEdges(S, L.S, phis, t, f);
      CombinedGrows(S, L.S, phis, t, f);
      LiftingKeepsRuns(L, T, f, v, run, l, w);
      if Leads(L.S, f, S[f].entry, v, run, l, w) { UncombinedRuns(S, L.S, phis, t, f, S[f].entry, v, run, l, w); }
      if Leads(S, f, S[f].entry, v, run, l, w) { CombinedRuns(S, L.S, phis, t, f, S[f].entry, v, run, l, w); }
    }
    FoldSame(S, T);
  }

  lemma CombinedGrows(S: System, T: System, phis: map<nat, Variable>, t: Type, f: nat)
    requires Combines(S, T, phis, t) && f < |S|
    ensures S[f].numLocations <= T[f].numLocations
  {
    hide Sound;
  }

  lemma FoldSame(S: System, T: System)
    requires |T| == |S| && (forall f | 0 <= f < |S| :: T[f].entry == S[f].entry && T[f].exit == S[f].exit)
    requires forall f, v, run, l, w | 0 <= f < |S| && 0 <= l < S[f].numLocations ::
               Leads(T, f, T[f].entry, v, run, l, w) <==> Leads(S, f, S[f].entry, v, run, l, w)
    ensures SameProcedures(S, T)
  {
    hide Leads;
  }
}
