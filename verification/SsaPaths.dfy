/** The path condition of an automaton in SSA form decides reachability (src/Automaton/CfaUtils.cpp,
    `PathConditionCalculator::encode`): it is satisfiable exactly when some concrete execution
    reaches the target, undefined assignments being arbitrary values. */
module SsaPaths {
  import opened Exprs
  import opened Automata
  import opened AssignLists
  import opened PathConditions
  import opened CounterexampleWalk

  // ---- SSA form ----

  /** Each variable is assigned once and never read before or while it is assigned. */
  ghost predicate OnceAssigned(assigns: seq<Assignment>) {
    assigns == [] || (
      && Vars(assigns[0].value) !! Written(assigns) && assigns[0].variable !in Written(assigns[1..])
      && OnceAssigned(assigns[1..]))
  }

  /** All assignments along a path, in order. */
  ghost function AssignsOf(p: seq<Transition>): seq<Assignment> {
    if p == [] then [] else (if p[0].Assign? then p[0].assigns else []) + AssignsOf(p[1..])
  }

  ghost predicate SsaPath(p: seq<Transition>) {
    p == [] || (
      && p[0].Assign? && OnceAssigned(AssignsOf(p)) && Vars(p[0].guard) !! Written(AssignsOf(p))
      && SsaPath(p[1..]))
  }

  /** Every path from `s` is in SSA form. */
  ghost predicate SsaForm(edges: seq<Transition>, s: Loc) {
    forall p, t | IsPath(edges, p, s, t) :: SsaPath(p)
  }

  // ---- From a true path to an execution ----

  /** Undefined assignments choose the value the valuation has. */
  ghost function ChoicesOf(assigns: seq<Assignment>, v: Valuation): (r: seq<Value>)
    ensures |r| == |assigns| && forall i | 0 <= i < |r| :: r[i] == Get(v, assigns[i].variable)
  {
    if assigns == [] then [] else [Get(v, assigns[0].variable)] + ChoicesOf(assigns[1..], v)
  }

  ghost predicate SameEverywhere(v: Valuation, w: Valuation) { forall x :: Get(v, x) == Get(w, x) }

  /** Assigning what already holds changes nothing. */
  lemma {:induction false} ExecStays(assigns: seq<Assignment>, v: Valuation, w: Valuation)
    requires Equates(assigns, v) && SameEverywhere(v, w)
    ensures SameEverywhere(v, Exec(assigns, w, ChoicesOf(assigns, v)))
    decreases |assigns|
  {
    if assigns != [] {
      var a := assigns[0];
      var choices := ChoicesOf(assigns, v);
      EvalCongruence(a.value, v, w);
      assert a in assigns;
      var w' := AssignOne(a, w, choices);
      assert choices[1..] == ChoicesOf(assigns[1..], v);
      hide Eval, ChoicesOf;
      ExecStays(assigns[1..], v, w');
    }
  }

  lemma {:induction false} PathRuns(S: System, f: nat, calls: Transition -> Expr, p: seq<Transition>, s: Loc, t: Loc, v: Valuation, w: Valuation) returns (run: Run, w': Valuation)
    requires f < |S| && IsPath(S[f].edges, p, s, t) && AllEdgesHold(p, calls, v) && (forall e | e in S[f].edges :: e.Assign?) && SameEverywhere(v, w)
    ensures Leads(S, f, s, w, run, t, w') && SameEverywhere(v, w')
    decreases |p|
  {
    if p == [] {
      return Stop, w;
    }
    var e := p[0];
    assert EdgeHolds(e, calls, v) && e in S[f].edges;
    var choices := ChoicesOf(e.assigns, v);
    ExecStays(e.assigns, v, w);
    EvalCongruence(e.guard, v, w);
    PathTail(S[f].edges, p, s, t);
    assert AllEdgesHold(p[1..], calls, v);
    hide EdgeHolds, Eval, Exec, SameEverywhere, Leads, IsPath;
    run, w' := PathRuns(S, f, calls, p[1..], e.target, t, v, Exec(e.assigns, w, choices));
    LeadStep(S, f, s, w, e, choices, run, t, w');
    run := Step(e, choices, run);
  }

  lemma {:induction false} PathTail(edges: seq<Transition>, p: seq<Transition>, s: Loc, t: Loc)
    requires IsPath(edges, p, s, t) && p != []
    ensures var e := p[0]; e in edges && !e.Disconnected? && e.source == s && IsPath(edges, p[1..], e.target, t)
  {
    if |p| > 1 {
      assert p[0].target == p[0 + 1].source;
      forall i | 0 <= i < |p[1..]| - 1 ensures p[1..][i].target == p[1..][i + 1].source { assert p[i + 1].target == p[i + 1 + 1].source; }
    }
  }

  lemma {:induction false} PathCons(edges: seq<Transition>, e: Transition, p: seq<Transition>, t: Loc)
    requires e in edges && !e.Disconnected? && IsPath(edges, p, e.target, t)
    ensures IsPath(edges, [e] + p, e.source, t)
  {
    var q := [e] + p;
    forall i | 0 <= i < |q| - 1 ensures q[i].target == q[i + 1].source {
      if i > 0 {
        var j := i - 1;
        assert p[j].target == p[j + 1].source;
      }
    }
  }

  // ---- From an execution to a true path ----

  ghost function EdgesOf(run: Run): seq<Transition> {
    match run
    case Stop => []
    case Step(e, _, rest) => [e] + EdgesOf(rest)
    case Through(e, _, _, _, rest) => [e] + EdgesOf(rest)
  }

  lemma {:induction false} RunPath(S: System, f: nat, s: Loc, v: Valuation, run: Run, t: Loc, w: Valuation)
    requires f < |S| && Leads(S, f, s, v, run, t, w)
    ensures IsPath(S[f].edges, EdgesOf(run), s, t)
    decreases run
  {
    match run
    case Stop =>
    case Step(e, choices, rest) =>
      RunPath(S, f, e.target, Exec(e.assigns, v, choices), rest, t, w);
      PathCons(S[f].edges, e, EdgesOf(rest), t);
    case Through(e, _, _, final, rest) =>
      RunPath(S, f, e.target, Returned(e.outputs, v, final), rest, t, w);
      PathCons(S[f].edges, e, EdgesOf(rest), t);
  }

  lemma {:induction false} WrittenConcat(a: seq<Assignment>, b: seq<Assignment>)
    ensures Written(a + b) == Written(a) + Written(b)
  {
    forall x | x in Written(a) + Written(b) ensures x in Written(a + b) {
      if x in Written(a) {
        var y :| y in a && y.variable == x;
        assert y in a + b;
      } else {
        var y :| y in b && y.variable == x;
        assert y in a + b;
      }
    }
  }

  lemma {:induction false} OnceSplit(a: seq<Assignment>, b: seq<Assignment>)
    requires OnceAssigned(a + b)
    ensures OnceAssigned(b) && Written(a) !! Written(b)
    decreases |a|
  {
    if a == [] {
      assert a + b == b;
    } else {
      assert (a + b)[1..] == a[1..] + b && (a + b)[0] == a[0];
      OnceSplit(a[1..], b);
      WrittenConcat(a[1..], b);
      assert a == [a[0]] + a[1..];
      WrittenConcat([a[0]], a[1..]);
    }
  }

  /** Once a list has run and nothing later writes what it read or wrote, its equations hold. */
  lemma {:induction false} ExecEquates(assigns: seq<Assignment>, later: seq<Assignment>, v: Valuation, choices: seq<Value>, w: Valuation)
    requires OnceAssigned(assigns + later)
    requires forall x | x !in Written(later) :: Get(w, x) == Get(Exec(assigns, v, choices), x)
    requires forall a | a in assigns && !a.value.Undef? :: WellTyped(a.value) && TypeOf(a.value) == a.variable.typ
    ensures Equates(assigns, w)
    decreases |assigns|
  {
    if assigns != [] {
      var a, rest := assigns[0], assigns[1..];
      assert (assigns + later)[1..] == rest + later && (assigns + later)[0] == a && a in assigns;
      var v' := AssignOne(a, v, choices);
      ExecEquates(rest, later, v', Tail(choices), w);
      if !a.value.Undef? {
        FirstEquation(a, rest, later, v, choices, w);
      }
      hide Eval, Exec, OnceAssigned, WellTyped, TypeOf;
      forall b | b in assigns && !b.value.Undef? ensures Get(w, b.variable) == Eval(b.value, w) {
        if b != a {
          assert b in rest;
        }
      }
    }
  }

  lemma {:induction false} FirstEquation(a: Assignment, rest: seq<Assignment>, later: seq<Assignment>, v: Valuation, choices: seq<Value>, w: Valuation)
    requires !a.value.Undef? && WellTyped(a.value) && TypeOf(a.value) == a.variable.typ
    requires Vars(a.value) !! Written([a] + rest + later) && a.variable !in Written(rest + later)
    requires forall x | x !in Written(later) :: Get(w, x) == Get(Exec(rest, AssignOne(a, v, choices), Tail(choices)), x)
    ensures Get(w, a.variable) == Eval(a.value, w)
  {
    WrittenConcat(rest, later);
    WrittenConcat([a] + rest, later);
    WrittenConcat([a], rest);
    var v' := AssignOne(a, v, choices);
    assert a in [a];
    hide Eval, Exec, Written, WellTyped, TypeOf;
    forall x | x !in Written(rest) && x !in Written(later) ensures Get(w, x) == Get(v', x) { ExecFrame(rest, v', Tail(choices), x); }
    assert a.variable in Written([a]) by { assert a.variable in set b | b in [a] :: b.variable; }
    assert Same(v, w, Vars(a.value));
    EvalCongruence(a.value, v, w);
    TypeSoundness(a.value, v);
    assert v' == v[a.variable := Eval(a.value, v)];
  }

  /** After an execution in SSA form, the final valuation makes the whole path true. */
  lemma {:induction false} RunHolds(S: System, f: nat, calls: Transition -> Expr, s: Loc, v: Valuation, run: Run, t: Loc, w: Valuation)
    requires f < |S| && (forall e | e in S[f].edges :: e.Assign? && EdgeTyped(e, calls)) && Leads(S, f, s, v, run, t, w) && SsaPath(EdgesOf(run))
    ensures AllEdgesHold(EdgesOf(run), calls, w)
    ensures forall x | x !in Written(AssignsOf(EdgesOf(run))) :: Get(w, x) == Get(v, x)
    decreases run
  {
    match run
    case Stop =>
    case Step(e, choices, rest) =>
      var v' := Exec(e.assigns, v, choices);
      var later := AssignsOf(EdgesOf(rest));
      assert EdgesOf(run)[1..] == EdgesOf(rest) && EdgesOf(run)[0] == e;
      RunHolds(S, f, calls, e.target, v', rest, t, w);
      assert AssignsOf(EdgesOf(run)) == e.assigns + later;
      WrittenConcat(e.assigns, later);
      EdgeHeld(e, calls, later, v, choices, w);
      hide Exec, Leads, EdgeHolds, EdgeTyped, SsaPath, OnceAssigned, Written;
      forall x | x !in Written(AssignsOf(EdgesOf(run))) ensures Get(w, x) == Get(v, x) { ExecFrame(e.assigns, v, choices, x); }
    case Through(e, _, _, _, _) =>
      assert false;
  }

  lemma {:induction false} EdgeHeld(e: Transition, calls: Transition -> Expr, later: seq<Assignment>, v: Valuation, choices: seq<Value>, w: Valuation)
    requires e.Assign? && EdgeTyped(e, calls) && Holds(e.guard, v) && OnceAssigned(e.assigns + later) && Vars(e.guard) !! Written(e.assigns + later)
    requires forall x | x !in Written(later) :: Get(w, x) == Get(Exec(e.assigns, v, choices), x)
    ensures EdgeHolds(e, calls, w)
  {
    ExecEquates(e.assigns, later, v, choices, w);
    WrittenConcat(e.assigns, later);
    hide Exec, OnceAssigned, Written, Equates, WellTyped, TypeOf;
    forall x | x in Vars(e.guard) ensures Get(v, x) == Get(w, x) { ExecFrame(e.assigns, v, choices, x); }
    EvalCongruence(e.guard, v, w);
  }

  // ---- Reachability ----

  ghost predicate CanReach(S: System, f: nat, s: Loc, t: Loc) {
    exists v, run, w :: Leads(S, f, s, v, run, t, w)
  }

  /** Some path of an SSA automaton is true under some valuation exactly when it can be executed. */
  lemma {:induction false} TruePathIffRun(S: System, f: nat, calls: Transition -> Expr, s: Loc, t: Loc)
    requires f < |S| && (forall e | e in S[f].edges :: e.Assign? && EdgeTyped(e, calls)) && SsaForm(S[f].edges, s)
    ensures (exists v :: SomePathHolds(S[f].edges, calls, s, t, v)) <==> CanReach(S, f, s, t)
  {
    hide EdgeHolds, Leads, SsaPath, IsPath, AllEdgesHold, EdgeTyped;
    if v :| SomePathHolds(S[f].edges, calls, s, t, v) {
      var p :| IsPath(S[f].edges, p, s, t) && AllEdgesHold(p, calls, v);
      assert SameEverywhere(v, v);
      var run, w := PathRuns(S, f, calls, p, s, t, v, v);
    }
    if CanReach(S, f, s, t) {
      var v, run, w :| Leads(S, f, s, v, run, t, w);
      RunPath(S, f, s, v, run, t, w);
      RunHolds(S, f, calls, s, v, run, t, w);
      assert SomePathHolds(S[f].edges, calls, s, t, w);
    }
  }

  /** `encode(entry, error)`, with or without discriminators, is satisfiable exactly when the error
      location can be reached. */
  lemma {:induction false} SatisfiableIffReachable(S: System, f: nat, R: Region, formula: Expr, t: Loc)
    requires f < |S| && R.Valid() && R.edges == S[f].edges && t in R.index && Encodes(R, formula, t) && (R.trace ==> FreshDiscriminators(R))
    requires (forall e | e in S[f].edges :: e.Assign?) && SsaForm(S[f].edges, R.topo[R.start])
    ensures (exists v :: Holds(formula, v)) <==> CanReach(S, f, R.topo[R.start], t)
  {
    var s := R.topo[R.start];
    if R.trace {
      Equisatisfiable(R, formula, t);
    } else {
      PathConditionExact(R, formula, t);
    }
    TruePathIffRun(S, f, R.calls, s, t);
    hide SomePathHolds, CanReach, Eval, Encodes, Region.Valid, SsaForm, FreshDiscriminators;
    if v :| Holds(formula, v) { assert SomePathHolds(R.edges, R.calls, s, t, v); }
    if v :| SomePathHolds(R.edges, R.calls, s, t, v) { assert exists w :: Holds(formula, w); }
  }
}
