/** Path conditions (src/Automaton/CfaUtils.cpp, `PathConditionCalculator::encode`): a formula for
    reaching one location of an acyclic automaton from another, computed along a topological order,
    is true exactly when some path has all its guards, equations and call formulas true. */
module PathConditions {
  import opened Exprs
  import opened FoldingBuilder
  import opened ExprRewrite
  import opened Automata

  // ---- Formulas through either builder ----

  function MakeAnd(b: Builder, ops: seq<Expr>): Expr { if b.Plain? then And(ops) else BuildAnd(ops) }
  function MakeOr(b: Builder, ops: seq<Expr>): Expr { if b.Plain? then Or(ops) else BuildOr(ops) }
  function MakeNot(b: Builder, op: Expr): Expr { if b.Plain? then Not(op) else BuildNot(op) }
  function MakeEq(b: Builder, l: Expr, r: Expr): Expr { MakeCompare(b, Eq, l, r) }
  function MakeSelect(b: Builder, c: Expr, t: Expr, e: Expr): Expr { if b.Plain? then Select(c, t, e) else BuildSelect(c, t, e) }

  ghost predicate AllHold(ops: seq<Expr>, v: Valuation) { forall i | 0 <= i < |ops| :: Holds(ops[i], v) }

  lemma {:induction false} AndMeans(b: Builder, ops: seq<Expr>, v: Valuation)
    requires AllFormulas(ops)
    ensures IsFormula(MakeAnd(b, ops)) && (Holds(MakeAnd(b, ops), v) <==> AllHold(ops, v))
  {
    AndSound(ops, v);
    AllByIndex(ops, v);
    hide Eval, BuildAnd;
  }

  lemma {:induction false} OrMeans(b: Builder, ops: seq<Expr>, v: Valuation)
    requires AllFormulas(ops)
    ensures IsFormula(MakeOr(b, ops)) && (Holds(MakeOr(b, ops), v) <==> exists i | 0 <= i < |ops| :: Holds(ops[i], v))
  {
    OrSound(ops, v);
    AllByIndex(ops, v);
    hide Eval, BuildOr;
  }

  lemma {:induction false} PairMeans(b: Builder, p: Expr, q: Expr, v: Valuation)
    requires IsFormula(p) && IsFormula(q)
    ensures IsFormula(MakeAnd(b, [p, q])) && (Holds(MakeAnd(b, [p, q]), v) <==> Holds(p, v) && Holds(q, v))
    ensures IsFormula(MakeOr(b, [p, q])) && (Holds(MakeOr(b, [p, q]), v) <==> Holds(p, v) || Holds(q, v))
  {
    AndMeans(b, [p, q], v);
    OrMeans(b, [p, q], v);
    hide Eval, MakeAnd, MakeOr, WellTyped;
    assert [p, q][0] == p && [p, q][1] == q;
  }

  lemma {:induction false} NotMeans(b: Builder, x: Variable, v: Valuation)
    requires x.typ.BoolType?
    ensures IsFormula(MakeNot(b, VarRef(x))) && (Holds(MakeNot(b, VarRef(x)), v) <==> Get(v, x) == BoolVal(false))
    ensures IsFormula(VarRef(x)) && (Holds(VarRef(x), v) <==> Get(v, x) == BoolVal(true))
  {
    NotSound(VarRef(x), v);
    assert Eval(Not(VarRef(x)), v) == BoolVal(!Get(v, x).IsTrue());
  }

  /** An equation of a variable never meets the builder's inexact rule. */
  lemma {:induction false} EqMeans(b: Builder, x: Variable, e: Expr, v: Valuation)
    requires WellTyped(e) && TypeOf(e) == x.typ
    ensures IsFormula(MakeEq(b, VarRef(x), e)) && (Holds(MakeEq(b, VarRef(x), e), v) <==> Get(v, x) == Eval(e, v))
  {
    EqExact(VarRef(x), e, v);
    assert Eval(Binary(Compare(Eq), VarRef(x), e), v) == BoolVal(Get(v, x) == Eval(e, v));
    assert IsFormula(Binary(Compare(Eq), VarRef(x), e));
    hide BuildEq;
  }

  lemma {:induction false} SelectMeans(b: Builder, x: Variable, i: int, j: int, v: Valuation)
    requires x.typ.BoolType?
    ensures Eval(MakeSelect(b, VarRef(x), IntLit(i), IntLit(j)), v) == IntVal(if Get(v, x) == BoolVal(true) then i else j)
  {
    SelectExact(VarRef(x), IntLit(i), IntLit(j), v);
    assert Eval(VarRef(x), v) == Get(v, x);
  }

  // ---- What an edge demands ----

  /** The equations of the defined assignments are true. */
  ghost predicate Equates(assigns: seq<Assignment>, v: Valuation) {
    forall a | a in assigns && !a.value.Undef? :: Get(v, a.variable) == Eval(a.value, v)
  }

  /** Guard, equations of its defined assignments, or the formula supplied for a call. */
  ghost predicate EdgeHolds(e: Transition, calls: Transition -> Expr, v: Valuation) {
    match e
    case Assign(_, _, g, assigns) => Holds(g, v) && Equates(assigns, v)
    case Call(_, _, g, _, _, _) => Holds(g, v) && Holds(calls(e), v)
    case Disconnected => false
  }

  ghost predicate EdgeTyped(e: Transition, calls: Transition -> Expr) {
    match e
    case Assign(_, _, g, assigns) => IsFormula(g) && forall a | a in assigns :: WellTyped(a.value) && TypeOf(a.value) == a.variable.typ
    case Call(_, _, g, _, _, _) => IsFormula(g) && IsFormula(calls(e))
    case Disconnected => true
  }

  /** The equations of the assignments, undefined ones left out. */
  method Equations(b: Builder, assigns: seq<Assignment>) returns (r: seq<Expr>)
    requires forall a | a in assigns :: WellTyped(a.value) && TypeOf(a.value) == a.variable.typ
    ensures AllFormulas(r) && forall v :: AllHold(r, v) <==> Equates(assigns, v)
  {
    hide *;
    r := [];
    NoEquations();
    assert assigns[..0] == [];
    for k := 0 to |assigns|
      invariant AllFormulas(r) && forall v :: AllHold(r, v) <==> Equates(assigns[..k], v)
    {
      var a := assigns[k];
      assert a in assigns;
      EquationAdded(b, assigns, k, r);
      if !a.value.Undef? {
        r := r + [MakeEq(b, VarRef(a.variable), a.value)];
      }
    }
    assert assigns[..|assigns|] == assigns;
  }

  lemma NoEquations()
    ensures AllFormulas([]) && forall v :: AllHold([], v) && Equates([], v)
  {
  }

  lemma EquationAdded(b: Builder, assigns: seq<Assignment>, k: nat, r: seq<Expr>)
    requires k < |assigns| && AllFormulas(r) && (forall v :: AllHold(r, v) <==> Equates(assigns[..k], v))
    requires WellTyped(assigns[k].value) && TypeOf(assigns[k].value) == assigns[k].variable.typ
    ensures var a := assigns[k]; var r' := if a.value.Undef? then r else r + [MakeEq(b, VarRef(a.variable), a.value)];
            AllFormulas(r') && forall v :: AllHold(r', v) <==> Equates(assigns[..k + 1], v)
  {
    var a := assigns[k];
    assert assigns[..k + 1] == assigns[..k] + [a];
    var eq := MakeEq(b, VarRef(a.variable), a.value);
    EqMeans(b, a.variable, a.value, map[]);
    hide Eval, WellTyped, TypeOf, MakeEq;
    var r' := if a.value.Undef? then r else r + [eq];
    forall v ensures AllHold(r', v) <==> Equates(assigns[..k + 1], v) {
      EqMeans(b, a.variable, a.value, v);
      assert Equates(assigns[..k + 1], v) <==> Equates(assigns[..k], v) && (!a.value.Undef? ==> Get(v, a.variable) == Eval(a.value, v));
      if !a.value.Undef? {
        assert r'[|r|] == eq && forall i | 0 <= i < |r| :: r'[i] == r[i];
      }
    }
  }

  /** `r` is a formula for `p` and `q`. */
  ghost predicate Both(r: Expr, p: Expr, q: Expr) {
    IsFormula(r) && forall v :: Holds(r, v) <==> Holds(p, v) && Holds(q, v)
  }

  lemma {:induction false} BothMeans(b: Builder, p: Expr, q: Expr)
    requires IsFormula(p) && IsFormula(q)
    ensures Both(MakeAnd(b, [p, q]), p, q)
  {
    hide Eval, WellTyped, MakeAnd;
    PairMeans(b, p, q, map[]);
    forall v ensures Holds(MakeAnd(b, [p, q]), v) <==> Holds(p, v) && Holds(q, v) { PairMeans(b, p, q, v); }
  }

  lemma {:induction false} AllMeans(b: Builder, ops: seq<Expr>)
    requires AllFormulas(ops)
    ensures IsFormula(MakeAnd(b, ops)) && forall v :: Holds(MakeAnd(b, ops), v) <==> AllHold(ops, v)
  {
    hide Eval, WellTyped, MakeAnd;
    AndMeans(b, ops, map[]);
    forall v ensures Holds(MakeAnd(b, ops), v) <==> AllHold(ops, v) { AndMeans(b, ops, v); }
  }

  /** The formula of an edge whose source has the formula `before`. */
  method EdgeFormula(b: Builder, before: Expr, e: Transition, calls: Transition -> Expr) returns (r: Expr)
    requires IsFormula(before) && EdgeTyped(e, calls) && !e.Disconnected?
    ensures IsFormula(r) && forall v :: Holds(r, v) <==> Holds(before, v) && EdgeHolds(e, calls, v)
  {
    hide Eval, WellTyped, TypeOf, MakeAnd, Equates, AllHold;
    r := MakeAnd(b, [before, e.guard]);
    BothMeans(b, before, e.guard);
    if e.Assign? {
      var assigns := Equations(b, e.assigns);
      if assigns != [] {
        AllMeans(b, assigns);
        BothMeans(b, r, MakeAnd(b, assigns));
        r := MakeAnd(b, [r, MakeAnd(b, assigns)]);
      } else {
        assert forall v :: AllHold(assigns, v) by { NoEquations(); }
      }
    } else {
      BothMeans(b, r, calls(e));
      r := MakeAnd(b, [r, calls(e)]);
    }
  }

  // ---- Paths ----

  ghost predicate IsPath(edges: seq<Transition>, p: seq<Transition>, s: Loc, t: Loc) {
    && (forall i | 0 <= i < |p| :: p[i] in edges && !p[i].Disconnected?)
    && (forall i | 0 <= i < |p| - 1 :: p[i].target == p[i + 1].source)
    && if p == [] then s == t else p[0].source == s && p[|p| - 1].target == t
  }

  lemma {:induction false} PathLast(edges: seq<Transition>, p: seq<Transition>, s: Loc, t: Loc)
    requires IsPath(edges, p, s, t) && p != []
    ensures var e := p[|p| - 1]; e in edges && !e.Disconnected? && e.target == t && IsPath(edges, p[..|p| - 1], s, e.source)
  {
    var n := |p| - 1;
    if n > 0 {
      assert p[n - 1].target == p[n - 1 + 1].source;
    }
  }

  lemma {:induction false} PathExtend(edges: seq<Transition>, p: seq<Transition>, s: Loc, e: Transition)
    requires e in edges && !e.Disconnected? && IsPath(edges, p, s, e.source)
    ensures IsPath(edges, p + [e], s, e.target)
  {
    var q := p + [e];
    forall i | 0 <= i < |q| - 1 ensures q[i].target == q[i + 1].source {
      if i < |p| - 1 {
        assert p[i].target == p[i + 1].source;
      }
    }
  }

  /** Edges into `l` that start inside the region, in the order of the location's incoming list. */
  function Predecessors(edges: seq<Transition>, index: map<Loc, nat>, start: nat, l: Loc): (r: seq<Transition>)
    ensures forall e :: e in r <==> e in edges && !e.Disconnected? && e.target == l && e.source in index && index[e.source] >= start
  {
    if edges == [] then [] else
      var n := |edges| - 1;
      var e := edges[n];
      Predecessors(edges[..n], index, start, l)
      + (if !e.Disconnected? && e.target == l && e.source in index && index[e.source] >= start then [e] else [])
  }

  /** The automaton from position `start` of a topological order on. With `trace`, each location
      with several predecessors gets a discriminator, numbered from `first`. */
  datatype Region = Region(edges: seq<Transition>, topo: seq<Loc>, index: map<Loc, nat>, start: nat, calls: Transition -> Expr, trace: bool, first: nat) {

    /** Every edge into a listed location comes from an earlier one. */
    ghost predicate Topological() {
      && start < |topo|
      && (forall i | 0 <= i < |topo| :: topo[i] in index && index[topo[i]] == i)
      && (forall l | l in index :: index[l] < |topo| && topo[index[l]] == l)
      && (forall e | e in edges && !e.Disconnected? && e.target in index :: e.source in index && index[e.source] < index[e.target])
    }

    ghost predicate Valid() {
      Topological() && forall e | e in edges :: EdgeTyped(e, calls)
    }

    function Preds(l: Loc): seq<Transition> { Predecessors(edges, index, start, l) }

    /** How many locations up to position `i` have several predecessors. */
    function Joins(i: nat): nat
      requires i < |topo|
    {
      if i <= start then 0 else Joins(i - 1) + (if |Preds(topo[i])| >= 2 then 1 else 0)
    }

    /** The discriminator of the location at position `i`: a choice of two, or the predecessor's id. */
    function Disc(i: nat): Variable
      requires start < i < |topo|
    {
      Variable(first + Joins(i - 1), if |Preds(topo[i])| == 2 then BoolType else IntType)
    }

    /** The discriminator of position `i` selects predecessor `j`. */
    ghost predicate Pick(i: nat, j: nat, v: Valuation)
      requires start < i < |topo| && j < |Preds(topo[i])|
    {
      trace && |Preds(topo[i])| >= 2 ==>
        Get(v, Disc(i)) == if |Preds(topo[i])| == 2 then BoolVal(j == 0) else IntVal(Preds(topo[i])[j].source)
    }

    ghost predicate Picked(e: Transition, v: Valuation)
      requires !e.Disconnected?
    {
      && e.target in index && start < index[e.target] < |topo| && topo[index[e.target]] == e.target
      && exists j :: 0 <= j < |Preds(e.target)| && Preds(e.target)[j] == e && Pick(index[e.target], j, v)
    }

    ghost predicate PathHolds(p: seq<Transition>, v: Valuation) {
      forall i | 0 <= i < |p| :: EdgeHolds(p[i], calls, v) && !p[i].Disconnected? && Picked(p[i], v)
    }

    /** Some path from the start to `l` is true under `v`, its discriminators included. */
    ghost predicate Reached(l: Loc, v: Valuation)
      requires start < |topo|
    {
      exists p :: IsPath(edges, p, topo[start], l) && PathHolds(p, v)
    }

    ghost predicate Step(l: Loc, j: nat, v: Valuation)
      requires Topological() && l in index && start < index[l] && j < |Preds(l)|
    {
      EdgeHolds(Preds(l)[j], calls, v) && Pick(index[l], j, v) && Reached(Preds(l)[j].source, v)
    }
  }

  /** Paths only go forward in the order. */
  lemma {:induction false} PathForward(R: Region, p: seq<Transition>, s: Loc, t: Loc)
    requires R.Topological() && IsPath(R.edges, p, s, t) && t in R.index
    ensures s in R.index && R.index[s] + |p| <= R.index[t]
    decreases |p|
  {
    if p != [] {
      PathLast(R.edges, p, s, t);
      PathForward(R, p[..|p| - 1], s, p[|p| - 1].source);
    }
  }

  lemma {:induction false} NoStepAtStart(R: Region, v: Valuation)
    requires R.Topological()
    ensures R.Reached(R.topo[R.start], v)
  {
    assert IsPath(R.edges, [], R.topo[R.start], R.topo[R.start]) && R.PathHolds([], v);
  }

  lemma {:induction false} ReachedBackward(R: Region, l: Loc, v: Valuation) returns (j: nat)
    requires R.Topological() && l in R.index && R.start < R.index[l] && R.Reached(l, v)
    ensures j < |R.Preds(l)| && R.Step(l, j, v)
  {
    var s := R.topo[R.start];
    var p := SomePath(R, l, v);
    PathForward(R, p, s, l);
    PathLast(R.edges, p, s, l);
    var n := |p| - 1;
    var e := p[n];
    assert p == p[..n] + [e];
    PathHoldsExtend(R, p[..n], e, v);
    ReachedBy(R, p[..n], e.source, v);
    hide EdgeHolds, Region.Pick, Predecessors, Region.Joins, IsPath, Region.PathHolds, Region.Reached;
    j :| 0 <= j < |R.Preds(l)| && R.Preds(l)[j] == e && R.Pick(R.index[l], j, v);
  }

  lemma {:induction false} PickedPred(R: Region, l: Loc, v: Valuation, j: nat)
    requires R.Topological() && l in R.index && R.start < R.index[l] && j < |R.Preds(l)| && R.Pick(R.index[l], j, v)
    ensures var e := R.Preds(l)[j]; e in R.edges && !e.Disconnected? && e.target == l && R.Picked(e, v)
  {
    hide Region.Pick, Predecessors;
    assert R.Preds(l)[j] in R.Preds(l);
  }

  lemma {:induction false} ReachedForward(R: Region, l: Loc, v: Valuation, j: nat)
    requires R.Topological() && l in R.index && R.start < R.index[l] && j < |R.Preds(l)| && R.Step(l, j, v)
    ensures R.Reached(l, v)
  {
    hide *;
    UnfoldStep(R, l, j, v);
    PickedPred(R, l, v, j);
    var e := R.Preds(l)[j];
    var p := SomePath(R, e.source, v);
    PathExtend(R.edges, p, R.topo[R.start], e);
    PathHoldsExtend(R, p, e, v);
    ReachedBy(R, p + [e], l, v);
  }

  lemma UnfoldStep(R: Region, l: Loc, j: nat, v: Valuation)
    requires R.Topological() && l in R.index && R.start < R.index[l] && j < |R.Preds(l)| && R.Step(l, j, v)
    ensures !R.Preds(l)[j].Disconnected? && R.start < |R.topo| && R.index[l] < |R.topo| && R.topo[R.index[l]] == l
    ensures EdgeHolds(R.Preds(l)[j], R.calls, v) && R.Pick(R.index[l], j, v) && R.Reached(R.Preds(l)[j].source, v)
  {
    hide EdgeHolds, Region.Pick, Region.Reached;
    assert R.Preds(l)[j] in R.Preds(l);
  }

  lemma SomePath(R: Region, l: Loc, v: Valuation) returns (p: seq<Transition>)
    requires R.start < |R.topo| && R.Reached(l, v)
    ensures IsPath(R.edges, p, R.topo[R.start], l) && R.PathHolds(p, v)
  {
    hide IsPath, Region.PathHolds;
    p :| IsPath(R.edges, p, R.topo[R.start], l) && R.PathHolds(p, v);
  }

  lemma ReachedBy(R: Region, p: seq<Transition>, l: Loc, v: Valuation)
    requires R.start < |R.topo| && IsPath(R.edges, p, R.topo[R.start], l) && R.PathHolds(p, v)
    ensures R.Reached(l, v)
  {
    hide IsPath, Region.PathHolds;
  }

  lemma PathHoldsExtend(R: Region, p: seq<Transition>, e: Transition, v: Valuation)
    requires !e.Disconnected?
    ensures R.PathHolds(p + [e], v) <==> R.PathHolds(p, v) && EdgeHolds(e, R.calls, v) && R.Picked(e, v)
  {
    hide EdgeHolds, Region.Picked;
    var q := p + [e];
    assert q[|p|] == e && forall i | 0 <= i < |p| :: q[i] == p[i];
  }

  /** Reached at a later location means some predecessor's step. */
  lemma {:induction false} ReachedStep(R: Region, l: Loc, v: Valuation)
    requires R.Topological() && l in R.index && R.start < R.index[l]
    ensures R.Reached(l, v) <==> exists j | 0 <= j < |R.Preds(l)| :: R.Step(l, j, v)
  {
    hide Region.Step, Region.Reached;
    if R.Reached(l, v) {
      var j := ReachedBackward(R, l, v);
    }
    if j :| 0 <= j < |R.Preds(l)| && R.Step(l, j, v) {
      ReachedForward(R, l, v, j);
    }
  }

  // ---- One location ----

  datatype PathPredecessor = PathPredecessor(edge: Transition, expr: Expr)

  /** `f` is a formula for reaching `l`. */
  ghost predicate Encodes(R: Region, f: Expr, l: Loc)
    requires R.start < |R.topo|
  {
    IsFormula(f) && forall v :: Holds(f, v) <==> R.Reached(l, v)
  }

  /** `x` is a formula for coming over the edge `e`, discriminators aside. */
  ghost predicate Comes(R: Region, x: Expr, e: Transition)
    requires R.start < |R.topo| && !e.Disconnected?
  {
    IsFormula(x) && forall v :: Holds(x, v) <==> EdgeHolds(e, R.calls, v) && R.Reached(e.source, v)
  }

  ghost predicate AreEdgeFormulas(R: Region, preds: seq<PathPredecessor>, edges: seq<Transition>)
    requires R.start < |R.topo|
  {
    |preds| == |edges| && forall j | 0 <= j < |preds| :: preds[j].edge == edges[j] && !edges[j].Disconnected? && Comes(R, preds[j].expr, edges[j])
  }

  /** Walks over the incoming edges of `l`. */
  method EdgeFormulas(b: Builder, R: Region, dp: seq<Expr>, l: Loc) returns (preds: seq<PathPredecessor>)
    requires R.Valid() && l in R.index && R.index[l] == R.start + |dp|
    requires forall k | 0 <= k < |dp| :: Encodes(R, dp[k], R.topo[R.start + k])
    ensures AreEdgeFormulas(R, preds, R.Preds(l))
  {
    hide Encodes, EdgeTyped, Comes, Predecessors;
    preds := [];
    NoPredecessors(R.index, R.start, l);
    assert R.edges[..0] == [];
    for k := 0 to |R.edges|
      invariant AreEdgeFormulas(R, preds, Predecessors(R.edges[..k], R.index, R.start, l))
    {
      var e := R.edges[k];
      assert R.edges[..k + 1][..k] == R.edges[..k] && e in R.edges;
      PredecessorNext(R.edges, k, R.index, R.start, l);
      if !e.Disconnected? && e.target == l && R.index[e.source] >= R.start {
        var at := R.index[e.source] - R.start;
        assert Encodes(R, dp[at], R.topo[R.start + at]);
        var expr := OneEdge(b, R, dp[at], e);
        preds := preds + [PathPredecessor(e, expr)];
      }
    }
    assert R.edges[..|R.edges|] == R.edges;
  }

  lemma NoPredecessors(index: map<Loc, nat>, start: nat, l: Loc)
    ensures Predecessors([], index, start, l) == []
  {
  }

  lemma PredecessorNext(edges: seq<Transition>, k: nat, index: map<Loc, nat>, start: nat, l: Loc)
    requires k < |edges|
    ensures var e := edges[k];
            Predecessors(edges[..k + 1], index, start, l) == Predecessors(edges[..k], index, start, l)
              + (if !e.Disconnected? && e.target == l && e.source in index && index[e.source] >= start then [e] else [])
  {
    assert edges[..k + 1][..k] == edges[..k];
  }

  method OneEdge(b: Builder, R: Region, before: Expr, e: Transition) returns (expr: Expr)
    requires R.start < |R.topo| && !e.Disconnected? && EdgeTyped(e, R.calls) && Encodes(R, before, e.source)
    ensures Comes(R, expr, e)
  {
    expr := EdgeFormula(b, before, e, R.calls);
    hide EdgeHolds, EdgeTyped, Eval, WellTyped, TypeOf, Region.Reached;
  }

  // ---- Choosing among predecessors ----

  datatype Predecessor = Unknown | Known(expr: Expr)

  /** What is recorded about the predecessor of the location at position `i`. */
  function PredExpr(b: Builder, R: Region, i: nat): Predecessor
    requires R.start < i < |R.topo|
  {
    var preds := R.Preds(R.topo[i]);
    if |preds| == 0 then Unknown
    else if |preds| == 1 then Known(IntLit(preds[0].source))
    else if |preds| == 2 then Known(MakeSelect(b, VarRef(R.Disc(i)), IntLit(preds[0].source), IntLit(preds[1].source)))
    else Known(VarRef(R.Disc(i)))
  }

  ghost predicate Identifies(R: Region, ident: Expr, i: nat, j: nat)
    requires R.start < i < |R.topo| && j < |R.Preds(R.topo[i])|
  {
    IsFormula(ident) && forall v :: Holds(ident, v) <==> R.Pick(i, j, v)
  }

  ghost predicate IsStep(R: Region, part: Expr, i: nat, j: nat)
    requires R.Topological() && R.start < i < |R.topo| && j < |R.Preds(R.topo[i])|
  {
    IsFormula(part) && forall v :: Holds(part, v) <==> R.Step(R.topo[i], j, v)
  }

  lemma {:induction false} PartMeans(b: Builder, R: Region, expr: Expr, ident: Expr, i: nat, j: nat)
    requires R.Topological() && R.start < i < |R.topo| && j < |R.Preds(R.topo[i])| && !R.Preds(R.topo[i])[j].Disconnected?
    requires Comes(R, expr, R.Preds(R.topo[i])[j]) && Identifies(R, ident, i, j)
    ensures IsStep(R, MakeAnd(b, [expr, ident]), i, j)
  {
    BothMeans(b, expr, ident);
    hide Eval, WellTyped, TypeOf, MakeAnd, EdgeHolds, Region.Pick, Region.Reached, Region.Topological, Predecessors;
  }

  lemma {:induction false} OnlyPart(R: Region, expr: Expr, i: nat)
    requires R.Topological() && R.start < i < |R.topo| && |R.Preds(R.topo[i])| == 1 && !R.Preds(R.topo[i])[0].Disconnected?
    requires Comes(R, expr, R.Preds(R.topo[i])[0])
    ensures Encodes(R, expr, R.topo[i])
  {
    hide Eval, WellTyped, TypeOf, EdgeHolds, Region.Reached, Predecessors;
    var l := R.topo[i];
    forall v ensures Holds(expr, v) <==> R.Reached(l, v) {
      ReachedStep(R, l, v);
      assert R.Pick(i, 0, v);
      assert R.Step(l, 0, v) <==> Holds(expr, v);
    }
  }

  lemma {:induction false} PartsMean(b: Builder, R: Region, parts: seq<Expr>, i: nat)
    requires R.Topological() && R.start < i < |R.topo| && |parts| == |R.Preds(R.topo[i])|
    requires forall j | 0 <= j < |parts| :: IsStep(R, parts[j], i, j)
    ensures Encodes(R, MakeOr(b, parts), R.topo[i])
  {
    hide Eval, WellTyped, TypeOf, MakeOr, Region.Reached, Predecessors, Region.Step;
    assert AllFormulas(parts);
    OrMeans(b, parts, map[]);
    var l := R.topo[i];
    forall v ensures Holds(MakeOr(b, parts), v) <==> R.Reached(l, v) {
      OrMeans(b, parts, v);
      ReachedStep(R, l, v);
      assert forall j | 0 <= j < |parts| :: Holds(parts[j], v) <==> R.Step(l, j, v);
    }
  }

  lemma {:induction false} NothingReached(R: Region, i: nat)
    requires R.Topological() && R.start < i < |R.topo| && |R.Preds(R.topo[i])| == 0
    ensures Encodes(R, False(), R.topo[i])
  {
    forall v ensures Holds(False(), v) <==> R.Reached(R.topo[i], v) { ReachedStep(R, R.topo[i], v); }
  }

  lemma TrueIdentifies(R: Region, i: nat, j: nat)
    requires R.start < i < |R.topo| && j < |R.Preds(R.topo[i])| && (!R.trace || |R.Preds(R.topo[i])| < 2)
    ensures Identifies(R, True(), i, j)
  {
    hide Predecessors;
  }

  lemma {:induction false} FlagIdentifies(b: Builder, R: Region, i: nat)
    requires R.start < i < |R.topo| && |R.Preds(R.topo[i])| == 2 && R.trace
    ensures Identifies(R, VarRef(R.Disc(i)), i, 0) && Identifies(R, MakeNot(b, VarRef(R.Disc(i))), i, 1)
  {
    var x := R.Disc(i);
    NotMeans(b, x, map[]);
    hide Eval, WellTyped, TypeOf, MakeNot, Predecessors, Region.Joins;
    forall v ensures Holds(VarRef(x), v) <==> R.Pick(i, 0, v) { NotMeans(b, x, v); }
    forall v ensures Holds(MakeNot(b, VarRef(x)), v) <==> R.Pick(i, 1, v) { NotMeans(b, x, v); }
  }

  lemma {:induction false} IdIdentifies(b: Builder, R: Region, i: nat, j: nat)
    requires R.start < i < |R.topo| && |R.Preds(R.topo[i])| > 2 && R.trace && j < |R.Preds(R.topo[i])| && !R.Preds(R.topo[i])[j].Disconnected?
    ensures Identifies(R, MakeEq(b, VarRef(R.Disc(i)), IntLit(R.Preds(R.topo[i])[j].source)), i, j)
  {
    var x, id := R.Disc(i), R.Preds(R.topo[i])[j].source;
    assert WellTyped(IntLit(id)) && TypeOf(IntLit(id)) == x.typ;
    EqMeans(b, x, IntLit(id), map[]);
    forall v ensures Holds(MakeEq(b, VarRef(x), IntLit(id)), v) <==> R.Pick(i, j, v) {
      EqMeans(b, x, IntLit(id), v);
      assert Eval(IntLit(id), v) == IntVal(id);
    }
    hide WellTyped, TypeOf, MakeEq, Predecessors, Region.Joins;
  }

  /** Two predecessors: a flag says which one. */
  method JoinTwo(b: Builder, R: Region, preds: seq<PathPredecessor>, i: nat, disc: Variable) returns (f: Expr)
    requires R.start < i < |R.topo| && (R.trace ==> disc == R.Disc(i))
    requires R.Topological() && R.start < i < |R.topo| && |preds| == 2 && AreEdgeFormulas(R, preds, R.Preds(R.topo[i]))
    ensures Encodes(R, f, R.topo[i])
  {
    hide Comes, Encodes, Identifies, IsStep, MakeAnd, MakeOr, MakeNot, Predecessors, Region.Topological, Region.Joins;
    var p1, p2 := True(), True();
    if R.trace {
      p1, p2 := VarRef(disc), MakeNot(b, VarRef(disc));
      FlagIdentifies(b, R, i);
    } else {
      TrueIdentifies(R, i, 0);
      TrueIdentifies(R, i, 1);
    }
    PartMeans(b, R, preds[0].expr, p1, i, 0);
    PartMeans(b, R, preds[1].expr, p2, i, 1);
    var parts := [MakeAnd(b, [preds[0].expr, p1]), MakeAnd(b, [preds[1].expr, p2])];
    f := MakeOr(b, parts);
    PartsMean(b, R, parts, i);
  }

  /** More predecessors: a number holds the id of the one. */
  method JoinMany(b: Builder, R: Region, preds: seq<PathPredecessor>, i: nat, disc: Variable) returns (f: Expr)
    requires R.start < i < |R.topo| && (R.trace ==> disc == R.Disc(i))
    requires R.Topological() && R.start < i < |R.topo| && |preds| > 2 && AreEdgeFormulas(R, preds, R.Preds(R.topo[i]))
    ensures Encodes(R, f, R.topo[i])
  {
    hide Comes, Encodes, Identifies, IsStep, MakeAnd, MakeOr, MakeEq, Predecessors, Region.Topological, Region.Joins;
    var exprs: seq<Expr> := [];
    for j := 0 to |preds|
      invariant |exprs| == j && forall k | 0 <= k < j :: IsStep(R, exprs[k], i, k)
    {
      var ident := True();
      if R.trace {
        ident := MakeEq(b, VarRef(disc), IntLit(preds[j].edge.source));
        IdIdentifies(b, R, i, j);
      } else {
        TrueIdentifies(R, i, j);
      }
      PartMeans(b, R, preds[j].expr, ident, i, j);
      exprs := exprs + [MakeAnd(b, [preds[j].expr, ident])];
    }
    f := MakeOr(b, exprs);
    PartsMean(b, R, exprs, i);
  }

  /** The formula and the recorded predecessor of the location at position `i`; a location with
      several predecessors uses up the discriminator `next`. */
  method EncodeLocation(b: Builder, R: Region, dp: seq<Expr>, i: nat, next: nat) returns (f: Expr, pred: Predecessor, next': nat)
    requires R.Valid() && R.start < i < |R.topo| && i == R.start + |dp| && next == R.first + (if R.trace then R.Joins(i - 1) else 0)
    requires forall k | 0 <= k < |dp| :: Encodes(R, dp[k], R.topo[R.start + k])
    ensures Encodes(R, f, R.topo[i]) && pred == (if R.trace then PredExpr(b, R, i) else Unknown)
    ensures next' == R.first + (if R.trace then R.Joins(i) else 0)
  {
    hide Encodes, EdgeTyped, Comes, MakeSelect, Predecessors;
    pred, next' := Unknown, next;
    var preds := EdgeFormulas(b, R, dp, R.topo[i]);
    if preds == [] {
      NothingReached(R, i);
      f := False();
    } else if |preds| == 1 {
      OnlyPart(R, preds[0].expr, i);
      f := preds[0].expr;
      if R.trace {
        pred := Known(IntLit(preds[0].edge.source));
      }
    } else if |preds| == 2 {
      var disc := Variable(next, BoolType);
      if R.trace {
        pred := Known(MakeSelect(b, VarRef(disc), IntLit(preds[0].edge.source), IntLit(preds[1].edge.source)));
        next' := next + 1;
      }
      f := JoinTwo(b, R, preds, i, disc);
    } else {
      var disc := Variable(next, IntType);
      if R.trace {
        pred := Known(VarRef(disc));
        next' := next + 1;
      }
      f := JoinMany(b, R, preds, i, disc);
    }
  }

  // ---- The calculator ----

  /** What `m` becomes once the predecessors of the positions up to `i` are recorded. */
  function Recording(b: Builder, R: Region, m: map<Loc, Expr>, i: nat): map<Loc, Expr>
    requires R.start <= i < |R.topo|
  {
    if i == R.start then m
    else
      var before := Recording(b, R, m, i - 1);
      match PredExpr(b, R, i)
      case Unknown => before
      case Known(x) => before[R.topo[i] := x]
  }

  lemma StartEncodes(R: Region)
    requires R.Topological()
    ensures Encodes(R, True(), R.topo[R.start])
  {
    forall v ensures Holds(True(), v) <==> R.Reached(R.topo[R.start], v) { NoStepAtStart(R, v); }
  }

  class PathConditionCalculator {
    const builder: Builder
    const edges: seq<Transition>
    const topo: seq<Loc>
    const index: map<Loc, nat>
    const calls: Transition -> Expr
    const trace: bool                     // whether predecessors are asked for
    var predIdx: nat                      // numbers the discriminators
    var predecessors: map<Loc, Expr>      // what the callback was told

    constructor (builder: Builder, edges: seq<Transition>, topo: seq<Loc>, index: map<Loc, nat>, calls: Transition -> Expr, trace: bool, firstVariable: nat)
      ensures this.builder == builder && this.edges == edges && this.topo == topo && this.index == index && this.calls == calls && this.trace == trace
      ensures predIdx == firstVariable && predecessors == map[]
    {
      this.builder, this.edges, this.topo, this.index, this.calls, this.trace := builder, edges, topo, index, calls, trace;
      predIdx, predecessors := firstVariable, map[];
    }

    ghost function From(source: Loc): Region
      reads this
      requires source in index
    {
      Region(edges, topo, index, index[source], calls, trace, predIdx)
    }

    method Encode(source: Loc, target: Loc) returns (f: Expr)
      requires source in index && target in index && From(source).Valid() && (source != target ==> index[source] < index[target])
      modifies this`predIdx, this`predecessors
      ensures index[source] < |topo| && index[target] < |topo| && Encodes(old(From(source)), f, target)
      ensures predIdx == old(predIdx) + (if trace then old(From(source)).Joins(index[target]) else 0)
      ensures predecessors == if trace then Recording(builder, old(From(source)), old(predecessors), index[target]) else old(predecessors)
    {
      hide Encodes, EdgeTyped, Predecessors, PredExpr;
      var startIdx, targetIdx := index[source], index[target];
      var R := Region(edges, topo, index, startIdx, calls, trace, predIdx);
      StartEncodes(R);
      if source == target {
        return True();
      }
      var dp := new Expr[targetIdx - startIdx + 1](_ => False());
      dp[0] := True();
      for i := 1 to dp.Length
        invariant forall k | 0 <= k < i :: Encodes(R, dp[k], topo[startIdx + k])
        invariant predIdx == R.first + (if trace then R.Joins(startIdx + i - 1) else 0)
        invariant predecessors == if trace then Recording(builder, R, old(predecessors), startIdx + i - 1) else old(predecessors)
      {
        var formula, pred;
        formula, pred, predIdx := EncodeLocation(builder, R, dp[..i], startIdx + i, predIdx);
        if pred.Known? {
          predecessors := predecessors[topo[startIdx + i] := pred.expr];
        }
        dp[i] := formula;
      }
      f := dp[dp.Length - 1];
    }
  }

  // ---- Without discriminators: plain path quantification ----

  ghost predicate SomePathHolds(edges: seq<Transition>, calls: Transition -> Expr, s: Loc, t: Loc, v: Valuation) {
    exists p :: IsPath(edges, p, s, t) && AllEdgesHold(p, calls, v)
  }

  ghost predicate AllEdgesHold(p: seq<Transition>, calls: Transition -> Expr, v: Valuation) {
    forall i | 0 <= i < |p| :: EdgeHolds(p[i], calls, v)
  }

  /** On a path from the start, every edge is among the predecessors of its target. */
  lemma {:induction false} OnPath(R: Region, p: seq<Transition>, t: Loc)
    requires R.Topological() && IsPath(R.edges, p, R.topo[R.start], t) && t in R.index
    ensures forall i | 0 <= i < |p| :: p[i].target in R.index && R.start < R.index[p[i].target] <= R.index[t] && p[i] in R.Preds(p[i].target)
    decreases |p|
  {
    hide Predecessors;
    if p != [] {
      var s := R.topo[R.start];
      PathLast(R.edges, p, s, t);
      var n := |p| - 1;
      var e := p[n];
      OnPath(R, p[..n], e.source);
      PathForward(R, p[..n], s, e.source);
      forall i | 0 <= i < |p| ensures p[i].target in R.index && R.start < R.index[p[i].target] <= R.index[t] && p[i] in R.Preds(p[i].target) {
        if i < n { assert p[i] == p[..n][i]; }
      }
    }
  }

  lemma {:induction false} PlainPicked(R: Region, e: Transition, v: Valuation)
    requires R.Topological() && !R.trace && !e.Disconnected? && e.target in R.index && R.start < R.index[e.target] && e in R.Preds(e.target)
    ensures R.Picked(e, v)
  {
    hide Predecessors;
    var preds := R.Preds(e.target);
    var j :| 0 <= j < |preds| && preds[j] == e;
    assert R.Pick(R.index[e.target], j, v);
  }

  /** Without discriminators a location is reached exactly when some path is true. */
  lemma {:induction false} PlainReached(R: Region, t: Loc, v: Valuation)
    requires R.Topological() && !R.trace && t in R.index
    ensures R.Reached(t, v) <==> SomePathHolds(R.edges, R.calls, R.topo[R.start], t, v)
  {
    var s := R.topo[R.start];
    hide EdgeHolds, Region.Picked, Predecessors;
    if R.Reached(t, v) {
      var p := SomePath(R, t, v);
      assert AllEdgesHold(p, R.calls, v);
    }
    if SomePathHolds(R.edges, R.calls, s, t, v) {
      var p :| IsPath(R.edges, p, s, t) && AllEdgesHold(p, R.calls, v);
      OnPath(R, p, t);
      forall i | 0 <= i < |p| ensures R.Picked(p[i], v) { PlainPicked(R, p[i], v); }
      ReachedBy(R, p, t, v);
    }
  }

  /** The formula without discriminators, against paths alone. */
  lemma {:induction false} PathConditionExact(R: Region, f: Expr, t: Loc)
    requires R.Topological() && !R.trace && t in R.index && Encodes(R, f, t)
    ensures IsFormula(f) && forall v :: Holds(f, v) <==> SomePathHolds(R.edges, R.calls, R.topo[R.start], t, v)
  {
    forall v ensures Holds(f, v) <==> SomePathHolds(R.edges, R.calls, R.topo[R.start], t, v) { PlainReached(R, t, v); }
    hide SomePathHolds, Region.Reached;
  }
}
