/** Discriminators and the walk back through a counterexample (src/Automaton/CfaUtils.cpp, the
    predecessor expressions of `encode`; tools/gazer-bmc/Verifier/BmcTrace.cpp,
    `cex_iterator::advance`). Discriminators change no satisfiability, and under any satisfying
    valuation the walk leads from the target exactly to the source. */
module CounterexampleWalk {
  import opened Exprs
  import opened ExprRewrite
  import opened Automata
  import opened PathConditions

  // ---- Discriminators are new variables ----

  ghost predicate OldVars(e: Expr, first: nat) { forall x | x in Vars(e) :: x.id < first }

  /** No expression of the edge knows a variable numbered from `first` on. */
  ghost predicate EdgeOld(e: Transition, calls: Transition -> Expr, first: nat) {
    match e
    case Assign(_, _, g, assigns) => OldVars(g, first) && forall a | a in assigns :: a.variable.id < first && OldVars(a.value, first)
    case Call(_, _, g, _, _, _) => OldVars(g, first) && OldVars(calls(e), first)
    case Disconnected => true
  }

  ghost predicate FreshDiscriminators(R: Region) { forall e | e in R.edges :: EdgeOld(e, R.calls, R.first) }

  /** The two valuations agree on variables numbered below `n`. */
  ghost predicate AgreeBelow(v: Valuation, w: Valuation, n: nat) { forall x: Variable | x.id < n :: Get(v, x) == Get(w, x) }

  lemma {:induction false} EdgeHoldsBelow(e: Transition, calls: Transition -> Expr, v: Valuation, w: Valuation, first: nat)
    requires EdgeOld(e, calls, first) && AgreeBelow(v, w, first) && EdgeHolds(e, calls, v)
    ensures EdgeHolds(e, calls, w)
  {
    match e
    case Assign(_, _, g, assigns) =>
      EvalCongruence(g, v, w);
      forall a | a in assigns ensures Eval(a.value, v) == Eval(a.value, w) { EvalCongruence(a.value, v, w); }
      hide Eval, Vars;
    case Call(_, _, g, _, _, _) =>
      EvalCongruence(g, v, w);
      EvalCongruence(calls(e), v, w);
    case Disconnected =>
  }

  lemma {:induction false} JoinsMonotone(R: Region, i: nat, j: nat)
    requires i <= j < |R.topo|
    ensures R.Joins(i) <= R.Joins(j)
    decreases j
  {
    if i < j {
      JoinsMonotone(R, i, j - 1);
    }
  }

  /** A discriminator is numbered below everything that later positions add. */
  lemma {:induction false} PickBelow(R: Region, i: nat, j: nat, k: nat, v: Valuation, w: Valuation)
    requires R.start < i <= k < |R.topo| && j < |R.Preds(R.topo[i])| && R.Pick(i, j, v) && AgreeBelow(v, w, R.first + R.Joins(k))
    ensures R.Pick(i, j, w)
  {
    JoinsMonotone(R, i, k);
    hide Predecessors;
  }

  lemma {:induction false} PickedBelow(R: Region, e: Transition, k: nat, v: Valuation, w: Valuation)
    requires !e.Disconnected? && R.Picked(e, v) && R.index[e.target] <= k < |R.topo| && AgreeBelow(v, w, R.first + R.Joins(k))
    ensures R.Picked(e, w)
  {
    var j :| 0 <= j < |R.Preds(e.target)| && R.Preds(e.target)[j] == e && R.Pick(R.index[e.target], j, v);
    PickBelow(R, R.index[e.target], j, k, v, w);
    hide Predecessors;
  }

  lemma {:induction false} PathHoldsBelow(R: Region, p: seq<Transition>, t: Loc, v: Valuation, w: Valuation)
    requires R.Topological() && FreshDiscriminators(R) && t in R.index && R.start <= R.index[t]
    requires IsPath(R.edges, p, R.topo[R.start], t) && R.PathHolds(p, v) && AgreeBelow(v, w, R.first + R.Joins(R.index[t]))
    ensures R.PathHolds(p, w)
  {
    OnPath(R, p, t);
    hide Predecessors, EdgeHolds, Region.Picked, EdgeOld;
    forall i | 0 <= i < |p| ensures EdgeHolds(p[i], R.calls, w) && !p[i].Disconnected? && R.Picked(p[i], w) {
      assert EdgeOld(p[i], R.calls, R.first);
      EdgeHoldsBelow(p[i], R.calls, v, w, R.first);
      PickedBelow(R, p[i], R.index[t], v, w);
    }
  }

  /** The value the discriminator of position `i` takes to select predecessor `j`. */
  ghost function Selecting(R: Region, i: nat, j: nat, v: Valuation): Valuation
    requires R.start < i < |R.topo| && j < |R.Preds(R.topo[i])| && !R.Preds(R.topo[i])[j].Disconnected?
  {
    var preds := R.Preds(R.topo[i]);
    if |preds| < 2 then v else v[R.Disc(i) := if |preds| == 2 then BoolVal(j == 0) else IntVal(preds[j].source)]
  }

  lemma {:induction false} SelectingPicks(R: Region, i: nat, j: nat, v: Valuation)
    requires R.start < i < |R.topo| && j < |R.Preds(R.topo[i])| && !R.Preds(R.topo[i])[j].Disconnected?
    ensures R.Pick(i, j, Selecting(R, i, j, v)) && AgreeBelow(v, Selecting(R, i, j, v), R.first + R.Joins(i - 1))
  {
    hide Predecessors, Region.Joins;
  }

  /** Discriminators can be set so that a given true path is the one they select. */
  lemma {:induction false} Discriminate(R: Region, p: seq<Transition>, t: Loc, v: Valuation) returns (w: Valuation)
    requires R.Topological() && FreshDiscriminators(R) && t in R.index && IsPath(R.edges, p, R.topo[R.start], t) && AllEdgesHold(p, R.calls, v)
    ensures R.PathHolds(p, w) && AgreeBelow(v, w, R.first)
    decreases |p|
  {
    if p == [] {
      return v;
    }
    var s, n := R.topo[R.start], |p| - 1;
    PathLast(R.edges, p, s, t);
    var e := p[n];
    assert EdgeHolds(e, R.calls, v) && AllEdgesHold(p[..n], R.calls, v) && EdgeOld(e, R.calls, R.first);
    PathForward(R, p[..n], s, e.source);
    OnPath(R, p, t);
    var u := Discriminate(R, p[..n], e.source, v);
    hide *;
    assert p == p[..n] + [e];
    w := DiscriminateLast(R, p[..n], e, v, u);
  }

  lemma {:induction false} DiscriminateLast(R: Region, q: seq<Transition>, e: Transition, v: Valuation, u: Valuation) returns (w: Valuation)
    requires R.Topological() && FreshDiscriminators(R) && !e.Disconnected? && e.source in R.index && e.target in R.index
    requires R.start <= R.index[e.source] < R.index[e.target] && e in R.Preds(e.target) && EdgeOld(e, R.calls, R.first)
    requires IsPath(R.edges, q, R.topo[R.start], e.source) && R.PathHolds(q, u) && AgreeBelow(v, u, R.first) && EdgeHolds(e, R.calls, v)
    ensures R.PathHolds(q + [e], w) && AgreeBelow(v, w, R.first)
  {
    hide Predecessors, EdgeHolds, EdgeOld, FreshDiscriminators, Region.Pick, Region.Joins, Region.PathHolds, Selecting, IsPath;
    var i := R.index[e.target];
    var j :| 0 <= j < |R.Preds(e.target)| && R.Preds(e.target)[j] == e;
    w := Selecting(R, i, j, u);
    SelectingPicks(R, i, j, u);
    JoinsMonotone(R, R.index[e.source], i - 1);
    PathHoldsBelow(R, q, e.source, u, w);
    EdgeHoldsBelow(e, R.calls, v, w, R.first);
    assert R.Picked(e, w);
    PathHoldsExtend(R, q, e, w);
  }

  /** With discriminators, some valuation of the same original variables still makes it true. */
  lemma {:induction false} Equisatisfiable(R: Region, f: Expr, t: Loc)
    requires R.Topological() && FreshDiscriminators(R) && t in R.index && Encodes(R, f, t)
    ensures forall v :: Holds(f, v) ==> SomePathHolds(R.edges, R.calls, R.topo[R.start], t, v)
    ensures forall v :: SomePathHolds(R.edges, R.calls, R.topo[R.start], t, v) ==> exists w :: AgreeBelow(v, w, R.first) && Holds(f, w)
  {
    var s := R.topo[R.start];
    hide EdgeHolds, Predecessors, Region.Picked, FreshDiscriminators, Eval, WellTyped, TypeOf, AgreeBelow;
    forall v | Holds(f, v) ensures SomePathHolds(R.edges, R.calls, s, t, v) {
      var p := SomePath(R, t, v);
      assert AllEdgesHold(p, R.calls, v);
    }
    forall v | SomePathHolds(R.edges, R.calls, s, t, v) ensures exists w :: AgreeBelow(v, w, R.first) && Holds(f, w) {
      var p :| IsPath(R.edges, p, s, t) && AllEdgesHold(p, R.calls, v);
      var w := Discriminate(R, p, t, v);
      ReachedBy(R, p, t, w);
    }
  }

  // ---- One step back ----

  /** The recorded expression names the source of an edge that is true and starts in a reached location. */
  lemma {:induction false} RecordedSource(b: Builder, R: Region, l: Loc, v: Valuation) returns (e: Transition)
    requires R.Topological() && R.trace && l in R.index && R.start < R.index[l] && R.Reached(l, v)
    ensures PredExpr(b, R, R.index[l]).Known?
    ensures e in R.Preds(l) && !e.Disconnected? && EdgeHolds(e, R.calls, v) && R.Reached(e.source, v)
    ensures Eval(PredExpr(b, R, R.index[l]).expr, v) == IntVal(e.source)
  {
    hide *;
    var j := ReachedBackward(R, l, v);
    UnfoldStep(R, l, j, v);
    PickedPred(R, l, v, j);
    PickedSource(b, R, R.index[l], j, v);
    e := R.Preds(l)[j];
  }

  /** The recorded expression evaluates to the source of the selected predecessor. */
  lemma {:induction false} PickedSource(b: Builder, R: Region, i: nat, j: nat, v: Valuation)
    requires R.start < i < |R.topo| && R.trace && j < |R.Preds(R.topo[i])| && R.Pick(i, j, v)
    ensures PredExpr(b, R, i).Known? && !R.Preds(R.topo[i])[j].Disconnected? && Eval(PredExpr(b, R, i).expr, v) == IntVal(R.Preds(R.topo[i])[j].source)
  {
    hide Predecessors, Region.Joins, MakeSelect;
    var preds := R.Preds(R.topo[i]);
    assert forall k | 0 <= k < |preds| :: preds[k] in preds;
    if |preds| == 2 {
      SelectMeans(b, R.Disc(i), preds[0].source, preds[1].source, v);
    } else {
      assert Eval(VarRef(R.Disc(i)), v) == Get(v, R.Disc(i));
    }
  }

  lemma {:induction false} RecordedAt(b: Builder, R: Region, i: nat, l: Loc)
    requires R.Topological() && R.start <= i < |R.topo| && l in R.index
    ensures l in Recording(b, R, map[], i) <==> R.start < R.index[l] <= i && PredExpr(b, R, R.index[l]).Known?
    ensures R.start < R.index[l] <= i && PredExpr(b, R, R.index[l]).Known? ==> Recording(b, R, map[], i)[l] == PredExpr(b, R, R.index[l]).expr
    decreases i
  {
    if i > R.start {
      RecordedAt(b, R, i - 1, l);
    }
  }

  predicate Joins(e: Transition, source: Loc, current: Loc) { !e.Disconnected? && e.target == current && e.source == source }

  /** The first listed edge from `source` to `current`, if there is one. */
  function FirstEdge(edges: seq<Transition>, source: Loc, current: Loc): Transition {
    if edges == [] then Disconnected else if Joins(edges[0], source, current) then edges[0] else FirstEdge(edges[1..], source, current)
  }

  /** The first incoming edge of `current` that starts in `source`. */
  method FindEdge(edges: seq<Transition>, current: Loc, source: Loc) returns (edge: Transition)
    requires exists e :: e in edges && Joins(e, source, current)
    ensures Joins(edge, source, current) && edge == FirstEdge(edges, source, current)
    ensures exists i :: 0 <= i < |edges| && edges[i] == edge && forall k | 0 <= k < i :: !Joins(edges[k], source, current)
  {
    var i := 0;
    while i < |edges| && !Joins(edges[i], source, current)
      invariant 0 <= i <= |edges|
      invariant forall k | 0 <= k < i :: !Joins(edges[k], source, current)
      invariant FirstEdge(edges, source, current) == FirstEdge(edges[i..], source, current)
    {
      i := i + 1;
    }
    edge := edges[i];
  }

  /** Some true edge leads from `source` to `target`. */
  ghost predicate TrueEdge(R: Region, source: Loc, target: Loc, v: Valuation) {
    exists e :: e in R.edges && !e.Disconnected? && e.source == source && e.target == target && EdgeHolds(e, R.calls, v)
  }

  /** `e` is the first listed edge from `source` to `target`. */
  ghost predicate Connects(R: Region, e: Transition, source: Loc, target: Loc) {
    e in R.edges && !e.Disconnected? && e.source == source && e.target == target && e == FirstEdge(R.edges, source, target)
  }

  /** A state of the walk: a location and the edge by which the trace leaves it. */
  datatype CexState = AtEnd | At(location: Loc, outgoing: Transition)

  /** One step of the iterator under the valuation `v`. */
  method Advance(b: Builder, R: Region, targetIdx: nat, predecessors: map<Loc, Expr>, v: Valuation, current: Loc) returns (state: CexState)
    requires R.Topological() && R.trace && R.start <= targetIdx < |R.topo| && predecessors == Recording(b, R, map[], targetIdx)
    requires current in R.index && R.start <= R.index[current] <= targetIdx && R.Reached(current, v)
    ensures state.AtEnd? <==> current == R.topo[R.start]
    ensures state.At? ==> var source := state.location;
              && source in R.index && R.start <= R.index[source] < R.index[current] && R.Reached(source, v)
              && TrueEdge(R, source, current, v) && Connects(R, state.outgoing, source, current)
  {
    hide Recording, Predecessors, Region.Reached, EdgeHolds, PredExpr, Eval, Region.Joins;
    RecordedAt(b, R, targetIdx, current);
    if current !in predecessors {
      if R.index[current] > R.start {
        ghost var e := RecordedSource(b, R, current, v);
        assert false;
      }
      return AtEnd;
    }
    ghost var e := RecordedSource(b, R, current, v);
    var lit := Eval(predecessors[current], v);
    var source := lit.i;
    var edge := FindEdge(R.edges, current, source);
    state := At(source, edge);
  }

  // ---- The whole walk ----

  ghost predicate NoParallelEdges(edges: seq<Transition>) {
    forall e, d | e in edges && d in edges && !e.Disconnected? && !d.Disconnected? && e.source == d.source && e.target == d.target :: e == d
  }

  /** Neighbouring locations of the walk are joined by a true edge, and by the edge reported. */
  ghost predicate Walks(R: Region, states: seq<Loc>, taken: seq<Transition>, v: Valuation) {
    && |states| == |taken| + 1
    && forall k | 0 <= k < |taken| :: TrueEdge(R, states[k + 1], states[k], v) && Connects(R, taken[k], states[k + 1], states[k])
  }

  lemma {:induction false} WalkOn(R: Region, states: seq<Loc>, taken: seq<Transition>, v: Valuation, next: Loc, edge: Transition)
    requires Walks(R, states, taken, v) && TrueEdge(R, next, states[|states| - 1], v) && Connects(R, edge, next, states[|states| - 1])
    ensures Walks(R, states + [next], taken + [edge], v)
  {
    hide TrueEdge, Connects;
    var states', taken' := states + [next], taken + [edge];
    forall k | 0 <= k < |taken'| ensures TrueEdge(R, states'[k + 1], states'[k], v) && Connects(R, taken'[k], states'[k + 1], states'[k]) {
      if k < |taken| {
        assert taken'[k] == taken[k] && states'[k] == states[k] && states'[k + 1] == states[k + 1];
      }
    }
  }

  /** Under a valuation that satisfies the formula for `target`, the walk ends exactly at the source. */
  method Walk(b: Builder, R: Region, predecessors: map<Loc, Expr>, f: Expr, target: Loc, v: Valuation) returns (states: seq<Loc>, taken: seq<Transition>)
    requires R.Topological() && R.trace && target in R.index && R.start <= R.index[target] && predecessors == Recording(b, R, map[], R.index[target])
    requires Encodes(R, f, target) && Holds(f, v)
    ensures Walks(R, states, taken, v) && states[0] == target && states[|states| - 1] == R.topo[R.start]
    ensures forall k | 0 <= k < |taken| ::
              EdgeHolds(taken[k], R.calls, v) <==> EdgeHolds(FirstEdge(R.edges, states[k + 1], states[k]), R.calls, v)
    ensures NoParallelEdges(R.edges) ==> forall k | 0 <= k < |taken| :: EdgeHolds(taken[k], R.calls, v)
  {
    hide Recording, Region.Reached, EdgeHolds, Eval, Walks, WellTyped, TypeOf, TrueEdge, Connects;
    var current := target;
    states, taken := [target], [];
    WalkNothing(R, target, v);
    var state := Advance(b, R, R.index[target], predecessors, v, current);
    while state.At?
      invariant Walks(R, states, taken, v) && states != [] && states[0] == target && states[|states| - 1] == current
      invariant current in R.index && R.start <= R.index[current] <= R.index[target] && R.Reached(current, v)
      invariant state.AtEnd? <==> current == R.topo[R.start]
      invariant state.At? ==> var source := state.location;
                  && source in R.index && R.start <= R.index[source] < R.index[current] && R.Reached(source, v)
                  && TrueEdge(R, source, current, v) && Connects(R, state.outgoing, source, current)
      decreases R.index[current], if state.At? then 1 else 0
    {
      WalkOn(R, states, taken, v, state.location, state.outgoing);
      states, taken := states + [state.location], taken + [state.outgoing];
      current := state.location;
      state := Advance(b, R, R.index[target], predecessors, v, current);
    }
    TakenHold(R, states, taken, v);
  }

  lemma WalkNothing(R: Region, target: Loc, v: Valuation)
    ensures Walks(R, [target], [], v)
  {
  }

  /** A reported edge is true exactly when the first listed edge between its two locations is; without
      parallel edges this is always so. */
  lemma {:induction false} TakenHold(R: Region, states: seq<Loc>, taken: seq<Transition>, v: Valuation)
    requires Walks(R, states, taken, v)
    ensures |states| == |taken| + 1
    ensures forall k | 0 <= k < |taken| :: taken[k] == FirstEdge(R.edges, states[k + 1], states[k])
    ensures NoParallelEdges(R.edges) ==> forall k | 0 <= k < |taken| :: EdgeHolds(taken[k], R.calls, v)
  {
    hide EdgeHolds, FirstEdge;
    forall k | 0 <= k < |taken| ensures taken[k] == FirstEdge(R.edges, states[k + 1], states[k]) {
      assert Connects(R, taken[k], states[k + 1], states[k]);
    }
    if NoParallelEdges(R.edges) {
      forall k | 0 <= k < |taken| ensures EdgeHolds(taken[k], R.calls, v) {
        assert TrueEdge(R, states[k + 1], states[k], v) && Connects(R, taken[k], states[k + 1], states[k]);
        var e :| e in R.edges && !e.Disconnected? && e.source == states[k + 1] && e.target == states[k] && EdgeHolds(e, R.calls, v);
        assert e == taken[k];
      }
    }
  }

  // ---- The trace ----

  /** The trace reads from the source to the target. */
  ghost predicate IsTrace(R: Region, states: seq<Loc>, actions: seq<Transition>) {
    && |states| == |actions| + 1
    && forall k | 0 <= k < |actions| :: Connects(R, actions[k], states[k], states[k + 1])
  }

  lemma {:induction false} TraceIsPath(R: Region, states: seq<Loc>, actions: seq<Transition>)
    requires IsTrace(R, states, actions)
    ensures IsPath(R.edges, actions, states[0], states[|states| - 1])
    ensures forall k | 0 <= k < |actions| :: actions[k] == FirstEdge(R.edges, states[k], states[k + 1])
  {
    hide FirstEdge;
    forall k | 0 <= k < |actions|
      ensures actions[k] in R.edges && !actions[k].Disconnected? && actions[k].source == states[k] && actions[k].target == states[k + 1]
      ensures actions[k] == FirstEdge(R.edges, states[k], states[k + 1])
    {
      assert Connects(R, actions[k], states[k], states[k + 1]);
    }
  }

  lemma {:induction false} TraceTruth(R: Region, states: seq<Loc>, actions: seq<Transition>, v: Valuation)
    requires |states| == |actions| + 1 && forall k | 0 <= k < |actions| :: actions[k] == FirstEdge(R.edges, states[k], states[k + 1])
    ensures AllEdgesHold(actions, R.calls, v)
            <==> forall k | 0 <= k < |actions| :: EdgeHolds(FirstEdge(R.edges, states[k], states[k + 1]), R.calls, v)
  {
    hide EdgeHolds, FirstEdge;
    if forall k | 0 <= k < |actions| :: EdgeHolds(FirstEdge(R.edges, states[k], states[k + 1]), R.calls, v) {
      forall k | 0 <= k < |actions| ensures EdgeHolds(actions[k], R.calls, v) {
        assert actions[k] == FirstEdge(R.edges, states[k], states[k + 1]);
      }
    }
  }

  method Reverse<T>(s: seq<T>) returns (r: seq<T>)
    ensures |r| == |s| && forall k | 0 <= k < |r| :: r[k] == s[|s| - 1 - k]
  {
    r := [];
    for i := 0 to |s|
      invariant |r| == i && forall k | 0 <= k < i :: r[k] == s[i - 1 - k]
    {
      r := [s[i]] + r;
    }
  }

  lemma {:induction false} WalkedBackwards(R: Region, states: seq<Loc>, taken: seq<Transition>, v: Valuation, states': seq<Loc>, actions: seq<Transition>)
    requires Walks(R, states, taken, v) && |states'| == |states| && |actions| == |taken|
    requires (forall k | 0 <= k < |states'| :: states'[k] == states[|states| - 1 - k]) && forall k | 0 <= k < |actions| :: actions[k] == taken[|taken| - 1 - k]
    ensures IsTrace(R, states', actions)
  {
    hide TrueEdge, Connects;
    var n := |taken|;
    forall k | 0 <= k < n ensures Connects(R, actions[k], states'[k], states'[k + 1]) {
      var j := n - 1 - k;
      assert Connects(R, taken[j], states[j + 1], states[j]);
    }
  }

  /** The counterexample: a path from the source to the target, all of whose edges are true exactly
      when the first listed edge is true wherever it goes; so always without parallel edges. */
  method CreateTrace(b: Builder, R: Region, predecessors: map<Loc, Expr>, f: Expr, target: Loc, v: Valuation) returns (states: seq<Loc>, actions: seq<Transition>)
    requires R.Topological() && R.trace && target in R.index && R.start <= R.index[target] && predecessors == Recording(b, R, map[], R.index[target])
    requires Encodes(R, f, target) && Holds(f, v)
    ensures IsTrace(R, states, actions) && states[0] == R.topo[R.start] && states[|states| - 1] == target
    ensures IsPath(R.edges, actions, R.topo[R.start], target)
    ensures AllEdgesHold(actions, R.calls, v)
            <==> forall k | 0 <= k < |actions| :: EdgeHolds(FirstEdge(R.edges, states[k], states[k + 1]), R.calls, v)
    ensures NoParallelEdges(R.edges) ==> AllEdgesHold(actions, R.calls, v)
  {
    hide Recording, EdgeHolds, Eval, Connects, TrueEdge, WellTyped, TypeOf, IsPath, FirstEdge;
    var walked, taken := Walk(b, R, predecessors, f, target, v);
    states := Reverse(walked);
    actions := Reverse(taken);
    WalkedBackwards(R, walked, taken, v, states, actions);
    TraceIsPath(R, states, actions);
    TraceTruth(R, states, actions, v);
  }

  /** Two edges from 0 to 1, the first of them never true. */
  const PARALLEL := Region([Assign(0, 1, False(), []), Assign(0, 1, True(), [])], [0, 1], map[0 := 0, 1 := 1], 0, (e: Transition) => True(), true, 0)

  lemma ParallelIsRegion()
    ensures PARALLEL.Valid() && FreshDiscriminators(PARALLEL)
  {
    assert Vars(True()) == {} && Vars(False()) == {};
  }

  lemma SecondIsTrue(v: Valuation)
    ensures SomePathHolds(PARALLEL.edges, PARALLEL.calls, 0, 1, v) && !EdgeHolds(PARALLEL.edges[0], PARALLEL.calls, v)
  {
    var e := PARALLEL.edges[1];
    assert EdgeHolds(e, PARALLEL.calls, v);
    hide EdgeHolds;
    assert IsPath(PARALLEL.edges, [e], 0, 1) && AllEdgesHold([e], PARALLEL.calls, v);
  }

  /** Location 1 is reached over the second edge, yet every trace reports the first one. */
  lemma {:induction false} ParallelEdgesMislead(f: Expr, v: Valuation, states: seq<Loc>, actions: seq<Transition>)
    requires Encodes(PARALLEL, f, 1) && IsTrace(PARALLEL, states, actions) && states[0] == 0 && states[|states| - 1] == 1
    ensures PARALLEL.Valid() && FreshDiscriminators(PARALLEL) && exists w :: Holds(f, w)
    ensures !AllEdgesHold(actions, PARALLEL.calls, v)
  {
    hide EdgeHolds, SomePathHolds, Encodes, EdgeTyped, FreshDiscriminators;
    ParallelIsRegion();
    SecondIsTrue(v);
    Equisatisfiable(PARALLEL, f, 1);
    assert Connects(PARALLEL, actions[0], states[0], states[1]);
  }
}
