/** Lowest common dominators and highest common post-dominators (src/Automaton/CfaUtils.cpp,
    `findLowestCommonDominator`, `findHighestCommonPostDominator`): bit sets filled along a
    topological order hold exactly the relation "every path goes through". */
module Dominators {
  import opened Exprs
  import opened Automata

  // ---- Dominance between positions ----

  /** The predecessors of each position, all of them earlier; position 0 is where paths begin. */
  type PredLists = seq<seq<nat>>

  ghost predicate Forward(preds: PredLists) {
    preds != [] && forall i, p | 0 <= i < |preds| && p in preds[i] :: p < i
  }

  ghost predicate IsWalk(preds: PredLists, w: seq<nat>, i: nat) {
    && w != [] && w[0] == 0 && w[|w| - 1] == i && (forall k | 0 <= k < |w| :: w[k] < |preds|)
    && forall k | 0 < k < |w| :: w[k - 1] in preds[w[k]]
  }

  ghost predicate Dominates(preds: PredLists, k: nat, i: nat) {
    forall w | IsWalk(preds, w, i) :: k in w
  }

  lemma {:induction false} WalkBefore(preds: PredLists, w: seq<nat>, i: nat)
    requires IsWalk(preds, w, i) && |w| > 1
    ensures i < |preds| && w[|w| - 2] in preds[i] && IsWalk(preds, w[..|w| - 1], w[|w| - 2])
  {
    var n := |w| - 1;
    assert w[n - 1] in preds[w[n]];
    forall k | 0 < k < n ensures w[..n][k - 1] in preds[w[..n][k]] { assert w[k - 1] in preds[w[k]]; }
  }

  lemma {:induction false} WalkOn(preds: PredLists, w: seq<nat>, p: nat, i: nat)
    requires IsWalk(preds, w, p) && i < |preds| && p in preds[i]
    ensures IsWalk(preds, w + [i], i)
  {
    var w' := w + [i];
    forall k | 0 < k < |w'| ensures w'[k - 1] in preds[w'[k]] {
      if k < |w| {
        assert w'[k - 1] == w[k - 1] && w'[k] == w[k];
      }
    }
  }

  /** Positions along a walk increase. */
  lemma {:induction false} WalkIncreases(preds: PredLists, w: seq<nat>, i: nat, a: nat, b: nat)
    requires Forward(preds) && IsWalk(preds, w, i) && a < b < |w|
    ensures w[a] < w[b]
    decreases b
  {
    assert w[b - 1] in preds[w[b]];
    if a < b - 1 {
      WalkIncreases(preds, w, i, a, b - 1);
    }
  }

  lemma {:induction false} OnlyWalkToStart(preds: PredLists, k: nat)
    requires Forward(preds)
    ensures Dominates(preds, k, 0) <==> k == 0
  {
    assert IsWalk(preds, [0], 0);
    if k == 0 {
      forall w | IsWalk(preds, w, 0) ensures 0 in w { assert w[0] in w; }
    }
  }

  /** `k` dominates `i` when it is `i` or dominates every predecessor of `i`. */
  lemma {:induction false} DominatesStep(preds: PredLists, k: nat, i: nat)
    requires Forward(preds) && 0 < i < |preds|
    ensures Dominates(preds, k, i) <==> k == i || forall p | p in preds[i] :: Dominates(preds, k, p)
  {
    if k == i {
      forall w | IsWalk(preds, w, i) ensures k in w { assert w[|w| - 1] in w; }
    } else {
      if Dominates(preds, k, i) {
        forall p, w | p in preds[i] && IsWalk(preds, w, p) ensures k in w {
          WalkOn(preds, w, p, i);
          assert k in w + [i];
        }
      }
      if forall p | p in preds[i] :: Dominates(preds, k, p) {
        forall w | IsWalk(preds, w, i) ensures k in w {
          assert |w| > 1;
          WalkBefore(preds, w, i);
        }
      }
    }
  }

  // ---- Bit sets ----

  function Intersect(a: seq<bool>, b: seq<bool>): (r: seq<bool>)
    requires |a| == |b|
    ensures |r| == |a| && forall k | 0 <= k < |r| :: r[k] == (a[k] && b[k])
  {
    seq(|a|, k requires 0 <= k < |a| => a[k] && b[k])
  }

  function Ones(n: nat): (r: seq<bool>)
    ensures |r| == n && forall k | 0 <= k < n :: r[k]
  {
    seq(n, _ => true)
  }

  /** Row `i` is the set of dominators of position `i`. */
  ghost predicate IsRow(preds: PredLists, row: seq<bool>, i: nat) {
    |row| == |preds| && forall k | 0 <= k < |row| :: row[k] <==> Dominates(preds, k, i)
  }

  /** One row from the rows before it. */
  method DominatorRow(preds: PredLists, dominators: seq<seq<bool>>, i: nat) returns (bs: seq<bool>)
    requires Forward(preds) && 0 < i < |preds| && |dominators| >= i && forall p | 0 <= p < i :: IsRow(preds, dominators[p], p)
    ensures IsRow(preds, bs, i)
  {
    hide Dominates;
    bs := Ones(|preds|);
    for j := 0 to |preds[i]|
      invariant |bs| == |preds| && forall k | 0 <= k < |bs| :: bs[k] <==> forall p | p in preds[i][..j] :: Dominates(preds, k, p)
    {
      assert preds[i][j] in preds[i] && preds[i][..j + 1] == preds[i][..j] + [preds[i][j]];
      bs := Intersect(bs, dominators[preds[i][j]]);
    }
    assert preds[i][..|preds[i]|] == preds[i];
    bs := bs[i := true];
    forall k | 0 <= k < |bs| ensures bs[k] <==> Dominates(preds, k, i) { DominatesStep(preds, k, i); }
  }

  /** All dominators in one go over the positions. */
  method ComputeDominators(preds: PredLists) returns (dominators: seq<seq<bool>>)
    requires Forward(preds)
    ensures |dominators| == |preds| && forall i | 0 <= i < |preds| :: IsRow(preds, dominators[i], i)
  {
    hide Dominates;
    var numLocs := |preds|;
    var first := seq(numLocs, k => k == 0);
    forall k | 0 <= k < numLocs ensures first[k] <==> Dominates(preds, k, 0) { OnlyWalkToStart(preds, k); }
    dominators := [first];
    for i := 1 to numLocs
      invariant |dominators| == i && forall p | 0 <= p < i :: IsRow(preds, dominators[p], p)
    {
      var bs := DominatorRow(preds, dominators, i);
      dominators := dominators + [bs];
    }
  }

  ghost predicate CommonDominator(preds: PredLists, k: nat, sources: seq<nat>) {
    forall s | s in sources :: Dominates(preds, k, s)
  }

  lemma {:induction false} StartIsCommon(preds: PredLists, sources: seq<nat>)
    ensures CommonDominator(preds, 0, sources)
  {
    forall s, w | s in sources && IsWalk(preds, w, s) ensures 0 in w { assert w[0] in w; }
  }

  /** The last common dominator. */
  method HighestCommon(preds: PredLists, dominators: seq<seq<bool>>, sources: seq<nat>) returns (d: nat)
    requires Forward(preds) && |dominators| == |preds| && (forall i | 0 <= i < |preds| :: IsRow(preds, dominators[i], i))
    requires forall s | s in sources :: s < |preds|
    ensures d < |preds| && CommonDominator(preds, d, sources)
    ensures forall k | 0 <= k < |preds| && CommonDominator(preds, k, sources) :: k <= d
  {
    hide Dominates;
    var common := Ones(|preds|);
    for j := 0 to |sources|
      invariant |common| == |preds| && forall k | 0 <= k < |common| :: common[k] <==> CommonDominator(preds, k, sources[..j])
    {
      assert sources[j] in sources && sources[..j + 1] == sources[..j] + [sources[j]];
      common := Intersect(common, dominators[sources[j]]);
    }
    assert sources[..|sources|] == sources;
    StartIsCommon(preds, sources);
    assert common[0];
    d := |common| - 1;
    while d > 0 && !common[d]
      invariant 0 <= d < |common| && forall k | d < k < |common| :: !common[k]
    {
      d := d - 1;
    }
  }

  lemma {:induction false} WalkSplit(preds: PredLists, w: seq<nat>, i: nat, at: nat, q: seq<nat>)
    requires IsWalk(preds, w, i) && at < |w| && IsWalk(preds, q, w[at])
    ensures IsWalk(preds, q + w[at + 1..], i)
  {
    var r := q + w[at + 1..];
    assert at + 1 < |w| ==> r[|r| - 1] == w[|w| - 1];
    forall k | 0 < k < |r| ensures r[k - 1] in preds[r[k]] {
      if k < |q| {
        assert r[k - 1] == q[k - 1] && r[k] == q[k];
      } else {
        var m := at + 1 + (k - |q|);
        assert w[m - 1] in preds[w[m]];
        assert r[k] == w[m] && r[k - 1] == w[m - 1];
      }
    }
  }

  /** The last common dominator is dominated by all the others, provided some source is reachable. */
  lemma {:induction false} OthersDominate(preds: PredLists, sources: seq<nat>, d: nat, x: nat, w: seq<nat>, s: nat)
    requires Forward(preds) && s in sources && IsWalk(preds, w, s)
    requires CommonDominator(preds, d, sources) && CommonDominator(preds, x, sources) && x <= d
    ensures Dominates(preds, x, d)
  {
    assert d in w;
    var at :| 0 <= at < |w| && w[at] == d;
    forall q | IsWalk(preds, q, d) ensures x in q {
      WalkSplit(preds, w, s, at, q);
      var r := q + w[at + 1..];
      assert x in r;
      if x !in q {
        var m :| at + 1 <= m < |w| && w[m] == x;
        WalkIncreases(preds, w, s, at, m);
      }
    }
  }

  // ---- Routes through locations ----

  ghost predicate Linked(edges: seq<Transition>, a: Loc, b: Loc) {
    exists e :: e in edges && !e.Disconnected? && e.source == a && e.target == b
  }

  /** The locations of a path from `s` to `t`. */
  ghost predicate IsRoute(edges: seq<Transition>, route: seq<Loc>, s: Loc, t: Loc) {
    && route != [] && route[0] == s && route[|route| - 1] == t
    && forall k | 0 < k < |route| :: Linked(edges, route[k - 1], route[k])
  }

  ghost predicate Reachable(edges: seq<Transition>, s: Loc, t: Loc) {
    exists route :: IsRoute(edges, route, s, t)
  }

  /** Every path from `s` to `t` goes through `x`. */
  ghost predicate Through(edges: seq<Transition>, s: Loc, x: Loc, t: Loc) {
    forall route | IsRoute(edges, route, s, t) :: x in route
  }

  /** Every edge goes up in rank. */
  ghost predicate Climbs(edges: seq<Transition>, rank: map<Loc, int>) {
    forall e | e in edges && !e.Disconnected? :: e.source in rank && e.target in rank && rank[e.source] < rank[e.target]
  }

  /** `locs` are the locations of consecutive ranks. */
  ghost predicate Consecutive(rank: map<Loc, int>, locs: seq<Loc>) {
    && locs != [] && locs[0] in rank
    && (forall i | 0 <= i < |locs| :: locs[i] in rank && rank[locs[i]] == rank[locs[0]] + i)
    && (forall l | l in rank && 0 <= rank[l] - rank[locs[0]] < |locs| :: l in locs)
  }

  /** A stretch of the order, with the links inside it. */
  ghost predicate Slice(edges: seq<Transition>, rank: map<Loc, int>, locs: seq<Loc>, preds: PredLists) {
    && Climbs(edges, rank) && Consecutive(rank, locs) && |preds| == |locs|
    && (forall i | 0 <= i < |preds| :: ListsLinks(edges, locs, preds[i], locs[i]))
  }

  /** The list names the positions with an edge to `l`. */
  ghost predicate ListsLinks(edges: seq<Transition>, locs: seq<Loc>, list: seq<nat>, l: Loc) {
    && (forall p | p in list :: p < |locs| && Linked(edges, locs[p], l))
    && (forall p | 0 <= p < |locs| && Linked(edges, locs[p], l) :: p in list)
  }

  lemma {:induction false} SliceForward(edges: seq<Transition>, rank: map<Loc, int>, locs: seq<Loc>, preds: PredLists)
    requires Slice(edges, rank, locs, preds)
    ensures Forward(preds)
  {
    forall i, p: nat | 0 <= i < |preds| && p in preds[i] ensures p < i {
      assert ListsLinks(edges, locs, preds[i], locs[i]);
      assert p < |locs| && Linked(edges, locs[p], locs[i]);
    }
  }

  lemma {:induction false} RouteClimbs(edges: seq<Transition>, rank: map<Loc, int>, route: seq<Loc>, s: Loc, t: Loc, a: nat, b: nat)
    requires Climbs(edges, rank) && IsRoute(edges, route, s, t) && s in rank && a <= b < |route|
    ensures route[a] in rank && route[b] in rank && rank[route[a]] + (b - a) <= rank[route[b]]
    decreases b
  {
    if b > 0 {
      assert Linked(edges, route[b - 1], route[b]);
      if a < b {
        RouteClimbs(edges, rank, route, s, t, a, b - 1);
      }
    }
  }

  lemma {:induction false} RoutePosition(edges: seq<Transition>, rank: map<Loc, int>, locs: seq<Loc>, preds: PredLists, route: seq<Loc>, i: nat, k: nat)
    requires Slice(edges, rank, locs, preds) && i < |locs| && IsRoute(edges, route, locs[0], locs[i]) && k < |route|
    ensures locs[0] in rank && route[k] in rank
    ensures var p := rank[route[k]] - rank[locs[0]]; 0 <= p < |locs| && route[k] == locs[p]
  {
    hide IsRoute, Climbs, ListsLinks;
    assert route != [] && route[0] == locs[0] && route[|route| - 1] == locs[i] by { hide *; RouteEnds(edges, route, locs[0], locs[i]); }
    RouteClimbs(edges, rank, route, locs[0], locs[i], 0, k);
    RouteClimbs(edges, rank, route, locs[0], locs[i], k, |route| - 1);
    var j :| 0 <= j < |locs| && locs[j] == route[k];
  }

  lemma RouteEnds(edges: seq<Transition>, route: seq<Loc>, s: Loc, t: Loc)
    requires IsRoute(edges, route, s, t)
    ensures route != [] && route[0] == s && route[|route| - 1] == t
  {
  }

  /** A path from the first location of the slice, as positions. */
  lemma {:induction false} RouteIsWalk(edges: seq<Transition>, rank: map<Loc, int>, locs: seq<Loc>, preds: PredLists, route: seq<Loc>, i: nat) returns (w: seq<nat>)
    requires Slice(edges, rank, locs, preds) && i < |locs| && IsRoute(edges, route, locs[0], locs[i])
    ensures IsWalk(preds, w, i) && |w| == |route| && forall k | 0 <= k < |w| :: w[k] < |locs| && route[k] == locs[w[k]]
  {
    hide Slice, Linked;
    var n := |route|;
    PositionOf(edges, rank, locs, preds, i);
    forall k | 0 <= k < n ensures route[k] in rank && 0 <= rank[route[k]] - rank[locs[0]] < |locs| && locs[rank[route[k]] - rank[locs[0]]] == route[k] {
      RoutePosition(edges, rank, locs, preds, route, i, k);
    }
    w := seq(n, k requires 0 <= k < n => rank[route[k]] - rank[locs[0]]);
    forall k | 0 < k < n ensures w[k - 1] in preds[w[k]] {
      assert Linked(edges, route[k - 1], route[k]);
      LinkedPositions(edges, rank, locs, preds, w[k - 1], w[k]);
    }
  }

  lemma PositionOf(edges: seq<Transition>, rank: map<Loc, int>, locs: seq<Loc>, preds: PredLists, i: nat)
    requires Slice(edges, rank, locs, preds) && i < |locs|
    ensures |preds| == |locs| && locs[0] in rank && locs[i] in rank && rank[locs[i]] - rank[locs[0]] == i
  {
  }

  lemma PositionsLinked(edges: seq<Transition>, rank: map<Loc, int>, locs: seq<Loc>, preds: PredLists, p: nat, i: nat)
    requires Slice(edges, rank, locs, preds) && i < |preds| && p in preds[i]
    ensures |preds| == |locs| && p < |locs| && Linked(edges, locs[p], locs[i])
  {
    assert ListsLinks(edges, locs, preds[i], locs[i]);
  }

  lemma LinkedPositions(edges: seq<Transition>, rank: map<Loc, int>, locs: seq<Loc>, preds: PredLists, p: nat, i: nat)
    requires Slice(edges, rank, locs, preds) && i < |locs| && p < |locs| && Linked(edges, locs[p], locs[i])
    ensures |preds| == |locs| && p in preds[i]
  {
  }

  lemma {:induction false} WalkIsRoute(edges: seq<Transition>, rank: map<Loc, int>, locs: seq<Loc>, preds: PredLists, w: seq<nat>, i: nat) returns (route: seq<Loc>)
    requires Slice(edges, rank, locs, preds) && i < |locs| && IsWalk(preds, w, i)
    ensures IsRoute(edges, route, locs[0], locs[i]) && |w| == |route| && forall k | 0 <= k < |w| :: w[k] < |locs| && route[k] == locs[w[k]]
  {
    hide Slice, Linked;
    PositionOf(edges, rank, locs, preds, i);
    route := seq(|w|, k requires 0 <= k < |w| => locs[w[k]]);
    forall k | 0 < k < |w| ensures Linked(edges, route[k - 1], route[k]) {
      assert w[k - 1] in preds[w[k]];
      PositionsLinked(edges, rank, locs, preds, w[k - 1], w[k]);
    }
  }

  /** Dominance between positions is dominance between locations. */
  lemma {:induction false} DominanceAgrees(edges: seq<Transition>, rank: map<Loc, int>, locs: seq<Loc>, preds: PredLists, k: nat, i: nat)
    requires Slice(edges, rank, locs, preds) && i < |locs| && k < |locs|
    ensures Dominates(preds, k, i) <==> Through(edges, locs[0], locs[k], locs[i])
  {
    if Dominates(preds, k, i) {
      forall route | IsRoute(edges, route, locs[0], locs[i]) ensures locs[k] in route {
        var w := RouteIsWalk(edges, rank, locs, preds, route, i);
        var m :| 0 <= m < |w| && w[m] == k;
        assert route[m] == locs[k];
      }
    }
    if Through(edges, locs[0], locs[k], locs[i]) {
      forall w | IsWalk(preds, w, i) ensures k in w {
        var route := WalkIsRoute(edges, rank, locs, preds, w, i);
        var m :| 0 <= m < |route| && route[m] == locs[k];
        assert rank[locs[w[m]]] == rank[locs[k]];
        assert w[m] == k;
      }
    }
  }

  ghost predicate SomeReachable(edges: seq<Transition>, start: Loc, targets: seq<Loc>) {
    exists t :: t in targets && Reachable(edges, start, t)
  }

  /** Every location on all paths to the targets is on all paths to `d`. */
  ghost predicate OthersThrough(edges: seq<Transition>, start: Loc, targets: seq<Loc>, d: Loc) {
    forall x | (forall t | t in targets :: Through(edges, start, x, t)) :: Through(edges, start, x, d)
  }

  /** `d` is on every path to each target. Every such location is on every path to `d`, unless no
      target can be reached while `last` can; `d` is `last` whenever no target can be reached. */
  ghost predicate Lowest(edges: seq<Transition>, start: Loc, targets: seq<Loc>, d: Loc, last: Loc) {
    && (forall t | t in targets :: Through(edges, start, d, t))
    && (OthersThrough(edges, start, targets, d) <==> SomeReachable(edges, start, targets) || !Reachable(edges, start, last))
    && (!SomeReachable(edges, start, targets) ==> d == last)
  }

  lemma {:induction false} HighestIsLowest(edges: seq<Transition>, rank: map<Loc, int>, locs: seq<Loc>, preds: PredLists, sources: seq<nat>, targets: seq<Loc>, d: nat)
    requires Slice(edges, rank, locs, preds) && d < |locs| && |sources| == |targets|
    requires forall j | 0 <= j < |sources| :: sources[j] < |locs| && targets[j] == locs[sources[j]]
    requires CommonDominator(preds, d, sources) && forall k | 0 <= k < |preds| && CommonDominator(preds, k, sources) :: k <= d
    ensures Lowest(edges, locs[0], targets, locs[d], locs[|locs| - 1])
  {
    hide Through, Dominates;
    var s := locs[0];
    forall t | t in targets ensures Through(edges, s, locs[d], t) {
      var j :| 0 <= j < |targets| && targets[j] == t;
      assert sources[j] in sources;
      DominanceAgrees(edges, rank, locs, preds, d, sources[j]);
    }
    if SomeReachable(edges, s, targets) {
      forall x | forall t | t in targets :: Through(edges, s, x, t) ensures Through(edges, s, x, locs[d]) {
        OthersGoThrough(edges, rank, locs, preds, sources, targets, d, x);
      }
    } else {
      NoneReachable(edges, rank, locs, preds, sources, targets, d);
      VacuousOthers(edges, s, targets, locs[d]);
    }
  }

  /** When no target can be reached, every position is common and the last one is found. */
  lemma {:induction false} NoneReachable(edges: seq<Transition>, rank: map<Loc, int>, locs: seq<Loc>, preds: PredLists, sources: seq<nat>, targets: seq<Loc>, d: nat)
    requires Slice(edges, rank, locs, preds) && d < |locs| && |sources| == |targets| && !SomeReachable(edges, locs[0], targets)
    requires forall j | 0 <= j < |sources| :: sources[j] < |locs| && targets[j] == locs[sources[j]]
    requires forall k | 0 <= k < |preds| && CommonDominator(preds, k, sources) :: k <= d
    ensures d == |locs| - 1
  {
    var last := |locs| - 1;
    forall s | s in sources ensures Dominates(preds, last, s) {
      var j :| 0 <= j < |sources| && sources[j] == s;
      assert targets[j] in targets;
      assert Through(edges, locs[0], locs[last], targets[j]);
      DominanceAgrees(edges, rank, locs, preds, last, s);
    }
    hide Slice, Dominates;
    assert |preds| == |locs| by { SliceSize(edges, rank, locs, preds); }
    assert CommonDominator(preds, last, sources);
  }

  lemma SliceSize(edges: seq<Transition>, rank: map<Loc, int>, locs: seq<Loc>, preds: PredLists)
    requires Slice(edges, rank, locs, preds)
    ensures |preds| == |locs|
  {
  }

  /** When no target can be reached, all locations are on all paths to the targets. */
  lemma {:induction false} VacuousOthers(edges: seq<Transition>, s: Loc, targets: seq<Loc>, d: Loc)
    requires !SomeReachable(edges, s, targets)
    ensures OthersThrough(edges, s, targets, d) <==> !Reachable(edges, s, d)
  {
    assert forall x: Loc, t | t in targets :: Through(edges, s, x, t);
    if Reachable(edges, s, d) {
      var route :| IsRoute(edges, route, s, d);
      var x := Unvisited(route);
      assert !Through(edges, s, x, d);
      assert forall t | t in targets :: Through(edges, s, x, t);
    }
  }

  /** A number that does not occur. */
  lemma {:induction false} Unvisited(route: seq<Loc>) returns (x: Loc)
    ensures forall l | l in route :: l < x
  {
    x := 0;
    for i := 0 to |route|
      invariant forall l | l in route[..i] :: l < x
    {
      assert route[..i + 1] == route[..i] + [route[i]];
      if route[i] >= x {
        x := route[i] + 1;
      }
    }
    assert route[..|route|] == route;
  }

  lemma {:induction false} OthersGoThrough(edges: seq<Transition>, rank: map<Loc, int>, locs: seq<Loc>, preds: PredLists, sources: seq<nat>, targets: seq<Loc>, d: nat, x: Loc)
    requires Slice(edges, rank, locs, preds) && d < |locs| && |sources| == |targets|
    requires forall j | 0 <= j < |sources| :: sources[j] < |locs| && targets[j] == locs[sources[j]]
    requires CommonDominator(preds, d, sources) && forall k | 0 <= k < |preds| && CommonDominator(preds, k, sources) :: k <= d
    requires SomeReachable(edges, locs[0], targets) && forall t | t in targets :: Through(edges, locs[0], x, t)
    ensures Through(edges, locs[0], x, locs[d])
  {
    var t :| t in targets && Reachable(edges, locs[0], t);
    var j :| 0 <= j < |targets| && targets[j] == t;
    assert sources[j] in sources;
    var route :| IsRoute(edges, route, locs[0], t);
    var w := RouteIsWalk(edges, rank, locs, preds, route, sources[j]);
    var m :| 0 <= m < |route| && route[m] == x;
    var k := w[m];
    SliceForward(edges, rank, locs, preds);
    hide Through, Dominates, Slice, IsWalk, IsRoute;
    forall s | s in sources ensures Dominates(preds, k, s) {
      var i :| 0 <= i < |sources| && sources[i] == s;
      assert targets[i] in targets;
      DominanceAgrees(edges, rank, locs, preds, k, s);
    }
    OthersDominate(preds, sources, d, k, w, sources[j]);
    DominanceAgrees(edges, rank, locs, preds, k, d);
  }

  /** Dominators of all positions, then the last one common to the sources. */
  method LowestPosition(ghost edges: seq<Transition>, ghost rank: map<Loc, int>, ghost locs: seq<Loc>, preds: PredLists, sources: seq<nat>, ghost targets: seq<Loc>)
    returns (d: nat)
    requires Slice(edges, rank, locs, preds) && |sources| == |targets| && (forall s | s in sources :: s < |locs|)
    requires forall j | 0 <= j < |sources| :: sources[j] < |locs| && targets[j] == locs[sources[j]]
    ensures d < |locs| && Lowest(edges, locs[0], targets, locs[d], locs[|locs| - 1])
  {
    hide Lowest, IsRow, Forward, CommonDominator;
    SliceForward(edges, rank, locs, preds);
    var dominators := ComputeDominators(preds);
    d := HighestCommon(preds, dominators, sources);
    HighestIsLowest(edges, rank, locs, preds, sources, targets, d);
  }

  // ---- Lowest common dominator ----

  datatype MaybeLoc = NoLoc | SomeLoc(loc: Loc)

  ghost predicate TopologicalOrder(edges: seq<Transition>, topo: seq<Loc>, index: map<Loc, nat>) {
    && (forall i | 0 <= i < |topo| :: topo[i] in index && index[topo[i]] == i)
    && (forall l | l in index :: index[l] < |topo| && topo[index[l]] == l)
    && (forall e | e in edges && !e.Disconnected? :: e.source in index && e.target in index && index[e.source] < index[e.target])
  }

  ghost predicate AreEdges(targets: seq<Transition>, edges: seq<Transition>) {
    forall e | e in targets :: e in edges && !e.Disconnected?
  }

  ghost function Upward(index: map<Loc, nat>): map<Loc, int> { map l | l in index :: index[l] }

  /** Links grow with the list of edges looked at. */
  lemma {:induction false} LinksNext(edges: seq<Transition>, j: nat, locs: seq<Loc>, list: seq<nat>, l: Loc, list': seq<nat>)
    requires j < |edges| && ListsLinks(edges[..j], locs, list, l)
    requires var e := edges[j];
             if !e.Disconnected? && e.target == l && e.source in locs
             then exists p :: 0 <= p < |locs| && locs[p] == e.source && list' == list + [p] else list' == list
    requires forall p, q | 0 <= p < q < |locs| :: locs[p] != locs[q]
    ensures ListsLinks(edges[..j + 1], locs, list', l)
  {
    var e := edges[j];
    assert edges[..j + 1] == edges[..j] + [e];
    forall a: Loc ensures Linked(edges[..j + 1], a, l) <==> Linked(edges[..j], a, l) || (!e.Disconnected? && e.source == a && e.target == l) {
      if Linked(edges[..j], a, l) {
        var d :| d in edges[..j] && !d.Disconnected? && d.source == a && d.target == l;
        assert d in edges[..j + 1];
      }
      if !e.Disconnected? && e.source == a && e.target == l { assert e in edges[..j + 1]; }
    }
    hide Linked;
  }

  lemma {:induction false} RegionLocations(edges: seq<Transition>, topo: seq<Loc>, index: map<Loc, nat>, startIdx: nat, n: nat)
    requires TopologicalOrder(edges, topo, index) && startIdx + n <= |topo| && n > 0
    ensures var locs := topo[startIdx..startIdx + n];
            && Climbs(edges, Upward(index)) && Consecutive(Upward(index), locs)
            && (forall p, q | 0 <= p < q < |locs| :: locs[p] != locs[q])
            && (forall l | l in index :: l in locs <==> startIdx <= index[l] < startIdx + n)
  {
    var locs := topo[startIdx..startIdx + n];
    forall l | l in index ensures l in locs <==> startIdx <= index[l] < startIdx + n {
      if startIdx <= index[l] < startIdx + n { assert locs[index[l] - startIdx] == l; }
    }
    forall p, q | 0 <= p < q < |locs| ensures locs[p] != locs[q] { assert index[locs[p]] == startIdx + p && index[locs[q]] == startIdx + q; }
  }

  /** The positions of the sources of edges into `loc` that lie in the region. */
  method IncomingPositions(edges: seq<Transition>, topo: seq<Loc>, index: map<Loc, nat>, startIdx: nat, loc: Loc, ghost locs: seq<Loc>) returns (list: seq<nat>)
    requires TopologicalOrder(edges, topo, index) && loc in locs && (forall l | l in index :: l in locs <==> startIdx <= index[l] < startIdx + |locs|)
    requires startIdx + |locs| <= |topo| && locs == topo[startIdx..startIdx + |locs|] && forall p, q | 0 <= p < q < |locs| :: locs[p] != locs[q]
    ensures ListsLinks(edges, locs, list, loc)
  {
    hide ListsLinks;
    list := [];
    NoLinks(edges, locs, loc);
    for j := 0 to |edges|
      invariant ListsLinks(edges[..j], locs, list, loc)
    {
      var e := edges[j];
      ghost var before := list;
      assert e in edges;
      if !e.Disconnected? && e.target == loc && index[e.source] >= startIdx {
        var p := index[e.source] - startIdx;
        assert locs[p] == e.source;
        list := list + [p];
      }
      LinksNext(edges, j, locs, before, loc, list);
    }
    assert edges[..|edges|] == edges;
  }

  /** The predecessor lists of all locations of the region. */
  method PredecessorPositions(edges: seq<Transition>, topo: seq<Loc>, index: map<Loc, nat>, startIdx: nat, numLocs: nat) returns (preds: PredLists)
    requires TopologicalOrder(edges, topo, index) && startIdx + numLocs <= |topo| && numLocs > 0
    ensures |preds| == numLocs && Slice(edges, Upward(index), topo[startIdx..startIdx + numLocs], preds)
  {
    hide ListsLinks, Consecutive, Climbs, TopologicalOrder;
    RegionLocations(edges, topo, index, startIdx, numLocs);
    ghost var locs := topo[startIdx..startIdx + numLocs];
    preds := [];
    for i := 0 to numLocs
      invariant |preds| == i && forall k | 0 <= k < i :: ListsLinks(edges, locs, preds[k], locs[k])
    {
      assert topo[startIdx + i] == locs[i];
      var list := IncomingPositions(edges, topo, index, startIdx, topo[startIdx + i], locs);
      preds := preds + [list];
    }
  }

  lemma NoLinks(edges: seq<Transition>, locs: seq<Loc>, l: Loc)
    ensures ListsLinks(edges[..0], locs, [], l)
  {
  }

  /** The first target whose source comes last. */
  function LastOf(targets: seq<Transition>, index: map<Loc, nat>): (end: Transition)
    requires targets != [] && forall e | e in targets :: !e.Disconnected? && e.source in index
    ensures end in targets && forall e | e in targets :: index[e.source] <= index[end.source]
  {
    var n := |targets| - 1;
    if n == 0 then targets[0]
    else
      assert targets == targets[..n] + [targets[n]];
      var end := LastOf(targets[..n], index);
      if index[end.source] < index[targets[n].source] then targets[n] else end
  }

  method LastSource(targets: seq<Transition>, index: map<Loc, nat>) returns (end: Transition)
    requires targets != [] && forall e | e in targets :: !e.Disconnected? && e.source in index
    ensures end == LastOf(targets, index)
  {
    end := targets[0];
    assert targets[..1] == [targets[0]];
    for j := 1 to |targets|
      invariant forall e | e in targets[..j] :: e in targets
      invariant end == LastOf(targets[..j], index)
    {
      assert targets[..j + 1][..j] == targets[..j] && targets[j] in targets;
      if index[end.source] < index[targets[j].source] {
        end := targets[j];
      }
    }
    assert targets[..|targets|] == targets;
  }

  ghost function Sources(targets: seq<Transition>): (r: seq<Loc>)
    requires forall e | e in targets :: !e.Disconnected?
    ensures |r| == |targets| && forall j | 0 <= j < |r| :: targets[j] in targets && r[j] == targets[j].source
  {
    if targets == [] then [] else [targets[0].source] + Sources(targets[1..])
  }

  method SourcePositions(targets: seq<Transition>, topo: seq<Loc>, index: map<Loc, nat>, startIdx: nat, ghost numLocs: nat) returns (sources: seq<nat>)
    requires startIdx + numLocs <= |topo|
    requires forall e | e in targets :: !e.Disconnected? && e.source in index && startIdx <= index[e.source] < startIdx + numLocs && topo[index[e.source]] == e.source
    ensures |sources| == |targets|
    ensures forall j | 0 <= j < |sources| :: sources[j] < numLocs && Sources(targets)[j] == topo[startIdx..startIdx + numLocs][sources[j]]
    ensures forall s | s in sources :: s < numLocs
  {
    hide Sources;
    sources := [];
    for j := 0 to |targets|
      invariant |sources| == j && (forall s | s in sources :: s < numLocs)
      invariant forall k | 0 <= k < j :: sources[k] < numLocs && Sources(targets)[k] == topo[startIdx + sources[k]]
    {
      assert targets[j] in targets;
      sources := sources + [index[targets[j].source] - startIdx];
    }
  }

  ghost predicate EndsIndexed(e: Transition, topo: seq<Loc>, index: map<Loc, nat>) {
    && !e.Disconnected? && e.source in index && e.target in index && index[e.source] < index[e.target] < |topo|
    && topo[index[e.source]] == e.source && topo[index[e.target]] == e.target
  }

  lemma EdgeIndexed(edges: seq<Transition>, topo: seq<Loc>, index: map<Loc, nat>, e: Transition)
    requires TopologicalOrder(edges, topo, index) && e in edges && !e.Disconnected?
    ensures EndsIndexed(e, topo, index)
  {
  }

  lemma StartIndexed(edges: seq<Transition>, topo: seq<Loc>, index: map<Loc, nat>, l: Loc)
    requires TopologicalOrder(edges, topo, index) && l in index
    ensures index[l] < |topo| && topo[index[l]] == l
  {
  }

  /** The last location of the region that is looked at. */
  ghost function LastBefore(targets: seq<Transition>, topo: seq<Loc>, index: map<Loc, nat>): Loc {
    if targets != [] && (forall e | e in targets :: EndsIndexed(e, topo, index)) then topo[index[LastOf(targets, index).target] - 1] else 0
  }

  /** The returned location is on every path from the start to each target edge, and every other
      such location is on every path to it. */
  method FindLowestCommonDominator(targets: seq<Transition>, edges: seq<Transition>, topo: seq<Loc>, index: map<Loc, nat>, from: MaybeLoc) returns (r: MaybeLoc)
    requires TopologicalOrder(edges, topo, index) && AreEdges(targets, edges) && topo != []
    requires var start := if from.NoLoc? then topo[0] else from.loc; start in index && forall e | e in targets :: index[start] <= index[e.source]
    ensures r.NoLoc? <==> targets == []
    ensures r.SomeLoc? ==>
              var start := if from.NoLoc? then topo[0] else from.loc;
              Lowest(edges, start, Sources(targets), r.loc, LastBefore(targets, topo, index))
  {
    if targets == [] {
      return NoLoc;
    }
    hide Lowest, Sources, TopologicalOrder, LastOf;
    var start := if from.NoLoc? then topo[0] else from.loc;
    forall e | e in targets ensures EndsIndexed(e, topo, index) { EdgeIndexed(edges, topo, index, e); }
    var end := LastSource(targets, index);
    assert EndsIndexed(end, topo, index);
    StartIndexed(edges, topo, index, start);
    var d := LowestFrom(targets, edges, topo, index, index[start], index[end.target]);
    r := SomeLoc(topo[index[start] + d]);
  }

  method LowestFrom(targets: seq<Transition>, edges: seq<Transition>, topo: seq<Loc>, index: map<Loc, nat>, startIdx: nat, lastIdx: nat) returns (d: nat)
    requires TopologicalOrder(edges, topo, index) && startIdx < lastIdx < |topo| && (forall e | e in targets :: !e.Disconnected?)
    requires forall e | e in targets :: e.source in index && startIdx <= index[e.source] < lastIdx && topo[index[e.source]] == e.source
    ensures startIdx + d < |topo| && Lowest(edges, topo[startIdx], Sources(targets), topo[startIdx + d], topo[lastIdx - 1])
  {
    hide Slice, Lowest, Sources, TopologicalOrder;
    var numLocs := lastIdx - startIdx;
    var preds := PredecessorPositions(edges, topo, index, startIdx, numLocs);
    ghost var locs := topo[startIdx..startIdx + numLocs];
    var sources := SourcePositions(targets, topo, index, startIdx, numLocs);
    d := LowestPosition(edges, Upward(index), locs, preds, sources, Sources(targets));
  }

  // ---- Highest common post-dominator ----

  ghost function Flip(e: Transition): Transition {
    match e
    case Assign(s, t, g, assigns) => Assign(t, s, g, assigns)
    case Call(s, t, g, f, ins, outs) => Call(t, s, g, f, ins, outs)
    case Disconnected => Disconnected
  }

  /** The automaton with every edge turned around. */
  ghost function Reversed(edges: seq<Transition>): (r: seq<Transition>)
    ensures |r| == |edges| && forall i | 0 <= i < |r| :: r[i] == Flip(edges[i])
  {
    if edges == [] then [] else [Flip(edges[0])] + Reversed(edges[1..])
  }

  lemma {:induction false} FlippedLinks(edges: seq<Transition>, a: Loc, b: Loc)
    ensures Linked(Reversed(edges), a, b) <==> Linked(edges, b, a)
  {
    var r := Reversed(edges);
    if Linked(r, a, b) {
      var e :| e in r && !e.Disconnected? && e.source == a && e.target == b;
      var i :| 0 <= i < |r| && r[i] == e;
      assert edges[i] in edges;
    }
    if Linked(edges, b, a) {
      var e :| e in edges && !e.Disconnected? && e.source == b && e.target == a;
      var i :| 0 <= i < |edges| && edges[i] == e;
      assert r[i] in r;
    }
  }

  ghost function Backward(route: seq<Loc>): (r: seq<Loc>)
    ensures |r| == |route| && forall k | 0 <= k < |r| :: r[k] == route[|route| - 1 - k]
  {
    if route == [] then [] else Backward(route[1..]) + [route[0]]
  }

  lemma {:induction false} FlippedRoute(edges: seq<Transition>, route: seq<Loc>, s: Loc, t: Loc)
    requires IsRoute(Reversed(edges), route, s, t)
    ensures IsRoute(edges, Backward(route), t, s) && forall x :: x in Backward(route) <==> x in route
  {
    hide Reversed, Backward, Linked;
    var r, n := Backward(route), |route|;
    forall k | 0 < k < n ensures Linked(edges, r[k - 1], r[k]) {
      assert Linked(Reversed(edges), route[n - k - 1], route[n - k]);
      FlippedLinks(edges, route[n - k - 1], route[n - k]);
    }
    BackwardMembers(route);
  }

  lemma {:induction false} BackwardMembers(route: seq<Loc>)
    ensures forall x :: x in Backward(route) <==> x in route
  {
    var r, n := Backward(route), |route|;
    forall x | x in route ensures x in r { var k :| 0 <= k < n && route[k] == x; assert r[n - 1 - k] == x; }
  }

  lemma {:induction false} FlippedBack(edges: seq<Transition>, route: seq<Loc>, s: Loc, t: Loc)
    requires IsRoute(edges, route, t, s)
    ensures IsRoute(Reversed(edges), Backward(route), s, t) && forall x :: x in Backward(route) <==> x in route
  {
    hide Reversed, Backward, Linked;
    var r, n := Backward(route), |route|;
    forall k | 0 < k < n ensures Linked(Reversed(edges), r[k - 1], r[k]) {
      assert Linked(edges, route[n - k - 1], route[n - k]);
      FlippedLinks(edges, r[k - 1], r[k]);
    }
    BackwardMembers(route);
  }

  /** Going through in the reversed automaton is going through backwards. */
  lemma {:induction false} FlippedThrough(edges: seq<Transition>, s: Loc, x: Loc, t: Loc)
    ensures Through(Reversed(edges), s, x, t) <==> Through(edges, t, x, s)
    ensures Reachable(Reversed(edges), s, t) <==> Reachable(edges, t, s)
  {
    hide Reversed, IsRoute, Backward;
    forall route | IsRoute(Reversed(edges), route, s, t) ensures IsRoute(edges, Backward(route), t, s) && (x in Backward(route) <==> x in route) {
      FlippedRoute(edges, route, s, t);
    }
    forall route | IsRoute(edges, route, t, s) ensures IsRoute(Reversed(edges), Backward(route), s, t) && (x in Backward(route) <==> x in route) {
      FlippedBack(edges, route, s, t);
    }
  }

  ghost predicate SomeReaching(edges: seq<Transition>, exit: Loc, targets: seq<Loc>) {
    exists t :: t in targets && Reachable(edges, t, exit)
  }

  /** Every location on all paths from the targets is on all paths from `d`. */
  ghost predicate OthersThroughFrom(edges: seq<Transition>, exit: Loc, targets: seq<Loc>, d: Loc) {
    forall x | (forall t | t in targets :: Through(edges, t, x, exit)) :: Through(edges, d, x, exit)
  }

  /** `d` is on every path from each target to the exit. Every such location is on every path from
      `d`, unless no target reaches the exit while `last` does; `d` is `last` whenever none does. */
  ghost predicate Highest(edges: seq<Transition>, exit: Loc, targets: seq<Loc>, d: Loc, last: Loc) {
    && (forall t | t in targets :: Through(edges, t, d, exit))
    && (OthersThroughFrom(edges, exit, targets, d) <==> SomeReaching(edges, exit, targets) || !Reachable(edges, last, exit))
    && (!SomeReaching(edges, exit, targets) ==> d == last)
  }

  lemma {:induction false} LowestIsHighest(edges: seq<Transition>, exit: Loc, targets: seq<Loc>, d: Loc, last: Loc)
    requires Lowest(Reversed(edges), exit, targets, d, last)
    ensures Highest(edges, exit, targets, d, last)
  {
    hide Through, Reachable, Reversed;
    forall s, x, t ensures Through(Reversed(edges), s, x, t) <==> Through(edges, t, x, s) { FlippedThrough(edges, s, x, t); }
    forall t ensures Reachable(Reversed(edges), exit, t) <==> Reachable(edges, t, exit) { FlippedThrough(edges, exit, exit, t); }
    assert SomeReachable(Reversed(edges), exit, targets) <==> SomeReaching(edges, exit, targets);
    assert OthersThrough(Reversed(edges), exit, targets, d) <==> OthersThroughFrom(edges, exit, targets, d);
  }

  ghost function Downward(index: map<Loc, nat>): map<Loc, int> { map l | l in index :: var i: int := index[l]; -i }

  /** The last `n` locations up to position `startIdx`, from the end. */
  ghost function Descending(topo: seq<Loc>, startIdx: nat, n: nat): (r: seq<Loc>)
    requires n <= startIdx < |topo|
    ensures |r| == n && forall i | 0 <= i < n :: r[i] == topo[startIdx - i]
  {
    if n == 0 then [] else Descending(topo, startIdx, n - 1) + [topo[startIdx - (n - 1)]]
  }

  lemma {:induction false} ReversedClimbs(edges: seq<Transition>, topo: seq<Loc>, index: map<Loc, nat>)
    requires TopologicalOrder(edges, topo, index)
    ensures Climbs(Reversed(edges), Downward(index))
  {
    var r := Reversed(edges);
    forall e | e in r && !e.Disconnected? ensures e.source in index && e.target in index && index[e.source] > index[e.target] {
      var i :| 0 <= i < |r| && r[i] == e;
      assert edges[i] in edges;
    }
  }

  lemma {:induction false} DescendingLocations(edges: seq<Transition>, topo: seq<Loc>, index: map<Loc, nat>, startIdx: nat, n: nat)
    requires TopologicalOrder(edges, topo, index) && 0 < n <= startIdx < |topo|
    ensures var locs := Descending(topo, startIdx, n);
            && Consecutive(Downward(index), locs) && (forall p, q | 0 <= p < q < |locs| :: locs[p] != locs[q])
            && (forall l | l in index :: l in locs <==> startIdx - n < index[l] <= startIdx)
  {
    hide Descending;
    var locs := Descending(topo, startIdx, n);
    forall l | l in index ensures l in locs <==> startIdx - n < index[l] <= startIdx {
      if startIdx - n < index[l] <= startIdx { assert locs[startIdx - index[l]] == l; }
    }
    forall p, q | 0 <= p < q < |locs| ensures locs[p] != locs[q] { assert index[locs[p]] == startIdx - p && index[locs[q]] == startIdx - q; }
  }

  /** The positions of the targets of edges out of `loc` that lie in the region. */
  method OutgoingPositions(edges: seq<Transition>, topo: seq<Loc>, index: map<Loc, nat>, startIdx: nat, loc: Loc, ghost locs: seq<Loc>) returns (list: seq<nat>)
    requires TopologicalOrder(edges, topo, index) && loc in locs && |locs| <= startIdx < |topo|
    requires (forall l | l in index :: l in locs <==> startIdx - |locs| < index[l] <= startIdx)
    requires (forall i | 0 <= i < |locs| :: locs[i] == topo[startIdx - i]) && forall p, q | 0 <= p < q < |locs| :: locs[p] != locs[q]
    ensures ListsLinks(Reversed(edges), locs, list, loc)
  {
    hide ListsLinks, Reversed;
    list := [];
    ghost var flipped := Reversed(edges);
    NoLinks(flipped, locs, loc);
    for j := 0 to |edges|
      invariant ListsLinks(flipped[..j], locs, list, loc)
    {
      var e := edges[j];
      ghost var before := list;
      assert e in edges && flipped[j] == Flip(e);
      if !e.Disconnected? && e.source == loc && index[e.target] <= startIdx {
        var p := startIdx - index[e.target];
        assert locs[p] == e.target;
        list := list + [p];
      }
      LinksNext(flipped, j, locs, before, loc, list);
    }
    assert flipped[..|edges|] == flipped;
  }

  method SuccessorPositions(edges: seq<Transition>, topo: seq<Loc>, index: map<Loc, nat>, startIdx: nat, numLocs: nat) returns (preds: PredLists)
    requires TopologicalOrder(edges, topo, index) && 0 < numLocs <= startIdx < |topo|
    ensures |preds| == numLocs && Slice(Reversed(edges), Downward(index), Descending(topo, startIdx, numLocs), preds)
  {
    hide ListsLinks, Consecutive, Climbs, TopologicalOrder, Reversed, Descending;
    DescendingLocations(edges, topo, index, startIdx, numLocs);
    ReversedClimbs(edges, topo, index);
    ghost var locs := Descending(topo, startIdx, numLocs);
    preds := [];
    for i := 0 to numLocs
      invariant |preds| == i && forall k | 0 <= k < i :: ListsLinks(Reversed(edges), locs, preds[k], locs[k])
    {
      assert topo[startIdx - i] == locs[i];
      var list := OutgoingPositions(edges, topo, index, startIdx, topo[startIdx - i], locs);
      preds := preds + [list];
    }
  }

  /** The first target whose source comes first. */
  function FirstOf(targets: seq<Transition>, index: map<Loc, nat>): (end: Transition)
    requires targets != [] && forall e | e in targets :: !e.Disconnected? && e.source in index
    ensures end in targets && forall e | e in targets :: index[end.source] <= index[e.source]
  {
    var n := |targets| - 1;
    if n == 0 then targets[0]
    else
      assert targets == targets[..n] + [targets[n]];
      var end := FirstOf(targets[..n], index);
      if index[targets[n].source] < index[end.source] then targets[n] else end
  }

  method FirstSource(targets: seq<Transition>, index: map<Loc, nat>) returns (end: Transition)
    requires targets != [] && forall e | e in targets :: !e.Disconnected? && e.source in index
    ensures end == FirstOf(targets, index)
  {
    end := targets[0];
    assert targets[..1] == [targets[0]];
    for j := 1 to |targets|
      invariant forall e | e in targets[..j] :: e in targets
      invariant end == FirstOf(targets[..j], index)
    {
      assert targets[..j + 1][..j] == targets[..j] && targets[j] in targets;
      if index[targets[j].source] < index[end.source] {
        end := targets[j];
      }
    }
    assert targets[..|targets|] == targets;
  }

  /** The last location of the region that is looked at. */
  ghost function LastAfter(targets: seq<Transition>, topo: seq<Loc>, index: map<Loc, nat>): Loc {
    if targets != [] && (forall e | e in targets :: EndsIndexed(e, topo, index)) then topo[index[FirstOf(targets, index).source] + 1] else 0
  }

  ghost function Ends(targets: seq<Transition>): (r: seq<Loc>)
    requires forall e | e in targets :: !e.Disconnected?
    ensures |r| == |targets| && forall j | 0 <= j < |r| :: targets[j] in targets && r[j] == targets[j].target
  {
    if targets == [] then [] else [targets[0].target] + Ends(targets[1..])
  }

  method EndPositions(targets: seq<Transition>, topo: seq<Loc>, index: map<Loc, nat>, startIdx: nat, ghost numLocs: nat) returns (ends: seq<nat>)
    requires numLocs <= startIdx < |topo|
    requires forall e | e in targets :: !e.Disconnected? && e.target in index && startIdx - numLocs < index[e.target] <= startIdx && topo[index[e.target]] == e.target
    ensures |ends| == |targets|
    ensures forall j | 0 <= j < |ends| :: ends[j] < numLocs && Ends(targets)[j] == Descending(topo, startIdx, numLocs)[ends[j]]
    ensures forall s | s in ends :: s < numLocs
  {
    hide Ends, Descending;
    ends := [];
    for j := 0 to |targets|
      invariant |ends| == j && (forall s | s in ends :: s < numLocs)
      invariant forall k | 0 <= k < j :: ends[k] < numLocs && Ends(targets)[k] == topo[startIdx - ends[k]]
    {
      assert targets[j] in targets;
      ends := ends + [startIdx - index[targets[j].target]];
    }
  }

  /** The returned location is on every path from each target edge to the start, and every other
      such location is on every path from it. */
  method FindHighestCommonPostDominator(targets: seq<Transition>, edges: seq<Transition>, topo: seq<Loc>, index: map<Loc, nat>, exit: Loc, from: MaybeLoc)
    returns (r: MaybeLoc)
    requires TopologicalOrder(edges, topo, index) && AreEdges(targets, edges)
    requires var start := if from.NoLoc? then exit else from.loc; start in index && forall e | e in targets :: e.target in index && index[e.target] <= index[start]
    ensures r.NoLoc? <==> targets == []
    ensures r.SomeLoc? ==>
              Highest(edges, if from.NoLoc? then exit else from.loc, Ends(targets), r.loc, LastAfter(targets, topo, index))
  {
    if targets == [] {
      return NoLoc;
    }
    hide Highest, Ends, TopologicalOrder, FirstOf;
    var start := if from.NoLoc? then exit else from.loc;
    forall e | e in targets ensures EndsIndexed(e, topo, index) { EdgeIndexed(edges, topo, index, e); }
    var end := FirstSource(targets, index);
    assert EndsIndexed(end, topo, index);
    StartIndexed(edges, topo, index, start);
    var d := HighestPosition(targets, edges, topo, index, index[start], index[end.source]);
    r := SomeLoc(topo[index[start] - d]);
  }

  method HighestPosition(targets: seq<Transition>, edges: seq<Transition>, topo: seq<Loc>, index: map<Loc, nat>, startIdx: nat, lastIdx: nat) returns (d: nat)
    requires TopologicalOrder(edges, topo, index) && lastIdx < startIdx < |topo| && (forall e | e in targets :: !e.Disconnected?)
    requires forall e | e in targets :: e.target in index && lastIdx < index[e.target] <= startIdx && topo[index[e.target]] == e.target
    ensures d <= startIdx && Highest(edges, topo[startIdx], Ends(targets), topo[startIdx - d], topo[lastIdx + 1])
  {
    hide Slice, Lowest, Highest, Ends, TopologicalOrder, Reversed, Descending;
    var numLocs := startIdx - lastIdx;
    var preds := SuccessorPositions(edges, topo, index, startIdx, numLocs);
    ghost var locs := Descending(topo, startIdx, numLocs);
    var ends := EndPositions(targets, topo, index, startIdx, numLocs);
    d := LowestPosition(Reversed(edges), Downward(index), locs, preds, ends, Ends(targets));
    LowestIsHighest(edges, topo[startIdx], Ends(targets), locs[d], locs[numLocs - 1]);
  }

  // ---- Unreachable targets, on concrete inputs ----

  ghost function TwoEdges(): seq<Transition> { [Assign(0, 2, True(), []), Assign(1, 3, True(), [])] }

  ghost function InOrder(): map<Loc, nat> { map[0 := 0, 1 := 1, 2 := 2, 3 := 3] }

  lemma {:induction false} TwoLinks(a: Loc, b: Loc)
    ensures Linked(TwoEdges(), a, b) <==> (a == 0 && b == 2) || (a == 1 && b == 3)
  {
    var edges := TwoEdges();
    assert edges[0] in edges && edges[1] in edges;
  }

  lemma {:induction false} TwoRoutes(route: seq<Loc>, a: Loc, b: Loc)
    requires IsRoute(TwoEdges(), route, a, b)
    ensures route == [a] || route == [a, b]
    ensures a == b || (a == 0 && b == 2) || (a == 1 && b == 3)
  {
    hide TwoEdges;
    if |route| > 1 {
      TwoLinks(route[1 - 1], route[1]);
    }
    if |route| > 2 {
      TwoLinks(route[2 - 1], route[2]);
    }
  }

  /** With the edges 0 to 2 and 1 to 3 and the second as target, 2 is returned although 1 is on
      every path to the target and not on the path to 2. */
  lemma {:induction false} UnreachableSource(d: Loc)
    requires Lowest(TwoEdges(), 0, Sources([TwoEdges()[1]]), d, LastBefore([TwoEdges()[1]], [0, 1, 2, 3], InOrder()))
    ensures TopologicalOrder(TwoEdges(), [0, 1, 2, 3], InOrder()) && AreEdges([TwoEdges()[1]], TwoEdges())
    ensures d == 2 && Through(TwoEdges(), 0, 1, 1) && !Through(TwoEdges(), 0, 1, 2)
  {
    var edges, targets := TwoEdges(), [TwoEdges()[1]];
    assert Sources(targets) == [1];
    forall route ensures !IsRoute(edges, route, 0, 1) { if IsRoute(edges, route, 0, 1) { TwoRoutes(route, 0, 1); } }
    assert !SomeReachable(edges, 0, [1]);
    assert EndsIndexed(edges[1], [0, 1, 2, 3], InOrder());
    TwoLinks(0, 2);
    assert IsRoute(edges, [0, 2], 0, 2);
    assert 1 !in [0, 2];
  }

  /** The same edges with the first as target: 1 is returned although 2 is on every path from the
      target to 3 and not on the path from 1. */
  lemma {:induction false} UnreachedExit(d: Loc)
    requires Highest(TwoEdges(), 3, Ends([TwoEdges()[0]]), d, LastAfter([TwoEdges()[0]], [0, 1, 2, 3], InOrder()))
    ensures TopologicalOrder(TwoEdges(), [0, 1, 2, 3], InOrder()) && AreEdges([TwoEdges()[0]], TwoEdges())
    ensures d == 1 && Through(TwoEdges(), 2, 2, 3) && !Through(TwoEdges(), 1, 2, 3)
  {
    var edges, targets := TwoEdges(), [TwoEdges()[0]];
    assert Ends(targets) == [2];
    forall route ensures !IsRoute(edges, route, 2, 3) { if IsRoute(edges, route, 2, 3) { TwoRoutes(route, 2, 3); } }
    assert !SomeReaching(edges, 3, [2]);
    assert EndsIndexed(edges[0], [0, 1, 2, 3], InOrder());
    TwoLinks(1, 3);
    assert IsRoute(edges, [1, 3], 1, 3);
    assert 2 !in [1, 3];
  }
}
