/** Control dependences (src/LLVM/Analysis/PDG.cpp): for every edge whose target does not
    post-dominate its source, the blocks met going up the post-dominator tree from the target to the
    source's parent are recorded. The post-dominator tree is the compiler framework's, given by
    contract. */
module ControlDependence {
  type Block = nat

  datatype MaybeBlock = NoBlock | SomeBlock(block: Block)

  /** A control flow graph with one exit and its post-dominator tree. */
  datatype Graph = Graph(succs: seq<seq<Block>>, exit: Block, parent: map<Block, Block>, depth: map<Block, nat>)

  // ---- Post-dominance by paths ----

  ghost predicate IsRoute(G: Graph, r: seq<Block>, a: Block) {
    && r != [] && r[0] == a && r[|r| - 1] == G.exit && (forall k | 0 <= k < |r| :: r[k] < |G.succs|)
    && forall k | 0 < k < |r| :: r[k] in G.succs[r[k - 1]]
  }

  /** Every path from `a` to the exit goes through `x`. */
  ghost predicate PostDominates(G: Graph, x: Block, a: Block) { forall r | IsRoute(G, r, a) :: x in r }

  ghost predicate Strictly(G: Graph, x: Block, a: Block) { x != a && PostDominates(G, x, a) }

  ghost predicate ReachesExit(G: Graph, a: Block) { exists r :: IsRoute(G, r, a) }

  /** The exit is reachable from every block, and the tree is the post-dominator tree. */
  ghost predicate IsPostDomTree(G: Graph) {
    && G.exit < |G.succs| && G.succs[G.exit] == [] && G.exit !in G.parent
    && (forall a, b | 0 <= a < |G.succs| && b in G.succs[a] :: b < |G.succs|)
    && (forall a: Block | a < |G.succs| :: ReachesExit(G, a))
    && (forall a: Block | a < |G.succs| && a != G.exit :: a in G.parent)
    && (forall a | a in G.parent :: a < |G.succs| && G.parent[a] < |G.succs| && a in G.depth)
    && (forall a | a in G.parent && G.parent[a] in G.parent :: G.depth[G.parent[a]] < G.depth[a])
    && (forall a | a in G.parent :: Strictly(G, G.parent[a], a))
    && (forall a, x: Block | a in G.parent && Strictly(G, x, a) :: PostDominates(G, x, G.parent[a]))
  }

  lemma {:induction false} RouteSuffix(G: Graph, r: seq<Block>, a: Block, i: nat)
    requires IsRoute(G, r, a) && i < |r|
    ensures IsRoute(G, r[i..], r[i])
  {
    var s := r[i..];
    forall k | 0 < k < |s| ensures s[k] in G.succs[s[k - 1]] { assert r[i + k] in G.succs[r[i + k - 1]]; }
  }

  lemma {:induction false} RouteFrom(G: Graph, r: seq<Block>, a: Block, b: Block)
    requires IsRoute(G, r, b) && a < |G.succs| && b in G.succs[a]
    ensures IsRoute(G, [a] + r, a)
  {
    var s := [a] + r;
    forall k | 0 < k < |s| ensures s[k] in G.succs[s[k - 1]] {
      if k > 1 { assert r[k - 1] in G.succs[r[k - 2]]; }
    }
  }

  lemma {:induction false} Reflexive(G: Graph, x: Block)
    ensures PostDominates(G, x, x)
  {
    forall r | IsRoute(G, r, x) ensures x in r { assert r[0] in r; }
  }

  lemma {:induction false} Transitive(G: Graph, x: Block, y: Block, z: Block)
    requires PostDominates(G, x, y) && PostDominates(G, y, z)
    ensures PostDominates(G, x, z)
  {
    forall r | IsRoute(G, r, z) ensures x in r {
      var i :| 0 <= i < |r| && r[i] == y;
      RouteSuffix(G, r, z, i);
      assert x in r[i..];
    }
  }

  lemma {:induction false} Antisymmetric(G: Graph, x: Block, y: Block, r: seq<Block>)
    requires IsRoute(G, r, x) && PostDominates(G, x, y) && PostDominates(G, y, x)
    ensures x == y
    decreases |r|
  {
    if x != y {
      var i :| 0 <= i < |r| && r[i] == y;
      RouteSuffix(G, r, x, i);
      Antisymmetric(G, y, x, r[i..]);
    }
  }

  lemma {:induction false} NotBoth(G: Graph, x: Block, y: Block)
    requires IsPostDomTree(G) && x < |G.succs| && PostDominates(G, x, y) && PostDominates(G, y, x)
    ensures x == y
  {
    assert ReachesExit(G, x);
    var r :| IsRoute(G, r, x);
    Antisymmetric(G, x, y, r);
  }

  /** A strict post-dominator of a block post-dominates its successors. */
  lemma {:induction false} StrictPassesOn(G: Graph, x: Block, a: Block, b: Block)
    requires Strictly(G, x, a) && a < |G.succs| && b in G.succs[a]
    ensures PostDominates(G, x, b)
  {
    forall r | IsRoute(G, r, b) ensures x in r {
      RouteFrom(G, r, a, b);
      assert x in [a] + r;
    }
  }

  lemma {:induction false} OnlyExit(G: Graph, x: Block)
    requires G.exit < |G.succs| && PostDominates(G, x, G.exit)
    ensures x == G.exit
  {
    assert IsRoute(G, [G.exit], G.exit);
    assert x in [G.exit];
  }

  // ---- The tree ----

  /** The framework's query: `x` is `a` or an ancestor of `a`. */
  function IsAncestor(G: Graph, x: Block, a: Block): bool
    requires IsPostDomTree(G)
    decreases if a in G.parent && a in G.depth then G.depth[a] + 1 else 0
  {
    x == a || (a in G.parent && IsAncestor(G, x, G.parent[a]))
  }

  /** Ancestors in the tree are the post-dominators. */
  lemma {:induction false} AncestorsPostDominate(G: Graph, x: Block, a: Block)
    requires IsPostDomTree(G) && a < |G.succs|
    ensures IsAncestor(G, x, a) <==> PostDominates(G, x, a)
    decreases if a in G.parent && a in G.depth then G.depth[a] + 1 else 0
  {
    if x == a {
      Reflexive(G, a);
    } else if a in G.parent {
      AncestorsPostDominate(G, x, G.parent[a]);
      if PostDominates(G, x, G.parent[a]) {
        assert Strictly(G, G.parent[a], a);
        Transitive(G, x, G.parent[a], a);
      }
      assert PostDominates(G, x, a) ==> Strictly(G, x, a);
    } else if PostDominates(G, x, a) {
      OnlyExit(G, x);
    }
  }

  /** Post-dominating the parent is post-dominating strictly. */
  lemma {:induction false} AboveParent(G: Graph, x: Block, a: Block)
    requires IsPostDomTree(G) && a in G.parent && x < |G.succs|
    ensures PostDominates(G, x, G.parent[a]) <==> Strictly(G, x, a)
  {
    if PostDominates(G, x, G.parent[a]) {
      assert Strictly(G, G.parent[a], a);
      Transitive(G, x, G.parent[a], a);
      if x == a {
        NotBoth(G, a, G.parent[a]);
      }
    }
  }

  // ---- Recording ----

  /** `seen` are the post-dominators of `b` below `top`. */
  ghost predicate SeenBelow(G: Graph, seen: set<Block>, b: Block, top: Block) {
    forall x: Block :: x in seen <==> x < |G.succs| && PostDominates(G, x, b) && !PostDominates(G, x, top)
  }

  lemma {:induction false} NothingSeen(G: Graph, b: Block)
    ensures SeenBelow(G, {}, b, b)
  {
  }

  lemma {:induction false} SeeOne(G: Graph, seen: set<Block>, b: Block, top: Block)
    requires IsPostDomTree(G) && top in G.parent && PostDominates(G, top, b) && SeenBelow(G, seen, b, top)
    ensures SeenBelow(G, seen + {top}, b, G.parent[top]) && PostDominates(G, G.parent[top], b)
  {
    var up := G.parent[top];
    assert Strictly(G, up, top);
    Transitive(G, up, top, b);
    Reflexive(G, top);
    forall x: Block | x < |G.succs| ensures PostDominates(G, x, up) <==> Strictly(G, x, top) { AboveParent(G, x, top); }
    hide PostDominates, IsPostDomTree;
    forall x: Block ensures x in seen + {top} <==> x < |G.succs| && PostDominates(G, x, b) && !PostDominates(G, x, up) {
      assert x in seen <==> x < |G.succs| && PostDominates(G, x, b) && !PostDominates(G, x, top);
    }
  }

  /** The blocks met from `b` up to, but without, the parent of `a`. */
  method WalkUp(G: Graph, a: Block, b: Block) returns (seen: set<Block>)
    requires IsPostDomTree(G) && a < |G.succs| && a != G.exit && b in G.succs[a]
    ensures a in G.parent && SeenBelow(G, seen, b, G.parent[a])
  {
    hide PostDominates, SeenBelow, Strictly;
    ghost var stop := G.parent[a];
    assert Strictly(G, stop, a);
    StrictPassesOn(G, stop, a, b);
    NothingSeen(G, b);
    Reflexive(G, b);
    seen := {};
    var parent := SomeBlock(b);
    while parent.SomeBlock? && parent != SomeBlock(G.parent[a])
      invariant parent.SomeBlock? && parent.block < |G.succs|
      invariant PostDominates(G, parent.block, b) && PostDominates(G, stop, parent.block) && SeenBelow(G, seen, b, parent.block)
      decreases if parent.SomeBlock? && parent.block in G.parent && parent.block in G.depth then G.depth[parent.block] + 1 else 0
    {
      var top := parent.block;
      if top == G.exit { OnlyExit(G, stop); }
      SeeOne(G, seen, b, top);
      Continue(G, stop, top);
      seen := seen + {top};
      parent := if top in G.parent then SomeBlock(G.parent[top]) else NoBlock;
    }
  }

  lemma {:induction false} Continue(G: Graph, stop: Block, top: Block)
    requires IsPostDomTree(G) && top in G.parent && stop != top && PostDominates(G, stop, top)
    ensures PostDominates(G, stop, G.parent[top])
  {
    assert Strictly(G, stop, top);
  }

  /** `x` depends on the branch in `a`: some successor of `a` other than `a` itself leads to `x` for
      certain, while `a` does not. */
  ghost predicate DependsOn(G: Graph, x: Block, a: Block) {
    x < |G.succs| && a < |G.succs| && !Strictly(G, x, a) && exists b :: b in G.succs[a] && b != a && PostDominates(G, x, b)
  }

  /** The blocks recorded for the edge to `b`. */
  ghost predicate Recorded(G: Graph, seen: set<Block>, a: Block, b: Block) {
    forall x: Block :: x in seen <==> x < |G.succs| && b != a && PostDominates(G, x, b) && !Strictly(G, x, a)
  }

  lemma {:induction false} WalkedIsRecorded(G: Graph, seen: set<Block>, a: Block, b: Block)
    requires IsPostDomTree(G) && a in G.parent && b in G.succs[a] && !PostDominates(G, b, a) && SeenBelow(G, seen, b, G.parent[a])
    ensures Recorded(G, seen, a, b)
  {
    Reflexive(G, a);
    forall x: Block | x < |G.succs| ensures PostDominates(G, x, G.parent[a]) <==> Strictly(G, x, a) { AboveParent(G, x, a); }
    hide PostDominates, IsPostDomTree;
  }

  /** An edge whose target post-dominates its source records nothing, and need not. */
  lemma {:induction false} NothingRecorded(G: Graph, a: Block, b: Block)
    requires IsPostDomTree(G) && a < |G.succs| && b in G.succs[a] && PostDominates(G, b, a)
    ensures Recorded(G, {}, a, b)
  {
    forall x: Block | x < |G.succs| && b != a && PostDominates(G, x, b) ensures Strictly(G, x, a) {
      Transitive(G, x, b, a);
      if x == a {
        NotBoth(G, a, b);
      }
    }
  }

  ghost predicate RecordedUpTo(G: Graph, seen: set<Block>, a: Block, n: nat)
    requires a < |G.succs| && n <= |G.succs[a]|
  {
    forall x: Block :: x in seen <==> x < |G.succs| && !Strictly(G, x, a) && exists b :: b in G.succs[a][..n] && b != a && PostDominates(G, x, b)
  }

  lemma {:induction false} RecordNext(G: Graph, seen: set<Block>, more: set<Block>, a: Block, n: nat)
    requires a < |G.succs| && n < |G.succs[a]| && RecordedUpTo(G, seen, a, n) && Recorded(G, more, a, G.succs[a][n])
    ensures RecordedUpTo(G, seen + more, a, n + 1)
  {
    hide PostDominates, Strictly;
    var b := G.succs[a][n];
    assert G.succs[a][..n + 1] == G.succs[a][..n] + [b];
    forall x: Block ensures x in seen + more <==> x < |G.succs| && !Strictly(G, x, a) && exists c :: c in G.succs[a][..n + 1] && c != a && PostDominates(G, x, c) {
      assert x in more <==> x < |G.succs| && b != a && PostDominates(G, x, b) && !Strictly(G, x, a);
    }
  }

  /** All edges out of one block. */
  method DependencesOf(G: Graph, a: Block) returns (deps: set<Block>)
    requires IsPostDomTree(G) && a < |G.succs|
    ensures forall x: Block :: x in deps <==> DependsOn(G, x, a)
  {
    hide PostDominates, Strictly, Recorded, RecordedUpTo, SeenBelow;
    deps := {};
    RecordNothing(G, a);
    for k := 0 to |G.succs[a]|
      invariant RecordedUpTo(G, deps, a, k)
    {
      var b := G.succs[a][k];
      assert b in G.succs[a];
      AncestorsPostDominate(G, b, a);
      var more: set<Block> := {};
      if !IsAncestor(G, b, a) {
        more := WalkUp(G, a, b);
        WalkedIsRecorded(G, more, a, b);
      } else {
        NothingRecorded(G, a, b);
      }
      RecordNext(G, deps, more, a, k);
      deps := deps + more;
    }
    RecordedAll(G, deps, a);
  }

  lemma RecordNothing(G: Graph, a: Block)
    requires a < |G.succs|
    ensures RecordedUpTo(G, {}, a, 0)
  {
  }

  lemma {:induction false} RecordedAll(G: Graph, deps: set<Block>, a: Block)
    requires a < |G.succs| && RecordedUpTo(G, deps, a, |G.succs[a]|)
    ensures forall x: Block :: x in deps <==> DependsOn(G, x, a)
  {
    hide PostDominates, Strictly;
    assert G.succs[a][..|G.succs[a]|] == G.succs[a];
  }

  /** Block by block: what is recorded under `a` is exactly what depends on it. */
  method ControlDependences(G: Graph) returns (controlDeps: seq<set<Block>>)
    requires IsPostDomTree(G)
    ensures |controlDeps| == |G.succs| && forall a: Block, x: Block | a < |G.succs| :: x in controlDeps[a] <==> DependsOn(G, x, a)
  {
    hide DependsOn;
    controlDeps := [];
    for a := 0 to |G.succs|
      invariant |controlDeps| == a && forall c: Block, x: Block | c < a :: x in controlDeps[c] <==> DependsOn(G, x, c)
    {
      var deps := DependencesOf(G, a);
      controlDeps := controlDeps + [deps];
    }
  }

  /** `x` is control dependent on `a` as usually defined. */
  ghost predicate Usually(G: Graph, x: Block, a: Block) {
    x < |G.succs| && a < |G.succs| && !Strictly(G, x, a) && exists b :: b in G.succs[a] && PostDominates(G, x, b)
  }

  /** What is recorded under `a` agrees with the usual definition exactly when `a` has no edge to
      itself or comes back for certain from another successor too. */
  lemma {:induction false} UsualDefinition(G: Graph, a: Block)
    requires a < |G.succs|
    ensures (forall x: Block :: DependsOn(G, x, a) <==> Usually(G, x, a))
            <==> (a !in G.succs[a] || exists b :: b in G.succs[a] && b != a && PostDominates(G, a, b))
  {
    Reflexive(G, a);
    assert DependsOn(G, a, a) <==> exists b :: b in G.succs[a] && b != a && PostDominates(G, a, b);
    assert a in G.succs[a] ==> Usually(G, a, a);
    forall x: Block | x != a ensures DependsOn(G, x, a) <==> Usually(G, x, a) { }
    if a !in G.succs[a] {
      assert DependsOn(G, a, a) <==> Usually(G, a, a);
    }
    hide PostDominates;
  }

  /** A block that may repeat itself and otherwise leaves depends on itself by the usual definition,
      yet nothing is recorded. */
  lemma {:induction false} SelfEdgeIsMissed()
    ensures var G := Graph([[0, 1], []], 1, map[0 := 1], map[0 := 0]);
            IsPostDomTree(G) && Usually(G, 0, 0) && !DependsOn(G, 0, 0)
  {
    var G := Graph([[0, 1], []], 1, map[0 := 1], map[0 := 0]);
    assert IsRoute(G, [1], 1) && IsRoute(G, [0, 1], 0);
    assert ReachesExit(G, 0) && ReachesExit(G, 1);
    Reflexive(G, 0);
    assert 0 in G.succs[0];
    Reflexive(G, 1);
    assert forall x: Block | x != 1 :: x !in [1];
    forall r | IsRoute(G, r, 0) ensures 1 in r { assert r[|r| - 1] == 1; }
    forall x: Block | Strictly(G, x, 0) ensures PostDominates(G, x, 1) { assert x in [0, 1]; }
    assert !PostDominates(G, 0, 1) by { assert 0 !in [1]; }
  }
}
