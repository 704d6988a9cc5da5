/** Memory SSA (src/LLVM/Memory/MemorySSA.cpp): phi nodes are placed at iterated dominance
    frontiers, then one walk over the dominator tree gives every access the definition on top of its
    object's rename stack. On every path through the function that is the last definition executed.
    The dominator tree and the frontiers are those of the compiler framework, given by contract. */
module MemorySsa {
  type Block = nat
  type Object = nat

  datatype Access = Phi(obj: Object) | Define(obj: Object) | Use(obj: Object)

  /** An access is known by its place. */
  datatype Site = Site(block: Block, index: nat)

  datatype Reach = Nothing | By(site: Site)

  /** The accesses of each block in the order they are executed: block-level definitions, then for
      every instruction its uses before its definitions. */
  type Code = seq<seq<Access>>

  /** A function with its dominator tree; block 0 is the entry. */
  datatype Function = Function(code: Code, succs: seq<seq<Block>>, idom: map<Block, Block>, children: seq<seq<Block>>, depth: map<Block, nat>)

  const Entry: Block := 0

  // ---- Paths and dominance ----

  ghost predicate IsPath(F: Function, p: seq<Block>) {
    && p != [] && p[0] == Entry && (forall k | 0 <= k < |p| :: p[k] < |F.succs|)
    && forall k | 0 < k < |p| :: p[k] in F.succs[p[k - 1]]
  }

  ghost predicate PathTo(F: Function, p: seq<Block>, b: Block) { IsPath(F, p) && p[|p| - 1] == b }

  ghost predicate Dominates(F: Function, x: Block, b: Block) { forall p | PathTo(F, p, b) :: x in p }

  ghost predicate Reachable(F: Function, b: Block) { exists p :: PathTo(F, p, b) }

  /** What the compiler's dominator tree promises. */
  ghost predicate IsDomTree(F: Function) {
    && |F.succs| == |F.code| == |F.children| && F.code != [] && Entry !in F.idom && Entry in F.depth && F.depth[Entry] == 0
    && (forall b, s | 0 <= b < |F.succs| && s in F.succs[b] :: s < |F.succs| && s != Entry)
    && (forall b: Block :: b in F.depth <==> Reachable(F, b)) && (forall b | b in F.depth && b != Entry :: b in F.idom)
    && (forall b | b in F.idom :: b in F.depth && F.idom[b] in F.depth && F.depth[F.idom[b]] < F.depth[b] < |F.code|)
    && (forall b | b in F.idom :: F.idom[b] != b && Dominates(F, F.idom[b], b))
    && (forall b, x: Block | b in F.idom && x != b && Dominates(F, x, b) :: Dominates(F, x, F.idom[b]))
    && (forall b, c: Block | 0 <= b < |F.children| :: c in F.children[b] <==> c in F.idom && F.idom[c] == b)
  }

  ghost predicate Defines(F: Function, b: Block, o: Object) {
    b < |F.code| && exists i :: 0 <= i < |F.code[b]| && !F.code[b][i].Use? && F.code[b][i].obj == o
  }

  ghost predicate HasPhi(F: Function, b: Block, o: Object) { b < |F.code| && Phi(o) in F.code[b] }

  /** `b` is in the dominance frontier of `x`. */
  ghost predicate InFrontier(F: Function, x: Block, b: Block) {
    exists a: Block :: a < |F.succs| && b in F.succs[a] && Reachable(F, a) && Dominates(F, x, a) && !(x != b && Dominates(F, x, b))
  }

  /** Wherever a definition's dominance ends, a phi merges it; phis come first in their block. */
  ghost predicate PhisPlaced(F: Function) {
    && (forall x: Block, b: Block, o: Object | Defines(F, x, o) && Reachable(F, x) && InFrontier(F, x, b) :: HasPhi(F, b, o))
    && (forall b, i, j | 0 <= b < |F.code| && 0 <= i < j < |F.code[b]| && F.code[b][j].Phi? :: F.code[b][i].Phi?)
  }

  lemma {:induction false} PathPrefix(F: Function, p: seq<Block>, n: nat)
    requires IsPath(F, p) && 0 < n <= |p|
    ensures IsPath(F, p[..n])
  {
    forall k | 0 < k < n ensures p[..n][k] in F.succs[p[..n][k - 1]] { assert p[k] in F.succs[p[k - 1]]; }
  }

  lemma {:induction false} PathExtend(F: Function, p: seq<Block>, a: Block, b: Block)
    requires PathTo(F, p, a) && b in F.succs[a] && b < |F.succs|
    ensures PathTo(F, p + [b], b)
  {
    var q := p + [b];
    forall k | 0 < k < |q| ensures q[k] in F.succs[q[k - 1]] {
      if k < |p| { assert p[k] in F.succs[p[k - 1]]; }
    }
  }

  /** Two different blocks do not dominate each other. */
  lemma {:induction false} Antisymmetric(F: Function, x: Block, y: Block, p: seq<Block>)
    requires PathTo(F, p, x) && Dominates(F, x, y) && Dominates(F, y, x)
    ensures x == y
    decreases |p|
  {
    assert y in p;
    if x != y {
      var i :| 0 <= i < |p| && p[i] == y;
      PathPrefix(F, p, i + 1);
      assert PathTo(F, p[..i + 1], y);
      Antisymmetric(F, y, x, p[..i + 1]);
    }
  }

  lemma {:induction false} Reflexive(F: Function, x: Block)
    ensures Dominates(F, x, x)
  {
    forall p | PathTo(F, p, x) ensures x in p { assert p[|p| - 1] in p; }
  }

  // ---- What a path executes ----

  /** The last definition of `o` among the first `n` accesses of `b`. */
  function LastIn(F: Function, b: Block, n: nat, o: Object): Reach
    requires b < |F.code| && n <= |F.code[b]|
  {
    if n == 0 then Nothing
    else if !F.code[b][n - 1].Use? && F.code[b][n - 1].obj == o then By(Site(b, n - 1))
    else LastIn(F, b, n - 1, o)
  }

  function Or(r: Reach, otherwise: Reach): Reach { if r.By? then r else otherwise }

  /** The last definition of `o` executed along the whole path. */
  ghost function After(F: Function, p: seq<Block>, o: Object): Reach
    requires forall k | 0 <= k < |p| :: p[k] < |F.code|
  {
    if p == [] then Nothing
    else
      var n := |p| - 1;
      Or(LastIn(F, p[n], |F.code[p[n]]|, o), After(F, p[..n], o))
  }

  /** The last definition of `o` executed before access `i` of the path's last block. */
  ghost function At(F: Function, p: seq<Block>, i: nat, o: Object): Reach
    requires p != [] && (forall k | 0 <= k < |p| :: p[k] < |F.code|) && i <= |F.code[p[|p| - 1]]|
  {
    Or(LastIn(F, p[|p| - 1], i, o), After(F, p[..|p| - 1], o))
  }

  // ---- What the dominator tree says ----

  /** The definition of `o` found by looking back from access `i` of `b` and then up the tree. */
  ghost function Live(F: Function, b: Block, i: nat, o: Object): Reach
    requires IsDomTree(F) && b in F.depth && b < |F.code| && i <= |F.code[b]|
    decreases F.depth[b]
  {
    Or(LastIn(F, b, i, o), LiveIn(F, b, o))
  }

  ghost function LiveIn(F: Function, b: Block, o: Object): Reach
    requires IsDomTree(F) && b in F.depth && b < |F.code|
    decreases F.depth[b], 0
  {
    if b == Entry then Nothing
    else
      var d := F.idom[b];
      InCode(F, d);
      Or(LastIn(F, d, |F.code[d]|, o), LiveIn(F, d, o))
  }

  lemma InCode(F: Function, b: Block)
    requires IsDomTree(F) && b in F.depth
    ensures b < |F.code|
  {
    var p :| PathTo(F, p, b);
  }

  lemma {:induction false} LastInDefines(F: Function, b: Block, n: nat, o: Object)
    requires b < |F.code| && n <= |F.code[b]|
    ensures LastIn(F, b, n, o).By? <==> exists i :: 0 <= i < n && !F.code[b][i].Use? && F.code[b][i].obj == o
    ensures LastIn(F, b, n, o).By? ==> LastIn(F, b, n, o).site.block == b && LastIn(F, b, n, o).site.index < n
  {
    if n > 0 {
      LastInDefines(F, b, n - 1, o);
    }
  }

  /** Going up from `a` to a dominator `d` past blocks that do not define `o`. */
  lemma {:induction false} ClimbTo(F: Function, a: Block, d: Block, o: Object)
    requires IsDomTree(F) && a in F.depth && d in F.depth && Dominates(F, d, a) && a < |F.code| && d < |F.code|
    requires forall x: Block | x in F.depth && Dominates(F, x, a) && Dominates(F, d, x) && x != d :: !Defines(F, x, o)
    ensures Live(F, a, |F.code[a]|, o) == Live(F, d, |F.code[d]|, o)
    decreases F.depth[a]
  {
    if a != d {
      var e := NextUp(F, a, d);
      Reflexive(F, a);
      assert !Defines(F, a, o);
      LastInDefines(F, a, |F.code[a]|, o);
      forall x: Block | x in F.depth && Dominates(F, x, e) && Dominates(F, d, x) && x != d ensures !Defines(F, x, o) {
        DominatesTrans(F, x, e, a);
      }
      ClimbTo(F, e, d, o);
    }
  }

  lemma {:induction false} NextUp(F: Function, a: Block, d: Block) returns (e: Block)
    requires IsDomTree(F) && a in F.depth && d in F.depth && Dominates(F, d, a) && a != d
    ensures a != Entry && a in F.idom && e == F.idom[a] && e in F.depth && e < |F.code| && F.depth[e] < F.depth[a]
    ensures Dominates(F, d, e) && Dominates(F, e, a)
  {
    assert PathTo(F, [Entry], Entry);
    assert a == Entry ==> d in [Entry];
    e := F.idom[a];
    InCode(F, e);
  }

  lemma {:induction false} DominatesTrans(F: Function, x: Block, y: Block, z: Block)
    requires Dominates(F, x, y) && Dominates(F, y, z)
    ensures Dominates(F, x, z)
  {
    forall p | PathTo(F, p, z) ensures x in p {
      assert y in p;
      var i :| 0 <= i < |p| && p[i] == y;
      PathPrefix(F, p, i + 1);
      assert PathTo(F, p[..i + 1], y);
      assert x in p[..i + 1];
    }
  }

  lemma {:induction false} DominatorIsReachable(F: Function, x: Block, a: Block)
    requires Reachable(F, a) && Dominates(F, x, a)
    ensures Reachable(F, x)
  {
    var p :| PathTo(F, p, a);
    var i :| 0 <= i < |p| && p[i] == x;
    PathPrefix(F, p, i + 1);
    assert PathTo(F, p[..i + 1], x);
  }

  /** The immediate dominator of a block dominates the block's predecessors. */
  lemma {:induction false} DominatesPredecessor(F: Function, a: Block, b: Block)
    requires IsDomTree(F) && b in F.idom && a < |F.succs| && b in F.succs[a]
    ensures Dominates(F, F.idom[b], a)
  {
    forall p | PathTo(F, p, a) ensures F.idom[b] in p {
      PathExtend(F, p, a, b);
      assert F.idom[b] in p + [b];
    }
  }

  /** A definition on the way from the immediate dominator to a predecessor needs a phi. */
  lemma {:induction false} DefinitionNeedsPhi(F: Function, a: Block, b: Block, x: Block, o: Object)
    requires IsDomTree(F) && PhisPlaced(F) && b in F.idom && a < |F.succs| && b in F.succs[a] && Reachable(F, a)
    requires Dominates(F, x, a) && Dominates(F, F.idom[b], x) && x != F.idom[b] && Defines(F, x, o)
    ensures HasPhi(F, b, o)
  {
    DominatorIsReachable(F, x, a);
    var p :| PathTo(F, p, x);
    if x != b && Dominates(F, x, b) {
      Antisymmetric(F, x, F.idom[b], p);
    }
    assert InFrontier(F, x, b);
    hide IsDomTree;
  }

  /** Without a phi, what is live at the end of a predecessor is what the tree says. */
  lemma {:induction false} EdgeMeets(F: Function, a: Block, b: Block, o: Object)
    requires IsDomTree(F) && PhisPlaced(F) && a in F.depth && a < |F.code| && b in F.succs[a] && !HasPhi(F, b, o)
    ensures b in F.depth && b < |F.code| && Live(F, a, |F.code[a]|, o) == LiveIn(F, b, o)
  {
    var p :| PathTo(F, p, a);
    PathExtend(F, p, a, b);
    assert Reachable(F, b) && b != Entry;
    InCode(F, b);
    var d := F.idom[b];
    InCode(F, d);
    DominatesPredecessor(F, a, b);
    forall x: Block | x in F.depth && Dominates(F, x, a) && Dominates(F, d, x) && x != d ensures !Defines(F, x, o) {
      if Defines(F, x, o) { DefinitionNeedsPhi(F, a, b, x, o); }
    }
    hide PhisPlaced, Dominates, Defines, LastIn;
    ClimbTo(F, a, d, o);
  }

  lemma {:induction false} PathIsInCode(F: Function, p: seq<Block>)
    requires IsDomTree(F) && IsPath(F, p)
    ensures (forall k | 0 <= k < |p| :: p[k] < |F.code|) && p[|p| - 1] in F.depth
  {
    assert PathTo(F, p, p[|p| - 1]);
  }

  /** Along every path, the last definition at the end of a block is the one live there. */
  lemma {:induction false} PathAgrees(F: Function, p: seq<Block>, o: Object)
    requires IsDomTree(F) && PhisPlaced(F) && IsPath(F, p)
    ensures (forall k | 0 <= k < |p| :: p[k] < |F.code|) && p[|p| - 1] in F.depth
    ensures var b := p[|p| - 1]; After(F, p, o) == Live(F, b, |F.code[b]|, o)
    decreases |p|
  {
    PathIsInCode(F, p);
    var n := |p| - 1;
    var b := p[n];
    if n == 0 {
      assert p[..0] == [];
    } else {
      BeforeBlock(F, p, o);
      LastInDefines(F, b, |F.code[b]|, o);
    }
  }

  /** When the last block has no phi for `o`, what was executed before it is what the tree says. */
  lemma {:induction false} BeforeBlock(F: Function, p: seq<Block>, o: Object)
    requires IsDomTree(F) && PhisPlaced(F) && IsPath(F, p)
    ensures (forall k | 0 <= k < |p| :: p[k] < |F.code|) && p[|p| - 1] in F.depth
    ensures !HasPhi(F, p[|p| - 1], o) ==> After(F, p[..|p| - 1], o) == LiveIn(F, p[|p| - 1], o)
    decreases |p|, 0
  {
    PathIsInCode(F, p);
    var n := |p| - 1;
    if n > 0 && !HasPhi(F, p[n], o) {
      PathPrefix(F, p, n);
      PathAgrees(F, p[..n], o);
      assert p[n] in F.succs[p[n - 1]];
      EdgeMeets(F, p[n - 1], p[n], o);
    }
  }

  /** Every path to a use or an ordinary definition executes, last of all, the definition that is
      live at that access. */
  lemma {:induction false} EveryPath(F: Function, p: seq<Block>, i: nat)
    requires IsDomTree(F) && PhisPlaced(F) && IsPath(F, p) && p[|p| - 1] < |F.code| && i < |F.code[p[|p| - 1]]| && !F.code[p[|p| - 1]][i].Phi?
    ensures (forall k | 0 <= k < |p| :: p[k] < |F.code|) && p[|p| - 1] in F.depth
    ensures var b := p[|p| - 1]; At(F, p, i, F.code[b][i].obj) == Live(F, b, i, F.code[b][i].obj)
  {
    var b := p[|p| - 1];
    var o := F.code[b][i].obj;
    BeforeBlock(F, p, o);
    LastInDefines(F, b, i, o);
    if HasPhi(F, b, o) {
      var j :| 0 <= j < |F.code[b]| && F.code[b][j] == Phi(o);
      assert j < i;
    }
  }

  // ---- Placing phis ----

  /** The first `n` objects have their phis in front of the original accesses. */
  ghost predicate Prefixed(code0: Code, code: Code, phiBlocks: seq<seq<Block>>, n: nat)
    requires n <= |phiBlocks|
  {
    && |code| == |code0| && (forall b | 0 <= b < |code| :: IsPrefixed(code0[b], code[b]))
    && (forall o, b | 0 <= o < n && 0 <= b < |code| && b in phiBlocks[o] :: Phi(o) in code[b])
    && (forall o: Object, b | 0 <= b < |code| && Phi(o) in code[b] :: o < |phiBlocks| && b in phiBlocks[o])
  }

  ghost predicate IsPrefixed(was: seq<Access>, now: seq<Access>) {
    |was| <= |now| && now[|now| - |was|..] == was && forall i | 0 <= i < |now| - |was| :: now[i].Phi?
  }

  lemma {:induction false} PrefixOne(was: seq<Access>, now: seq<Access>, o: Object)
    requires IsPrefixed(was, now)
    ensures IsPrefixed(was, [Phi(o)] + now)
  {
    var all := [Phi(o)] + now;
    assert all[|all| - |was|..] == now[|now| - |was|..];
  }

  /** What the compiler's iterated dominance frontier promises: it holds the frontier of every block
      that defines the object and of its own blocks. */
  ghost predicate IsIterated(F: Function, phiBlocks: seq<seq<Block>>) {
    && (forall x: Block, o: Object | Defines(F, x, o) :: o < |phiBlocks|)
    && (forall o, b | 0 <= o < |phiBlocks| && b in phiBlocks[o] :: b < |F.code|)
    && (forall x: Block, b: Block, o | 0 <= o < |phiBlocks| && (Defines(F, x, o) || x in phiBlocks[o]) && Reachable(F, x) && InFrontier(F, x, b) :: b in phiBlocks[o])
  }

  /** How often `b` stands in the first `n` frontiers, `j` blocks of the next one included. */
  ghost predicate Counts(code: Code, phiBlocks: seq<seq<Block>>, n: nat, j: nat)
    requires n < |phiBlocks| ==> j <= |phiBlocks[n]|
  {
    forall o: Object, b | 0 <= b < |code| ::
      multiset(code[b])[Phi(o)]
      == if o < n && o < |phiBlocks| then multiset(phiBlocks[o])[b] else if o == n < |phiBlocks| then multiset(phiBlocks[o][..j])[b] else 0
  }

  lemma {:induction false} CountsNone(code: Code, phiBlocks: seq<seq<Block>>)
    requires forall o: Object, b | 0 <= b < |code| :: Phi(o) !in code[b]
    ensures Counts(code, phiBlocks, 0, 0)
  {
  }

  lemma {:induction false} CountsOneMore(code: Code, code': Code, phiBlocks: seq<seq<Block>>, n: nat, j: nat)
    requires n < |phiBlocks| && j < |phiBlocks[n]| && Counts(code, phiBlocks, n, j)
    requires var bb := phiBlocks[n][j]; bb < |code| && code' == code[bb := [Phi(n)] + code[bb]]
    ensures Counts(code', phiBlocks, n, j + 1)
  {
    var bb := phiBlocks[n][j];
    assert phiBlocks[n][..j + 1] == phiBlocks[n][..j] + [bb];
    assert multiset(code'[bb]) == multiset{Phi(n)} + multiset(code[bb]);
  }

  lemma {:induction false} CountsFrontier(code: Code, phiBlocks: seq<seq<Block>>, n: nat)
    requires n < |phiBlocks| && Counts(code, phiBlocks, n, |phiBlocks[n]|)
    ensures Counts(code, phiBlocks, n + 1, 0)
  {
    assert phiBlocks[n][..|phiBlocks[n]|] == phiBlocks[n];
    if n + 1 < |phiBlocks| {
      assert phiBlocks[n + 1][..0] == [];
    }
  }

  /** A phi for every object in every block of its iterated frontier, and nowhere else. */
  method CalculatePhiNodes(F: Function, phiBlocks: seq<seq<Block>>) returns (code: Code)
    requires IsDomTree(F) && IsIterated(F, phiBlocks) && forall b, a | 0 <= b < |F.code| && a in F.code[b] :: !a.Phi?
    ensures |code| == |F.code| && forall b | 0 <= b < |code| :: IsPrefixed(F.code[b], code[b])
    ensures IsDomTree(F.(code := code)) && PhisPlaced(F.(code := code))
    ensures forall o: Object, b | 0 <= b < |code| :: multiset(code[b])[Phi(o)] == if o < |phiBlocks| then multiset(phiBlocks[o])[b] else 0
  {
    hide IsDomTree, IsPrefixed, Counts;
    code := F.code;
    forall b | 0 <= b < |code| ensures IsPrefixed(F.code[b], code[b]) { SamePrefix(F.code[b]); }
    forall o: Object, b | 0 <= b < |code| ensures Phi(o) !in code[b] {
      var a := Phi(o);
      assert a.Phi?;
    }
    CountsNone(code, phiBlocks);
    for o := 0 to |phiBlocks|
      invariant Prefixed(F.code, code, phiBlocks, o) && Counts(code, phiBlocks, o, 0)
    {
      for j := 0 to |phiBlocks[o]|
        invariant Counts(code, phiBlocks, o, j)
        invariant Prefixed(F.code, code, phiBlocks, o) && forall b | b in phiBlocks[o][..j] :: b < |code| && Phi(o) in code[b]
      {
        var bb := phiBlocks[o][j];
        assert bb in phiBlocks[o] && phiBlocks[o][..j + 1] == phiBlocks[o][..j] + [bb];
        PrefixOne(F.code[bb], code[bb], o);
        ghost var before := code;
        code := code[bb := [Phi(o)] + code[bb]];
        PhiMembers(before, code, bb, o);
        CountsOneMore(before, code, phiBlocks, o, j);
      }
      assert phiBlocks[o][..|phiBlocks[o]|] == phiBlocks[o];
      CountsFrontier(code, phiBlocks, o);
    }
    AllCounted(code, phiBlocks);
    PhisArePlaced(F, code, phiBlocks);
  }

  lemma AllCounted(code: Code, phiBlocks: seq<seq<Block>>)
    requires Counts(code, phiBlocks, |phiBlocks|, 0)
    ensures forall o: Object, b | 0 <= b < |code| :: multiset(code[b])[Phi(o)] == if o < |phiBlocks| then multiset(phiBlocks[o])[b] else 0
  {
  }

  lemma SamePrefix(a: seq<Access>)
    ensures IsPrefixed(a, a)
  {
    assert a[0..] == a;
  }

  lemma {:induction false} PhiMembers(before: Code, code: Code, bb: Block, o: Object)
    requires bb < |before| && code == before[bb := [Phi(o)] + before[bb]]
    ensures forall p, b | 0 <= b < |code| :: Phi(p) in code[b] <==> Phi(p) in before[b] || (b == bb && p == o)
  {
    assert code[bb][0] == Phi(o);
    forall p ensures Phi(p) in code[bb] <==> Phi(p) in before[bb] || p == o {
      if Phi(p) in before[bb] { var i :| 0 <= i < |before[bb]| && before[bb][i] == Phi(p); assert code[bb][i + 1] == Phi(p); }
    }
  }

  /** Nothing about paths changes when only the code does. */
  lemma {:induction false} SamePaths(F: Function, G: Function)
    requires G.succs == F.succs
    ensures forall p :: IsPath(G, p) <==> IsPath(F, p)
    ensures forall x: Block, b: Block :: (Dominates(G, x, b) <==> Dominates(F, x, b))
    ensures forall b: Block :: Reachable(G, b) <==> Reachable(F, b)
    ensures forall x: Block, b: Block :: InFrontier(G, x, b) <==> InFrontier(F, x, b)
  {
    forall p ensures IsPath(G, p) <==> IsPath(F, p) { }
    forall p, b ensures PathTo(G, p, b) <==> PathTo(F, p, b) { }
    hide IsPath, PathTo;
  }

  lemma {:induction false} PhisArePlaced(F: Function, code: Code, phiBlocks: seq<seq<Block>>)
    requires IsDomTree(F) && IsIterated(F, phiBlocks) && Prefixed(F.code, code, phiBlocks, |phiBlocks|)
    requires forall b, a | 0 <= b < |F.code| && a in F.code[b] :: !a.Phi?
    ensures IsDomTree(F.(code := code)) && PhisPlaced(F.(code := code))
  {
    var G := F.(code := code);
    SamePaths(F, G);
    SameTree(F, G);
    hide IsDomTree, Dominates, Reachable, InFrontier, Defines;
    forall x: Block, b: Block, o: Object | Defines(G, x, o) && Reachable(G, x) && InFrontier(G, x, b) ensures HasPhi(G, b, o) {
      DefinesOld(F, code, phiBlocks, x, o);
      assert b in phiBlocks[o];
    }
    forall b, i, j | 0 <= b < |code| && 0 <= i < j < |code[b]| && code[b][j].Phi? ensures code[b][i].Phi? {
      OnlyPrefix(F.code[b], code[b], j);
    }
  }

  lemma {:induction false} SameTree(F: Function, G: Function)
    requires IsDomTree(F) && |G.code| == |F.code| && G == F.(code := G.code)
    ensures IsDomTree(G)
  {
    SamePaths(F, G);
    hide Dominates, Reachable;
  }

  lemma {:induction false} OnlyPrefix(was: seq<Access>, now: seq<Access>, j: nat)
    requires IsPrefixed(was, now) && j < |now| && now[j].Phi? && forall a | a in was :: !a.Phi?
    ensures forall i | 0 <= i < j :: now[i].Phi?
  {
    var n := |now| - |was|;
    forall k | n <= k < |now| ensures !now[k].Phi? { assert now[n..][k - n] == now[k] && was[k - n] in was; }
  }

  lemma {:induction false} DefinesOld(F: Function, code: Code, phiBlocks: seq<seq<Block>>, x: Block, o: Object)
    requires |code| == |F.code| && Prefixed(F.code, code, phiBlocks, |phiBlocks|) && Defines(F.(code := code), x, o)
    ensures Defines(F, x, o) || (o < |phiBlocks| && x in phiBlocks[o])
  {
    var i :| 0 <= i < |code[x]| && !code[x][i].Use? && code[x][i].obj == o;
    var n := |code[x]| - |F.code[x]|;
    assert IsPrefixed(F.code[x], code[x]);
    if i < n {
      assert code[x][i] == Phi(o);
    } else {
      assert code[x][i] == F.code[x][i - n];
    }
  }

  // ---- Rename stacks ----

  type Stacks = map<Object, seq<Site>>

  function StackOf(stacks: Stacks, o: Object): seq<Site> { if o in stacks then stacks[o] else [] }

  function Top(stack: seq<Site>): Reach { if stack == [] then Nothing else By(stack[|stack| - 1]) }

  /** The definitions of `o` among the first `n` accesses of `b`, in order. */
  ghost function DefsIn(F: Function, b: Block, n: nat, o: Object): seq<Site>
    requires b < |F.code| && n <= |F.code[b]|
  {
    if n == 0 then []
    else DefsIn(F, b, n - 1, o) + (if !F.code[b][n - 1].Use? && F.code[b][n - 1].obj == o then [Site(b, n - 1)] else [])
  }

  lemma {:induction false} TopIsLast(F: Function, b: Block, n: nat, o: Object, base: seq<Site>)
    requires b < |F.code| && n <= |F.code[b]|
    ensures Top(base + DefsIn(F, b, n, o)) == Or(LastIn(F, b, n, o), Top(base))
    decreases n
  {
    if n > 0 {
      TopIsLast(F, b, n - 1, o, base);
      if !F.code[b][n - 1].Use? && F.code[b][n - 1].obj == o {
        var all := base + DefsIn(F, b, n, o);
        assert all[|all| - 1] == Site(b, n - 1);
      } else {
        assert DefsIn(F, b, n, o) == DefsIn(F, b, n - 1, o);
      }
    } else {
      assert base + [] == base;
    }
  }

  function CountOf(counts: map<Object, nat>, o: Object): nat { if o in counts then counts[o] else 0 }

  ghost predicate PushedFor(F: Function, base: Stacks, stacks: Stacks, counts: map<Object, nat>, b: Block, n: nat, o: Object)
    requires b < |F.code| && n <= |F.code[b]|
  {
    StackOf(stacks, o) == StackOf(base, o) + DefsIn(F, b, n, o) && |DefsIn(F, b, n, o)| == CountOf(counts, o)
  }

  /** The stacks are those of `base` plus the definitions of the first `n` accesses of `b`. */
  ghost predicate Pushed(F: Function, base: Stacks, stacks: Stacks, counts: map<Object, nat>, b: Block, n: nat)
    requires b < |F.code| && n <= |F.code[b]|
  {
    forall o: Object :: PushedFor(F, base, stacks, counts, b, n, o)
  }

  function Push(stacks: Stacks, a: Access, s: Site): Stacks {
    if a.Use? then stacks else stacks[a.obj := StackOf(stacks, a.obj) + [s]]
  }

  function Count(counts: map<Object, nat>, a: Access): map<Object, nat> {
    if a.Use? then counts else counts[a.obj := CountOf(counts, a.obj) + 1]
  }

  lemma {:induction false} PushOne(F: Function, base: Stacks, stacks: Stacks, counts: map<Object, nat>, b: Block, n: nat)
    requires b < |F.code| && n < |F.code[b]| && Pushed(F, base, stacks, counts, b, n)
    ensures var a := F.code[b][n]; Pushed(F, base, Push(stacks, a, Site(b, n)), Count(counts, a), b, n + 1)
  {
    var a := F.code[b][n];
    hide PushedFor;
    var stacks', counts', m := Push(stacks, a, Site(b, n)), Count(counts, a), n + 1;
    forall o: Object ensures PushedFor(F, base, stacks', counts', b, m, o) {
      PushOneFor(F, base, stacks, counts, b, n, o);
    }
  }

  lemma {:induction false} PushOneFor(F: Function, base: Stacks, stacks: Stacks, counts: map<Object, nat>, b: Block, n: nat, o: Object)
    requires b < |F.code| && n < |F.code[b]| && PushedFor(F, base, stacks, counts, b, n, o)
    ensures var a := F.code[b][n]; PushedFor(F, base, Push(stacks, a, Site(b, n)), Count(counts, a), b, n + 1, o)
  {
    var a := F.code[b][n];
    var defs := DefsIn(F, b, n, o);
    if !a.Use? && a.obj == o {
      assert DefsIn(F, b, n + 1, o) == defs + [Site(b, n)];
      assert StackOf(base, o) + (defs + [Site(b, n)]) == StackOf(base, o) + defs + [Site(b, n)];
    } else {
      assert DefsIn(F, b, n + 1, o) == defs;
    }
  }

  ghost predicate SameStacks(a: Stacks, b: Stacks) { forall o: Object :: StackOf(a, o) == StackOf(b, o) }

  ghost predicate TopsAreLive(F: Function, stacks: Stacks, b: Block)
    requires IsDomTree(F) && b in F.depth && b < |F.code|
  {
    forall o: Object :: Top(StackOf(stacks, o)) == LiveIn(F, b, o)
  }

  lemma {:induction false} TopAtAccess(F: Function, base: Stacks, stacks: Stacks, counts: map<Object, nat>, b: Block, n: nat, o: Object)
    requires IsDomTree(F) && b in F.depth && b < |F.code| && n <= |F.code[b]| && Pushed(F, base, stacks, counts, b, n) && TopsAreLive(F, base, b)
    ensures Top(StackOf(stacks, o)) == Live(F, b, n, o)
  {
    TopIsLast(F, b, n, o, StackOf(base, o));
    assert PushedFor(F, base, stacks, counts, b, n, o);
    assert Top(StackOf(base, o)) == LiveIn(F, b, o);
    hide DefsIn, LastIn, IsDomTree, LiveIn;
  }

  // ---- Results ----

  type Reaching = map<Site, Reach>
  type Incoming = map<(Site, Block), Reach>

  ghost predicate IsSite(F: Function, s: Site) { s.block in F.depth && s.block < |F.code| && s.index < |F.code[s.block]| }

  /** Every recorded definition is the one live at its access. */
  ghost predicate Correct(F: Function, reaching: Reaching)
    requires IsDomTree(F)
  {
    forall s | s in reaching :: IsSite(F, s) && reaching[s] == Live(F, s.block, s.index, F.code[s.block][s.index].obj)
  }

  /** Every incoming entry of a phi is the definition live at the end of that predecessor. */
  ghost predicate CorrectIncoming(F: Function, incoming: Incoming)
    requires IsDomTree(F)
  {
    forall s, a | (s, a) in incoming ::
      && s.block < |F.code| && s.index < |F.code[s.block]| && F.code[s.block][s.index].Phi? && a in F.depth && a < |F.code|
      && incoming[(s, a)] == Live(F, a, |F.code[a]|, F.code[s.block][s.index].obj)
  }

  ghost predicate AllAccesses(F: Function, reaching: Reaching, b: Block) {
    b < |F.code| && forall i | 0 <= i < |F.code[b]| :: Site(b, i) in reaching
  }

  ghost predicate AllIncoming(F: Function, incoming: Incoming, b: Block) {
    b < |F.succs| && forall c, j | c in F.succs[b] && c < |F.code| && 0 <= j < |F.code[c]| && F.code[c][j].Phi? :: (Site(c, j), b) in incoming
  }

  /** `c` is `b` or below it in the dominator tree. */
  ghost predicate Below(F: Function, b: Block, c: Block)
    requires IsDomTree(F) && c in F.depth
    decreases F.depth[c]
  {
    c == b || (c != Entry && Below(F, b, F.idom[c]))
  }

  ghost predicate DoneBelow(F: Function, reaching: Reaching, incoming: Incoming, b: Block)
    requires IsDomTree(F)
  {
    forall c | c in F.depth && Below(F, b, c) :: AllAccesses(F, reaching, c) && AllIncoming(F, incoming, c)
  }

  lemma {:induction false} BelowChild(F: Function, b: Block, c: Block)
    requires IsDomTree(F) && c in F.depth && Below(F, b, c) && c != b && b < |F.children|
    ensures exists x :: x in F.children[b] && x in F.depth && Below(F, x, c)
    decreases F.depth[c]
  {
    var d := F.idom[c];
    if d == b {
      assert c in F.children[b] && Below(F, c, c);
    } else {
      BelowChild(F, b, d);
      var x :| x in F.children[b] && x in F.depth && Below(F, x, d);
      assert Below(F, x, c);
    }
  }

  lemma {:induction false} BelowEntry(F: Function, c: Block)
    requires IsDomTree(F) && c in F.depth
    ensures Below(F, Entry, c)
    decreases F.depth[c]
  {
    if c != Entry {
      BelowEntry(F, F.idom[c]);
    }
  }

  lemma {:induction false} ChildFacts(F: Function, b: Block, c: Block)
    requires IsDomTree(F) && b < |F.children| && c in F.children[b]
    ensures c in F.depth && c < |F.code| && c != Entry && c in F.idom && F.idom[c] == b && b in F.depth && F.depth[b] < F.depth[c] < |F.code|
  {
    InCode(F, c);
  }

  /** What the whole pass ends with: on every path to a use, the recorded definition is the last one
      executed, and every phi knows what is live at the end of each predecessor. */
  lemma {:induction false} RenamedOnEveryPath(F: Function, reaching: Reaching, p: seq<Block>, i: nat)
    requires IsDomTree(F) && PhisPlaced(F) && Correct(F, reaching)
    requires IsPath(F, p) && p[|p| - 1] < |F.code| && i < |F.code[p[|p| - 1]]| && !F.code[p[|p| - 1]][i].Phi? && Site(p[|p| - 1], i) in reaching
    ensures forall k | 0 <= k < |p| :: p[k] < |F.code|
    ensures var b := p[|p| - 1]; reaching[Site(b, i)] == At(F, p, i, F.code[b][i].obj)
  {
    EveryPath(F, p, i);
    hide IsDomTree, PhisPlaced, At, Live;
  }

  /** A phi's entry for a predecessor is the last definition on every path that ends there. */
  lemma {:induction false} IncomingOnEveryPath(F: Function, incoming: Incoming, p: seq<Block>, s: Site)
    requires IsDomTree(F) && PhisPlaced(F) && CorrectIncoming(F, incoming) && IsPath(F, p) && (s, p[|p| - 1]) in incoming
    ensures (forall k | 0 <= k < |p| :: p[k] < |F.code|) && s.block < |F.code| && s.index < |F.code[s.block]|
    ensures incoming[(s, p[|p| - 1])] == After(F, p, F.code[s.block][s.index].obj)
  {
    PathAgrees(F, p, F.code[s.block][s.index].obj);
    hide IsDomTree, PhisPlaced, After, Live;
  }

  // ---- The walk ----

  class MemorySSABuilder {
    const F: Function
    var stacks: Stacks
    var reaching: Reaching
    var incoming: Incoming

    constructor (F: Function)
      ensures this.F == F && stacks == map[] && reaching == map[] && incoming == map[]
    {
      this.F, stacks, reaching, incoming := F, map[], map[], map[];
    }

    ghost predicate Sound()
      reads this
      requires IsDomTree(F)
    {
      Correct(F, reaching) && CorrectIncoming(F, incoming)
    }

    /** Accesses of the block in order: each gets the top of its object's stack, definitions are pushed. */
    method RenameAccesses(b: Block) returns (counts: map<Object, nat>)
      requires IsDomTree(F) && b in F.depth && b < |F.code| && Correct(F, reaching) && TopsAreLive(F, stacks, b)
      modifies this`stacks, this`reaching
      ensures Pushed(F, old(stacks), stacks, counts, b, |F.code[b]|)
      ensures Correct(F, reaching) && old(reaching.Keys) <= reaching.Keys && AllAccesses(F, reaching, b)
    {
      hide IsDomTree, Live, LiveIn, Pushed, TopsAreLive, Push, Count, StackOf, Top;
      counts := map[];
      NothingPushed(F, stacks, b);
      for i := 0 to |F.code[b]|
        invariant Pushed(F, old(stacks), stacks, counts, b, i) && Correct(F, reaching) && old(reaching.Keys) <= reaching.Keys
        invariant forall j | 0 <= j < i :: Site(b, j) in reaching
      {
        var a := F.code[b][i];
        TopAtAccess(F, old(stacks), stacks, counts, b, i, a.obj);
        PushOne(F, old(stacks), stacks, counts, b, i);
        reaching := reaching[Site(b, i) := Top(StackOf(stacks, a.obj))];
        stacks, counts := Push(stacks, a, Site(b, i)), Count(counts, a);
      }
    }

    /** Phis of the successors learn what is live at the end of this block. */
    method RenameSuccessorPhis(b: Block, ghost base: Stacks, ghost counts: map<Object, nat>)
      requires IsDomTree(F) && b in F.depth && b < |F.code| && CorrectIncoming(F, incoming)
      requires Pushed(F, base, stacks, counts, b, |F.code[b]|) && TopsAreLive(F, base, b)
      modifies this`incoming
      ensures CorrectIncoming(F, incoming) && old(incoming.Keys) <= incoming.Keys && AllIncoming(F, incoming, b)
    {
      SuccessorsInCode(F, b);
      hide IsDomTree, Live, LiveIn, Pushed, TopsAreLive, CorrectIncoming, PhisKnow;
      for k := 0 to |F.succs[b]|
        invariant CorrectIncoming(F, incoming) && old(incoming.Keys) <= incoming.Keys
        invariant forall m | 0 <= m < k :: PhisKnow(F, incoming, F.succs[b][m], b)
      {
        ghost var before := incoming;
        RenamePhisOf(F.succs[b][k], b, base, counts);
        forall m | 0 <= m < k ensures PhisKnow(F, incoming, F.succs[b][m], b) { StillKnow(F, before, incoming, F.succs[b][m], b); }
      }
      KnownIncoming(F, incoming, b);
    }

    method RenamePhisOf(child: Block, b: Block, ghost base: Stacks, ghost counts: map<Object, nat>)
      requires IsDomTree(F) && b in F.depth && b < |F.code| && CorrectIncoming(F, incoming) && child < |F.code|
      requires Pushed(F, base, stacks, counts, b, |F.code[b]|) && TopsAreLive(F, base, b)
      modifies this`incoming
      ensures CorrectIncoming(F, incoming) && old(incoming.Keys) <= incoming.Keys && PhisKnow(F, incoming, child, b)
    {
      hide IsDomTree, Live, LiveIn, Pushed, TopsAreLive, StackOf, Top;
      for j := 0 to |F.code[child]|
        invariant CorrectIncoming(F, incoming) && old(incoming.Keys) <= incoming.Keys
        invariant forall i | 0 <= i < j && F.code[child][i].Phi? :: (Site(child, i), b) in incoming
      {
        if F.code[child][j].Phi? {
          TopAtAccess(F, base, stacks, counts, b, |F.code[b]|, F.code[child][j].obj);
          incoming := incoming[(Site(child, j), b) := Top(StackOf(stacks, F.code[child][j].obj))];
        }
      }
    }

    /** Takes this block's definitions off the stacks again. */
    method Unwind(b: Block, counts: map<Object, nat>, ghost base: Stacks)
      requires b < |F.code| && Pushed(F, base, stacks, counts, b, |F.code[b]|)
      modifies this`stacks
      ensures SameStacks(stacks, base)
    {
      var pending := counts.Keys;
      ghost var full := stacks;
      forall o: Object ensures o !in counts ==> StackOf(full, o) == StackOf(base, o) { NothingToPop(F, base, full, counts, b, o); }
      hide Pushed;
      while pending != {}
        invariant pending <= counts.Keys
        invariant forall o: Object :: StackOf(stacks, o) == StackOf(if o in pending then full else base, o)
        decreases |pending|
      {
        var o :| o in pending;
        var stack := StackOf(stacks, o);
        PopAll(F, base, full, counts, b, o);
        stacks := stacks[o := stack[..|stack| - counts[o]]];
        pending := pending - {o};
      }
    }

    /** Renames the subtree of `b` and leaves every stack as it was. */
    method RenameBlock(b: Block)
      requires IsDomTree(F) && b in F.depth && b < |F.code| && Sound() && TopsAreLive(F, stacks, b)
      modifies this`stacks, this`reaching, this`incoming
      ensures Sound() && DoneBelow(F, reaching, incoming, b) && Grown(old(reaching), old(incoming), reaching, incoming)
      ensures SameStacks(stacks, old(stacks))
      decreases |F.code| - F.depth[b], 1
    {
      DepthBound(F, b);
      hide IsDomTree, Live, LiveIn, Pushed, TopsAreLive, Correct, CorrectIncoming, AllAccesses, AllIncoming, Below, DoneBelow, SameStacks, StackOf;
      var counts := RenameAccesses(b);
      RenameSuccessorPhis(b, old(stacks), counts);
      ghost var r, n, during := reaching, incoming, stacks;
      RenameChildren(b, old(stacks), counts);
      DoneHere(F, r, n, reaching, incoming, b);
      SamePushed(F, old(stacks), during, stacks, counts, b);
      Unwind(b, counts, old(stacks));
    }

    /** The children of `b` in the dominator tree, one after the other. */
    method RenameChildren(b: Block, ghost base: Stacks, ghost counts: map<Object, nat>)
      requires IsDomTree(F) && b in F.depth && b < |F.code| == |F.children| && F.depth[b] <= |F.code| && Sound()
      requires Pushed(F, base, stacks, counts, b, |F.code[b]|) && TopsAreLive(F, base, b)
      modifies this`stacks, this`reaching, this`incoming
      ensures Sound() && Grown(old(reaching), old(incoming), reaching, incoming) && SameStacks(stacks, old(stacks))
      ensures forall m | 0 <= m < |F.children[b]| :: DoneBelow(F, reaching, incoming, F.children[b][m])
      decreases |F.code| - F.depth[b], 0
    {
      hide IsDomTree, Live, LiveIn, Pushed, TopsAreLive, Correct, CorrectIncoming, DoneBelow, SameStacks, StackOf, Grown;
      SameStacksSelf(stacks);
      GrownSelf(reaching, incoming);
      for k := 0 to |F.children[b]|
        invariant Sound() && Grown(old(reaching), old(incoming), reaching, incoming) && SameStacks(stacks, old(stacks))
        invariant forall m | 0 <= m < k :: DoneBelow(F, reaching, incoming, F.children[b][m])
      {
        var child := F.children[b][k];
        assert child in F.children[b];
        ChildFacts(F, b, child);
        SamePushed(F, base, old(stacks), stacks, counts, b);
        ChildTops(F, base, stacks, counts, b, child);
        ghost var r, n, before := reaching, incoming, stacks;
        RenameBlock(child);
        SameStacksTrans(stacks, before, old(stacks));
        GrownTrans(old(reaching), old(incoming), r, n, reaching, incoming);
        StillDone(F, r, n, reaching, incoming, b, k);
      }
    }

    /** Renames the whole function. */
    method RenamePass()
      requires IsDomTree(F) && stacks == map[] && reaching == map[] && incoming == map[]
      modifies this`stacks, this`reaching, this`incoming
      ensures Sound() && forall b | b in F.depth :: AllAccesses(F, reaching, b) && AllIncoming(F, incoming, b)
      ensures forall o: Object :: StackOf(stacks, o) == []
    {
      hide AllAccesses, AllIncoming;
      assert TopsAreLive(F, stacks, Entry);
      RenameBlock(Entry);
      forall o: Object ensures StackOf(stacks, o) == [] { assert StackOf(stacks, o) == StackOf(map[], o); }
      forall b | b in F.depth ensures Below(F, Entry, b) { BelowEntry(F, b); }
    }
  }

  lemma NothingPushed(F: Function, stacks: Stacks, b: Block)
    requires b < |F.code|
    ensures Pushed(F, stacks, stacks, map[], b, 0)
  {
  }

  lemma SuccessorsInCode(F: Function, b: Block)
    requires IsDomTree(F) && b < |F.code|
    ensures b < |F.succs| && forall k | 0 <= k < |F.succs[b]| :: F.succs[b][k] < |F.code|
  {
    forall k | 0 <= k < |F.succs[b]| ensures F.succs[b][k] < |F.code| { assert F.succs[b][k] in F.succs[b]; }
  }

  lemma DepthBound(F: Function, b: Block)
    requires IsDomTree(F) && b in F.depth
    ensures F.depth[b] <= |F.code| && |F.children| == |F.code| == |F.succs|
  {
  }

  lemma {:induction false} SamePushed(F: Function, base: Stacks, stacks: Stacks, stacks': Stacks, counts: map<Object, nat>, b: Block)
    requires b < |F.code| && Pushed(F, base, stacks, counts, b, |F.code[b]|) && SameStacks(stacks', stacks)
    ensures Pushed(F, base, stacks', counts, b, |F.code[b]|)
  {
    hide DefsIn, StackOf;
    forall o: Object ensures PushedFor(F, base, stacks', counts, b, |F.code[b]|, o) { assert PushedFor(F, base, stacks, counts, b, |F.code[b]|, o); }
  }

  lemma SameStacksSelf(a: Stacks)
    ensures SameStacks(a, a)
  {
  }

  lemma SameStacksTrans(a: Stacks, b: Stacks, c: Stacks)
    requires SameStacks(a, b) && SameStacks(b, c)
    ensures SameStacks(a, c)
  {
  }

  lemma NothingToPop(F: Function, base: Stacks, stacks: Stacks, counts: map<Object, nat>, b: Block, o: Object)
    requires b < |F.code| && Pushed(F, base, stacks, counts, b, |F.code[b]|)
    ensures o !in counts ==> StackOf(stacks, o) == StackOf(base, o)
  {
    assert PushedFor(F, base, stacks, counts, b, |F.code[b]|, o);
    hide DefsIn;
    assert o !in counts ==> DefsIn(F, b, |F.code[b]|, o) == [];
  }

  lemma PopAll(F: Function, base: Stacks, stacks: Stacks, counts: map<Object, nat>, b: Block, o: Object)
    requires b < |F.code| && Pushed(F, base, stacks, counts, b, |F.code[b]|) && o in counts
    ensures var stack := StackOf(stacks, o); counts[o] <= |stack| && stack[..|stack| - counts[o]] == StackOf(base, o)
  {
    assert PushedFor(F, base, stacks, counts, b, |F.code[b]|, o);
    hide DefsIn;
  }

  /** The phis of `c` have an entry for `b`. */
  ghost predicate PhisKnow(F: Function, incoming: Incoming, c: Block, b: Block)
    requires c < |F.code|
  {
    forall j | 0 <= j < |F.code[c]| && F.code[c][j].Phi? :: (Site(c, j), b) in incoming
  }

  lemma StillKnow(F: Function, incoming: Incoming, incoming': Incoming, c: Block, b: Block)
    requires c < |F.code| && PhisKnow(F, incoming, c, b) && incoming.Keys <= incoming'.Keys
    ensures PhisKnow(F, incoming', c, b)
  {
  }

  lemma {:induction false} KnownIncoming(F: Function, incoming: Incoming, b: Block)
    requires b < |F.succs| && (forall k | 0 <= k < |F.succs[b]| :: F.succs[b][k] < |F.code| && PhisKnow(F, incoming, F.succs[b][k], b))
    ensures AllIncoming(F, incoming, b)
  {
    forall c, j | c in F.succs[b] && c < |F.code| && 0 <= j < |F.code[c]| && F.code[c][j].Phi? ensures (Site(c, j), b) in incoming {
      var k :| 0 <= k < |F.succs[b]| && F.succs[b][k] == c;
      assert PhisKnow(F, incoming, F.succs[b][k], b);
    }
  }

  /** At the end of a block, the stacks are as its children in the tree expect them. */
  lemma {:induction false} ChildTops(F: Function, base: Stacks, stacks: Stacks, counts: map<Object, nat>, b: Block, child: Block)
    requires IsDomTree(F) && b in F.depth && b < |F.code| && Pushed(F, base, stacks, counts, b, |F.code[b]|) && TopsAreLive(F, base, b)
    requires child in F.depth && child < |F.code| && child != Entry && child in F.idom && F.idom[child] == b
    ensures TopsAreLive(F, stacks, child)
  {
    hide IsDomTree, Pushed;
    forall o: Object ensures Top(StackOf(stacks, o)) == LiveIn(F, child, o) {
      TopAtAccess(F, base, stacks, counts, b, |F.code[b]|, o);
    }
  }

  /** Entries are only added. */
  ghost predicate Grown(r: Reaching, n: Incoming, r': Reaching, n': Incoming) { r.Keys <= r'.Keys && n.Keys <= n'.Keys }

  lemma GrownSelf(r: Reaching, n: Incoming)
    ensures Grown(r, n, r, n)
  {
  }

  lemma GrownTrans(r: Reaching, n: Incoming, r': Reaching, n': Incoming, r'': Reaching, n'': Incoming)
    requires Grown(r, n, r', n') && Grown(r', n', r'', n'')
    ensures Grown(r, n, r'', n'')
  {
  }

  lemma {:induction false} StillDone(F: Function, r: Reaching, n: Incoming, r': Reaching, n': Incoming, b: Block, k: nat)
    requires IsDomTree(F) && Grown(r, n, r', n') && b < |F.children| && k <= |F.children[b]|
    requires forall m | 0 <= m < k :: DoneBelow(F, r, n, F.children[b][m])
    ensures forall m | 0 <= m < k :: DoneBelow(F, r', n', F.children[b][m])
  {
    hide IsDomTree;
    forall m | 0 <= m < k ensures DoneBelow(F, r', n', F.children[b][m]) { assert DoneBelow(F, r, n, F.children[b][m]); }
  }

  lemma {:induction false} DoneHere(F: Function, r: Reaching, n: Incoming, reaching: Reaching, incoming: Incoming, b: Block)
    requires IsDomTree(F) && b in F.depth && b < |F.children| && AllAccesses(F, r, b) && AllIncoming(F, n, b) && Grown(r, n, reaching, incoming)
    requires forall m | 0 <= m < |F.children[b]| :: DoneBelow(F, reaching, incoming, F.children[b][m])
    ensures DoneBelow(F, reaching, incoming, b)
  {
    assert AllAccesses(F, reaching, b) && AllIncoming(F, incoming, b);
    hide AllAccesses, AllIncoming;
    forall c | c in F.depth && Below(F, b, c) ensures AllAccesses(F, reaching, c) && AllIncoming(F, incoming, c) {
      if c != b {
        BelowChild(F, b, c);
        var x :| x in F.children[b] && x in F.depth && Below(F, x, c);
        var m :| 0 <= m < |F.children[b]| && F.children[b][m] == x;
      }
    }
  }
}
