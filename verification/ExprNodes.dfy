/** Nodes of the hash-consed expression store: what makes them canonical, and how reference counts
    relate to the operands that point at a node (include/gazer/Core/Expr.h,
    src/Core/GazerContextImpl.h). */
module ExprNodes {
  import opened Exprs
  import opened ExprTable

  /** All there is to an expression besides its operands. */
  datatype Label =
    | LiteralLabel(value: Value)
    | UndefLabel(typ: Type)
    | VarLabel(variable: Variable)
    | OperatorLabel(kind: nat, typ: Type, data: seq<nat>)

  datatype Node = Node(tag: Label, ops: seq<Ref>, hash: nat)

  type Nodes = map<Ref, Node>

  // ---- Shape ----

  /** Operators have operands, all of them older members of the table; leaves have none. */
  ghost predicate Grounded(nodes: Nodes, table: set<Ref>, birth: map<Ref, nat>) {
    && table <= nodes.Keys && table <= birth.Keys
    && (forall p | p in table :: nodes[p].tag.OperatorLabel? <==> nodes[p].ops != [])
    && (forall p, o | p in table && o in nodes[p].ops :: o in table && birth[o] < birth[p])
  }

  /** No two members of the table have the same label and operands. */
  ghost predicate Canonical(nodes: Nodes, table: set<Ref>)
    requires table <= nodes.Keys
  {
    forall p, q | p in table && q in table && nodes[p].tag == nodes[q].tag && nodes[p].ops == nodes[q].ops :: p == q
  }

  // ---- Trees ----

  datatype Tree = Tree(tag: Label, children: seq<Tree>)

  /** The expression tree the node `r` stands for is `t`. */
  ghost predicate IsTree(nodes: Nodes, r: Ref, t: Tree)
    decreases t
  {
    && r in nodes && nodes[r].tag == t.tag && |nodes[r].ops| == |t.children|
    && forall i | 0 <= i < |t.children| :: IsTree(nodes, nodes[r].ops[i], t.children[i])
  }

  /** A node stands for one tree only. */
  lemma {:induction false} TreeIsUnique(nodes: Nodes, r: Ref, t: Tree, u: Tree)
    requires IsTree(nodes, r, t) && IsTree(nodes, r, u)
    ensures t == u
    decreases t
  {
    forall i | 0 <= i < |t.children| ensures t.children[i] == u.children[i] {
      TreeIsUnique(nodes, nodes[r].ops[i], t.children[i], u.children[i]);
    }
    assert t.children == u.children;
  }

  /** In a canonical table one tree is held by one node only. */
  lemma {:induction false} NodeIsUnique(nodes: Nodes, table: set<Ref>, birth: map<Ref, nat>, p: Ref, q: Ref, t: Tree)
    requires Grounded(nodes, table, birth) && Canonical(nodes, table) && p in table && q in table && IsTree(nodes, p, t) && IsTree(nodes, q, t)
    ensures p == q
    decreases t
  {
    var a, b := nodes[p].ops, nodes[q].ops;
    forall i | 0 <= i < |a| ensures a[i] == b[i] {
      assert a[i] in a && b[i] in b;
      NodeIsUnique(nodes, table, birth, a[i], b[i], t.children[i]);
    }
    assert a == b;
  }

  /** Every member of the table stands for a tree. */
  lemma {:induction false} HasTree(nodes: Nodes, table: set<Ref>, birth: map<Ref, nat>, r: Ref) returns (t: Tree)
    requires Grounded(nodes, table, birth) && r in table
    ensures IsTree(nodes, r, t)
    decreases birth[r]
  {
    var ops := nodes[r].ops;
    var children: seq<Tree> := [];
    for i := 0 to |ops|
      invariant |children| == i && forall k | 0 <= k < i :: IsTree(nodes, ops[k], children[k])
    {
      assert ops[i] in ops;
      var child := HasTree(nodes, table, birth, ops[i]);
      children := children + [child];
    }
    t := Tree(nodes[r].tag, children);
  }

  /** Two references of a canonical table are equal exactly when their trees are. */
  lemma {:induction false} EqualIffSameTree(nodes: Nodes, table: set<Ref>, birth: map<Ref, nat>, p: Ref, q: Ref, t: Tree, u: Tree)
    requires Grounded(nodes, table, birth) && Canonical(nodes, table) && p in table && q in table && IsTree(nodes, p, t) && IsTree(nodes, q, u)
    ensures p == q <==> t == u
  {
    hide IsTree, Grounded, Canonical;
    if p == q {
      TreeIsUnique(nodes, p, t, u);
    }
    if t == u {
      NodeIsUnique(nodes, table, birth, p, q, t);
    }
  }

  // ---- Slots that point at a node ----

  /** The operand positions of `p` that hold `r`. */
  ghost function Own(p: Ref, ops: seq<Ref>, r: Ref): set<(Ref, nat)> {
    set i: nat | i < |ops| && ops[i] == r :: (p, i)
  }

  /** All operand positions that hold `r`. */
  ghost function Slots(nodes: Nodes, r: Ref): set<(Ref, nat)> {
    set p, i: nat | p in nodes && i < |nodes[p].ops| && nodes[p].ops[i] == r :: (p, i)
  }

  ghost function Uses(nodes: Nodes, r: Ref): nat { |Slots(nodes, r)| }

  lemma {:induction false} OwnSize(p: Ref, ops: seq<Ref>, r: Ref)
    ensures |Own(p, ops, r)| == multiset(ops)[r]
  {
    if ops != [] {
      var n := |ops| - 1;
      OwnSize(p, ops[..n], r);
      assert ops == ops[..n] + [ops[n]];
      var before := Own(p, ops[..n], r);
      if ops[n] == r {
        assert Own(p, ops, r) == before + {(p, n)};
      } else {
        assert Own(p, ops, r) == before;
      }
    }
  }

  lemma {:induction false} UsesAdded(nodes: Nodes, p: Ref, node: Node, r: Ref)
    requires p !in nodes
    ensures Uses(nodes[p := node], r) == Uses(nodes, r) + multiset(node.ops)[r]
  {
    OwnSize(p, node.ops, r);
    assert Slots(nodes[p := node], r) == Slots(nodes, r) + Own(p, node.ops, r);
    assert Slots(nodes, r) !! Own(p, node.ops, r);
  }

  /** Clearing one operand position takes away one use. */
  lemma {:induction false} UsesDetached(nodes: Nodes, p: Ref, i: nat, r: Ref)
    requires p in nodes && i < |nodes[p].ops| && r != Null
    ensures var nodes' := nodes[p := nodes[p].(ops := nodes[p].ops[i := Null])];
            Uses(nodes', r) == Uses(nodes, r) - (if nodes[p].ops[i] == r then 1 else 0)
  {
    var nodes' := nodes[p := nodes[p].(ops := nodes[p].ops[i := Null])];
    if nodes[p].ops[i] == r {
      assert (p, i) in Slots(nodes, r);
      assert Slots(nodes', r) == Slots(nodes, r) - {(p, i)};
    } else {
      assert Slots(nodes', r) == Slots(nodes, r);
    }
  }

  lemma {:induction false} UsesDropped(nodes: Nodes, p: Ref, r: Ref)
    requires p in nodes && r != Null && forall o | o in nodes[p].ops :: o == Null
    ensures Uses(nodes - {p}, r) == Uses(nodes, r)
  {
    forall i | 0 <= i < |nodes[p].ops| ensures nodes[p].ops[i] == Null { assert nodes[p].ops[i] in nodes[p].ops; }
    assert Slots(nodes - {p}, r) == Slots(nodes, r);
  }

  lemma {:induction false} NoUses(nodes: Nodes, r: Ref)
    requires Uses(nodes, r) == 0
    ensures forall p | p in nodes :: r !in nodes[p].ops
  {
    assert Slots(nodes, r) == {};
    forall p, i: nat | p in nodes && i < |nodes[p].ops| ensures nodes[p].ops[i] != r { assert (p, i) !in Slots(nodes, r); }
  }

  lemma {:induction false} SomeUse(nodes: Nodes, p: Ref, r: Ref)
    requires p in nodes && r in nodes[p].ops
    ensures Uses(nodes, r) > 0
  {
    var i :| 0 <= i < |nodes[p].ops| && nodes[p].ops[i] == r;
    assert (p, i) in Slots(nodes, r);
  }

  lemma {:induction false} UseBy(nodes: Nodes, r: Ref) returns (p: Ref)
    requires Uses(nodes, r) > 0
    ensures p in nodes && r in nodes[p].ops
  {
    var s :| s in Slots(nodes, r);
    p := s.0;
  }

  /** Every member is counted exactly and needed by someone. */
  ghost predicate Counted(nodes: Nodes, counts: map<Ref, nat>, held: multiset<Ref>, table: set<Ref>) {
    && table <= counts.Keys && (forall r | r in held :: r in table)
    && forall r | r in table :: counts[r] == held[r] + Uses(nodes, r) && counts[r] > 0
  }

  // ---- Reachability from what is held ----

  /** `path` leads from a held reference to `r` through operands. */
  ghost predicate IsPath(nodes: Nodes, held: multiset<Ref>, path: seq<Ref>, r: Ref) {
    && path != [] && path[0] in held && path[|path| - 1] == r && (forall k | 0 <= k < |path| :: path[k] in nodes)
    && forall k | 0 < k < |path| :: path[k] in nodes[path[k - 1]].ops
  }

  ghost predicate Reachable(nodes: Nodes, held: multiset<Ref>, r: Ref) {
    exists path :: IsPath(nodes, held, path, r)
  }

  lemma {:induction false} ReachOperand(nodes: Nodes, held: multiset<Ref>, p: Ref, r: Ref)
    requires Reachable(nodes, held, p) && p in nodes && r in nodes[p].ops && r in nodes
    ensures Reachable(nodes, held, r)
  {
    var path :| IsPath(nodes, held, path, p);
    var longer := path + [r];
    forall k | 0 < k < |longer| ensures longer[k] in nodes[longer[k - 1]].ops {
      if k < |path| { assert longer[k] == path[k] && longer[k - 1] == path[k - 1]; }
    }
    assert IsPath(nodes, held, longer, r);
  }

  /** In a counted table every member is reachable from what is held. */
  lemma {:induction false} LiveIsReachable(nodes: Nodes, counts: map<Ref, nat>, held: multiset<Ref>, birth: map<Ref, nat>, clock: nat, r: Ref)
    requires Grounded(nodes, nodes.Keys, birth) && Counted(nodes, counts, held, nodes.Keys) && r in nodes && forall p | p in nodes :: birth[p] < clock
    ensures Reachable(nodes, held, r)
    decreases clock - birth[r]
  {
    if r in held {
      assert IsPath(nodes, held, [r], r);
    } else {
      var p := UseBy(nodes, r);
      LiveIsReachable(nodes, counts, held, birth, clock, p);
      ReachOperand(nodes, held, p, r);
    }
  }

  /** When part of a store survives unchanged and is exactly counted, the survivors are what was
      reachable before from what is held now. */
  lemma {:induction false} SurvivorsAreReachable(before: Nodes, after: Nodes, counts: map<Ref, nat>, held: multiset<Ref>, birth: map<Ref, nat>, clock: nat, r: Ref)
    requires Grounded(after, after.Keys, birth) && Counted(after, counts, held, after.Keys) && (forall p | p in after :: birth[p] < clock)
    requires forall p | p in after :: p in before && before[p] == after[p]
    ensures r in after <==> Reachable(before, held, r)
  {
    if r in after {
      LiveIsReachable(after, counts, held, birth, clock, r);
      var path :| IsPath(after, held, path, r);
      assert IsPath(before, held, path, r);
    }
    if Reachable(before, held, r) {
      var path :| IsPath(before, held, path, r);
      PathSurvives(before, after, held, birth, path, r, |path| - 1);
    }
  }

  lemma {:induction false} PathSurvives(before: Nodes, after: Nodes, held: multiset<Ref>, birth: map<Ref, nat>, path: seq<Ref>, r: Ref, k: nat)
    requires Grounded(after, after.Keys, birth) && (forall p | p in held :: p in after) && (forall p | p in after :: p in before && before[p] == after[p])
    requires IsPath(before, held, path, r) && k < |path|
    ensures path[k] in after
    decreases k
  {
    if k > 0 {
      PathSurvives(before, after, held, birth, path, r, k - 1);
      assert path[k] in before[path[k - 1]].ops;
    }
  }
}
