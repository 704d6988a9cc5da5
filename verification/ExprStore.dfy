/** The hash-consed expression store (src/Core/GazerContextImpl.h, `ExprStorage`;
    src/Core/GazerContext.cpp, `removeFromList`, `destroy`, `rehashTable`). The fields of a node are
    kept in maps over references. Every run of creates, handle copies and releases keeps the store
    canonical, exactly counted, and free of everything no handle reaches. */
module ExprStore {
  import opened ExprTable
  import opened ExprNodes

  type Hasher = (Label, seq<Ref>) -> nat

  function HashesOf(nodes: Nodes): map<Ref, nat> { map r | r in nodes :: nodes[r].hash }

  ghost function Hashes(nodes: Nodes, table: set<Ref>): map<Ref, nat>
    requires table <= nodes.Keys
  {
    map r | r in table :: nodes[r].hash
  }

  /** The chains hold exactly the table. */
  ghost predicate Linked(nodes: Nodes, next: map<Ref, Ref>, buckets: seq<Ref>, chains: seq<seq<Ref>>, table: set<Ref>) {
    && Null !in nodes && next.Keys == nodes.Keys && table <= nodes.Keys
    && IsTable(buckets, next, chains) && Sorted(chains, Hashes(nodes, table)) && |buckets| == |chains|
  }

  /** Members are grounded, canonical, and remember their hash. */
  ghost predicate Sane(nodes: Nodes, table: set<Ref>, birth: map<Ref, nat>, clock: nat, hasher: Hasher) {
    && Grounded(nodes, table, birth) && Canonical(nodes, table)
    && (forall r | r in table :: nodes[r].hash == hasher(nodes[r].tag, nodes[r].ops) && birth[r] < clock)
  }

  // ---- Changes outside the table ----

  ghost predicate SameOn(nodes: Nodes, nodes': Nodes, table: set<Ref>) {
    table <= nodes.Keys && table <= nodes'.Keys && forall r | r in table :: nodes'[r] == nodes[r]
  }

  lemma {:induction false} SaneElsewhere(nodes: Nodes, nodes': Nodes, table: set<Ref>, birth: map<Ref, nat>, clock: nat, hasher: Hasher)
    requires Sane(nodes, table, birth, clock, hasher) && SameOn(nodes, nodes', table)
    ensures Sane(nodes', table, birth, clock, hasher)
  {
  }

  lemma {:induction false} LinkedElsewhere(nodes: Nodes, nodes': Nodes, next: map<Ref, Ref>, next': map<Ref, Ref>, buckets: seq<Ref>, chains: seq<seq<Ref>>, table: set<Ref>)
    requires Linked(nodes, next, buckets, chains, table) && SameOn(nodes, nodes', table) && Null !in nodes' && next'.Keys == nodes'.Keys
    requires forall r | r in table :: next'[r] == next[r]
    ensures Linked(nodes', next', buckets, chains, table)
  {
    assert Hashes(nodes', table) == Hashes(nodes, table);
    forall b, r | 0 <= b < |chains| && r in chains[b] ensures r in next' && next'[r] == next[r] { assert r in Hashes(nodes, table); }
    TableFrame(buckets, next, next', chains);
    hide IsTable, Sorted;
  }

  /** Taking an unused member out of the table. */
  lemma {:induction false} SaneWithout(nodes: Nodes, table: set<Ref>, birth: map<Ref, nat>, clock: nat, hasher: Hasher, r: Ref)
    requires Sane(nodes, table, birth, clock, hasher) && forall p | p in table :: r !in nodes[p].ops
    ensures Sane(nodes, table - {r}, birth, clock, hasher)
  {
  }

  // ---- Looking up and inserting ----

  lemma {:induction false} InBucket(nodes: Nodes, next: map<Ref, Ref>, buckets: seq<Ref>, chains: seq<seq<Ref>>, table: set<Ref>, r: Ref)
    requires Linked(nodes, next, buckets, chains, table) && r in table
    ensures chains != [] && r in chains[BucketOf(nodes[r].hash, |chains|)]
  {
    assert r in Hashes(nodes, table);
  }

  lemma {:induction false} InTable(nodes: Nodes, next: map<Ref, Ref>, buckets: seq<Ref>, chains: seq<seq<Ref>>, table: set<Ref>, b: nat, r: Ref)
    requires Linked(nodes, next, buckets, chains, table) && b < |chains| && r in chains[b]
    ensures r in table
  {
    assert r in Hashes(nodes, table);
  }

  /** What the bucket of the hash does not hold is not in the table. */
  lemma {:induction false} NotPresent(nodes: Nodes, next: map<Ref, Ref>, buckets: seq<Ref>, chains: seq<seq<Ref>>, table: set<Ref>,
                                      birth: map<Ref, nat>, clock: nat, hasher: Hasher, tag: Label, ops: seq<Ref>)
    requires Linked(nodes, next, buckets, chains, table) && Sane(nodes, table, birth, clock, hasher) && chains != []
    requires forall r | r in chains[BucketOf(hasher(tag, ops), |chains|)] :: r !in nodes || nodes[r].tag != tag || nodes[r].ops != ops
    ensures forall r | r in table :: nodes[r].tag != tag || nodes[r].ops != ops
  {
    forall r | r in table ensures nodes[r].tag != tag || nodes[r].ops != ops {
      InBucket(nodes, next, buckets, chains, table, r);
      assert nodes[r].hash == hasher(nodes[r].tag, nodes[r].ops);
    }
  }

  lemma {:induction false} SaneInserted(nodes: Nodes, table: set<Ref>, birth: map<Ref, nat>, clock: nat, hasher: Hasher, r: Ref, node: Node)
    requires Sane(nodes, table, birth, clock, hasher) && r !in nodes && node.hash == hasher(node.tag, node.ops)
    requires (node.tag.OperatorLabel? <==> node.ops != []) && (forall o | o in node.ops :: o in table)
    requires forall p | p in table :: nodes[p].tag != node.tag || nodes[p].ops != node.ops
    ensures Sane(nodes[r := node], table + {r}, birth[r := clock], clock + 1, hasher)
  {
  }

  lemma {:induction false} LinkedInserted(nodes: Nodes, next: map<Ref, Ref>, buckets: seq<Ref>, chains: seq<seq<Ref>>, table: set<Ref>, r: Ref, node: Node)
    requires Linked(nodes, next, buckets, chains, table) && r !in nodes && r != Null && buckets != []
    ensures var b := BucketOf(node.hash, |buckets|);
            Linked(nodes[r := node], next[r := buckets[b]], buckets[b := r], chains[b := [r] + chains[b]], table + {r})
  {
    var b := BucketOf(node.hash, |buckets|);
    var hashes := Hashes(nodes, table);
    assert Hashes(nodes[r := node], table + {r}) == hashes[r := node.hash];
    forall c | 0 <= c < |chains| ensures r !in chains[c] { if r in chains[c] { InTable(nodes, next, buckets, chains, table, c, r); } }
    TablePush(buckets, next, chains, b, r);
    SortedPush(chains, hashes, r, node.hash);
    hide IsTable, Sorted, Hashes;
  }

  lemma {:induction false} CountedInserted(nodes: Nodes, counts: map<Ref, nat>, counts': map<Ref, nat>, held: multiset<Ref>, table: set<Ref>, r: Ref, node: Node)
    requires Counted(nodes, counts, held, table) && table == nodes.Keys == counts.Keys && r !in nodes && r !in node.ops
    requires forall p, o | p in nodes && o in nodes[p].ops :: o in table
    requires counts'.Keys == counts.Keys + {r} && counts'[r] == 1 && forall p | p in table :: counts'[p] == counts[p] + multiset(node.ops)[p]
    ensures Counted(nodes[r := node], counts', held + multiset{r}, table + {r})
  {
    forall p | p in table + {r} ensures counts'[p] == (held + multiset{r})[p] + Uses(nodes[r := node], p) {
      UsesAdded(nodes, r, node, p);
      if p == r {
        if Uses(nodes, r) > 0 { var q := UseBy(nodes, r); }
      }
    }
    hide Uses;
  }

  // ---- Removing ----

  lemma {:induction false} LinkedRemoved(nodes: Nodes, next: map<Ref, Ref>, buckets: seq<Ref>, chains: seq<seq<Ref>>, table: set<Ref>, r: Ref, buckets': seq<Ref>, next': map<Ref, Ref>)
    requires Linked(nodes, next, buckets, chains, table) && r in table && |buckets'| == |buckets| && chains != []
    requires r in chains[BucketOf(nodes[r].hash, |buckets|)]
    requires var b := BucketOf(nodes[r].hash, |buckets|); IsChain(buckets'[b], next', Without(chains[b], r))
    requires forall c | 0 <= c < |buckets| && c != BucketOf(nodes[r].hash, |buckets|) :: buckets'[c] == buckets[c]
    requires next'.Keys == next.Keys && forall x | x in next && x !in chains[BucketOf(nodes[r].hash, |buckets|)] :: next'[x] == next[x]
    ensures var b := BucketOf(nodes[r].hash, |buckets|);
            Linked(nodes, next', buckets', chains[b := Without(chains[b], r)], table - {r})
  {
    var hashes := Hashes(nodes, table);
    assert hashes[r] == nodes[r].hash;
    RemovedTable(buckets, next, chains, hashes, r, buckets', next');
    assert Hashes(nodes, table - {r}) == hashes - {r};
    hide IsTable, Sorted, Hashes;
  }

  // ---- Nodes waiting for deletion ----

  /** Operand `i` of `p` is cleared without touching its count. */
  function Detached(nodes: Nodes, p: Ref, i: nat): Nodes
    requires p in nodes && i < |nodes[p].ops|
  {
    nodes[p := nodes[p].(ops := nodes[p].ops[i := Null])]
  }

  ghost predicate Cleared(ops: seq<Ref>, n: nat) { n <= |ops| && forall m | 0 <= m < n :: ops[m] == Null }

  ghost predicate Inside(ops: seq<Ref>, from: nat, table: set<Ref>) { forall m | from <= m < |ops| :: ops[m] in table }

  /** Every node is either in the table or waiting. */
  ghost predicate Partition(nodes: Nodes, table: set<Ref>, doomed: seq<Ref>) {
    && (forall r | r in nodes :: r in table || r in doomed) && (forall r | r in table :: r in nodes)
    && (forall r | r in doomed :: r in nodes && r !in table)
  }

  /** `doomed` are the operators that left the table, linked through their next pointers; those
      before position `k` have lost all operands, the one at `k` the first `i`. */
  ghost predicate Doomed(nodes: Nodes, next: map<Ref, Ref>, table: set<Ref>, doomed: seq<Ref>, k: nat, i: nat) {
    && doomed != [] && k <= |doomed| && IsChain(doomed[0], next, doomed)
    && Partition(nodes, table, doomed)
    && (forall j | 0 <= j < k :: Cleared(nodes[doomed[j]].ops, |nodes[doomed[j]].ops|))
    && (k < |doomed| ==> Cleared(nodes[doomed[k]].ops, i) && Inside(nodes[doomed[k]].ops, i, table))
    && (forall j | k < j < |doomed| :: Inside(nodes[doomed[j]].ops, 0, table))
  }

  lemma {:induction false} DoomedNext(nodes: Nodes, next: map<Ref, Ref>, table: set<Ref>, doomed: seq<Ref>, k: nat)
    requires k < |doomed| && doomed[k] in nodes && Doomed(nodes, next, table, doomed, k, |nodes[doomed[k]].ops|)
    ensures Doomed(nodes, next, table, doomed, k + 1, 0)
    ensures doomed[k] in next && next[doomed[k]] == if k + 1 < |doomed| then doomed[k + 1] else Null
  {
    hide Cleared, Inside;
    forall j | 0 <= j < k + 1 ensures doomed[j] in nodes && Cleared(nodes[doomed[j]].ops, |nodes[doomed[j]].ops|) { assert doomed[j] in doomed; }
    if k + 1 < |doomed| {
      assert Inside(nodes[doomed[k + 1]].ops, 0, table);
      NothingCleared(nodes[doomed[k + 1]].ops);
    }
  }

  lemma NothingCleared(ops: seq<Ref>)
    ensures Cleared(ops, 0)
  {
  }

  /** One more operand of the node at `k` is cleared; it stays in the table. */
  lemma {:induction false} DoomedDetach(nodes: Nodes, next: map<Ref, Ref>, table: set<Ref>, doomed: seq<Ref>, k: nat, i: nat)
    requires k < |doomed| && doomed[k] in nodes && i < |nodes[doomed[k]].ops| && Doomed(nodes, next, table, doomed, k, i)
    ensures Doomed(Detached(nodes, doomed[k], i), next, table, doomed, k, i + 1)
    ensures nodes[doomed[k]].ops[i] in table && SameOn(nodes, Detached(nodes, doomed[k], i), table)
  {
    var nodes' := Detached(nodes, doomed[k], i);
    ClearOne(nodes[doomed[k]].ops, i, table);
    assert doomed[k] in doomed && doomed[k] !in table;
    hide IsChain, Cleared, Inside;
    assert IsChain(doomed[0], next, doomed);
    forall j | 0 <= j < |doomed| && j != k ensures doomed[j] in nodes && nodes'[doomed[j]] == nodes[doomed[j]] {
      assert doomed[j] in doomed && doomed[j] != doomed[k] by { Different(doomed[0], next, doomed, j, k); }
    }
  }

  lemma ClearOne(ops: seq<Ref>, i: nat, table: set<Ref>)
    requires i < |ops| && Cleared(ops, i) && Inside(ops, i, table)
    ensures ops[i] in table && Cleared(ops[i := Null], i + 1) && Inside(ops[i := Null], i + 1, table)
  {
  }

  lemma Different(head: Ref, next: map<Ref, Ref>, chain: seq<Ref>, j: nat, k: nat)
    requires IsChain(head, next, chain) && j < |chain| && k < |chain| && j != k
    ensures chain[j] != chain[k]
  {
  }

  /** A member nothing points at leaves the table. */
  lemma {:induction false} InsideWithout(ops: seq<Ref>, from: nat, table: set<Ref>, r: Ref)
    requires Inside(ops, from, table) && r !in ops
    ensures Inside(ops, from, table - {r})
  {
  }

  lemma {:induction false} ChainAppend(head: Ref, next: map<Ref, Ref>, chain: seq<Ref>, r: Ref)
    requires IsChain(head, next, chain) && chain != [] && r != Null && r !in chain && r in next && next[r] == Null
    ensures IsChain(head, next[chain[|chain| - 1] := r], chain + [r])
  {
    var n := |chain| - 1;
    var all, next' := chain + [r], next[chain[n] := r];
    forall j | 0 <= j < |all| ensures all[j] != Null && all[j] in next' && next'[all[j]] == First(all[j + 1..]) {
      if j < n {
        assert all[j] == chain[j] && chain[j] != chain[n] && all[j + 1..][0] == chain[j + 1] == chain[j + 1..][0];
      } else if j == n {
        assert all[j + 1..] == [r];
      } else {
        assert chain[n] in chain && all[j + 1..] == [];
      }
    }
  }

  lemma {:induction false} DoomedFrame(nodes: Nodes, next: map<Ref, Ref>, next': map<Ref, Ref>, table: set<Ref>, doomed: seq<Ref>, k: nat, i: nat)
    requires Doomed(nodes, next, table, doomed, k, i) && forall r | r in doomed :: r in next' && next'[r] == next[r]
    ensures Doomed(nodes, next', table, doomed, k, i)
  {
    ChainFrame(doomed[0], next, next', doomed);
    hide IsChain, Cleared, Inside;
  }

  /** An operator nothing points at leaves the table and joins the list. */
  lemma {:induction false} DoomedAppend(nodes: Nodes, next: map<Ref, Ref>, table: set<Ref>, doomed: seq<Ref>, k: nat, i: nat, r: Ref)
    requires Doomed(nodes, next, table, doomed, k, i) && k < |doomed| && r in table && r != Null && r in next && next[r] == Null
    requires (forall p | p in nodes :: r !in nodes[p].ops) && r in nodes && Inside(nodes[r].ops, 0, table)
    ensures Doomed(nodes, next[doomed[|doomed| - 1] := r], table - {r}, doomed + [r], k, i)
  {
    hide IsChain, Cleared, Inside;
    var n := |doomed|;
    var doomed', table' := doomed + [r], table - {r};
    assert r !in doomed;
    ChainAppend(doomed[0], next, doomed, r);
    PartitionAppend(nodes, table, doomed, r);
    InsideWithout(nodes[doomed[k]].ops, i, table, r);
    forall j | 0 <= j < n ensures doomed[j] in nodes && doomed'[j] == doomed[j] { assert doomed[j] in doomed; }
    assert doomed'[n] == r;
    hide Partition;
    forall j | k < j < n + 1 ensures Inside(nodes[doomed'[j]].ops, 0, table') {
      assert j < n ==> Inside(nodes[doomed[j]].ops, 0, table);
      InsideWithout(nodes[doomed'[j]].ops, 0, table, r);
    }
  }

  lemma {:induction false} PartitionAppend(nodes: Nodes, table: set<Ref>, doomed: seq<Ref>, r: Ref)
    requires Partition(nodes, table, doomed) && r in table
    ensures Partition(nodes, table - {r}, doomed + [r])
  {
    var doomed' := doomed + [r];
    assert doomed'[|doomed|] == r;
    forall x ensures x in doomed' <==> x in doomed || x == r { if x in doomed { var j :| 0 <= j < |doomed| && doomed[j] == x; assert doomed'[j] == x; } }
  }

  /** A leaf nothing points at is deleted at once. */
  lemma {:induction false} DoomedLeaf(nodes: Nodes, next: map<Ref, Ref>, table: set<Ref>, doomed: seq<Ref>, k: nat, i: nat, r: Ref)
    requires Doomed(nodes, next, table, doomed, k, i) && r in table && (forall p | p in nodes :: r !in nodes[p].ops) && r in nodes
    ensures Doomed(nodes - {r}, next - {r}, table - {r}, doomed, k, i)
  {
    assert r !in doomed;
    forall x | x in doomed ensures x in next { var j :| 0 <= j < |doomed| && doomed[j] == x; }
    ChainFrame(doomed[0], next, next - {r}, doomed);
    hide IsChain, Cleared;
    var nodes', table' := nodes - {r}, table - {r};
    forall j | 0 <= j < |doomed| ensures doomed[j] in nodes' && nodes'[doomed[j]] == nodes[doomed[j]] { assert doomed[j] in doomed; }
    forall j | k < j < |doomed| ensures Inside(nodes'[doomed[j]].ops, 0, table') { InsideWithout(nodes[doomed[j]].ops, 0, table, r); }
    if k < |doomed| { InsideWithout(nodes[doomed[k]].ops, i, table, r); }
    hide Inside;
  }

  // ---- Counts while deleting ----

  lemma {:induction false} CountedDetach(nodes: Nodes, counts: map<Ref, nat>, held: multiset<Ref>, table: set<Ref>, p: Ref, i: nat)
    requires Counted(nodes, counts, held, table) && p in nodes && i < |nodes[p].ops| && Null !in table && nodes[p].ops[i] in table && counts[nodes[p].ops[i]] > 1
    ensures var r := nodes[p].ops[i]; Counted(Detached(nodes, p, i), counts[r := counts[r] - 1], held, table)
  {
    var r := nodes[p].ops[i];
    forall x | x in table ensures Uses(Detached(nodes, p, i), x) == Uses(nodes, x) - (if x == r then 1 else 0) { UsesDetached(nodes, p, i, x); }
    hide Uses, Detached;
  }

  lemma {:induction false} CountedLast(nodes: Nodes, counts: map<Ref, nat>, held: multiset<Ref>, table: set<Ref>, p: Ref, i: nat)
    requires Counted(nodes, counts, held, table) && p in nodes && i < |nodes[p].ops| && Null !in table && nodes[p].ops[i] in table && counts[nodes[p].ops[i]] == 1
    ensures var r := nodes[p].ops[i];
            && Counted(Detached(nodes, p, i), counts, held, table - {r})
            && forall q | q in Detached(nodes, p, i) :: r !in Detached(nodes, p, i)[q].ops
  {
    var r := nodes[p].ops[i];
    assert r in nodes[p].ops;
    SomeUse(nodes, p, r);
    var nodes' := Detached(nodes, p, i);
    forall x | x in table ensures Uses(nodes', x) == Uses(nodes, x) - (if x == r then 1 else 0) { UsesDetached(nodes, p, i, x); }
    hide Uses, Detached;
    assert held[r] == 0 && Uses(nodes', r) == 0;
    NoUses(nodes', r);
  }

  lemma {:induction false} CountedDrop(nodes: Nodes, counts: map<Ref, nat>, held: multiset<Ref>, table: set<Ref>, p: Ref)
    requires Counted(nodes, counts, held, table) && p in nodes && p !in table && Null !in table && Cleared(nodes[p].ops, |nodes[p].ops|)
    ensures Counted(nodes - {p}, counts - {p}, held, table)
  {
    forall o | o in nodes[p].ops ensures o == Null { var m :| 0 <= m < |nodes[p].ops| && nodes[p].ops[m] == o; }
    forall x | x in table ensures Uses(nodes - {p}, x) == Uses(nodes, x) { UsesDropped(nodes, p, x); }
    hide Uses;
  }

  // ---- The store ----

  /** Handles to the operands are copied into the new node. */
  method AddReferences(counts0: map<Ref, nat>, ops: seq<Ref>) returns (counts: map<Ref, nat>)
    requires forall o | o in ops :: o in counts0
    ensures counts.Keys == counts0.Keys && forall r | r in counts0 :: counts[r] == counts0[r] + multiset(ops)[r]
  {
    counts := counts0;
    for i := 0 to |ops|
      invariant counts.Keys == counts0.Keys && forall r | r in counts0 :: counts[r] == counts0[r] + multiset(ops[..i])[r]
    {
      assert ops[i] in ops && ops[..i + 1] == ops[..i] + [ops[i]];
      counts := counts[ops[i] := counts[ops[i]] + 1];
    }
    assert ops[..|ops|] == ops;
  }

  lemma {:induction false} CountedHeld(nodes: Nodes, counts: map<Ref, nat>, held: multiset<Ref>, table: set<Ref>, r: Ref)
    requires Counted(nodes, counts, held, table) && r in table
    ensures Counted(nodes, counts[r := counts[r] + 1], held + multiset{r}, table)
  {
    hide Uses;
  }

  lemma {:induction false} CountedReleased(nodes: Nodes, counts: map<Ref, nat>, held: multiset<Ref>, table: set<Ref>, r: Ref)
    requires Counted(nodes, counts, held, table) && r in held
    ensures counts[r] > 1 ==> Counted(nodes, counts[r := counts[r] - 1], held - multiset{r}, table)
    ensures counts[r] == 1 ==> Counted(nodes, counts[r := counts[r] - 1], held - multiset{r}, table - {r}) && (forall p | p in nodes :: r !in nodes[p].ops)
  {
    if counts[r] == 1 {
      assert Uses(nodes, r) == 0;
      NoUses(nodes, r);
    }
    hide Uses;
  }

  lemma LinkedFacts(nodes: Nodes, next: map<Ref, Ref>, buckets: seq<Ref>, chains: seq<seq<Ref>>, table: set<Ref>)
    requires Linked(nodes, next, buckets, chains, table)
    ensures Null !in nodes && next.Keys == nodes.Keys && table <= nodes.Keys && IsTable(buckets, next, chains) && |buckets| == |chains|
    ensures Sorted(chains, Hashes(nodes, table)) && chains != []
  {
    hide IsTable;
  }

  /** The ghost part of a store: the chains, the members of the table, and when nodes were created. */
  datatype Shadow = Shadow(chains: seq<seq<Ref>>, table: set<Ref>, birth: map<Ref, nat>, clock: nat)

  ghost predicate CoreOf(nodes: Nodes, next: map<Ref, Ref>, counts: map<Ref, nat>, buckets: seq<Ref>, entryCount: nat, hasher: Hasher, S: Shadow) {
    && Linked(nodes, next, buckets, S.chains, S.table) && Sane(nodes, S.table, S.birth, S.clock, hasher)
    && counts.Keys == nodes.Keys && entryCount == |S.table| && 4 * entryCount < 3 * |buckets| && |buckets| >= 64
  }

  /** `r` is free for a node that the store does not have yet. */
  ghost predicate IsNew(nodes: Nodes, hasher: Hasher, r: Ref, node: Node) {
    && r !in nodes && r != Null && node.hash == hasher(node.tag, node.ops)
    && (node.tag.OperatorLabel? <==> node.ops != []) && (forall o | o in node.ops :: o in nodes)
    && forall p | p in nodes :: nodes[p].tag != node.tag || nodes[p].ops != node.ops
  }

  method NewCounts(nodes: Nodes, counts: map<Ref, nat>, r: Ref, node: Node, ghost held: multiset<Ref>,
                   ghost entryCount: nat, ghost next: map<Ref, Ref>, ghost buckets: seq<Ref>, ghost hasher: Hasher, ghost S: Shadow)
    returns (counts': map<Ref, nat>)
    requires CoreOf(nodes, next, counts, buckets, entryCount, hasher, S) && S.table == nodes.Keys && Counted(nodes, counts, held, S.table)
    requires IsNew(nodes, hasher, r, node)
    ensures counts'.Keys == nodes[r := node].Keys && Counted(nodes[r := node], counts', held + multiset{r}, S.table + {r})
  {
    hide Counted, Sane, Linked;
    counts' := AddReferences(counts, node.ops);
    counts' := counts'[r := 1];
    SaneFacts(nodes, S.table, S.birth, S.clock, hasher);
    CountedInserted(nodes, counts, counts', held, S.table, r, node);
  }

  /** Links a new node in front of its bucket. */
  method LinkNode(nodes: Nodes, next: map<Ref, Ref>, buckets: seq<Ref>, r: Ref, node: Node, counts': map<Ref, nat>,
                  ghost counts: map<Ref, nat>, ghost entryCount: nat, ghost hasher: Hasher, ghost S: Shadow)
    returns (nodes': Nodes, next': map<Ref, Ref>, buckets': seq<Ref>, ghost S': Shadow)
    requires CoreOf(nodes, next, counts, buckets, entryCount, hasher, S) && S.table == nodes.Keys && 4 * (entryCount + 1) < 3 * |buckets|
    requires IsNew(nodes, hasher, r, node) && counts'.Keys == nodes[r := node].Keys
    ensures nodes' == nodes[r := node] && S'.table == S.table + {r} == nodes'.Keys
    ensures var b := node.hash % |buckets|; buckets' == buckets[b := r] && next' == next[r := buckets[b]]
    ensures CoreOf(nodes', next', counts', buckets', entryCount + 1, hasher, S')
  {
    hide Linked, Sane, IsTable, Sorted;
    var b := BucketOf(node.hash, |buckets|);
    assert b == node.hash % |buckets|;
    hide BucketOf;
    LinkedFacts(nodes, next, buckets, S.chains, S.table);
    LinkedInserted(nodes, next, buckets, S.chains, S.table, r, node);
    SaneInserted(nodes, S.table, S.birth, S.clock, hasher, r, node);
    nodes', next', buckets' := nodes[r := node], next[r := buckets[b]], buckets[b := r];
    S' := Shadow(S.chains[b := [r] + S.chains[b]], S.table + {r}, S.birth[r := S.clock], S.clock + 1);
  }

  // ---- Steps of a cascading delete ----

  /** A store in the middle of a delete. */
  ghost predicate DestroyingOf(nodes: Nodes, next: map<Ref, Ref>, counts: map<Ref, nat>, buckets: seq<Ref>, entryCount: nat, hasher: Hasher, S: Shadow,
                               held: multiset<Ref>, doomed: seq<Ref>, k: nat, i: nat) {
    CoreOf(nodes, next, counts, buckets, entryCount, hasher, S) && Counted(nodes, counts, held, S.table) && Doomed(nodes, next, S.table, doomed, k, i)
  }

  lemma {:induction false} CoreElsewhere(nodes: Nodes, nodes': Nodes, next: map<Ref, Ref>, next': map<Ref, Ref>, counts: map<Ref, nat>, counts': map<Ref, nat>,
                                         buckets: seq<Ref>, entryCount: nat, hasher: Hasher, S: Shadow)
    requires CoreOf(nodes, next, counts, buckets, entryCount, hasher, S) && SameOn(nodes, nodes', S.table)
    requires nodes'.Keys <= nodes.Keys && next'.Keys == nodes'.Keys == counts'.Keys && forall r | r in S.table :: r in next && next'[r] == next[r]
    ensures CoreOf(nodes', next', counts', buckets, entryCount, hasher, S)
  {
    LinkedFacts(nodes, next, buckets, S.chains, S.table);
    hide Linked, Sane, IsTable, Sorted;
    SaneElsewhere(nodes, nodes', S.table, S.birth, S.clock, hasher);
    LinkedElsewhere(nodes, nodes', next, next', buckets, S.chains, S.table);
  }

  /** What a step knows about the operand it is about to give up. */
  lemma {:induction false} ChildFacts(nodes: Nodes, next: map<Ref, Ref>, counts: map<Ref, nat>, buckets: seq<Ref>, entryCount: nat, hasher: Hasher, S: Shadow,
                                      held: multiset<Ref>, doomed: seq<Ref>, k: nat, i: nat)
    requires DestroyingOf(nodes, next, counts, buckets, entryCount, hasher, S, held, doomed, k, i) && k < |doomed| && doomed[k] in nodes && i < |nodes[doomed[k]].ops|
    ensures var child := nodes[doomed[k]].ops[i]; child in S.table && child in nodes && child in counts && counts[child] > 0 && child != doomed[k]
    ensures Null !in S.table && next.Keys == nodes.Keys == counts.Keys && S.table <= nodes.Keys
    ensures Doomed(Detached(nodes, doomed[k], i), next, S.table, doomed, k, i + 1) && SameOn(nodes, Detached(nodes, doomed[k], i), S.table)
    ensures CoreOf(Detached(nodes, doomed[k], i), next, counts, buckets, entryCount, hasher, S)
  {
    DoomedDetach(nodes, next, S.table, doomed, k, i);
    LinkedFacts(nodes, next, buckets, S.chains, S.table);
    assert doomed[k] !in S.table by { assert doomed[k] in doomed; }
    hide Linked, Sane, Doomed, IsTable, Sorted;
    var nodes' := Detached(nodes, doomed[k], i);
    assert nodes'.Keys == nodes.Keys;
    CoreElsewhere(nodes, nodes', next, next, counts, counts, buckets, entryCount, hasher, S);
  }

  /** The operand has other references left. */
  lemma {:induction false} StepDecrement(nodes: Nodes, next: map<Ref, Ref>, counts: map<Ref, nat>, buckets: seq<Ref>, entryCount: nat, hasher: Hasher, S: Shadow,
                                         held: multiset<Ref>, doomed: seq<Ref>, k: nat, i: nat)
    requires DestroyingOf(nodes, next, counts, buckets, entryCount, hasher, S, held, doomed, k, i) && k < |doomed| && doomed[k] in nodes && i < |nodes[doomed[k]].ops|
    requires nodes[doomed[k]].ops[i] in counts && counts[nodes[doomed[k]].ops[i]] > 1
    ensures var child := nodes[doomed[k]].ops[i];
            DestroyingOf(Detached(nodes, doomed[k], i), next, counts[child := counts[child] - 1], buckets, entryCount, hasher, S, held, doomed, k, i + 1)
  {
    hide CoreOf, Doomed, Counted, Detached, SameOn;
    ChildFacts(nodes, next, counts, buckets, entryCount, hasher, S, held, doomed, k, i);
    var child, nodes' := nodes[doomed[k]].ops[i], Detached(nodes, doomed[k], i);
    CountedDetach(nodes, counts, held, S.table, doomed[k], i);
    DetachedKeys(nodes, doomed[k], i);
    CoreCounts(nodes', next, counts, counts[child := counts[child] - 1], buckets, entryCount, hasher, S);
  }

  lemma CoreCounts(nodes: Nodes, next: map<Ref, Ref>, counts: map<Ref, nat>, counts': map<Ref, nat>, buckets: seq<Ref>, entryCount: nat, hasher: Hasher, S: Shadow)
    requires CoreOf(nodes, next, counts, buckets, entryCount, hasher, S) && counts'.Keys == counts.Keys
    ensures CoreOf(nodes, next, counts', buckets, entryCount, hasher, S)
  {
    hide Linked, Sane;
  }

  lemma DetachedKeys(nodes: Nodes, p: Ref, i: nat)
    requires p in nodes && i < |nodes[p].ops|
    ensures Detached(nodes, p, i).Keys == nodes.Keys && |Detached(nodes, p, i)[p].ops| == |nodes[p].ops|
    ensures forall q | q in nodes && q != p :: Detached(nodes, p, i)[q] == nodes[q]
    ensures forall q | q in nodes :: Detached(nodes, p, i)[q].tag == nodes[q].tag
  {
  }

  lemma SameOnSelf(nodes: Nodes, table: set<Ref>)
    requires table <= nodes.Keys
    ensures SameOn(nodes, nodes, table)
  {
  }

  /** The reference was the last one: nothing points at the operand any more. */
  lemma {:induction false} StepLast(nodes: Nodes, next: map<Ref, Ref>, counts: map<Ref, nat>, buckets: seq<Ref>, entryCount: nat, hasher: Hasher, S: Shadow,
                                    held: multiset<Ref>, doomed: seq<Ref>, k: nat, i: nat)
    requires DestroyingOf(nodes, next, counts, buckets, entryCount, hasher, S, held, doomed, k, i) && k < |doomed| && doomed[k] in nodes && i < |nodes[doomed[k]].ops|
    requires nodes[doomed[k]].ops[i] in counts && counts[nodes[doomed[k]].ops[i]] == 1
    ensures var child, nodes' := nodes[doomed[k]].ops[i], Detached(nodes, doomed[k], i); Unused(nodes', next, counts, buckets, entryCount, hasher, S, held, doomed, k, i + 1, child)
  {
    ChildFacts(nodes, next, counts, buckets, entryCount, hasher, S, held, doomed, k, i);
    DetachedKeys(nodes, doomed[k], i);
    hide CoreOf, Doomed, Counted, Detached;
    CountedLast(nodes, counts, held, S.table, doomed[k], i);
  }

  /** Nothing points at the member `child` of the table, and it is not counted any more. */
  ghost predicate Unused(nodes: Nodes, next: map<Ref, Ref>, counts: map<Ref, nat>, buckets: seq<Ref>, entryCount: nat, hasher: Hasher, S: Shadow,
                         held: multiset<Ref>, doomed: seq<Ref>, k: nat, i: nat, child: Ref) {
    && CoreOf(nodes, next, counts, buckets, entryCount, hasher, S) && Doomed(nodes, next, S.table, doomed, k, i)
    && Counted(nodes, counts, held, S.table - {child}) && child in S.table && child in nodes && forall q | q in nodes :: child !in nodes[q].ops
  }

  /** `(next', buckets', S')` is the table after unlinking `child`. */
  ghost predicate Unlinks(nodes: Nodes, next: map<Ref, Ref>, next': map<Ref, Ref>, counts: map<Ref, nat>, buckets': seq<Ref>, entryCount': nat, hasher: Hasher,
                          S: Shadow, S': Shadow, child: Ref) {
    && CoreOf(nodes, next', counts, buckets', entryCount', hasher, S') && S'.table == S.table - {child} && child in next' && next'[child] == Null
    && next'.Keys == next.Keys && forall x | x in next && x !in S.table :: next'[x] == next[x]
  }

  lemma {:induction false} DoomedUnlinked(nodes: Nodes, next: map<Ref, Ref>, next': map<Ref, Ref>, table: set<Ref>, doomed: seq<Ref>, k: nat, i: nat)
    requires Doomed(nodes, next, table, doomed, k, i) && next'.Keys == next.Keys && next.Keys == nodes.Keys && forall x | x in next && x !in table :: next'[x] == next[x]
    ensures Doomed(nodes, next', table, doomed, k, i)
  {
    assert forall r | r in doomed :: r in nodes && r !in table;
    hide Doomed;
    DoomedFrame(nodes, next, next', table, doomed, k, i);
  }

  lemma {:induction false} UnlinkedDoom(nodes: Nodes, next: map<Ref, Ref>, next': map<Ref, Ref>, counts: map<Ref, nat>, buckets: seq<Ref>, buckets': seq<Ref>,
                                        entryCount: nat, entryCount': nat, hasher: Hasher, S: Shadow, S': Shadow, held: multiset<Ref>, doomed: seq<Ref>, k: nat, i: nat, child: Ref)
    requires Unused(nodes, next, counts, buckets, entryCount, hasher, S, held, doomed, k, i, child)
    requires Unlinks(nodes, next, next', counts, buckets', entryCount', hasher, S, S', child)
    ensures Doomed(nodes, next', S.table, doomed, k, i) && child != Null && Inside(nodes[child].ops, 0, S.table) && |S'.table| == |S.table| - 1
    ensures next'.Keys == nodes.Keys == counts.Keys && S'.table <= nodes.Keys && (forall r | r in doomed :: r in nodes && r !in S.table)
    ensures nodes[child].tag.OperatorLabel? || nodes[child].ops == []
  {
    hide CoreOf, Doomed, Counted;
    CoreFacts(nodes, next, counts, buckets, entryCount, hasher, S, child);
    CoreFacts(nodes, next', counts, buckets', entryCount', hasher, S', child);
    DoomedFacts(nodes, next, S.table, doomed, k, i);
    DoomedUnlinked(nodes, next, next', S.table, doomed, k, i);
  }

  lemma {:induction false} CoreFacts(nodes: Nodes, next: map<Ref, Ref>, counts: map<Ref, nat>, buckets: seq<Ref>, entryCount: nat, hasher: Hasher, S: Shadow, r: Ref)
    requires CoreOf(nodes, next, counts, buckets, entryCount, hasher, S)
    ensures Null !in nodes && next.Keys == nodes.Keys == counts.Keys && S.table <= nodes.Keys && entryCount == |S.table|
    ensures r in S.table ==> r in nodes && Inside(nodes[r].ops, 0, S.table) && (nodes[r].tag.OperatorLabel? <==> nodes[r].ops != [])
  {
    hide IsTable, Sorted, Hashes, Canonical;
    if r in S.table {
      forall m | 0 <= m < |nodes[r].ops| ensures nodes[r].ops[m] in S.table { assert nodes[r].ops[m] in nodes[r].ops; }
    }
  }

  lemma DoomedFacts(nodes: Nodes, next: map<Ref, Ref>, table: set<Ref>, doomed: seq<Ref>, k: nat, i: nat)
    requires Doomed(nodes, next, table, doomed, k, i)
    ensures forall r | r in doomed :: r in nodes && r !in table
  {
    hide IsChain, Cleared, Inside;
  }

  /** An operator waits at the end of the list. */
  lemma {:induction false} StepAppend(nodes: Nodes, next: map<Ref, Ref>, next': map<Ref, Ref>, counts: map<Ref, nat>, buckets: seq<Ref>, buckets': seq<Ref>,
                                      entryCount: nat, entryCount': nat, hasher: Hasher, S: Shadow, S': Shadow, held: multiset<Ref>, doomed: seq<Ref>, k: nat, i: nat, child: Ref)
    requires Unused(nodes, next, counts, buckets, entryCount, hasher, S, held, doomed, k, i, child) && k < |doomed|
    requires Unlinks(nodes, next, next', counts, buckets', entryCount', hasher, S, S', child)
    ensures DestroyingOf(nodes, next'[doomed[|doomed| - 1] := child], counts, buckets', entryCount', hasher, S', held, doomed + [child], k, i)
    ensures |S'.table| + |doomed + [child]| == |S.table| + |doomed|
  {
    hide CoreOf, Doomed, Counted, Inside, SameOn;
    UnlinkedDoom(nodes, next, next', counts, buckets, buckets', entryCount, entryCount', hasher, S, S', held, doomed, k, i, child);
    DoomedAppend(nodes, next', S.table, doomed, k, i, child);
    var tail := doomed[|doomed| - 1];
    assert tail in doomed;
    SameOnSelf(nodes, S'.table);
    CoreElsewhere(nodes, nodes, next', next'[tail := child], counts, counts, buckets', entryCount', hasher, S');
  }

  /** A leaf is deleted at once. */
  lemma {:induction false} StepLeaf(nodes: Nodes, next: map<Ref, Ref>, next': map<Ref, Ref>, counts: map<Ref, nat>, buckets: seq<Ref>, buckets': seq<Ref>,
                                    entryCount: nat, entryCount': nat, hasher: Hasher, S: Shadow, S': Shadow, held: multiset<Ref>, doomed: seq<Ref>, k: nat, i: nat, child: Ref)
    requires Unused(nodes, next, counts, buckets, entryCount, hasher, S, held, doomed, k, i, child) && !nodes[child].tag.OperatorLabel?
    requires Unlinks(nodes, next, next', counts, buckets', entryCount', hasher, S, S', child)
    ensures DestroyingOf(nodes - {child}, next' - {child}, counts - {child}, buckets', entryCount', hasher, S', held, doomed, k, i)
    ensures |S'.table| < |S.table| && forall d | d in doomed && d in nodes :: d != child
  {
    UnlinkedDoom(nodes, next, next', counts, buckets, buckets', entryCount, entryCount', hasher, S, S', held, doomed, k, i, child);
    assert Cleared(nodes[child].ops, |nodes[child].ops|);
    assert Null !in S'.table by { LinkedFacts(nodes, next', buckets', S'.chains, S'.table); }
    hide CoreOf, Doomed, Counted, Inside, Cleared;
    DoomedLeaf(nodes, next', S.table, doomed, k, i, child);
    CountedDrop(nodes, counts, held, S'.table, child);
    CoreElsewhere(nodes, nodes - {child}, next', next' - {child}, counts, counts - {child}, buckets', entryCount', hasher, S');
  }

  // ---- Start and end of a cascading delete ----

  lemma {:induction false} DoomedStart(nodes: Nodes, next: map<Ref, Ref>, table: set<Ref>, r: Ref)
    requires table == nodes.Keys && r in nodes && r != Null && r in next && next[r] == Null && Inside(nodes[r].ops, 0, table) && r !in nodes[r].ops
    ensures Doomed(nodes, next, table - {r}, [r], 0, 0)
  {
    InsideWithout(nodes[r].ops, 0, table, r);
    assert [r][1..] == [];
    hide Inside;
  }

  /** Only nodes without operands are left to be deleted. */
  ghost predicate Dead(nodes: Nodes, next: map<Ref, Ref>, table: set<Ref>, rest: seq<Ref>) {
    IsChain(First(rest), next, rest) && Partition(nodes, table, rest) && forall r | r in rest && r in nodes :: Cleared(nodes[r].ops, |nodes[r].ops|)
  }

  lemma {:induction false} DoomedIsDead(nodes: Nodes, next: map<Ref, Ref>, table: set<Ref>, doomed: seq<Ref>)
    requires Doomed(nodes, next, table, doomed, |doomed|, 0)
    ensures Dead(nodes, next, table, doomed)
  {
    hide IsChain, Cleared, Inside, Partition;
    forall r | r in doomed && r in nodes ensures Cleared(nodes[r].ops, |nodes[r].ops|) { var j :| 0 <= j < |doomed| && doomed[j] == r; }
  }

  lemma {:induction false} DeleteOne(nodes: Nodes, next: map<Ref, Ref>, counts: map<Ref, nat>, buckets: seq<Ref>, entryCount: nat, hasher: Hasher, S: Shadow,
                                     held: multiset<Ref>, rest: seq<Ref>)
    requires CoreOf(nodes, next, counts, buckets, entryCount, hasher, S) && Counted(nodes, counts, held, S.table) && Dead(nodes, next, S.table, rest) && rest != []
    ensures var r := rest[0];
            && r in nodes && r in next && next[r] == First(rest[1..]) && Dead(nodes - {r}, next - {r}, S.table, rest[1..]) && r !in S.table
            && CoreOf(nodes - {r}, next - {r}, counts - {r}, buckets, entryCount, hasher, S) && Counted(nodes - {r}, counts - {r}, held, S.table)
    ensures SameOn(nodes, nodes - {rest[0]}, S.table)
  {
    hide IsChain, CoreOf, Counted, Cleared, Partition, SameOn;
    var r := rest[0];
    CoreFacts(nodes, next, counts, buckets, entryCount, hasher, S, r);
    DeadTail(nodes, next, S.table, rest);
    CountedDrop(nodes, counts, held, S.table, r);
    CoreElsewhere(nodes, nodes - {r}, next, next - {r}, counts, counts - {r}, buckets, entryCount, hasher, S);
  }

  lemma {:induction false} DeadTail(nodes: Nodes, next: map<Ref, Ref>, table: set<Ref>, rest: seq<Ref>)
    requires Dead(nodes, next, table, rest) && rest != [] && table <= nodes.Keys && next.Keys == nodes.Keys
    ensures var r := rest[0];
            && r in nodes && next[r] == First(rest[1..]) && Dead(nodes - {r}, next - {r}, table, rest[1..]) && r !in table
            && Cleared(nodes[r].ops, |nodes[r].ops|) && SameOn(nodes, nodes - {r}, table)
  {
    var r := rest[0];
    assert r in rest;
    ChainTail(First(rest), next, rest);
    RestPartition(nodes, table, rest);
    hide IsChain, Cleared;
    forall x | x in rest[1..] ensures x in rest && x in nodes { }
    ChainFrame(next[r], next, next - {r}, rest[1..]);
    ChainHead(next[r], next, rest[1..]);
    hide Partition;
  }

  lemma ChainHead(head: Ref, next: map<Ref, Ref>, chain: seq<Ref>)
    requires IsChain(head, next, chain)
    ensures head == First(chain)
  {
  }

  lemma {:induction false} RestPartition(nodes: Nodes, table: set<Ref>, rest: seq<Ref>)
    requires Partition(nodes, table, rest) && rest != [] && rest[0] !in rest[1..]
    ensures Partition(nodes - {rest[0]}, table, rest[1..])
  {
    assert rest == [rest[0]] + rest[1..];
    forall x | x in rest[1..] ensures x in rest { }
  }

  lemma NothingDead(nodes: Nodes, next: map<Ref, Ref>, table: set<Ref>, rest: seq<Ref>)
    requires Dead(nodes, next, table, rest)
    ensures (First(rest) == Null <==> rest == []) && (rest == [] ==> nodes.Keys == table)
  {
    if rest != [] {
      assert rest[0] != Null;
    }
  }

  lemma {:induction false} DoomedSize(nodes: Nodes, next: map<Ref, Ref>, table: set<Ref>, doomed: seq<Ref>, k: nat, i: nat)
    requires Doomed(nodes, next, table, doomed, k, i)
    ensures doomed != [] && k <= |doomed| && (k < |doomed| ==> doomed[k] in nodes && doomed[k] != Null && i <= |nodes[doomed[k]].ops|)
  {
    if k < |doomed| {
      assert doomed[k] in doomed;
    }
  }

  class ExprStorage {
    const hasher: Hasher
    var nodes: Nodes
    var next: map<Ref, Ref>
    var counts: map<Ref, nat>
    var buckets: seq<Ref>
    var entryCount: nat
    ghost var S: Shadow
    ghost var held: multiset<Ref>    // handles outside the store

    ghost predicate Core()
      reads this
    {
      CoreOf(nodes, next, counts, buckets, entryCount, hasher, S)
    }

    ghost predicate Valid()
      reads this
    {
      Core() && S.table == nodes.Keys && Counted(nodes, counts, held, S.table)
    }

    constructor (hasher: Hasher)
      ensures Valid() && nodes == map[] && held == multiset{} && this.hasher == hasher
    {
      this.hasher := hasher;
      nodes, next, counts, buckets, entryCount := map[], map[], map[], seq(64, _ => Null), 0;
      S, held := Shadow(seq(64, _ => []), {}, map[], 0), multiset{};
      EmptyTable(64, map[]);
      new;
      hide IsTable, Sorted;
      assert Hashes(nodes, S.table) == map[];
    }

    /** A handle is copied. */
    method AddRef(r: Ref)
      requires Valid() && r in nodes
      modifies this`counts, this`held
      ensures Valid() && held == old(held) + multiset{r}
    {
      hide Linked, Sane, Counted;
      CountedHeld(nodes, counts, held, S.table, r);
      counts, held := counts[r := counts[r] + 1], held + multiset{r};
    }

    method RehashTable(newSize: nat)
      requires Core() && S.table == nodes.Keys && newSize >= |buckets|
      modifies this`buckets, this`next, this`S
      ensures Core() && |buckets| == newSize && S.table == nodes.Keys
    {
      hide Sane, IsTable, Sorted;
      assert HashesOf(nodes) == Hashes(nodes, S.table);
      ghost var chains;
      buckets, next, chains := ExprTable.RehashTable(buckets, next, HashesOf(nodes), newSize, S.chains);
      TableSize(buckets, next, chains);
      S := S.(chains := chains);
    }

    method FindExisting(tag: Label, ops: seq<Ref>, hash: nat) returns (r: Ref)
      requires Core() && hash == hasher(tag, ops)
      ensures r != Null ==> r in S.table && r in nodes && nodes[r].tag == tag && nodes[r].ops == ops
      ensures r == Null ==> forall p | p in S.table && p in nodes :: nodes[p].tag != tag || nodes[p].ops != ops
    {
      hide Sane, IsTable, Sorted;
      LinkedFacts(nodes, next, buckets, S.chains, S.table);
      var b := BucketOf(hash, |buckets|);
      var all := nodes;
      assert IsChain(buckets[b], next, S.chains[b]) by { TableChain(buckets, next, S.chains, b); }
      r := Find(buckets[b], next, S.chains[b], p => p in all && all[p].tag == tag && all[p].ops == ops);
      hide Linked;
      if r == Null {
        NotPresent(nodes, next, buckets, S.chains, S.table, S.birth, S.clock, hasher, tag, ops);
      } else {
        InTable(nodes, next, buckets, S.chains, S.table, b, r);
      }
    }

    /** The handle of the expression with this label and these operands; a new node, placed by the
        allocator at `address`, only when there is none yet. */
    method CreateIfNotExists(tag: Label, ops: seq<Ref>, address: Ref) returns (r: Ref)
      requires Valid() && address !in nodes && address != Null && (forall o | o in ops :: o in nodes) && (tag.OperatorLabel? <==> ops != [])
      modifies this
      ensures Valid() && r in nodes && nodes[r].tag == tag && nodes[r].ops == ops && held == old(held) + multiset{r}
      ensures forall p | p in old(nodes) :: p in nodes && nodes[p] == old(nodes)[p]
      ensures r in old(nodes) ==> nodes == old(nodes) && buckets == old(buckets) && next == old(next)
      ensures r !in old(nodes) ==> |buckets| == if 4 * (old(entryCount) + 1) >= 3 * old(|buckets|) then 2 * old(|buckets|) else old(|buckets|)
      ensures r !in old(nodes) ==> buckets != [] && buckets[hasher(tag, ops) % |buckets|] == r
      ensures r !in old(nodes) ==> r == address && nodes.Keys == old(nodes).Keys + {address} && entryCount == old(entryCount) + 1
    {
      hide Linked, Sane, Counted;
      var hash := hasher(tag, ops);
      r := FindExisting(tag, ops, hash);
      if r != Null {
        AddRef(r);
        return;
      }
      if 4 * (entryCount + 1) >= 3 * |buckets| {
        RehashTable(|buckets| * 2);
      }
      r := address;
      Insert(r, Node(tag, ops, hash));
    }

    /** Puts a new node in front of its bucket. */
    method Insert(r: Ref, node: Node)
      requires Valid() && IsNew(nodes, hasher, r, node) && 4 * (entryCount + 1) < 3 * |buckets|
      modifies this
      ensures Valid() && nodes == old(nodes)[r := node] && held == old(held) + multiset{r} && entryCount == old(entryCount) + 1
      ensures |buckets| == old(|buckets|) > 0
      ensures var b := node.hash % |buckets|; buckets == old(buckets)[b := r] && next == old(next)[r := old(buckets)[b]]
    {
      hide CoreOf, Counted, IsNew;
      var counts' := NewCounts(nodes, counts, r, node, held, entryCount, next, buckets, hasher, S);
      nodes, next, buckets, S := LinkNode(nodes, next, buckets, r, node, counts', counts, entryCount, hasher, S);
      counts, entryCount, held := counts', entryCount + 1, held + multiset{r};
    }

    /** Unlinks an unused member from its bucket. */
    method RemoveFromTable(r: Ref)
      requires Core() && r in S.table && r in nodes && forall p | p in S.table && p in nodes :: r !in nodes[p].ops
      modifies this`buckets, this`next, this`S, this`entryCount
      ensures Core() && S.table == old(S.table) - {r} && entryCount == old(entryCount) - 1 && r in next && next[r] == Null
      ensures next.Keys == old(next).Keys && forall x | x in next && x !in old(S.table) :: next[x] == old(next)[x]
      ensures S.birth == old(S.birth)
    {
      hide Sane, IsTable, Sorted, Without, IsChain, BucketOf;
      LinkedFacts(nodes, next, buckets, S.chains, S.table);
      InBucket(nodes, next, buckets, S.chains, S.table, r);
      SaneWithout(nodes, S.table, S.birth, S.clock, hasher, r);
      var hash := nodes[r].hash;
      ghost var b := BucketOf(hash, |buckets|);
      var buckets', next' := RemoveFromList(buckets, next, hash, r, S.chains);
      LinkedRemoved(nodes, next, buckets, S.chains, S.table, r, buckets', next');
      forall x | x in next && x !in S.table ensures next'[x] == next[x] {
        if x in S.chains[b] { InTable(nodes, next, buckets, S.chains, S.table, b, x); }
      }
      hide Linked;
      buckets, next, entryCount := buckets', next', entryCount - 1;
      S := S.(chains := S.chains[b := Without(S.chains[b], r)], table := S.table - {r});
    }

    /** Some nodes have left the table and wait for deletion. */
    ghost predicate Destroying(doomed: seq<Ref>, k: nat, i: nat)
      reads this
    {
      DestroyingOf(nodes, next, counts, buckets, entryCount, hasher, S, held, doomed, k, i)
    }

    /** Gives up operand `i` of the doomed node `last`: the operand loses a reference, or leaves the
        table with its last one, to be deleted now or to wait at the end of the list. */
    method ReleaseOperand(last: Ref, i: nat, tail: Ref, ghost doomed: seq<Ref>, ghost k: nat) returns (tail': Ref, ghost doomed': seq<Ref>)
      requires Destroying(doomed, k, i) && k < |doomed| && last == doomed[k] && last in nodes && i < |nodes[last].ops| && tail == doomed[|doomed| - 1]
      modifies this`nodes, this`next, this`counts, this`buckets, this`entryCount, this`S
      ensures Destroying(doomed', k, i + 1) && doomed <= doomed' && tail' == doomed'[|doomed'| - 1]
      ensures last in nodes && |nodes[last].ops| == old(|nodes[last].ops|) && |S.table| + |doomed'| <= old(|S.table|) + |doomed|
      ensures S.table <= old(S.table) && SameOn(old(nodes), nodes, S.table)
    {
      hide DestroyingOf, SameOn, Detached, Unused, CoreOf, Doomed, Counted;
      tail', doomed' := tail, doomed;
      var child := nodes[last].ops[i];
      ChildFacts(nodes, next, counts, buckets, entryCount, hasher, S, held, doomed, k, i);
      DetachedKeys(nodes, last, i);
      ghost var detached := Detached(nodes, last, i);
      if counts[child] == 1 {
        StepLast(nodes, next, counts, buckets, entryCount, hasher, S, held, doomed, k, i);
        nodes := Detached(nodes, last, i);
        tail', doomed' := RemoveChild(child, tail, doomed, k, i + 1);
        SameOnTrans(old(nodes), detached, nodes, old(S.table), S.table);
      } else {
        StepDecrement(nodes, next, counts, buckets, entryCount, hasher, S, held, doomed, k, i);
        nodes, counts := Detached(nodes, last, i), counts[child := counts[child] - 1];
      }
    }

    /** Takes an operand nobody points at out of the table. */
    method RemoveChild(child: Ref, tail: Ref, ghost doomed: seq<Ref>, ghost k: nat, ghost i: nat) returns (tail': Ref, ghost doomed': seq<Ref>)
      requires Unused(nodes, next, counts, buckets, entryCount, hasher, S, held, doomed, k, i, child) && k < |doomed| && tail == doomed[|doomed| - 1]
      modifies this`nodes, this`next, this`counts, this`buckets, this`entryCount, this`S
      ensures Destroying(doomed', k, i) && doomed <= doomed' && tail' == doomed'[|doomed'| - 1]
      ensures S.table == old(S.table) - {child} && |S.table| + |doomed'| <= old(|S.table|) + |doomed|
      ensures SameOn(old(nodes), nodes, S.table) && doomed[k] in old(nodes) && doomed[k] in nodes && nodes[doomed[k]] == old(nodes[doomed[k]])
    {
      hide CoreOf, Counted, Doomed, DestroyingOf;
      DoomedFacts(nodes, next, S.table, doomed, k, i);
      CoreFacts(nodes, next, counts, buckets, entryCount, hasher, S, child);
      assert doomed[k] in doomed;
      RemoveFromTable(child);
      assert Unlinks(nodes, old(next), next, counts, buckets, entryCount, hasher, old(S), S, child);
      if nodes[child].tag.OperatorLabel? {
        StepAppend(nodes, old(next), next, counts, old(buckets), buckets, old(entryCount), entryCount, hasher, old(S), S, held, doomed, k, i, child);
        tail', doomed' := child, doomed + [child];
        next := next[tail := child];
      } else {
        StepLeaf(nodes, old(next), next, counts, old(buckets), buckets, old(entryCount), entryCount, hasher, old(S), S, held, doomed, k, i, child);
        tail', doomed' := tail, doomed;
        nodes, next, counts := nodes - {child}, next - {child}, counts - {child};
      }
    }

    /** Deletes an expression nobody refers to, and everything that loses its last reference. */
    method Destroy(expr: Ref)
      requires Core() && S.table == nodes.Keys && expr in nodes && Counted(nodes, counts, held, S.table - {expr}) && forall q | q in nodes :: expr !in nodes[q].ops
      modifies this`nodes, this`next, this`counts, this`buckets, this`entryCount, this`S
      ensures Valid() && forall r | r in nodes :: r in old(nodes) && r != expr && nodes[r] == old(nodes)[r]
    {
      hide CoreOf, Counted, Doomed, Dead, SameOn;
      CoreFacts(nodes, next, counts, buckets, entryCount, hasher, S, expr);
      ghost var before := nodes;
      RemoveFromTable(expr);
      SameOnSelf(nodes, S.table);
      ghost var rest;
      if nodes[expr].tag.OperatorLabel? {
        DoomedStart(nodes, next, old(S.table), expr);
        rest := Cascade(expr);
      } else {
        rest := [expr];
        LeafIsDead(nodes, next, old(S.table), expr);
      }
      NothingDead(nodes, next, S.table, rest);
      var current := expr;
      while current != Null
        invariant Core() && Counted(nodes, counts, held, S.table) && Dead(nodes, next, S.table, rest) && current == First(rest)
        invariant S.table <= old(S.table) - {expr} && SameOn(before, nodes, S.table)
        decreases |rest|
      {
        NothingDead(nodes, next, S.table, rest);
        DeleteOne(nodes, next, counts, buckets, entryCount, hasher, S, held, rest);
        SameOnTrans(before, nodes, nodes - {current}, S.table, S.table);
        var following := next[current];
        nodes, next, counts := nodes - {current}, next - {current}, counts - {current};
        current, rest := following, rest[1..];
        NothingDead(nodes, next, S.table, rest);
      }
      NothingDead(nodes, next, S.table, rest);
      SameOnFacts(before, nodes, S.table);
    }

    /** Walks the growing list of doomed operators until none is left. */
    method Cascade(expr: Ref) returns (ghost doomed: seq<Ref>)
      requires Destroying([expr], 0, 0)
      modifies this`nodes, this`next, this`counts, this`buckets, this`entryCount, this`S
      ensures Core() && Counted(nodes, counts, held, S.table) && Dead(nodes, next, S.table, doomed) && doomed != [] && doomed[0] == expr
      ensures S.table <= old(S.table) && SameOn(old(nodes), nodes, S.table)
    {
      hide CoreOf, Counted, Doomed, Dead, SameOn;
      var tail, last := expr, expr;
      doomed := [expr];
      ghost var k := 0;
      CoreFacts(nodes, next, counts, buckets, entryCount, hasher, S, expr);
      SameOnSelf(nodes, S.table);
      DoomedSize(nodes, next, S.table, doomed, k, 0);
      while last != Null
        invariant Destroying(doomed, k, 0) && k <= |doomed| && doomed != [] && doomed[0] == expr && tail == doomed[|doomed| - 1]
        invariant last == (if k < |doomed| then doomed[k] else Null) && (k < |doomed| ==> last in nodes && last != Null)
        invariant S.table <= old(S.table) && SameOn(old(nodes), nodes, S.table)
        decreases |S.table| + |doomed| - k
      {
        ghost var nodes1, table1 := nodes, S.table;
        tail, doomed := ReleaseOperands(last, tail, doomed, k);
        SameOnLess(old(nodes), nodes1, table1, S.table);
        SameOnTrans(old(nodes), nodes1, nodes, S.table, S.table);
        DoomedNext(nodes, next, S.table, doomed, k);
        last := next[last];
        k := k + 1;
        DoomedSize(nodes, next, S.table, doomed, k, 0);
      }
      DoomedIsDead(nodes, next, S.table, doomed);
    }

    method ReleaseOperands(last: Ref, tail0: Ref, ghost doomed0: seq<Ref>, ghost k: nat) returns (tail: Ref, ghost doomed: seq<Ref>)
      requires Destroying(doomed0, k, 0) && k < |doomed0| && last == doomed0[k] && last in nodes && tail0 == doomed0[|doomed0| - 1]
      modifies this`nodes, this`next, this`counts, this`buckets, this`entryCount, this`S
      ensures last in nodes && Destroying(doomed, k, |nodes[last].ops|) && doomed0 <= doomed && tail == doomed[|doomed| - 1]
      ensures |S.table| + |doomed| <= old(|S.table|) + |doomed0| && S.table <= old(S.table) && SameOn(old(nodes), nodes, S.table)
    {
      hide CoreOf, Counted, Doomed, SameOn;
      CoreFacts(nodes, next, counts, buckets, entryCount, hasher, S, last);
      SameOnSelf(nodes, S.table);
      tail, doomed := tail0, doomed0;
      for i := 0 to |nodes[last].ops|
        invariant last in nodes && |nodes[last].ops| == old(|nodes[last].ops|)
        invariant Destroying(doomed, k, i) && doomed0 <= doomed && tail == doomed[|doomed| - 1]
        invariant |S.table| + |doomed| <= old(|S.table|) + |doomed0| && S.table <= old(S.table) && SameOn(old(nodes), nodes, S.table)
      {
        ghost var nodes1, table1 := nodes, S.table;
        tail, doomed := ReleaseOperand(last, i, tail, doomed, k);
        SameOnLess(old(nodes), nodes1, table1, S.table);
        SameOnTrans(old(nodes), nodes1, nodes, S.table, S.table);
      }
    }

    /** A handle is dropped; the expression goes with its last reference. Afterwards exactly what
        the remaining handles reach is left. */
    method Release(r: Ref)
      requires Valid() && r in held
      modifies this
      ensures Valid() && held == old(held) - multiset{r}
      ensures forall p | p in nodes :: p in old(nodes) && nodes[p] == old(nodes)[p]
      ensures forall p :: p in nodes <==> Reachable(old(nodes), held, p)
      ensures entryCount == |nodes|
    {
      hide CoreOf, Counted, Reachable;
      HeldFacts(nodes, counts, held, S.table, r);
      CountedReleased(nodes, counts, held, S.table, r);
      CoreFacts(nodes, next, counts, buckets, entryCount, hasher, S, r);
      CoreCounts(nodes, next, counts, counts[r := counts[r] - 1], buckets, entryCount, hasher, S);
      held := held - multiset{r};
      counts := counts[r := counts[r] - 1];
      if counts[r] == 0 {
        Destroy(r);
      }
      CoreFacts(nodes, next, counts, buckets, entryCount, hasher, S, r);
      forall p ensures p in nodes <==> Reachable(old(nodes), held, p) { Survivors(old(nodes), nodes, next, counts, buckets, entryCount, hasher, S, held, p); }
    }
  }

  lemma SameOnLess(a: Nodes, b: Nodes, table: set<Ref>, table': set<Ref>)
    requires SameOn(a, b, table) && table' <= table
    ensures SameOn(a, b, table')
  {
  }

  lemma SameOnFacts(a: Nodes, b: Nodes, table: set<Ref>)
    requires SameOn(a, b, table)
    ensures forall r | r in table :: r in a && r in b && a[r] == b[r]
  {
  }

  lemma HeldFacts(nodes: Nodes, counts: map<Ref, nat>, held: multiset<Ref>, table: set<Ref>, r: Ref)
    requires Counted(nodes, counts, held, table) && r in held
    ensures r in table && r in counts && counts[r] > 0
  {
    hide Uses;
  }

  lemma {:induction false} LeafIsDead(nodes: Nodes, next: map<Ref, Ref>, table: set<Ref>, r: Ref)
    requires table == nodes.Keys && r in nodes && r != Null && r in next && next[r] == Null && nodes[r].ops == []
    ensures Dead(nodes, next, table - {r}, [r])
  {
    assert [r][1..] == [];
  }

  lemma {:induction false} Survivors(before: Nodes, nodes: Nodes, next: map<Ref, Ref>, counts: map<Ref, nat>, buckets: seq<Ref>, entryCount: nat, hasher: Hasher,
                                     S: Shadow, held: multiset<Ref>, r: Ref)
    requires CoreOf(nodes, next, counts, buckets, entryCount, hasher, S) && S.table == nodes.Keys && Counted(nodes, counts, held, S.table)
    requires forall p | p in nodes :: p in before && before[p] == nodes[p]
    ensures r in nodes <==> Reachable(before, held, r)
  {
    hide Linked, Counted, Canonical, Reachable;
    SurvivorsAreReachable(before, nodes, counts, held, S.birth, S.clock, r);
  }

  lemma SameOnTrans(a: Nodes, b: Nodes, c: Nodes, table: set<Ref>, table': set<Ref>)
    requires SameOn(a, b, table) && SameOn(b, c, table') && table' <= table
    ensures SameOn(a, c, table')
  {
  }

  lemma TableChain(buckets: seq<Ref>, next: map<Ref, Ref>, chains: seq<seq<Ref>>, b: nat)
    requires IsTable(buckets, next, chains) && b < |chains|
    ensures b < |buckets| && IsChain(buckets[b], next, chains[b])
  {
  }

  lemma SaneFacts(nodes: Nodes, table: set<Ref>, birth: map<Ref, nat>, clock: nat, hasher: Hasher)
    requires Sane(nodes, table, birth, clock, hasher)
    ensures table <= nodes.Keys && forall p, o | p in table && o in nodes[p].ops :: o in table
  {
  }

  // ---- What every run keeps ----

  /** Two references of a store are equal exactly when their expression trees are. */
  lemma {:induction false} StoreIsCanonical(nodes: Nodes, next: map<Ref, Ref>, counts: map<Ref, nat>, buckets: seq<Ref>, entryCount: nat, hasher: Hasher, S: Shadow,
                                            p: Ref, q: Ref, t: Tree, u: Tree)
    requires CoreOf(nodes, next, counts, buckets, entryCount, hasher, S) && S.table == nodes.Keys && IsTree(nodes, p, t) && IsTree(nodes, q, u)
    ensures p == q <==> t == u
  {
    hide Linked, IsTree, Canonical, Grounded;
    InNodes(nodes, p, t);
    InNodes(nodes, q, u);
    EqualIffSameTree(nodes, S.table, S.birth, p, q, t, u);
  }

  /** A node stands in the chain of the bucket that its hash leaves as remainder, and in no other. */
  lemma {:induction false} StoreIsHashed(nodes: Nodes, next: map<Ref, Ref>, counts: map<Ref, nat>, buckets: seq<Ref>, entryCount: nat, hasher: Hasher, S: Shadow,
                                         r: Ref, b: nat)
    requires CoreOf(nodes, next, counts, buckets, entryCount, hasher, S) && S.table == nodes.Keys && r in nodes && b < |buckets|
    ensures (exists chain :: IsChain(buckets[b], next, chain) && r in chain) <==> b == hasher(nodes[r].tag, nodes[r].ops) % |buckets|
  {
    hide IsTable, Sorted, Grounded, Canonical, IsChain;
    var h := BucketOf(nodes[r].hash, |buckets|);
    LinkedFacts(nodes, next, buckets, S.chains, S.table);
    InBucket(nodes, next, buckets, S.chains, S.table, r);
    assert r in Hashes(nodes, S.table);
    TableChain(buckets, next, S.chains, h);
    TableChain(buckets, next, S.chains, b);
    if chain :| IsChain(buckets[b], next, chain) && r in chain {
      OneChain(buckets[b], next, chain, S.chains[b]);
      BucketsApart(S.chains, Hashes(nodes, S.table), b, h, r);
    }
  }

  lemma InNodes(nodes: Nodes, r: Ref, t: Tree)
    requires IsTree(nodes, r, t)
    ensures r in nodes
  {
  }

  /** A store holds exactly what its handles reach, and no operand dangles. */
  lemma {:induction false} StoreIsReachable(nodes: Nodes, next: map<Ref, Ref>, counts: map<Ref, nat>, buckets: seq<Ref>, entryCount: nat, hasher: Hasher, S: Shadow,
                                            held: multiset<Ref>, r: Ref)
    requires CoreOf(nodes, next, counts, buckets, entryCount, hasher, S) && S.table == nodes.Keys && Counted(nodes, counts, held, S.table)
    ensures r in nodes <==> Reachable(nodes, held, r)
    ensures forall p, o | p in nodes && o in nodes[p].ops :: o in nodes
  {
    SaneFacts(nodes, S.table, S.birth, S.clock, hasher);
    hide CoreOf, Counted, Reachable;
    Survivors(nodes, nodes, next, counts, buckets, entryCount, hasher, S, held, r);
  }
}
