/** Removing unreachable locations (src/Automaton/Cfa.cpp, `removeUnreachableLocations`;
    include/gazer/ADT/Graph.h): nodes and edges refer to each other through adjacency lists and end
    pointers that are updated in place. What remains is exactly the part reachable from the entry. */
module GraphPruning {
  type Node = nat
  type Edge = nat

  datatype Link = Null | To(node: Node)

  datatype Ends = Ends(source: Link, target: Link)

  type EndMap = map<Edge, Ends>
  type Lists = map<Node, seq<Edge>>

  predicate Live(ends: EndMap, e: Edge) { e in ends && ends[e].source.To? && ends[e].target.To? }

  ghost predicate NoDuplicates(s: seq<nat>) { forall i, j | 0 <= i < j < |s| :: s[i] != s[j] }

  /** The list names the live edges out of `n`, or into `n`, each once. */
  ghost predicate ListsOut(ends: EndMap, list: seq<Edge>, n: Node) {
    NoDuplicates(list) && forall e :: e in list <==> Live(ends, e) && ends[e].source == To(n)
  }

  ghost predicate ListsIn(ends: EndMap, list: seq<Edge>, n: Node) {
    NoDuplicates(list) && forall e :: e in list <==> Live(ends, e) && ends[e].target == To(n)
  }

  /** Adjacency lists and end pointers agree. */
  ghost predicate Consistent(ends: EndMap, incoming: Lists, outgoing: Lists) {
    && incoming.Keys == outgoing.Keys
    && (forall n | n in incoming :: ListsIn(ends, incoming[n], n) && ListsOut(ends, outgoing[n], n))
    && (forall e | Live(ends, e) :: ends[e].source.node in incoming && ends[e].target.node in incoming)
  }

  ghost function Elements(s: seq<nat>): set<nat> { set x | x in s }

  lemma ElementsNext(s: seq<nat>, i: nat)
    requires i < |s|
    ensures Elements(s[..i + 1]) == Elements(s[..i]) + {s[i]}
  {
    assert s[..i + 1] == s[..i] + [s[i]];
  }

  // ---- Erasing from a list ----

  function Erased(s: seq<nat>, x: nat): (r: seq<nat>)
    ensures forall y :: y in r <==> y in s && y != x
  {
    if s == [] then [] else Erased(s[..|s| - 1], x) + (if s[|s| - 1] != x then [s[|s| - 1]] else [])
  }

  lemma {:induction false} ErasedNoDuplicates(s: seq<nat>, x: nat)
    requires NoDuplicates(s)
    ensures NoDuplicates(Erased(s, x))
  {
    if s != [] {
      var n := |s| - 1;
      ErasedNoDuplicates(s[..n], x);
      var r := Erased(s[..n], x);
      if s[n] != x {
        assert forall i | 0 <= i < |r| :: r[i] in r && r[i] != s[n];
      }
    }
  }

  // ---- Disconnecting one node ----

  /** `ends'` is `ends` with exactly the edges in `cut` dead. */
  ghost predicate Cuts(ends: EndMap, ends': EndMap, cut: set<Edge>) {
    && ends'.Keys == ends.Keys
    && forall e | e in ends :: (e in cut ==> !Live(ends', e)) && (e !in cut ==> ends'[e] == ends[e])
  }

  ghost predicate OutExcept(ends: EndMap, outgoing: Lists) { forall m | m in outgoing :: ListsOut(ends, outgoing[m], m) }

  ghost predicate InExcept(ends: EndMap, incoming: Lists, n: Node) { forall m | m in incoming && m != n :: ListsIn(ends, incoming[m], m) }

  lemma {:induction false} CutOut(ends: EndMap, ends': EndMap, outgoing: Lists, e: Edge, s: Node)
    requires Live(ends, e) && ends[e].source == To(s) && s in outgoing && OutExcept(ends, outgoing) && ends'.Keys == ends.Keys && !Live(ends', e)
    requires forall d | d in ends && d != e :: ends'[d] == ends[d]
    ensures OutExcept(ends', outgoing[s := Erased(outgoing[s], e)])
  {
    ErasedNoDuplicates(outgoing[s], e);
    var outgoing' := outgoing[s := Erased(outgoing[s], e)];
    forall m | m in outgoing' ensures ListsOut(ends', outgoing'[m], m) {
      assert ListsOut(ends, outgoing[m], m);
      forall d ensures d in outgoing'[m] <==> Live(ends', d) && ends'[d].source == To(m) {
        if d == e { assert d in outgoing[m] ==> m == s; }
      }
    }
  }

  lemma {:induction false} CutIn(ends: EndMap, ends': EndMap, incoming: Lists, e: Edge, t: Node, n: Node)
    requires Live(ends, e) && ends[e].target == To(t) && t in incoming && t != n && InExcept(ends, incoming, n) && ends'.Keys == ends.Keys && !Live(ends', e)
    requires forall d | d in ends && d != e :: ends'[d] == ends[d]
    ensures InExcept(ends', incoming[t := Erased(incoming[t], e)], n)
  {
    ErasedNoDuplicates(incoming[t], e);
    var incoming' := incoming[t := Erased(incoming[t], e)];
    forall m | m in incoming' && m != n ensures ListsIn(ends', incoming'[m], m) {
      assert ListsIn(ends, incoming[m], m);
      forall d ensures d in incoming'[m] <==> Live(ends', d) && ends'[d].target == To(m) {
        if d == e { assert d in incoming[m] ==> m == t; }
      }
    }
  }

  lemma {:induction false} CutElsewhere(ends: EndMap, ends': EndMap, incoming: Lists, e: Edge, n: Node)
    requires Live(ends, e) && ends[e].target == To(n) && InExcept(ends, incoming, n) && ends'.Keys == ends.Keys && !Live(ends', e)
    requires forall d | d in ends && d != e :: ends'[d] == ends[d]
    ensures InExcept(ends', incoming, n)
  {
    forall m | m in incoming && m != n ensures ListsIn(ends', incoming[m], m) {
      assert ListsIn(ends, incoming[m], m);
      forall d ensures d in incoming[m] <==> Live(ends', d) && ends'[d].target == To(m) { }
    }
  }

  lemma CutsOne(ends: EndMap, ends': EndMap, ends'': EndMap, cut: set<Edge>, e: Edge)
    requires Cuts(ends, ends', cut) && ends''.Keys == ends'.Keys && !Live(ends'', e) && e in ends && forall d | d in ends' && d != e :: ends''[d] == ends'[d]
    ensures Cuts(ends, ends'', cut + {e})
  {
    forall d | d in ends ensures d in cut + {e} ==> !Live(ends'', d) { }
  }

  /** The first loop: edges into `n` lose their target and leave the lists of their sources. */
  method CutIncoming(ends0: EndMap, incoming: Lists, outgoing0: Lists, n: Node) returns (ends: EndMap, outgoing: Lists)
    requires Consistent(ends0, incoming, outgoing0) && n in incoming
    ensures Cuts(ends0, ends, Elements(incoming[n])) && outgoing.Keys == outgoing0.Keys && OutExcept(ends, outgoing) && InExcept(ends, incoming, n)
  {
    hide ListsOut, ListsIn;
    ends, outgoing := ends0, outgoing0;
    var list := incoming[n];
    ListedIn(ends0, list, n);
    for i := 0 to |list|
      invariant Cuts(ends0, ends, Elements(list[..i])) && outgoing.Keys == outgoing0.Keys && OutExcept(ends, outgoing) && InExcept(ends, incoming, n)
    {
      var e := list[i];
      assert e in list && e !in list[..i];
      ElementsNext(list, i);
      var s := ends[e].source.node;
      ghost var before := ends;
      ends := ends[e := Ends(ends[e].source, Null)];
      CutOut(before, ends, outgoing, e, s);
      CutElsewhere(before, ends, incoming, e, n);
      CutsOne(ends0, before, ends, Elements(list[..i]), e);
      outgoing := outgoing[s := Erased(outgoing[s], e)];
    }
    assert list[..|list|] == list;
  }

  lemma ListedIn(ends: EndMap, list: seq<Edge>, n: Node)
    requires ListsIn(ends, list, n)
    ensures NoDuplicates(list) && forall e | e in list :: Live(ends, e) && ends[e].target == To(n)
  {
  }

  lemma ListedOut(ends: EndMap, list: seq<Edge>, n: Node)
    requires ListsOut(ends, list, n)
    ensures NoDuplicates(list) && forall e | e in list :: Live(ends, e) && ends[e].source == To(n)
  {
  }

  ghost predicate OutBut(ends: EndMap, outgoing: Lists, n: Node) { forall m | m in outgoing && m != n :: ListsOut(ends, outgoing[m], m) }

  lemma {:induction false} CutOutElsewhere(ends: EndMap, ends': EndMap, outgoing: Lists, e: Edge, n: Node)
    requires Live(ends, e) && ends[e].source == To(n) && OutBut(ends, outgoing, n) && ends'.Keys == ends.Keys && !Live(ends', e)
    requires forall d | d in ends && d != e :: ends'[d] == ends[d]
    ensures OutBut(ends', outgoing, n)
  {
    forall m | m in outgoing && m != n ensures ListsOut(ends', outgoing[m], m) {
      assert ListsOut(ends, outgoing[m], m);
      forall d ensures d in outgoing[m] <==> Live(ends', d) && ends'[d].source == To(m) { }
    }
  }

  /** The second loop: edges out of `n` lose their source and leave the lists of their targets. */
  method CutOutgoing(ends0: EndMap, incoming0: Lists, outgoing: Lists, n: Node) returns (ends: EndMap, incoming: Lists)
    requires OutExcept(ends0, outgoing) && InExcept(ends0, incoming0, n) && n in outgoing
    requires forall e | Live(ends0, e) :: ends0[e].target != To(n) && ends0[e].target.node in incoming0
    ensures Cuts(ends0, ends, Elements(outgoing[n])) && incoming.Keys == incoming0.Keys && InExcept(ends, incoming, n) && OutBut(ends, outgoing, n)
  {
    hide ListsOut, ListsIn;
    ends, incoming := ends0, incoming0;
    var list := outgoing[n];
    ListedOut(ends0, list, n);
    for i := 0 to |list|
      invariant Cuts(ends0, ends, Elements(list[..i])) && incoming.Keys == incoming0.Keys && InExcept(ends, incoming, n) && OutBut(ends, outgoing, n)
    {
      var e := list[i];
      assert e in list && e !in list[..i];
      ElementsNext(list, i);
      var t := ends[e].target.node;
      assert Live(ends0, e);
      ghost var before := ends;
      ends := ends[e := Ends(Null, ends[e].target)];
      CutIn(before, ends, incoming, e, t, n);
      CutOutElsewhere(before, ends, outgoing, e, n);
      CutsOne(ends0, before, ends, Elements(list[..i]), e);
      incoming := incoming[t := Erased(incoming[t], e)];
    }
    assert list[..|list|] == list;
  }

  /** Exactly the edges touching `n` are dead now. */
  ghost predicate Without(ends: EndMap, ends': EndMap, gone: set<Node>) {
    && ends'.Keys == ends.Keys
    && forall e | e in ends ::
         && (Live(ends', e) <==> Live(ends, e) && ends[e].source.node !in gone && ends[e].target.node !in gone)
         && (Live(ends', e) ==> ends'[e] == ends[e])
  }

  lemma {:induction false} Disconnected(ends0: EndMap, ends1: EndMap, ends2: EndMap, incoming: Lists, incoming': Lists, outgoing0: Lists, outgoing: Lists, n: Node)
    requires Consistent(ends0, incoming, outgoing0) && n in incoming
    requires Cuts(ends0, ends1, Elements(incoming[n])) && outgoing.Keys == outgoing0.Keys && OutExcept(ends1, outgoing)
    requires Cuts(ends1, ends2, Elements(outgoing[n])) && incoming'.Keys == incoming.Keys && InExcept(ends2, incoming', n) && OutBut(ends2, outgoing, n)
    ensures Without(ends0, ends2, {n}) && Consistent(ends2, incoming'[n := []], outgoing[n := []])
  {
    assert ListsIn(ends0, incoming[n], n) && ListsOut(ends1, outgoing[n], n);
    forall e | e in ends0
      ensures (Live(ends2, e) <==> Live(ends0, e) && ends0[e].source.node != n && ends0[e].target.node != n) && (Live(ends2, e) ==> ends2[e] == ends0[e])
    {
      assert e in incoming[n] <==> Live(ends0, e) && ends0[e].target == To(n);
      assert e in outgoing[n] <==> Live(ends1, e) && ends1[e].source == To(n);
    }
    assert ListsIn(ends2, [], n) && ListsOut(ends2, [], n);
    hide ListsIn, ListsOut;
  }

  method DisconnectNode(ends: EndMap, incoming: Lists, outgoing: Lists, n: Node) returns (ends': EndMap, incoming': Lists, outgoing': Lists)
    requires Consistent(ends, incoming, outgoing) && n in incoming
    ensures Without(ends, ends', {n}) && Consistent(ends', incoming', outgoing') && incoming'.Keys == incoming.Keys
  {
    hide ListsOut, ListsIn, OutExcept, InExcept, OutBut;
    var ends1;
    ends1, outgoing' := CutIncoming(ends, incoming, outgoing, n);
    TargetsLeft(ends, ends1, incoming, outgoing, n);
    ends', incoming' := CutOutgoing(ends1, incoming, outgoing', n);
    Disconnected(ends, ends1, ends', incoming, incoming', outgoing, outgoing', n);
    incoming', outgoing' := incoming'[n := []], outgoing'[n := []];
  }

  lemma {:induction false} TargetsLeft(ends: EndMap, ends': EndMap, incoming: Lists, outgoing: Lists, n: Node)
    requires Consistent(ends, incoming, outgoing) && n in incoming && Cuts(ends, ends', Elements(incoming[n]))
    ensures forall e | Live(ends', e) :: ends'[e].target != To(n) && ends'[e].target.node in incoming
  {
    assert ListsIn(ends, incoming[n], n);
    forall e | Live(ends', e) ensures ends'[e].target != To(n) && ends'[e].target.node in incoming {
      assert e in ends && e !in incoming[n];
    }
  }

  // ---- Reachability ----

  ghost predicate Step(ends: EndMap, a: Node, b: Node) { exists e :: Live(ends, e) && ends[e].source == To(a) && ends[e].target == To(b) }

  ghost predicate IsWalk(ends: EndMap, w: seq<Node>, a: Node, b: Node) {
    w != [] && w[0] == a && w[|w| - 1] == b && forall k | 0 < k < |w| :: Step(ends, w[k - 1], w[k])
  }

  ghost predicate Reachable(ends: EndMap, a: Node, b: Node) { exists w :: IsWalk(ends, w, a, b) }

  lemma {:induction false} ReachStep(ends: EndMap, a: Node, b: Node, c: Node)
    requires Reachable(ends, a, b) && Step(ends, b, c)
    ensures Reachable(ends, a, c)
  {
    var w :| IsWalk(ends, w, a, b);
    var w' := w + [c];
    forall k | 0 < k < |w'| ensures Step(ends, w'[k - 1], w'[k]) { if k < |w| { assert w'[k - 1] == w[k - 1] && w'[k] == w[k]; } }
    assert IsWalk(ends, w', a, c);
  }

  lemma {:induction false} ClosedHoldsWalk(ends: EndMap, visited: set<Node>, w: seq<Node>, a: Node, b: Node, k: nat)
    requires IsWalk(ends, w, a, b) && a in visited && k < |w| && forall x: Node, y: Node | x in visited && Step(ends, x, y) :: y in visited
    ensures w[k] in visited
    decreases k
  {
    if k > 0 {
      ClosedHoldsWalk(ends, visited, w, a, b, k - 1);
      assert Step(ends, w[k - 1], w[k]);
    }
  }

  /** Everything reached so far is visited; what is visited and done has only visited successors. */
  ghost predicate Searching(ends: EndMap, entry: Node, visited: set<Node>, stack: seq<Node>) {
    && entry in visited && (forall n | n in visited :: Reachable(ends, entry, n)) && (forall n | n in stack :: n in visited)
    && forall x: Node, y: Node | x in visited && x !in stack && Step(ends, x, y) :: y in visited
  }

  lemma {:induction false} SearchDone(ends: EndMap, entry: Node, visited: set<Node>)
    requires Searching(ends, entry, visited, [])
    ensures forall n: Node :: n in visited <==> Reachable(ends, entry, n)
  {
    forall n: Node | Reachable(ends, entry, n) ensures n in visited {
      var w :| IsWalk(ends, w, entry, n);
      ClosedHoldsWalk(ends, visited, w, entry, n, |w| - 1);
    }
  }

  ghost predicate LeadsTo(ends: EndMap, e: Edge, n: Node) { Live(ends, e) && ends[e].target == To(n) }

  /** Visits the unvisited targets of the edges in `list`. */
  method VisitTargets(ends: EndMap, list: seq<Edge>, visited0: set<Node>, stack0: seq<Node>, ghost all: set<Node>) returns (visited: set<Node>, stack: seq<Node>)
    requires forall e | e in list :: Live(ends, e) && ends[e].target.node in all
    requires visited0 <= all
    ensures visited0 <= visited <= all && (visited == visited0 ==> stack == stack0) && (forall n | n in stack :: n in stack0 || n in visited)
    ensures forall n | n in stack0 :: n in stack
    ensures forall n | n in visited && n !in visited0 :: n in stack && exists e :: e in list && LeadsTo(ends, e, n)
    ensures forall e | e in list :: Live(ends, e) && ends[e].target.node in visited
  {
    visited, stack := visited0, stack0;
    for i := 0 to |list|
      invariant visited0 <= visited <= all && (visited == visited0 ==> stack == stack0) && (forall n | n in stack :: n in stack0 || n in visited)
      invariant forall n | n in stack0 :: n in stack
      invariant forall n | n in visited && n !in visited0 :: n in stack && exists e :: e in list && LeadsTo(ends, e, n)
      invariant forall e | e in list[..i] :: Live(ends, e) && ends[e].target.node in visited
    {
      var e := list[i];
      assert e in list && list[..i + 1] == list[..i] + [e];
      var t := ends[e].target.node;
      if t !in visited {
        visited, stack := visited + {t}, stack + [t];
        assert stack[|stack| - 1] == t;
      }
    }
    assert list[..|list|] == list;
  }

  lemma {:induction false} SearchOn(ends: EndMap, entry: Node, visited: set<Node>, stack: seq<Node>, list: seq<Edge>, visited': set<Node>, stack': seq<Node>)
    requires stack != [] && Searching(ends, entry, visited, stack) && ListsOut(ends, list, stack[|stack| - 1]) && visited <= visited'
    requires (forall n | n in stack[..|stack| - 1] :: n in stack') && (forall n | n in stack' :: n in stack[..|stack| - 1] || n in visited')
    requires forall n | n in visited' && n !in visited :: n in stack' && exists e :: e in list && LeadsTo(ends, e, n)
    requires forall e | e in list :: Live(ends, e) && ends[e].target.node in visited'
    ensures Searching(ends, entry, visited', stack')
  {
    var n := stack[|stack| - 1];
    assert n in stack && stack == stack[..|stack| - 1] + [n];
    forall m | m in visited' && m !in visited ensures Reachable(ends, entry, m) {
      var e :| e in list && LeadsTo(ends, e, m);
      assert Step(ends, n, m);
      ReachStep(ends, entry, n, m);
    }
    hide Reachable;
    forall x: Node, y: Node | x in visited' && x !in stack' && Step(ends, x, y) ensures y in visited' {
      var e :| Live(ends, e) && ends[e].source == To(x) && ends[e].target == To(y);
      if x == n {
        assert e in list;
      }
    }
  }

  /** Depth-first search over the outgoing edges. */
  method Visit(ends: EndMap, incoming: Lists, outgoing: Lists, entry: Node) returns (visited: set<Node>)
    requires Consistent(ends, incoming, outgoing) && entry in incoming
    ensures visited <= incoming.Keys && forall n: Node :: n in visited <==> Reachable(ends, entry, n)
  {
    hide Searching, ListsIn, ListsOut;
    ghost var all := incoming.Keys;
    visited := {entry};
    var stack := [entry];
    SearchStart(ends, entry);
    while stack != []
      invariant Searching(ends, entry, visited, stack) && visited <= all && forall n | n in stack :: n in visited
      decreases all - visited, |stack|
    {
      var n := stack[|stack| - 1];
      assert n in stack && n in outgoing;
      ListedOut(ends, outgoing[n], n);
      ghost var visited0, stack0 := visited, stack;
      assert forall m | m in stack[..|stack| - 1] :: m in stack;
      visited, stack := VisitTargets(ends, outgoing[n], visited, stack[..|stack| - 1], all);
      SearchOn(ends, entry, visited0, stack0, outgoing[n], visited, stack);
      if visited != visited0 {
        assert all - visited < all - visited0;
      }
    }
    SearchDone(ends, entry, visited);
  }

  lemma SearchStart(ends: EndMap, entry: Node)
    ensures Searching(ends, entry, {entry}, [entry])
  {
    assert IsWalk(ends, [entry], entry, entry);
  }

  // ---- Pruning ----

  lemma {:induction false} WithoutMore(ends: EndMap, ends': EndMap, ends'': EndMap, gone: set<Node>, n: Node)
    requires Without(ends, ends', gone) && Without(ends', ends'', {n})
    ensures Without(ends, ends'', gone + {n})
  {
  }

  /** After the unreachable nodes are cut off, an edge is alive exactly when its source is reachable. */
  lemma {:induction false} AliveIffReachable(ends: EndMap, ends': EndMap, visited: set<Node>, gone: set<Node>, entry: Node, all: set<Node>, e: Edge)
    requires Without(ends, ends', gone) && Live(ends, e) && (forall n: Node :: n in visited <==> Reachable(ends, entry, n))
    requires gone == all - visited && ends[e].source.node in all && ends[e].target.node in all
    ensures Live(ends', e) <==> Reachable(ends, entry, ends[e].source.node)
    ensures Live(ends', e) ==> ends'[e] == ends[e]
  {
    var a, b := ends[e].source.node, ends[e].target.node;
    if Reachable(ends, entry, a) {
      assert Step(ends, a, b);
      ReachStep(ends, entry, a, b);
    }
    hide Reachable;
  }

  /** A reachable node keeps an edge, unless it is an entry without outgoing edges. */
  lemma {:induction false} KeepsAnEdge(ends: EndMap, ends': EndMap, incoming: Lists, outgoing: Lists, visited: set<Node>, all: set<Node>, entry: Node, n: Node)
    requires Consistent(ends', incoming, outgoing) && n in incoming && ends'.Keys == ends.Keys
    requires forall e | Live(ends, e) :: ends[e].source.node in all && ends[e].target.node in all
    requires forall e | Live(ends', e) :: Live(ends, e) && ends'[e] == ends[e]
    requires forall e | Live(ends, e) :: Live(ends', e) <==> Reachable(ends, entry, ends[e].source.node)
    ensures incoming[n] != [] || outgoing[n] != [] <==> Reachable(ends, entry, n) && (n != entry || exists m :: Step(ends, entry, m))
  {
    assert ListsIn(ends', incoming[n], n) && ListsOut(ends', outgoing[n], n);
    if incoming[n] != [] {
      var e := incoming[n][0];
      assert e in incoming[n];
      var a := ends[e].source.node;
      assert Step(ends, a, n);
      ReachStep(ends, entry, a, n);
      LeavesEntry(ends, entry, a, n);
    }
    if outgoing[n] != [] {
      var e := outgoing[n][0];
      assert e in outgoing[n];
      assert Step(ends, n, ends[e].target.node);
    }
    if Reachable(ends, entry, n) && (n != entry || exists m :: Step(ends, entry, m)) {
      if n == entry {
        var m :| Step(ends, entry, m);
        var e :| Live(ends, e) && ends[e].source == To(entry) && ends[e].target == To(m);
        assert e in outgoing[n];
      } else {
        var a := LastStep(ends, entry, n);
        var e :| Live(ends, e) && ends[e].source == To(a) && ends[e].target == To(n);
        assert e in incoming[n];
      }
    }
  }

  lemma {:induction false} LastStep(ends: EndMap, a: Node, n: Node) returns (b: Node)
    requires Reachable(ends, a, n) && a != n
    ensures Reachable(ends, a, b) && Step(ends, b, n)
  {
    var w :| IsWalk(ends, w, a, n);
    var k := |w| - 1;
    b := w[k - 1];
    assert Step(ends, w[k - 1], w[k]);
    forall j | 0 < j < k ensures Step(ends, w[..k][j - 1], w[..k][j]) { assert Step(ends, w[j - 1], w[j]); }
    assert IsWalk(ends, w[..k], a, b);
  }

  /** Whatever is reached by a step was reached by leaving the entry. */
  lemma {:induction false} LeavesEntry(ends: EndMap, entry: Node, a: Node, n: Node)
    requires Reachable(ends, entry, a) && Step(ends, a, n)
    ensures exists m :: Step(ends, entry, m)
  {
    var w :| IsWalk(ends, w, entry, a);
    if |w| > 1 {
      assert Step(ends, w[1 - 1], w[1]);
    }
  }

  function Filter(s: seq<nat>, keep: set<nat>): (r: seq<nat>)
    ensures forall x :: x in r <==> x in s && x in keep
  {
    if s == [] then [] else Filter(s[..|s| - 1], keep) + (if s[|s| - 1] in keep then [s[|s| - 1]] else [])
  }

  lemma {:induction false} FilterNoDuplicates(s: seq<nat>, keep: set<nat>)
    requires NoDuplicates(s)
    ensures NoDuplicates(Filter(s, keep))
  {
    if s != [] {
      var n := |s| - 1;
      FilterNoDuplicates(s[..n], keep);
      var r := Filter(s[..n], keep);
      assert forall i | 0 <= i < |r| :: r[i] in r && r[i] != s[n];
    }
  }

  /** The elements of `s` that satisfy a test, in order. */
  method RemoveIf(s: seq<nat>, keep: set<nat>) returns (r: seq<nat>)
    ensures r == Filter(s, keep)
  {
    r := [];
    for i := 0 to |s|
      invariant r == Filter(s[..i], keep)
    {
      assert s[..i + 1][..i] == s[..i];
      if s[i] in keep {
        r := r + [s[i]];
      }
    }
    assert s[..|s|] == s;
  }

  class Graph {
    const entry: Node
    var nodes: seq<Node>
    var edges: seq<Edge>
    var ends: EndMap
    var incoming: Lists
    var outgoing: Lists

    ghost predicate Valid()
      reads this
    {
      ValidOf(nodes, edges, ends, incoming, outgoing)
    }

    constructor (entry: Node)
      ensures Valid() && this.entry == entry && nodes == [entry] && edges == []
    {
      this.entry, nodes, edges, ends, incoming, outgoing := entry, [entry], [], map[], map[entry := []], map[entry := []];
    }

    method CreateNode(n: Node)
      requires Valid() && n !in nodes
      modifies this`nodes, this`incoming, this`outgoing
      ensures Valid() && nodes == old(nodes) + [n]
    {
      assert forall m | m in incoming :: ListsIn(ends, incoming[m], m) && ListsOut(ends, outgoing[m], m);
      hide ListsIn, ListsOut;
      assert ListsIn(ends, [], n) && ListsOut(ends, [], n) by { NoLists(ends, incoming, outgoing, n); }
      nodes, incoming, outgoing := nodes + [n], incoming[n := []], outgoing[n := []];
    }

    method CreateEdge(e: Edge, source: Node, target: Node)
      requires Valid() && e !in edges && source in nodes && target in nodes
      modifies this`edges, this`ends, this`incoming, this`outgoing
      ensures Valid() && edges == old(edges) + [e] && ends == old(ends)[e := Ends(To(source), To(target))]
    {
      hide Consistent, NoDuplicates, Elements;
      ElementsIn(nodes, source);
      ElementsIn(nodes, target);
      ElementsIn(edges, e);
      AppendNew(edges, e);
      EdgeAdded(ends, incoming, outgoing, e, source, target);
      edges, ends := edges + [e], ends[e := Ends(To(source), To(target))];
      incoming, outgoing := incoming[target := incoming[target] + [e]], outgoing[source := outgoing[source] + [e]];
    }

    /** Keeps exactly what is reachable from the entry; an entry without outgoing edges goes too. */
    method RemoveUnreachableLocations()
      requires Valid() && entry in nodes
      modifies this`nodes, this`edges, this`ends, this`incoming, this`outgoing
      ensures Valid()
      ensures forall n: Node :: n in nodes <==> Kept(old(ends), entry, n)
      ensures forall e :: e in edges <==> e in old(edges) && KeptEdge(old(ends), entry, e)
      ensures forall e | e in edges :: e in old(ends) && ends[e] == old(ends)[e]
      ensures forall w, n | IsWalk(old(ends), w, entry, n) :: IsWalk(ends, w, entry, n)
    {
      hide Pruned, Kept, KeptEdge, ValidOf, HasEdges, Reachable, Consistent, IsWalk;
      ghost var before := ends;
      ghost var visited := DisconnectUnreachable();
      ClearedNodes(before, ends, incoming, outgoing, entry, nodes, edges, visited);
      ClearedEdges(before, ends, incoming, outgoing, entry, nodes, edges, visited);
      ClearDisconnectedElements();
      KeptAreLive(before, ends, nodes, edges, incoming, outgoing, entry);
      forall w, n | IsWalk(before, w, entry, n) ensures IsWalk(ends, w, entry, n) {
        WalksSurvive(before, ends, entry, w, n);
      }
    }

    /** Cuts off every node that the search does not visit. */
    method DisconnectUnreachable() returns (ghost reached: set<Node>)
      requires Valid() && entry in nodes
      modifies this`ends, this`incoming, this`outgoing
      ensures Pruned(old(ends), ends, incoming, outgoing, entry, nodes, edges, reached)
    {
      hide Reachable, ListsIn, ListsOut, Consistent, Without;
      var visited := Visit(ends, incoming, outgoing, entry);
      reached := visited;
      ghost var before, all := ends, Elements(nodes);
      EndsInside(before, incoming, outgoing);
      NothingGone(ends);
      ghost var gone := {};
      for i := 0 to |nodes|
        invariant Without(before, ends, gone) && Consistent(ends, incoming, outgoing) && incoming.Keys == all
        invariant gone == Elements(nodes[..i]) - visited
      {
        ElementsNext(nodes, i);
        if nodes[i] !in visited {
          ghost var previous := ends;
          ends, incoming, outgoing := DisconnectNode(ends, incoming, outgoing, nodes[i]);
          WithoutMore(before, previous, ends, gone, nodes[i]);
          gone := gone + {nodes[i]};
        }
      }
      assert nodes[..|nodes|] == nodes;
    }

    /** Erases nodes without edges and edges with a null end. */
    method ClearDisconnectedElements()
      requires ListedOf(nodes, edges, ends, incoming, outgoing)
      modifies this`nodes, this`edges, this`ends, this`incoming, this`outgoing
      ensures Valid()
      ensures forall n: Node :: n in nodes <==> n in old(nodes) && HasEdges(old(incoming), old(outgoing), n)
      ensures forall e :: e in edges <==> e in old(edges) && Live(old(ends), e)
      ensures forall e | e in edges :: e in old(ends) && ends[e] == old(ends)[e]
    {
      hide ValidOf, ListedOf, Filter;
      var keep := set n | n in incoming && HasEdges(incoming, outgoing, n);
      var alive := set e | e in ends && Live(ends, e);
      ClearedGraph(ends, incoming, outgoing, nodes, edges, keep, alive);
      var nodes' := RemoveIf(nodes, keep);
      var edges' := RemoveIf(edges, alive);
      var ends', incoming', outgoing' := map e | e in alive :: ends[e], map n | n in keep :: incoming[n], map n | n in keep :: outgoing[n];
      nodes, edges, ends, incoming, outgoing := nodes', edges', ends', incoming', outgoing';
    }
  }

  predicate HasEdges(incoming: Lists, outgoing: Lists, n: Node) {
    n in incoming && n in outgoing && (incoming[n] != [] || outgoing[n] != [])
  }

  /** Lists agree with end points and nothing is listed twice; edges may have a null end. */
  ghost predicate ListedOf(nodes: seq<Node>, edges: seq<Edge>, ends: EndMap, incoming: Lists, outgoing: Lists) {
    && NoDuplicates(nodes) && NoDuplicates(edges) && incoming.Keys == Elements(nodes) && ends.Keys == Elements(edges)
    && Consistent(ends, incoming, outgoing)
  }

  /** No end is null. */
  ghost predicate ValidOf(nodes: seq<Node>, edges: seq<Edge>, ends: EndMap, incoming: Lists, outgoing: Lists) {
    ListedOf(nodes, edges, ends, incoming, outgoing) && forall e | e in edges :: Live(ends, e)
  }

  lemma {:induction false} ClearedGraph(ends: EndMap, incoming: Lists, outgoing: Lists, nodes: seq<Node>, edges: seq<Edge>, keep: set<Node>, alive: set<Edge>)
    requires ListedOf(nodes, edges, ends, incoming, outgoing) && alive == (set e | e in ends && Live(ends, e))
    requires keep == set n | n in incoming && HasEdges(incoming, outgoing, n)
    ensures ValidOf(Filter(nodes, keep), Filter(edges, alive), map e | e in alive :: ends[e], map n | n in keep :: incoming[n], map n | n in keep :: outgoing[n])
    ensures forall n: Node :: n in Filter(nodes, keep) <==> n in nodes && HasEdges(incoming, outgoing, n)
    ensures forall e :: e in Filter(edges, alive) <==> e in edges && Live(ends, e)
    ensures forall e | e in Filter(edges, alive) :: e in ends && e in alive
  {
    hide Consistent, NoDuplicates, Filter;
    FilterNoDuplicates(nodes, keep);
    FilterNoDuplicates(edges, alive);
    StillConsistent(ends, incoming, outgoing, keep, alive);
    FilterElements(nodes, keep);
    FilterElements(edges, alive);
    var ends' := map e | e in alive :: ends[e];
    assert ends'.Keys == alive == Elements(Filter(edges, alive));
    assert (map n | n in keep :: incoming[n]).Keys == keep == Elements(Filter(nodes, keep));
  }

  /** What pruning leaves of the nodes: the reachable ones, except an entry without outgoing edges. */
  ghost predicate Kept(ends: EndMap, entry: Node, n: Node) { Reachable(ends, entry, n) && (n != entry || exists m :: Step(ends, entry, m)) }

  ghost predicate KeptEdge(ends: EndMap, entry: Node, e: Edge) { Live(ends, e) && Reachable(ends, entry, ends[e].source.node) }

  /** All nodes outside `visited`, the reachable part, have been cut off. */
  ghost predicate Pruned(before: EndMap, ends: EndMap, incoming: Lists, outgoing: Lists, entry: Node, nodes: seq<Node>, edges: seq<Edge>, visited: set<Node>) {
    && NoDuplicates(nodes) && NoDuplicates(edges) && incoming.Keys == Elements(nodes) && before.Keys == Elements(edges) && (forall e | e in edges :: Live(before, e))
    && Without(before, ends, Elements(nodes) - visited) && Consistent(ends, incoming, outgoing) && visited <= Elements(nodes)
    && (forall e | Live(before, e) :: before[e].source.node in incoming && before[e].target.node in incoming)
    && (forall n: Node :: n in visited <==> Reachable(before, entry, n))
  }

  lemma {:induction false} ClearedEdges(before: EndMap, ends: EndMap, incoming: Lists, outgoing: Lists, entry: Node, nodes: seq<Node>, edges: seq<Edge>, visited: set<Node>)
    requires Pruned(before, ends, incoming, outgoing, entry, nodes, edges, visited)
    ensures ListedOf(nodes, edges, ends, incoming, outgoing) && forall e :: e in edges && Live(ends, e) <==> e in edges && KeptEdge(before, entry, e)
    ensures forall e | Live(ends, e) :: e in edges && e in before && ends[e] == before[e]
    ensures forall e | KeptEdge(before, entry, e) :: e in edges
  {
    var all := Elements(nodes);
    forall e | e in edges ensures Live(ends, e) <==> KeptEdge(before, entry, e) { AliveIffReachable(before, ends, visited, all - visited, entry, all, e); }
    hide Reachable, Consistent, NoDuplicates;
  }

  lemma {:induction false} ClearedNodes(before: EndMap, ends: EndMap, incoming: Lists, outgoing: Lists, entry: Node, nodes: seq<Node>, edges: seq<Edge>, visited: set<Node>)
    requires Pruned(before, ends, incoming, outgoing, entry, nodes, edges, visited)
    ensures incoming.Keys == outgoing.Keys == Elements(nodes)
    ensures forall n | n in nodes :: HasEdges(incoming, outgoing, n) <==> Kept(before, entry, n)
    ensures forall n | Kept(before, entry, n) :: n in nodes
  {
    hide Reachable, Step, ListsIn, ListsOut, NoDuplicates;
    var all := Elements(nodes);
    KeysAgree(ends, incoming, outgoing);
    forall e | Live(before, e) ensures Live(ends, e) <==> Reachable(before, entry, before[e].source.node) {
      AliveIffReachable(before, ends, visited, all - visited, entry, all, e);
    }
    forall n | n in nodes ensures HasEdges(incoming, outgoing, n) <==> Kept(before, entry, n) {
      KeepsAnEdge(before, ends, incoming, outgoing, visited, all, entry, n);
    }
  }

  lemma ElementsIn(s: seq<nat>, x: nat)
    ensures x in Elements(s) <==> x in s
  {
  }

  lemma AppendNew(s: seq<nat>, x: nat)
    requires NoDuplicates(s) && x !in s
    ensures NoDuplicates(s + [x]) && Elements(s + [x]) == Elements(s) + {x}
  {
    assert forall i | 0 <= i < |s| :: s[i] in s;
  }

  lemma FilterElements(s: seq<nat>, keep: set<nat>)
    ensures Elements(Filter(s, keep)) == Elements(s) * keep
  {
  }

  lemma NothingGone(ends: EndMap)
    ensures Without(ends, ends, {})
  {
  }

  lemma KeysAgree(ends: EndMap, incoming: Lists, outgoing: Lists)
    requires Consistent(ends, incoming, outgoing)
    ensures incoming.Keys == outgoing.Keys
  {
  }

  lemma EndsInside(ends: EndMap, incoming: Lists, outgoing: Lists)
    requires Consistent(ends, incoming, outgoing)
    ensures forall e | Live(ends, e) :: ends[e].source.node in incoming && ends[e].target.node in incoming
  {
  }

  lemma {:induction false} NoLists(ends: EndMap, incoming: Lists, outgoing: Lists, n: Node)
    requires Consistent(ends, incoming, outgoing) && n !in incoming
    ensures ListsIn(ends, [], n) && ListsOut(ends, [], n)
  {
  }

  lemma {:induction false} EdgeAdded(ends: EndMap, incoming: Lists, outgoing: Lists, e: Edge, s: Node, t: Node)
    requires Consistent(ends, incoming, outgoing) && e !in ends && s in incoming && t in incoming
    ensures s in outgoing && t in outgoing
    ensures Consistent(ends[e := Ends(To(s), To(t))], incoming[t := incoming[t] + [e]], outgoing[s := outgoing[s] + [e]])
  {
    var ends' := ends[e := Ends(To(s), To(t))];
    var incoming', outgoing' := incoming[t := incoming[t] + [e]], outgoing[s := outgoing[s] + [e]];
    forall n | n in incoming' ensures ListsIn(ends', incoming'[n], n) && ListsOut(ends', outgoing'[n], n) {
      assert ListsIn(ends, incoming[n], n) && ListsOut(ends, outgoing[n], n);
      assert forall i | 0 <= i < |incoming[n]| :: incoming[n][i] in incoming[n];
      assert forall i | 0 <= i < |outgoing[n]| :: outgoing[n][i] in outgoing[n];
    }
  }

  lemma {:induction false} StillConsistent(ends: EndMap, incoming: Lists, outgoing: Lists, keep: set<Node>, alive: set<Edge>)
    requires Consistent(ends, incoming, outgoing) && alive == (set e | e in ends && Live(ends, e))
    requires keep == set n | n in incoming && HasEdges(incoming, outgoing, n)
    ensures Consistent(map e | e in alive :: ends[e], map n | n in keep :: incoming[n], map n | n in keep :: outgoing[n])
  {
    var ends' := map e | e in alive :: ends[e];
    forall e ensures Live(ends', e) <==> Live(ends, e) { }
    forall n | n in keep ensures ListsIn(ends', incoming[n], n) && ListsOut(ends', outgoing[n], n) {
      assert ListsIn(ends, incoming[n], n) && ListsOut(ends, outgoing[n], n);
    }
    forall e | Live(ends', e) ensures ends'[e].source.node in keep && ends'[e].target.node in keep {
      var a, b := ends[e].source.node, ends[e].target.node;
      assert ListsOut(ends, outgoing[a], a) && ListsIn(ends, incoming[b], b);
      assert e in outgoing[a] && e in incoming[b];
    }
  }

  lemma {:induction false} KeptAreLive(before: EndMap, ends: EndMap, nodes: seq<Node>, edges: seq<Edge>, incoming: Lists, outgoing: Lists, entry: Node)
    requires ValidOf(nodes, edges, ends, incoming, outgoing)
    requires forall e | KeptEdge(before, entry, e) :: e in edges
    requires forall e | e in edges :: e in before && ends[e] == before[e]
    ensures forall e | KeptEdge(before, entry, e) :: Live(ends, e) && ends[e] == before[e]
  {
    hide KeptEdge, Consistent;
  }

  /** When the edges with a reachable source are kept, so is every walk from the entry. */
  lemma {:induction false} WalksSurvive(before: EndMap, ends: EndMap, entry: Node, w: seq<Node>, n: Node)
    requires forall e | KeptEdge(before, entry, e) :: Live(ends, e) && ends[e] == before[e]
    requires IsWalk(before, w, entry, n)
    ensures IsWalk(ends, w, entry, n)
  {
    forall k | 0 < k < |w| ensures Step(ends, w[k - 1], w[k]) {
      assert Step(before, w[k - 1], w[k]);
      forall j | 0 < j < k ensures Step(before, w[..k][j - 1], w[..k][j]) { assert Step(before, w[j - 1], w[j]); }
      assert IsWalk(before, w[..k], entry, w[k - 1]);
      var e :| Live(before, e) && before[e].source == To(w[k - 1]) && before[e].target == To(w[k]);
      assert KeptEdge(before, entry, e);
    }
  }
}
