/** The bucket chains of the expression table (src/Core/GazerContextImpl.h and
    src/Core/GazerContext.cpp): nodes are linked through their next pointers, each in the bucket of
    its hash. A pointer is a number, the null pointer is zero. */
module ExprTable {
  type Ref = nat

  const Null: Ref := 0

  function First(chain: seq<Ref>): Ref { if chain == [] then Null else chain[0] }

  /** Starting at `head`, the next pointers visit exactly `chain`. */
  ghost predicate IsChain(head: Ref, next: map<Ref, Ref>, chain: seq<Ref>) {
    && head == First(chain)
    && (forall j | 0 <= j < |chain| :: chain[j] != Null && chain[j] in next && next[chain[j]] == First(chain[j + 1..]))
    && (forall i, j | 0 <= i < j < |chain| :: chain[i] != chain[j])
  }

  lemma {:induction false} ChainFrame(head: Ref, next: map<Ref, Ref>, next': map<Ref, Ref>, chain: seq<Ref>)
    requires IsChain(head, next, chain) && forall r | r in chain :: r in next' && next'[r] == next[r]
    ensures IsChain(head, next', chain)
  {
    forall j | 0 <= j < |chain| ensures chain[j] in next' && next'[chain[j]] == First(chain[j + 1..]) { assert chain[j] in chain; }
  }

  lemma {:induction false} ChainTail(head: Ref, next: map<Ref, Ref>, chain: seq<Ref>)
    requires IsChain(head, next, chain) && chain != []
    ensures head == chain[0] && head in next && IsChain(next[head], next, chain[1..]) && head !in chain[1..]
  {
    var rest := chain[1..];
    forall j | 0 <= j < |rest| ensures rest[j] != Null && rest[j] in next && next[rest[j]] == First(rest[j + 1..]) {
      assert rest[j] == chain[j + 1] && rest[j + 1..] == chain[j + 2..];
    }
  }

  /** The next pointers decide the chain. */
  lemma {:induction false} OneChain(head: Ref, next: map<Ref, Ref>, chain: seq<Ref>, chain': seq<Ref>)
    requires IsChain(head, next, chain) && IsChain(head, next, chain')
    ensures chain == chain'
    decreases |chain|
  {
    if chain != [] && chain' != [] {
      ChainTail(head, next, chain);
      ChainTail(head, next, chain');
      OneChain(next[head], next, chain[1..], chain'[1..]);
      assert chain == [head] + chain[1..] && chain' == [head] + chain'[1..];
    }
  }

  lemma {:induction false} ChainPush(head: Ref, next: map<Ref, Ref>, chain: seq<Ref>, r: Ref)
    requires IsChain(head, next, chain) && r != Null && r !in chain
    ensures IsChain(r, next[r := head], [r] + chain)
  {
    var all, next' := [r] + chain, next[r := head];
    forall j | 0 <= j < |all| ensures all[j] != Null && all[j] in next' && next'[all[j]] == First(all[j + 1..]) {
      if j == 0 {
        assert all[1..] == chain;
      } else {
        assert all[j] == chain[j - 1] && chain[j - 1] in chain && all[j + 1..] == chain[j..];
      }
    }
  }

  function Skipping(chain: seq<Ref>, i: nat): seq<Ref>
    requires i < |chain|
  {
    chain[..i] + chain[i + 1..]
  }

  lemma {:induction false} SkippingMembers(chain: seq<Ref>, i: nat)
    requires i < |chain| && forall i, j | 0 <= i < j < |chain| :: chain[i] != chain[j]
    ensures forall x :: x in Skipping(chain, i) <==> x in chain && x != chain[i]
  {
    var rest := Skipping(chain, i);
    forall x | x in chain && x != chain[i] ensures x in rest {
      var j :| 0 <= j < |chain| && chain[j] == x;
      assert if j < i then rest[j] == x else rest[j - 1] == x;
    }
  }

  /** Taking the first element out. */
  lemma {:induction false} ChainPop(head: Ref, next: map<Ref, Ref>, chain: seq<Ref>)
    requires IsChain(head, next, chain) && chain != []
    ensures IsChain(next[chain[0]], next[chain[0] := Null], Skipping(chain, 0))
  {
    ChainTail(head, next, chain);
    assert Skipping(chain, 0) == chain[1..];
    ChainFrame(next[head], next, next[head := Null], chain[1..]);
  }

  /** Taking the element at `i` out and letting its predecessor skip it. */
  lemma {:induction false} ChainSkip(head: Ref, next: map<Ref, Ref>, chain: seq<Ref>, i: nat)
    requires IsChain(head, next, chain) && 0 < i < |chain|
    ensures IsChain(head, next[chain[i - 1] := next[chain[i]]][chain[i] := Null], Skipping(chain, i))
  {
    var r, rest := chain[i], Skipping(chain, i);
    var next' := next[chain[i - 1] := next[r]][r := Null];
    forall j | 0 <= j < |rest| ensures rest[j] != Null && rest[j] in next' && next'[rest[j]] == First(rest[j + 1..]) {
      SkipLink(head, next, chain, i, j);
    }
    forall j, k | 0 <= j < k < |rest| ensures rest[j] != rest[k] {
      assert rest[j] == chain[if j < i then j else j + 1] && rest[k] == chain[if k < i then k else k + 1];
    }
  }

  lemma {:induction false} SkipLink(head: Ref, next: map<Ref, Ref>, chain: seq<Ref>, i: nat, j: nat)
    requires IsChain(head, next, chain) && 0 < i < |chain| && j < |chain| - 1
    ensures var r, rest := chain[i], Skipping(chain, i); var next' := next[chain[i - 1] := next[r]][r := Null];
            rest[j] != Null && rest[j] in next' && next'[rest[j]] == First(rest[j + 1..])
  {
    var r, rest := chain[i], Skipping(chain, i);
    if j < i - 1 {
      assert rest[j] == chain[j] && chain[j] != r && chain[j] != chain[i - 1];
      assert rest[j + 1..][0] == chain[j + 1] == chain[j + 1..][0];
    } else if j == i - 1 {
      assert rest[j] == chain[j] && chain[j] != r;
      assert rest[j + 1..] == chain[i + 1..];
    } else {
      assert rest[j] == chain[j + 1] && rest[j + 1..] == chain[j + 2..];
      assert chain[j + 1] != r && chain[j + 1] != chain[i - 1];
    }
  }

  // ---- The whole table ----

  /** The bucket for a hash among `count` of them. */
  function BucketOf(hash: nat, count: nat): (b: nat)
    requires count > 0
    ensures b < count
  {
    hash % count
  }

  /** Every bucket starts a chain. */
  ghost predicate IsTable(buckets: seq<Ref>, next: map<Ref, Ref>, chains: seq<seq<Ref>>) {
    |buckets| == |chains| && forall b | 0 <= b < |chains| :: IsChain(buckets[b], next, chains[b])
  }

  /** The chains hold exactly the nodes of `hashes`, each in the bucket of its hash. */
  ghost predicate Sorted(chains: seq<seq<Ref>>, hashes: map<Ref, nat>) {
    && chains != []
    && (forall b, r | 0 <= b < |chains| && r in chains[b] :: r in hashes && BucketOf(hashes[r], |chains|) == b)
    && (forall r | r in hashes :: r in chains[BucketOf(hashes[r], |chains|)])
  }

  lemma {:induction false} TableFrame(buckets: seq<Ref>, next: map<Ref, Ref>, next': map<Ref, Ref>, chains: seq<seq<Ref>>)
    requires IsTable(buckets, next, chains) && forall b, r | 0 <= b < |chains| && r in chains[b] :: r in next' && next'[r] == next[r]
    ensures IsTable(buckets, next', chains)
  {
    forall b | 0 <= b < |chains| ensures IsChain(buckets[b], next', chains[b]) { ChainFrame(buckets[b], next, next', chains[b]); }
  }

  /** A new node goes to the front of its bucket. */
  lemma {:induction false} TablePush(buckets: seq<Ref>, next: map<Ref, Ref>, chains: seq<seq<Ref>>, b: nat, r: Ref)
    requires IsTable(buckets, next, chains) && b < |chains| && r != Null && forall c | 0 <= c < |chains| :: r !in chains[c]
    ensures IsTable(buckets[b := r], next[r := buckets[b]], chains[b := [r] + chains[b]])
  {
    var next' := next[r := buckets[b]];
    var buckets', chains' := buckets[b := r], chains[b := [r] + chains[b]];
    forall c | 0 <= c < |chains| ensures IsChain(buckets'[c], next', chains'[c]) {
      if c == b {
        ChainPush(buckets[b], next, chains[b], r);
      } else {
        ChainFrame(buckets[c], next, next', chains[c]);
      }
    }
  }

  lemma {:induction false} SortedPush(chains: seq<seq<Ref>>, hashes: map<Ref, nat>, r: Ref, hash: nat)
    requires Sorted(chains, hashes) && r !in hashes
    ensures var b := BucketOf(hash, |chains|); Sorted(chains[b := [r] + chains[b]], hashes[r := hash])
  {
    var b := BucketOf(hash, |chains|);
    var chains', hashes' := chains[b := [r] + chains[b]], hashes[r := hash];
    assert chains'[b][0] == r;
    forall x | x in hashes' ensures x in chains'[BucketOf(hashes'[x], |chains'|)] {
      if x != r {
        assert x in chains[BucketOf(hashes[x], |chains|)];
        assert forall c | 0 <= c < |chains| && x in chains[c] :: x in chains'[c];
      }
    }
  }

  /** Different buckets share no node. */
  lemma {:induction false} BucketsApart(chains: seq<seq<Ref>>, hashes: map<Ref, nat>, b: nat, c: nat, r: Ref)
    requires Sorted(chains, hashes) && b < |chains| && c < |chains| && r in chains[b] && r in chains[c]
    ensures b == c
  {
    assert BucketOf(hashes[r], |chains|) == b && BucketOf(hashes[r], |chains|) == c;
  }

  // ---- Looking up ----

  /** Walks the chain of `head` until `matches` holds. */
  method Find(head: Ref, next: map<Ref, Ref>, ghost chain: seq<Ref>, matches: Ref -> bool) returns (found: Ref)
    requires IsChain(head, next, chain)
    ensures found != Null ==> found in chain && matches(found)
    ensures found == Null ==> forall r | r in chain :: !matches(r)
  {
    found := head;
    ghost var rest := chain;
    while found != Null && !matches(found)
      invariant IsChain(found, next, rest) && (forall r | r in rest :: r in chain) && forall r | r in chain && r !in rest :: !matches(r)
      decreases |rest|
    {
      ChainTail(found, next, rest);
      assert rest == [rest[0]] + rest[1..];
      found, rest := next[found], rest[1..];
    }
  }

  // ---- Taking a node out ----

  ghost function Position(chain: seq<Ref>, r: Ref): (i: nat)
    requires r in chain
    ensures i < |chain| && chain[i] == r
  {
    var i :| 0 <= i < |chain| && chain[i] == r; i
  }

  /** The chain without `r`. */
  ghost function Without(chain: seq<Ref>, r: Ref): seq<Ref>
    requires r in chain
  {
    Skipping(chain, Position(chain, r))
  }

  /** Unlinks `r` from the bucket of its hash. */
  method RemoveFromList(buckets: seq<Ref>, next: map<Ref, Ref>, hash: nat, r: Ref, ghost chains: seq<seq<Ref>>)
    returns (buckets': seq<Ref>, next': map<Ref, Ref>)
    requires IsTable(buckets, next, chains) && buckets != [] && r in chains[BucketOf(hash, |buckets|)]
    ensures var b := BucketOf(hash, |buckets|); |buckets'| == |buckets| && IsChain(buckets'[b], next', Without(chains[b], r))
    ensures forall c | 0 <= c < |buckets| && c != BucketOf(hash, |buckets|) :: buckets'[c] == buckets[c]
    ensures next'.Keys == next.Keys && next'[r] == Null && forall x | x in next && x !in chains[BucketOf(hash, |buckets|)] :: next'[x] == next[x]
  {
    var b := BucketOf(hash, |buckets|);
    ghost var chain := chains[b];
    ghost var i := Position(chain, r);
    if buckets[b] == r {
      assert i == 0;
      ChainPop(buckets[b], next, chain);
      buckets' := buckets[b := next[r]];
      next' := next;
    } else {
      var prev, current := Null, buckets[b];
      ghost var j := 0;
      while current != r
        invariant 0 <= j <= i && current == chain[j] && (j > 0 ==> prev == chain[j - 1])
        decreases i - j
      {
        assert next[current] == First(chain[j + 1..]);
        prev, current, j := current, next[current], j + 1;
      }
      assert prev == chain[i - 1];
      ChainSkip(buckets[b], next, chain, i);
      buckets' := buckets;
      next' := next[prev := next[current]];
    }
    next' := next'[r := Null];
  }

  lemma {:induction false} WithoutMembers(chain: seq<Ref>, r: Ref)
    requires r in chain && forall i, j | 0 <= i < j < |chain| :: chain[i] != chain[j]
    ensures forall x :: x in Without(chain, r) <==> x in chain && x != r
  {
    SkippingMembers(chain, Position(chain, r));
  }

  /** After unlinking, the table holds the other nodes. */
  lemma {:induction false} RemovedTable(buckets: seq<Ref>, next: map<Ref, Ref>, chains: seq<seq<Ref>>, hashes: map<Ref, nat>, r: Ref, buckets': seq<Ref>, next': map<Ref, Ref>)
    requires IsTable(buckets, next, chains) && Sorted(chains, hashes) && r in hashes && |buckets'| == |buckets|
    requires r in chains[BucketOf(hashes[r], |buckets|)]
    requires var b := BucketOf(hashes[r], |buckets|); IsChain(buckets'[b], next', Without(chains[b], r))
    requires forall c | 0 <= c < |buckets| && c != BucketOf(hashes[r], |buckets|) :: buckets'[c] == buckets[c]
    requires next'.Keys == next.Keys && forall x | x in next && x !in chains[BucketOf(hashes[r], |buckets|)] :: next'[x] == next[x]
    ensures var b := BucketOf(hashes[r], |buckets|); var chains' := chains[b := Without(chains[b], r)];
            IsTable(buckets', next', chains') && Sorted(chains', hashes - {r})
  {
    var b := BucketOf(hashes[r], |buckets|);
    var chains' := chains[b := Without(chains[b], r)];
    assert IsChain(buckets[b], next, chains[b]);
    SortedRemove(chains, hashes, r);
    hide Without, Sorted, IsChain;
    forall c | 0 <= c < |chains| && c != b ensures IsChain(buckets'[c], next', chains[c]) {
      OtherBucket(buckets[c], next, next', chains, hashes, b, c);
    }
  }

  lemma {:induction false} OtherBucket(head: Ref, next: map<Ref, Ref>, next': map<Ref, Ref>, chains: seq<seq<Ref>>, hashes: map<Ref, nat>, b: nat, c: nat)
    requires Sorted(chains, hashes) && b < |chains| && c < |chains| && b != c && IsChain(head, next, chains[c])
    requires next'.Keys == next.Keys && forall x | x in next && x !in chains[b] :: next'[x] == next[x]
    ensures IsChain(head, next', chains[c])
  {
    forall x | x in chains[c] ensures x in next' && next'[x] == next[x] {
      var j :| 0 <= j < |chains[c]| && chains[c][j] == x;
      if x in chains[b] { BucketsApart(chains, hashes, b, c, x); }
    }
    ChainFrame(head, next, next', chains[c]);
  }

  lemma {:induction false} SortedRemove(chains: seq<seq<Ref>>, hashes: map<Ref, nat>, r: Ref)
    requires Sorted(chains, hashes) && r in hashes && r in chains[BucketOf(hashes[r], |chains|)]
    requires var chain := chains[BucketOf(hashes[r], |chains|)]; forall i, j | 0 <= i < j < |chain| :: chain[i] != chain[j]
    ensures var b := BucketOf(hashes[r], |chains|); Sorted(chains[b := Without(chains[b], r)], hashes - {r})
  {
    hide Without, BucketOf;
    var b, n := BucketOf(hashes[r], |chains|), |chains|;
    WithoutMembers(chains[b], r);
    var chain := Without(chains[b], r);
    var chains', hashes' := chains[b := chain], hashes - {r};
    forall x | x in hashes' ensures x in chains'[BucketOf(hashes'[x], n)] {
      assert x in hashes && x != r && x in chains[BucketOf(hashes[x], n)];
    }
    forall c, x | 0 <= c < n && x in chains'[c] ensures x in hashes' && BucketOf(hashes'[x], n) == c {
      assert x in chains[c] && BucketOf(hashes[x], n) == c;
      if c != b { assert x != r; }
    }
  }

  // ---- Rehashing ----

  /** Of the old table, the nodes of `rest` and of the buckets after `i` are still to be moved. */
  ghost predicate Moving(olds: seq<Ref>, next: map<Ref, Ref>, chains: seq<seq<Ref>>, hashes: map<Ref, nat>, i: nat, rest: seq<Ref>, moved: map<Ref, nat>)
    requires chains != []
  {
    && |olds| == |chains| && (forall c | i < c < |chains| :: IsChain(olds[c], next, chains[c]))
    && (forall r | r in moved :: r in hashes && moved[r] == hashes[r])
    && (forall r | r in hashes :: r !in moved <==> r in rest || BucketOf(hashes[r], |chains|) > i)
    && (forall r | r in rest :: r in hashes && BucketOf(hashes[r], |chains|) == i)
  }

  lemma {:induction false} MoveOne(olds: seq<Ref>, next: map<Ref, Ref>, chains: seq<seq<Ref>>, hashes: map<Ref, nat>, i: nat, rest: seq<Ref>, moved: map<Ref, nat>,
                                   to: Ref, current: Ref)
    requires Sorted(chains, hashes) && i < |chains| && Moving(olds, next, chains, hashes, i, rest, moved) && rest != [] && IsChain(current, next, rest)
    ensures current in hashes && current in next && current !in moved && current != Null
    ensures Moving(olds, next[current := to], chains, hashes, i, rest[1..], moved[current := hashes[current]])
    ensures IsChain(next[current], next[current := to], rest[1..])
  {
    ChainTail(current, next, rest);
    assert rest[0] in rest && rest == [rest[0]] + rest[1..];
    var next' := next[current := to];
    ChainFrame(next[current], next, next', rest[1..]);
    hide IsChain;
    forall c | i < c < |chains| ensures IsChain(olds[c], next', chains[c]) {
      assert current !in chains[c];
      ChainMembers(olds[c], next, chains[c]);
      ChainFrame(olds[c], next, next', chains[c]);
    }
  }

  lemma ChainMembers(head: Ref, next: map<Ref, Ref>, chain: seq<Ref>)
    requires IsChain(head, next, chain)
    ensures (forall r | r in chain :: r in next) && (head == Null <==> chain == []) && (chain != [] ==> head == chain[0])
  {
    forall r | r in chain ensures r in next { var j :| 0 <= j < |chain| && chain[j] == r; }
  }

  /** Moves the nodes of one old bucket, each to the front of its new bucket. */
  method MoveBucket(olds: seq<Ref>, buckets0: seq<Ref>, next0: map<Ref, Ref>, hashes: map<Ref, nat>, i: nat,
                    ghost chains: seq<seq<Ref>>, ghost chains0: seq<seq<Ref>>, ghost moved0: map<Ref, nat>)
    returns (buckets: seq<Ref>, next: map<Ref, Ref>, ghost chains': seq<seq<Ref>>, ghost moved: map<Ref, nat>)
    requires Sorted(chains, hashes) && i < |chains| == |olds| && IsChain(olds[i], next0, chains[i])
    requires Moving(olds, next0, chains, hashes, i, chains[i], moved0) && IsTable(buckets0, next0, chains0) && Sorted(chains0, moved0)
    ensures |buckets| == |buckets0| && next.Keys == next0.Keys && IsTable(buckets, next, chains') && Sorted(chains', moved) && |chains'| == |chains0|
    ensures Moving(olds, next, chains, hashes, i, [], moved)
  {
    hide IsChain, Sorted, IsTable, Moving;
    buckets, next, chains', moved := buckets0, next0, chains0, moved0;
    var current := olds[i];
    ghost var rest := chains[i];
    ChainMembers(current, next, rest);
    TableSize(buckets, next, chains');
    assert chains' != [] by { SortedSize(chains', moved); }
    while current != Null
      invariant IsTable(buckets, next, chains') && Sorted(chains', moved) && |buckets| == |buckets0| == |chains'| && next.Keys == next0.Keys
      invariant chains' != [] && IsChain(current, next, rest) && Moving(olds, next, chains, hashes, i, rest, moved) && (current == Null <==> rest == [])
      decreases |rest|
    {
      ChainMembers(current, next, rest);
      RestIsHashed(olds, next, chains, hashes, i, rest, moved);
      MoveOne(olds, next, chains, hashes, i, rest, moved, buckets[BucketOf(hashes[current], |buckets|)], current);
      var following := next[current];
      var b := BucketOf(hashes[current], |buckets|);
      NotMoved(chains', moved, current);
      TablePush(buckets, next, chains', b, current);
      SortedPush(chains', moved, current, hashes[current]);
      next := next[current := buckets[b]];
      buckets := buckets[b := current];
      chains', moved := chains'[b := [current] + chains'[b]], moved[current := hashes[current]];
      current, rest := following, rest[1..];
      ChainMembers(current, next, rest);
    }
  }

  lemma RestIsHashed(olds: seq<Ref>, next: map<Ref, Ref>, chains: seq<seq<Ref>>, hashes: map<Ref, nat>, i: nat, rest: seq<Ref>, moved: map<Ref, nat>)
    requires chains != [] && Moving(olds, next, chains, hashes, i, rest, moved) && rest != []
    ensures rest[0] in hashes
  {
    assert rest[0] in rest;
  }

  lemma SortedSize(chains: seq<seq<Ref>>, hashes: map<Ref, nat>)
    requires Sorted(chains, hashes)
    ensures chains != []
  {
  }

  lemma TableSize(buckets: seq<Ref>, next: map<Ref, Ref>, chains: seq<seq<Ref>>)
    requires IsTable(buckets, next, chains)
    ensures |buckets| == |chains|
  {
  }

  lemma NotMoved(chains: seq<seq<Ref>>, moved: map<Ref, nat>, r: Ref)
    requires Sorted(chains, moved) && r !in moved
    ensures forall c | 0 <= c < |chains| :: r !in chains[c]
  {
  }

  lemma {:induction false} NextBucket(olds: seq<Ref>, next: map<Ref, Ref>, chains: seq<seq<Ref>>, hashes: map<Ref, nat>, i: nat, moved: map<Ref, nat>)
    requires Sorted(chains, hashes) && i + 1 < |chains| && Moving(olds, next, chains, hashes, i, [], moved)
    ensures |olds| == |chains| && IsChain(olds[i + 1], next, chains[i + 1]) && Moving(olds, next, chains, hashes, i + 1, chains[i + 1], moved)
  {
    hide IsChain;
    forall r | r in hashes ensures r in chains[i + 1] <==> BucketOf(hashes[r], |chains|) == i + 1 {
      assert r in chains[BucketOf(hashes[r], |chains|)];
    }
  }

  lemma {:induction false} FirstBucket(olds: seq<Ref>, next: map<Ref, Ref>, chains: seq<seq<Ref>>, hashes: map<Ref, nat>)
    requires IsTable(olds, next, chains) && Sorted(chains, hashes)
    ensures IsChain(olds[0], next, chains[0]) && Moving(olds, next, chains, hashes, 0, chains[0], map[])
  {
    hide IsChain;
    forall r | r in hashes ensures r in chains[0] <==> BucketOf(hashes[r], |chains|) == 0 { assert r in chains[BucketOf(hashes[r], |chains|)]; }
  }

  lemma {:induction false} EmptyTable(size: nat, next: map<Ref, Ref>)
    requires size > 0
    ensures IsTable(seq(size, _ => Null), next, seq(size, _ => [])) && Sorted(seq(size, _ => []), map[])
  {
  }

  lemma {:induction false} AllMoved(olds: seq<Ref>, next: map<Ref, Ref>, chains: seq<seq<Ref>>, hashes: map<Ref, nat>, moved: map<Ref, nat>)
    requires Sorted(chains, hashes) && Moving(olds, next, chains, hashes, |chains| - 1, [], moved)
    ensures moved == hashes
  {
    forall r | r in hashes ensures r in moved { assert BucketOf(hashes[r], |chains|) < |chains|; }
  }

  /** The same nodes, spread over `newSize` buckets. */
  method RehashTable(buckets: seq<Ref>, next: map<Ref, Ref>, hashes: map<Ref, nat>, newSize: nat, ghost chains: seq<seq<Ref>>)
    returns (buckets': seq<Ref>, next': map<Ref, Ref>, ghost chains': seq<seq<Ref>>)
    requires IsTable(buckets, next, chains) && Sorted(chains, hashes) && newSize > 0
    ensures |buckets'| == newSize && next'.Keys == next.Keys && IsTable(buckets', next', chains') && Sorted(chains', hashes)
  {
    TableSize(buckets, next, chains);
    FirstBucket(buckets, next, chains, hashes);
    EmptyTable(newSize, next);
    hide IsChain, IsTable, Moving;
    buckets', next', chains' := seq(newSize, _ => Null), next, seq(newSize, _ => []);
    ghost var moved: map<Ref, nat> := map[];
    for i := 0 to |buckets|
      invariant |buckets'| == newSize && next'.Keys == next.Keys && IsTable(buckets', next', chains') && Sorted(chains', moved)
      invariant i < |buckets| ==> IsChain(buckets[i], next', chains[i]) && Moving(buckets, next', chains, hashes, i, chains[i], moved)
      invariant i == |buckets| ==> Moving(buckets, next', chains, hashes, i - 1, [], moved)
    {
      buckets', next', chains', moved := MoveBucket(buckets, buckets', next', hashes, i, chains, chains', moved);
      if i + 1 < |buckets| {
        NextBucket(buckets, next', chains, hashes, i, moved);
      }
    }
    AllMoved(buckets, next', chains, hashes, moved);
  }
}
