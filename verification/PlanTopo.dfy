/**
 `PlanGraph::topo` (src/plan.rs): Kahn's algorithm over the index graph of a plan, with the ready
 set popped smallest index first.
 */
module PlanTopo {
  import opened Wrappers
  import opened Domain
  import Graph
  import Ordered

  /** `g[i]` lists the plan nodes that node `i` waits for, as indices, duplicates kept. */
  type Adj = g: seq<seq<nat>> | WellFormed(g)

  predicate WellFormed(g: seq<seq<nat>>) {
    forall i, k :: 0 <= i < |g| && 0 <= k < |g[i]| ==> g[i][k] < |g|
  }

  ghost predicate UniqueIds(nodes: seq<Issue>) {
    forall i, j :: 0 <= i < j < |nodes| ==> nodes[i].id != nodes[j].id
  }

  /** The `collect` into a hash map: on a repeated id the last node wins. */
  function Index(nodes: seq<Issue>): (m: map<int, nat>)
    ensures forall id :: id in m ==> m[id] < |nodes| && nodes[m[id]].id == id
    ensures forall i :: 0 <= i < |nodes| ==> nodes[i].id in m && i <= m[nodes[i].id]
  {
    if nodes == [] then map[]
    else
      var last := |nodes| - 1;
      Index(nodes[..last])[nodes[last].id := last]
  }

  function InPlan(ids: seq<int>, index: map<int, nat>): (s: seq<nat>)
    ensures forall p :: p in s <==> exists k :: 0 <= k < |ids| && ids[k] in index && index[ids[k]] == p
  {
    if ids == [] then []
    else
      var last := |ids| - 1;
      var rest := InPlan(ids[..last], index);
      if ids[last] in index then rest + [index[ids[last]]] else rest
  }

  function Adjacency(nodes: seq<Issue>): (g: Adj)
    ensures |g| == |nodes|
    ensures forall i :: 0 <= i < |g| ==> g[i] == InPlan(DepIds(nodes[i].dependencies), Index(nodes))
  {
    var g: seq<seq<nat>> :=
      seq(|nodes|, i requires 0 <= i < |nodes| => InPlan(DepIds(nodes[i].dependencies), Index(nodes)));
    assert forall i, k :: 0 <= i < |g| && 0 <= k < |g[i]| ==> g[i][k] in g[i];
    g
  }

  /** The positions of the dependency list `ids` that name plan node `p`. */
  ghost function Naming(ids: seq<int>, index: map<int, nat>, p: nat): (ks: set<nat>)
  {
    set k: nat | k < |ids| && ids[k] in index && index[ids[k]] == p
  }

  /** `at[k]` is where the list names its `k`-th plan node: in the list's own order, missing none. */
  ghost predicate Picks(ids: seq<int>, index: map<int, nat>, s: seq<nat>, at: seq<nat>) {
    && |at| == |s|
    && (forall k :: 0 <= k < |s| ==> at[k] < |ids| && ids[at[k]] in index && index[ids[at[k]]] == s[k])
    && (forall k, l :: 0 <= k < l < |at| ==> at[k] < at[l])
    && forall j: nat :: j < |ids| && ids[j] in index ==> j in at
  }

  lemma PicksOneMore(ids: seq<int>, index: map<int, nat>, s: seq<nat>, at: seq<nat>)
    requires ids != [] && Picks(ids[..|ids| - 1], index, s, at)
    ensures var last := ids[|ids| - 1];
            if last in index then Picks(ids, index, s + [index[last]], at + [|ids| - 1]) else Picks(ids, index, s, at)
  {
    var last := |ids| - 1;
    var next := if ids[last] in index then at + [last] else at;
    assert forall j :: 0 <= j < last ==> ids[..last][j] == ids[j];
    forall j: nat | j < |ids| && ids[j] in index
      ensures j in next
    {
      assert j < last ==> j in at;
      assert j == last ==> next[|next| - 1] == last;
    }
  }

  lemma {:induction false} InPlanPicks(ids: seq<int>, index: map<int, nat>) returns (at: seq<nat>)
    ensures Picks(ids, index, InPlan(ids, index), at)
  {
    at := [];
    if ids != [] {
      var last := |ids| - 1;
      at := InPlanPicks(ids[..last], index);
      PicksOneMore(ids, index, InPlan(ids[..last], index), at);
      at := if ids[last] in index then at + [last] else at;
    }
  }

  lemma {:induction false} InPlanCounts(ids: seq<int>, index: map<int, nat>, p: nat)
    ensures multiset(InPlan(ids, index))[p] == |Naming(ids, index, p)|
  {
    if ids == [] {
      assert Naming(ids, index, p) == {};
    } else {
      var last := |ids| - 1;
      InPlanCounts(ids[..last], index, p);
      assert Naming(ids, index, p) ==
             Naming(ids[..last], index, p) + if ids[last] in index && index[ids[last]] == p then {last} else {};
    }
  }

  /**
   A node's row of the index graph is its dependency list read off in order: each plan node it names, as
   often as it is named and where it is named, and nothing else.
   */
  lemma AdjacencyKeepsOrder(nodes: seq<Issue>, i: nat) returns (at: seq<nat>)
    requires i < |nodes|
    ensures Picks(DepIds(nodes[i].dependencies), Index(nodes), Adjacency(nodes)[i], at)
    ensures forall p: nat ::
              multiset(Adjacency(nodes)[i])[p] == |Naming(DepIds(nodes[i].dependencies), Index(nodes), p)|
  {
    var ids, index := DepIds(nodes[i].dependencies), Index(nodes);
    at := InPlanPicks(ids, index);
    forall p: nat
      ensures multiset(InPlan(ids, index))[p] == |Naming(ids, index, p)|
    {
      InPlanCounts(ids, index, p);
    }
  }

  ghost function EdgesOf(g: Adj): Graph.Edges {
    set i, k | 0 <= i < |g| && 0 <= k < |g[i]| :: (i, g[i][k])
  }

  // ----- What an order must satisfy -----

  ghost function Elems(s: seq<nat>): set<nat> {
    set x | x in s
  }

  ghost predicate DepsWithin(g: Adj, i: nat, done: set<nat>)
    requires i < |g|
  {
    forall p :: p in g[i] ==> p in done
  }

  /** `j` is not placed yet and everything it waits for is. */
  ghost predicate Available(g: Adj, done: set<nat>, j: nat) {
    j < |g| && j !in done && DepsWithin(g, j, done)
  }

  /** Every position holds a node that was available once the positions before it were filled. */
  ghost predicate Respects(g: Adj, order: seq<nat>) {
    forall k :: 0 <= k < |order| ==> Available(g, Elems(order[..k]), order[k])
  }

  ghost predicate IsTopoOrder(g: Adj, order: seq<nat>) {
    |order| == |g| && Respects(g, order)
  }

  ghost predicate LexBefore(a: seq<nat>, b: seq<nat>) {
    a == b || exists k :: 0 <= k < |a| && k < |b| && a[..k] == b[..k] && a[k] < b[k]
  }

  ghost predicate LexLeast(g: Adj, order: seq<nat>) {
    forall q :: IsTopoOrder(g, q) ==> LexBefore(order, q)
  }

  /** The choice Kahn's loop makes at every step. */
  ghost predicate Greedy(g: Adj, order: seq<nat>) {
    forall k, j :: 0 <= k < |order| && Available(g, Elems(order[..k]), j) ==> order[k] <= j
  }

  /** A greedy order is the lexicographically least one. */
  lemma GreedyIsLeast(g: Adj, order: seq<nat>)
    requires IsTopoOrder(g, order) && Greedy(g, order)
    ensures LexLeast(g, order)
  {
    forall q | IsTopoOrder(g, q)
      ensures LexBefore(order, q)
    {
      FirstDifference(g, order, q, 0);
    }
  }

  lemma {:induction false} FirstDifference(g: Adj, order: seq<nat>, q: seq<nat>, k: nat)
    requires IsTopoOrder(g, order) && Greedy(g, order) && IsTopoOrder(g, q)
    requires k <= |order| && order[..k] == q[..k]
    ensures LexBefore(order, q)
    decreases |order| - k
  {
    if k == |order| {
      assert order == order[..k] && q == q[..k];
    } else {
      assert Available(g, Elems(q[..k]), q[k]);
      if order[k] == q[k] {
        assert order[..k + 1] == order[..k] + [order[k]] && q[..k + 1] == q[..k] + [q[k]];
        FirstDifference(g, order, q, k + 1);
      }
    }
  }

  lemma RespectsInit(g: Adj, order: seq<nat>)
    requires Respects(g, order) && order != []
    ensures Respects(g, order[..|order| - 1])
    ensures order[|order| - 1] < |g| && order[|order| - 1] !in order[..|order| - 1]
  {
    var last := |order| - 1;
    var init := order[..last];
    forall k | 0 <= k < |init|
      ensures Available(g, Elems(init[..k]), init[k])
    {
      assert init[..k] == order[..k];
    }
    assert Available(g, Elems(order[..last]), order[last]);
  }

  lemma {:induction false} RespectsRange(g: Adj, order: seq<nat>)
    requires Respects(g, order)
    ensures |Elems(order)| == |order|
    ensures Elems(order) <= Below(|g|)
  {
    if order != [] {
      var last := |order| - 1;
      RespectsInit(g, order);
      RespectsRange(g, order[..last]);
      assert order == order[..last] + [order[last]];
      assert Elems(order) == Elems(order[..last]) + {order[last]};
    }
  }

  lemma RespectsDistinct(g: Adj, order: seq<nat>)
    requires Respects(g, order)
    ensures |Elems(order)| == |order| <= |g|
    ensures forall x :: x in order ==> x < |g|
  {
    RespectsRange(g, order);
    Ordered.SubsetSize(Elems(order), Below(|g|));
    forall x | x in order
      ensures x < |g|
    {
      assert x in Elems(order);
    }
  }

  ghost function Below(n: nat): (s: set<nat>)
    ensures |s| == n && forall x: nat :: x in s <==> x < n
  {
    if n == 0 then {} else Below(n - 1) + {n - 1}
  }

  lemma SubsetEq(a: set<nat>, b: set<nat>)
    requires a <= b && |a| == |b|
    ensures a == b
  {
    if x :| x in b && x !in a {
      Ordered.SubsetSize(a, b - {x});
    }
  }

  lemma Missing(a: set<nat>, b: set<nat>) returns (x: nat)
    requires |a| < |b|
    ensures x in b && x !in a
  {
    if b <= a {
      Ordered.SubsetSize(b, a);
    }
    x :| x in b && x !in a;
  }

  /** An order in the sense above lists each node once, after all of its dependencies. */
  lemma OrderIsPermutation(g: Adj, order: seq<nat>)
    requires IsTopoOrder(g, order)
    ensures Elems(order) == Below(|g|)
    ensures forall i, j :: 0 <= i < j < |order| ==> order[i] != order[j]
    ensures forall k, p :: 0 <= k < |order| && p in g[order[k]] ==> p in order[..k]
  {
    RespectsDistinct(g, order);
    SubsetEq(Elems(order), Below(|g|));
    forall i, j | 0 <= i < j < |order|
      ensures order[i] != order[j]
    {
      assert Available(g, Elems(order[..j]), order[j]);
      assert order[i] in order[..j];
    }
    forall k, p | 0 <= k < |order| && p in g[order[k]]
      ensures p in order[..k]
    {
      assert Available(g, Elems(order[..k]), order[k]);
    }
  }

  // ----- Order exists iff the graph is acyclic -----

  ghost function Position(order: seq<nat>, i: nat): nat
    requires i in order
    ensures Position(order, i) < |order| && order[Position(order, i)] == i
  {
    var k :| 0 <= k < |order| && order[k] == i;
    k
  }

  lemma OrderedIsAcyclic(g: Adj, order: seq<nat>)
    requires IsTopoOrder(g, order)
    ensures Graph.Acyclic(EdgesOf(g))
  {
    OrderIsPermutation(g, order);
    var rank: map<int, int> := map i: int | i in order :: Position(order, i);
    forall x, y | (x, y) in EdgesOf(g)
      ensures x in rank && y in rank && rank[y] < rank[x]
    {
      assert x in Below(|g|);
      assert y in order[..rank[x]];
      var k :| 0 <= k < rank[x] && order[k] == y;
      assert k == Position(order, y);
    }
    Graph.RankedIsAcyclic(EdgesOf(g), rank);
  }

  lemma StuckIsCyclic(g: Adj, done: set<nat>, start: nat)
    requires start < |g| && start !in done
    requires forall j :: !Available(g, done, j)
    ensures !Graph.Acyclic(EdgesOf(g))
  {
    var rest: set<int> := set x: int | 0 <= x < |g| && x !in done;
    forall x | x in rest
      ensures Graph.HasNext(EdgesOf(g), rest, x)
    {
      assert !Available(g, done, x);
      var p :| p in g[x] && p !in done;
      assert (x, p as int) in EdgesOf(g);
    }
    Graph.StuckHasCycle(EdgesOf(g), rest, start);
  }

  // ----- Counting occurrences -----

  ghost function Occ(s: seq<nat>, x: nat): nat {
    multiset(s)[x]
  }

  ghost function Pending(deps: seq<nat>, done: set<nat>): nat {
    if deps == [] then 0
    else (if deps[0] in done then 0 else 1) + Pending(deps[1..], done)
  }

  lemma {:induction false} PendingZero(deps: seq<nat>, done: set<nat>)
    ensures Pending(deps, done) == 0 <==> forall p :: p in deps ==> p in done
  {
    if deps != [] {
      PendingZero(deps[1..], done);
      assert deps == [deps[0]] + deps[1..];
    }
  }

  lemma {:induction false} PendingAll(deps: seq<nat>)
    ensures Pending(deps, {}) == |deps|
  {
    if deps != [] {
      PendingAll(deps[1..]);
    }
  }

  /** Placing `i` settles exactly its occurrences. */
  lemma {:induction false} PendingDrop(deps: seq<nat>, done: set<nat>, i: nat)
    requires i !in done
    ensures Pending(deps, done) == Pending(deps, done + {i}) + Occ(deps, i)
  {
    if deps != [] {
      PendingDrop(deps[1..], done, i);
      assert deps == [deps[0]] + deps[1..];
    }
  }

  lemma MultisetSnoc(s: seq<nat>, k: nat)
    requires k < |s|
    ensures multiset(s[..k + 1]) == multiset(s[..k]) + multiset{s[k]}
    ensures multiset(s[k..]) == multiset{s[k]} + multiset(s[k + 1..])
  {
    assert s[..k + 1] == s[..k] + [s[k]];
    assert s[k..] == [s[k]] + s[k + 1..];
  }

  /** `children[p]` holds each node once for every time it names `p` as a dependency. */
  ghost predicate Transposed(g: Adj, children: seq<seq<nat>>) {
    && |children| == |g|
    && (forall p, c :: 0 <= p < |g| && 0 <= c < |g| ==> Occ(children[p], c) == Occ(g[c], p))
    && forall p, c :: 0 <= p < |g| && c in children[p] ==> c < |g|
  }

  /** How often `c` has been filed under `p` once rows before `i` and `k` entries of row `i` are read. */
  ghost function Filed(g: Adj, i: nat, k: nat, p: nat, c: nat): nat
    requires c < |g| && (c == i ==> k <= |g[i]|)
  {
    if c < i then Occ(g[c], p) else if c == i then Occ(g[c][..k], p) else 0
  }

  lemma FiledStep(g: Adj, i: nat, k: nat)
    requires i < |g| && k < |g[i]|
    ensures forall p: nat, c :: 0 <= c < |g| ==>
                                  Filed(g, i, k + 1, p, c) == Filed(g, i, k, p, c) + if c == i
                                                                                        && p == g[i][k] then 1 else 0
  {
    MultisetSnoc(g[i], k);
  }

  lemma FiledRow(g: Adj, i: nat)
    requires i < |g|
    ensures forall p: nat, c :: 0 <= c < |g| ==> Filed(g, i, |g[i]|, p, c) == Filed(g, i + 1, 0, p, c)
  {
    assert g[i][..|g[i]|] == g[i];
  }

  /** Fills `indegree` and `dependents` in one pass over every dependency occurrence. */
  method CountEdges(g: Adj, indegree: array<nat>, dependents: array<seq<nat>>)
    requires indegree.Length == |g| == dependents.Length
    requires forall i :: 0 <= i < |g| ==> indegree[i] == 0
    requires forall i :: 0 <= i < |g| ==> dependents[i] == []
    modifies indegree, dependents
    ensures forall i :: 0 <= i < |g| ==> indegree[i] == |g[i]|
    ensures Transposed(g, dependents[..])
  {
    for i := 0 to |g|
      invariant forall j :: 0 <= j < |g| ==> indegree[j] == if j < i then |g[j]| else 0
      invariant forall p, c :: 0 <= p < |g| && 0 <= c < |g| ==> Occ(dependents[p], c) == Filed(g, i, 0, p, c)
      invariant forall p, c :: 0 <= p < |g| && c in dependents[p] ==> c < |g|
    {
      for k := 0 to |g[i]|
        invariant forall j :: 0 <= j < |g| ==> indegree[j] == if j < i then |g[j]| else if j == i then k else 0
        invariant forall p, c :: 0 <= p < |g| && 0 <= c < |g| ==> Occ(dependents[p], c) == Filed(g, i, k, p, c)
        invariant forall p, c :: 0 <= p < |g| && c in dependents[p] ==> c < |g|
      {
        var parent := g[i][k];
        FiledStep(g, i, k);
        assert forall c: nat ::
            Occ(dependents[parent] + [i], c) == Occ(dependents[parent], c) + if c == i then 1 else 0;
        indegree[i] := indegree[i] + 1;
        dependents[parent] := dependents[parent] + [i];
      }
      FiledRow(g, i);
    }
  }

  /** `pop_first` on the ready set. */
  method PopFirst(s: set<nat>) returns (m: nat, rest: set<nat>)
    requires s != {}
    ensures m in s && rest == s - {m} && forall x :: x in s ==> m <= x
  {
    ghost var least := Ordered.LeastExists(s);
    m :| m in s && forall x :: x in s ==> m <= x;
    rest := s - {m};
  }

  ghost predicate Counts(g: Adj, order: seq<nat>, todo: seq<nat>, indegree: seq<nat>) {
    |indegree| == |g| &&
    forall c :: 0 <= c < |g| ==> indegree[c] == Pending(g[c], Elems(order)) + Occ(todo, c)
  }

  ghost predicate Settled(g: Adj, order: seq<nat>, indegree: seq<nat>) {
    && Respects(g, order)
    && Greedy(g, order)
    && Counts(g, order, [], indegree)
  }

  lemma SettledFacts(g: Adj, order: seq<nat>, indegree: seq<nat>)
    requires Settled(g, order, indegree)
    ensures forall j: nat :: Available(g, Elems(order), j) <==> j < |g| && j !in order && indegree[j] == 0
    ensures forall c, p :: c in order && p in g[c] ==> p in order
    ensures forall c :: c in order ==> c < |g|
  {
    forall j: nat | j < |g|
      ensures Available(g, Elems(order), j) <==> j !in order && indegree[j] == 0
    {
      PendingZero(g[j], Elems(order));
    }
    RespectsDistinct(g, order);
    forall c, p | c in order && p in g[c]
      ensures p in order
    {
      var k :| 0 <= k < |order| && order[k] == c;
      assert Available(g, Elems(order[..k]), order[k]);
    }
  }

  ghost predicate ReadyIs(ready: set<nat>, order: seq<nat>, indegree: seq<nat>) {
    forall c :: c in ready <==> 0 <= c < |indegree| && c !in order && indegree[c] == 0
  }

  lemma Extend(g: Adj, order: seq<nat>, i: nat)
    requires Respects(g, order) && Greedy(g, order)
    requires Available(g, Elems(order), i)
    requires forall j :: Available(g, Elems(order), j) ==> i <= j
    ensures Respects(g, order + [i]) && Greedy(g, order + [i])
    ensures Elems(order + [i]) == Elems(order) + {i}
  {
    var next := order + [i];
    forall k | 0 <= k < |next|
      ensures Available(g, Elems(next[..k]), next[k])
      ensures forall j :: Available(g, Elems(next[..k]), j) ==> next[k] <= j
    {
      if k < |order| {
        assert next[..k] == order[..k];
      } else {
        assert next[..k] == order;
      }
    }
  }

  /** Placing the least ready node keeps every invariant, up to telling its dependents. */
  lemma Place(g: Adj, order: seq<nat>, i: nat, indegree: seq<nat>, children: seq<nat>)
    requires Settled(g, order, indegree)
    requires i < |g| && i !in order && indegree[i] == 0
    requires forall c :: 0 <= c < |g| && c !in order && indegree[c] == 0 ==> i <= c
    requires forall c :: 0 <= c < |g| ==> Occ(children, c) == Occ(g[c], i)
    ensures Respects(g, order + [i]) && Greedy(g, order + [i])
    ensures Counts(g, order + [i], children, indegree)
    ensures forall c :: 0 <= c < |g| && c in order + [i] ==> c !in children
    ensures |order| < |g|
  {
    SettledFacts(g, order, indegree);
    Extend(g, order, i);
    RespectsDistinct(g, order + [i]);
    forall c: nat | c < |g|
      ensures indegree[c] == Pending(g[c], Elems(order + [i])) + Occ(children, c)
      ensures c in order + [i] ==> c !in children
    {
      PendingDrop(g[c], Elems(order), i);
      PendingZero(g[c], Elems(order));
    }
  }

  /** Tells the dependents of a node just placed that one more of their dependencies is done. */
  method Release(g: Adj, ghost order: seq<nat>, children: seq<nat>, indegree: array<nat>, ready: set<nat>)
    returns (ready': set<nat>)
    requires Counts(g, order, children, indegree[..]) && ReadyIs(ready, order, indegree[..])
    requires forall c :: c in children ==> c < |g| && c !in order
    modifies indegree
    ensures Counts(g, order, [], indegree[..]) && ReadyIs(ready', order, indegree[..])
  {
    ready' := ready;
    assert children[0..] == children;
    for k := 0 to |children|
      invariant Counts(g, order, children[k..], indegree[..])
      invariant ReadyIs(ready', order, indegree[..])
    {
      var child := children[k];
      assert child in children;
      MultisetSnoc(children, k);
      indegree[child] := indegree[child] - 1;
      if indegree[child] == 0 {
        ready' := ready' + {child};
      }
    }
  }

  /**
   Deterministic topological order: succeeds exactly on acyclic graphs, and then returns the
   lexicographically least order. `indegree` being an array of `nat` is the proof that a repeated
   dependency never drives the counter below zero.
   */
  method Topo(g: Adj) returns (r: Option<seq<nat>>)
    ensures r.Some? <==> Graph.Acyclic(EdgesOf(g))
    ensures r.Some? ==> IsTopoOrder(g, r.value) && LexLeast(g, r.value)
  {
    var indegree := new nat[|g|](_ => 0);
    var dependents := new seq<nat>[|g|](_ => []);
    CountEdges(g, indegree, dependents);
    ghost var children := dependents[..];
    var ready: set<nat> := set i: nat | i < |g| && indegree[i] == 0;
    var order: seq<nat> := [];
    forall c: nat | c < |g|
      ensures indegree[c] == Pending(g[c], Elems(order))
    {
      PendingAll(g[c]);
      assert Elems(order) == {};
    }
    while ready != {}
      invariant Settled(g, order, indegree[..])
      invariant ReadyIs(ready, order, indegree[..])
      invariant dependents[..] == children
      decreases |g| - |order|
    {
      var i;
      i, ready := PopFirst(ready);
      Place(g, order, i, indegree[..], dependents[i]);
      order := order + [i];
      ready := Release(g, order, dependents[i], indegree, ready);
    }
    SettledFacts(g, order, indegree[..]);
    RespectsDistinct(g, order);
    if |order| != |g| {
      ghost var missed := Missing(Elems(order), Below(|g|));
      StuckIsCyclic(g, Elems(order), missed);
      return None;
    }
    GreedyIsLeast(g, order);
    OrderedIsAcyclic(g, order);
    return Some(order);
  }
}
