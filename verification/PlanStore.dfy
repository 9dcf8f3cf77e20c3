/** Writing a validated plan into the store and loading it back (src/plan.rs, `create`, `load`, `view`). */
module PlanStore {
  import opened Wrappers
  import opened Domain
  import opened StoreSpec
  import opened StoreInvariant
  import opened PlanTopo
  import PlanFrontier
  import Graph
  import Sorting
  import Store

  // ----- Loading -----

  function ByPlanKey(): (Issue, Issue) -> bool {
    (a: Issue, b: Issue) => KeyLess(PlanKey(a), PlanKey(b))
  }

  predicate Member(i: Issue, name: int) {
    i.metadata.plan == Some(name)
  }

  ghost predicate NoPlan(db: Db, name: int) {
    forall id :: id in db.issues ==> !Member(db.issues[id], name)
  }

  /** The statuses of all live issues. */
  ghost predicate StatusesAre(db: Db, statusOf: map<int, Status>) {
    && (forall id :: id in statusOf <==> id in db.issues)
    && forall id :: id in db.issues ==> statusOf[id] == db.issues[id].status
  }

  /** The plan holds exactly the issues that carry its name, in plan order, as the store shows them. */
  ghost predicate IsLoaded(db: Db, name: int, g: PlanFrontier.Plan) {
    && (forall i :: i in g.nodes ==> i.id in db.issues && i == View(db, i.id) && Member(i, name))
    && (forall id :: id in db.issues && Member(db.issues[id], name) ==> View(db, id) in g.nodes)
    && UniqueIds(g.nodes)
    && Sorting.InOrder(ByPlanKey(), g.nodes)
    && StatusesAre(db, g.statusOf)
  }

  /** Dependencies between plan nodes are dependencies in the store. */
  lemma PlanEdgeIsStored(db: Db, g: PlanFrontier.Plan, name: int, i: int, j: int)
    requires IsLoaded(db, name, g) && (i, j) in EdgesOf(Adjacency(g.nodes))
    ensures 0 <= i < |g.nodes| && 0 <= j < |g.nodes| && (g.nodes[i].id, g.nodes[j].id) in db.deps
  {
    var adj := Adjacency(g.nodes);
    var k :| 0 <= k < |adj[i]| && adj[i][k] == j;
    assert j in adj[i];
    var ids := DepIds(g.nodes[i].dependencies);
    var l :| 0 <= l < |ids| && ids[l] in Index(g.nodes) && Index(g.nodes)[ids[l]] == j;
    assert ids[l] in ids && g.nodes[i] in g.nodes;
    assert g.nodes[i] == View(db, g.nodes[i].id);
  }

  /** So a plan loaded from a sound store has no cycle. */
  lemma LoadedIsAcyclic(db: Db, g: PlanFrontier.Plan, name: int)
    requires Inv(db) && IsLoaded(db, name, g)
    ensures Graph.Acyclic(EdgesOf(Adjacency(g.nodes)))
  {
    var nodes := g.nodes;
    var h := (i: int) => if 0 <= i < |nodes| then nodes[i].id else 0;
    forall x, y | (x, y) in EdgesOf(Adjacency(nodes))
      ensures (h(x), h(y)) in db.deps
    {
      PlanEdgeIsStored(db, g, name, x, y);
    }
    Graph.MappedIsAcyclic(EdgesOf(Adjacency(nodes)), db.deps, h);
  }

  datatype LoadError = NoSuchPlan | CyclicPlan

  /** The members of a plan and the status of every issue, out of a full listing. */
  method Gather(all: seq<Issue>, name: int) returns (nodes: seq<Issue>, statusOf: map<int, Status>)
    requires Sorting.Distinct(all) && UniqueIds(all)
    ensures Sorting.Distinct(nodes)
    ensures forall i :: i in nodes <==> i in all && Member(i, name)
    ensures forall id :: id in statusOf <==> exists i :: i in all && i.id == id
    ensures forall i :: i in all ==> statusOf[i.id] == i.status
  {
    nodes, statusOf := [], map[];
    for k := 0 to |all|
      invariant Sorting.Distinct(nodes)
      invariant forall i :: i in nodes <==> i in all[..k] && Member(i, name)
      invariant forall id :: id in statusOf <==> exists i :: i in all[..k] && i.id == id
      invariant forall i :: i in all[..k] ==> statusOf[i.id] == i.status
    {
      var i := all[k];
      assert i !in all[..k] && all[..k + 1] == all[..k] + [i];
      statusOf := statusOf[i.id := i.status];
      if Member(i, name) {
        nodes := nodes + [i];
      }
    }
    assert all[..|all|] == all;
  }

  lemma ListingIsUnique(db: Db, ids: set<int>, list: seq<Issue>)
    requires IsListing(db, ids, list)
    ensures UniqueIds(list)
  {
    forall i, j | 0 <= i < j < |list|
      ensures list[i].id != list[j].id
    {
      assert list[i] in list && list[j] in list;
    }
  }

  lemma StrictByPlanKey()
    ensures Sorting.StrictOrder(ByPlanKey())
  {
  }

  lemma GatheredIsLoaded(
    db: Db, name: int, all: seq<Issue>, nodes: seq<Issue>, statusOf: map<int, Status>, sorted: seq<Issue>)
    requires Inv(db) && IsListing(db, WantedSet(db, None, true, None), all)
    requires Sorting.Distinct(sorted) && Sorting.InOrder(ByPlanKey(), sorted)
    requires forall i :: i in sorted <==> i in nodes
    requires forall i :: i in nodes <==> i in all && Member(i, name)
    requires forall id :: id in statusOf <==> exists i :: i in all && i.id == id
    requires forall i :: i in all ==> statusOf[i.id] == i.status
    ensures IsLoaded(db, name, PlanFrontier.Plan(sorted, statusOf))
    ensures nodes == [] <==> NoPlan(db, name)
  {
    forall id | id in db.issues
      ensures id in statusOf && statusOf[id] == db.issues[id].status
      ensures Member(db.issues[id], name) ==> View(db, id) in nodes
    {
      assert id in WantedSet(db, None, true, None);
      assert RowOk(db.issues[id], id);
      assert View(db, id) in all && View(db, id).id == id;
    }
    forall i, j | 0 <= i < j < |sorted|
      ensures sorted[i].id != sorted[j].id
    {
      assert sorted[i] in sorted && sorted[j] in sorted;
    }
    if nodes != [] {
      assert nodes[0] in nodes;
      assert Member(db.issues[nodes[0].id], name);
    }
  }

  /** Fails exactly when no issue carries the name: stored dependencies never make a plan cyclic. */
  method Load(store: Store.Inner, name: int) returns (r: Result<PlanFrontier.Plan, LoadError>)
    requires store.Valid()
    ensures r.Err? ==> r.error == NoSuchPlan
    ensures r.Err? <==> NoPlan(store.db, name)
    ensures r.Ok? ==> IsLoaded(store.db, name, r.value)
    ensures r.Ok? ==> forall k, l :: 0 <= k < l < |r.value.nodes| ==> !Sooner(r.value.nodes[l], r.value.nodes[k])
    ensures r.Ok? ==> forall id :: id in store.db.issues ==>
                                     ((exists k :: 0 <= k < |r.value.nodes| && r.value.nodes[k].id == id) <==>
                                      store.db.issues[id].metadata.plan == Some(name))
  {
    var all := store.List(None, true, None);
    ListingIsUnique(store.db, WantedSet(store.db, None, true, None), all);
    var nodes, statusOf := Gather(all, name);
    var sorted := Sorting.Sort(ByPlanKey(), nodes);
    StrictByPlanKey();
    Sorting.SortOrders(ByPlanKey(), nodes);
    Sorting.SortKeepsDistinct(ByPlanKey(), nodes);
    GatheredIsLoaded(store.db, name, all, nodes, statusOf, sorted);
    if nodes == [] {
      return Err(NoSuchPlan);
    }
    var g := PlanFrontier.Plan(sorted, statusOf);
    LoadedIsAcyclic(store.db, g, name);
    LoadedInOrder(store.db, name, g);
    var order := Topo(Adjacency(sorted));
    if order.None? {
      return Err(CyclicPlan);
    }
    return Ok(g);
  }

  lemma LoadedInOrder(db: Db, name: int, g: PlanFrontier.Plan)
    requires Inv(db) && IsLoaded(db, name, g)
    ensures forall k, l :: 0 <= k < l < |g.nodes| ==> !Sooner(g.nodes[l], g.nodes[k])
    ensures forall id :: id in db.issues ==>
                           ((exists k :: 0 <= k < |g.nodes| && g.nodes[k].id == id) <==> db.issues[id].metadata.plan == Some(name))
  {
    forall k, l | 0 <= k < l < |g.nodes|
      ensures !Sooner(g.nodes[l], g.nodes[k])
    {
      assert !ByPlanKey()(g.nodes[l], g.nodes[k]);
      KeyOrdersBySooner(g.nodes[l], g.nodes[k]);
    }
    forall id | id in db.issues
      ensures (exists k :: 0 <= k < |g.nodes| && g.nodes[k].id == id) <==> db.issues[id].metadata.plan == Some(name)
    {
      IdIsKey(db, id);
      if Member(db.issues[id], name) {
        assert View(db, id) in g.nodes;
      }
      if k :| 0 <= k < |g.nodes| && g.nodes[k].id == id {
        assert g.nodes[k] in g.nodes;
      }
    }
  }

  // ----- The view -----

  ghost predicate EdgeAt(nodes: seq<Issue>, i: nat, c: int, p: int) {
    i < |nodes| && nodes[i].id == c && p in DepIds(nodes[i].dependencies) && p in Index(nodes)
  }

  /** The dependencies among plan nodes, by id. */
  ghost function ViewEdges(nodes: seq<Issue>): Graph.Edges {
    set i: nat, p | i < |nodes| && p in DepIds(nodes[i].dependencies) && p in Index(nodes) :: (nodes[i].id, p)
  }

  lemma ViewEdge(nodes: seq<Issue>, c: int, p: int)
    ensures (c, p) in ViewEdges(nodes) <==> exists i: nat :: EdgeAt(nodes, i, c, p)
  {
    if i: nat :| EdgeAt(nodes, i, c, p) {
      assert (nodes[i].id, p) in ViewEdges(nodes);
    }
    if (c, p) in ViewEdges(nodes) {
      var i: nat :| i < |nodes| && p in DepIds(nodes[i].dependencies) && p in Index(nodes) && nodes[i].id == c;
      assert EdgeAt(nodes, i, c, p);
    }
  }

  function Internal(nodes: seq<Issue>, ids: seq<int>): (r: seq<int>)
    ensures forall p :: p in r <==> p in ids && p in Index(nodes)
  {
    if ids == [] then []
    else (if ids[0] in Index(nodes) then [ids[0]] else []) + Internal(nodes, ids[1..])
  }

  ghost predicate EdgeUpTo(nodes: seq<Issue>, order: seq<nat>, k: nat, c: int, p: int)
    requires k <= |order|
  {
    exists l :: 0 <= l < k && EdgeAt(nodes, order[l], c, p)
  }

  method EdgesInOrder(nodes: seq<Issue>, order: seq<nat>) returns (edges: seq<(int, int)>)
    requires forall l :: 0 <= l < |order| ==> order[l] < |nodes|
    ensures forall c, p :: (c, p) in edges <==> EdgeUpTo(nodes, order, |order|, c, p)
  {
    edges := [];
    for k := 0 to |order|
      invariant forall c, p :: (c, p) in edges <==> EdgeUpTo(nodes, order, k, c, p)
    {
      var i := nodes[order[k]];
      var found := EdgesFrom(i.id, Internal(nodes, DepIds(i.dependencies)));
      forall c, p
        ensures EdgeUpTo(nodes, order, k + 1, c, p) <==> EdgeUpTo(nodes, order, k, c, p) || (c, p) in found
      {
        assert EdgeAt(nodes, order[k], c, p) <==> (c, p) in found;
      }
      edges := edges + found;
    }
  }

  /** `view`: the nodes in dependency order and the edges between them. */
  method Show(g: PlanFrontier.Plan) returns (r: Option<(seq<nat>, seq<(int, int)>)>)
    ensures r.Some? <==> Graph.Acyclic(EdgesOf(Adjacency(g.nodes)))
    ensures r.Some? ==> IsTopoOrder(Adjacency(g.nodes), r.value.0)
    ensures r.Some? ==> forall c, p :: (c, p) in r.value.1 <==> (c, p) in ViewEdges(g.nodes)
  {
    var order := Topo(Adjacency(g.nodes));
    if order.None? {
      return None;
    }
    InRange(g.nodes, order.value);
    var edges := EdgesInOrder(g.nodes, order.value);
    forall c, p
      ensures EdgeUpTo(g.nodes, order.value, |order.value|, c, p) <==> (c, p) in ViewEdges(g.nodes)
    {
      EdgesCovered(g.nodes, order.value, c, p);
    }
    return Some((order.value, edges));
  }

  lemma InRange(nodes: seq<Issue>, order: seq<nat>)
    requires IsTopoOrder(Adjacency(nodes), order)
    ensures forall l :: 0 <= l < |order| ==> order[l] < |nodes|
  {
    PlanFrontier.OrderCovers(Adjacency(nodes), order);
    forall l | 0 <= l < |order|
      ensures order[l] < |nodes|
    {
      assert order[l] in order;
    }
  }

  lemma EdgesCovered(nodes: seq<Issue>, order: seq<nat>, c: int, p: int)
    requires IsTopoOrder(Adjacency(nodes), order)
    ensures EdgeUpTo(nodes, order, |order|, c, p) <==> (c, p) in ViewEdges(nodes)
  {
    PlanFrontier.OrderCovers(Adjacency(nodes), order);
    ViewEdge(nodes, c, p);
    if i: nat :| EdgeAt(nodes, i, c, p) {
      assert i in order;
    }
  }

  function EdgesFrom(c: int, ps: seq<int>): (r: seq<(int, int)>)
    ensures forall x, p :: (x, p) in r <==> x == c && p in ps
  {
    if ps == [] then [] else [(c, ps[0])] + EdgesFrom(c, ps[1..])
  }

  // ----- The two readiness rules -----

  /** On loaded plans a node is eligible exactly when the store itself would offer its issue. */
  lemma EligibleIsReady(db: Db, name: int, g: PlanFrontier.Plan, i: nat, now: int)
    requires Inv(db) && IsLoaded(db, name, g) && i < |g.nodes|
    ensures PlanFrontier.Eligible(g, i, now) <==> IsReady(db, g.nodes[i].id, now)
  {
    var n := g.nodes[i];
    assert n in g.nodes && n == View(db, n.id);
    DepsClosedAgree(db, name, g, n);
    PlanFrontier.EligibleMeans(g, i, now);
  }

  lemma DepsClosedAgree(db: Db, name: int, g: PlanFrontier.Plan, n: Issue)
    requires Inv(db) && IsLoaded(db, name, g) && n in g.nodes
    ensures PlanFrontier.DepsClosed(g, n) <==>
            forall p :: (n.id, p) in db.deps ==> p in db.issues && IsTerminal(db.issues[p].status)
  {
    assert n == View(db, n.id);
    forall p
      ensures p in DepIds(n.dependencies) <==> (n.id, p) in db.deps
      ensures (n.id, p) in db.deps ==>
                p in db.issues && (PlanFrontier.StatusIn(g, p) == Closed <==> IsTerminal(db.issues[p].status))
    {
    }
  }

  /** Whatever a plan's frontier offers, the store's own `ready` offers too. */
  lemma FrontierIsReady(db: Db, name: int, g: PlanFrontier.Plan, i: nat, now: int)
    requires Inv(db) && IsLoaded(db, name, g) && PlanFrontier.Offered(g, i, now)
    ensures g.nodes[i].id in ReadySet(db, None, now)
  {
    EligibleIsReady(db, name, g, i, now);
    assert g.nodes[i] in g.nodes;
  }
}
