/**
 `create` (src/plan.rs): one issue per node, then one dependency per spec edge. A validated plan never
 runs into a cycle, and what is written loads back as the spec's own graph.
 */
module PlanCreate {
  import opened Wrappers
  import opened Domain
  import opened StoreSpec
  import opened StoreInvariant
  import opened PlanTopo
  import opened PlanSpec
  import opened PlanStore
  import PlanFrontier
  import Graph
  import Store

  const DEFAULT_ESTIMATE: int := 30

  function MetadataFor(plan: ResolvedPlan, n: NodeSpec): Metadata {
    Metadata(Some(plan.name), Some(n.key), n.group, Some(Max(n.estimate.GetOr(DEFAULT_ESTIMATE), 1)), false)
  }

  function ProjectFor(plan: ResolvedPlan, n: NodeSpec): int {
    n.project.GetOr(plan.project)
  }

  function SpecFor(plan: ResolvedPlan, n: NodeSpec, actor: Actor, at: int): NewIssue {
    NewIssue(None, Some(ProjectFor(plan, n)), None, n.priority.GetOr(2), false, Some(at), actor, MetadataFor(plan, n))
  }

  datatype CreateError = Invalid(problems: seq<Problem>) | Exists(count: nat) | Refused(error: Error)

  // ----- What is written -----

  ghost predicate FreshIds(db: Db, plan: ResolvedPlan, ids: seq<int>) {
    && |ids| == |plan.nodes|
    && (forall i, j :: 0 <= i < j < |ids| ==> ids[i] != ids[j])
    && forall i :: 0 <= i < |ids| ==> ids[i] !in db.issues
  }

  /** Node `k` is an open, unclaimed issue available at once; only its `updatedAt` moves when edges are added. */
  ghost predicate NodeWritten(db: Db, cfg: Config, plan: ResolvedPlan, ids: seq<int>, actor: Actor, at: int, k: nat)
    requires |ids| == |plan.nodes| && k < |ids|
  {
    var n := plan.nodes[k];
    && ids[k] in db.issues
    && db.issues[ids[k]].(updatedAt := at) == FreshRow(SpecFor(plan, n, actor, at), ids[k], ProjectFor(plan, n), cfg,
                                                       at)
  }

  /**
   The issue made for node `k`, in the spec's own words: its plan, key and group, its estimate or half an hour, its
   project or the plan's, its priority or the usual one, open to anybody from `at` on.
   */
  ghost predicate NodeAsAsked(db: Db, plan: ResolvedPlan, ids: seq<int>, at: int, k: nat)
    requires |ids| == |plan.nodes| && k < |ids|
  {
    && ids[k] in db.issues
    && var n, i := plan.nodes[k], db.issues[ids[k]];
    && i.id == ids[k] && i.metadata.plan == Some(plan.name) && i.metadata.key == Some(n.key)
    && i.metadata.group == n.group
    && !i.metadata.imported && i.metadata.estimate.Some? && i.metadata.estimate.value >= 1
    && (n.estimate.None? ==> i.metadata.estimate.value == 30)
    && (n.estimate.Some? && n.estimate.value >= 1 ==> i.metadata.estimate == n.estimate)
    && (n.project.Some? ==> i.project == n.project.value) && (n.project.None? ==> i.project == plan.project)
    && (n.priority.Some? && n.priority.value != 0 ==> i.priority == n.priority.value)
    && (n.priority.None? || n.priority.value == 0 ==> i.priority == 2)
    && i.status == Open && i.availableAt == Some(at) && i.createdAt == at && !i.isGoal && i.parent == None
    && i.assignee == None && i.actorKind == None && i.expiresAt == None && i.closedAt == None && i.evidence == []
  }

  lemma WrittenAsAsked(before: Db, db: Db, cfg: Config, plan: ResolvedPlan, ids: seq<int>, actor: Actor, at: int)
    requires Written(before, db, cfg, plan, ids, actor, at)
    ensures forall k: nat :: k < |ids| ==> NodeAsAsked(db, plan, ids, at, k)
  {
    forall k: nat | k < |ids|
      ensures NodeAsAsked(db, plan, ids, at, k)
    {
      assert NodeWritten(db, cfg, plan, ids, actor, at, k);
    }
  }

  /** The first `n` nodes are in the store and every other row is as before. */
  ghost predicate NodesWritten(
    before: Db, db: Db, cfg: Config, plan: ResolvedPlan, ids: seq<int>, actor: Actor, at: int, n: nat)
    requires |ids| == |plan.nodes| && n <= |ids|
  {
    && db.projects == before.projects && db.folders == before.folders && db.filed == before.filed
    && (forall id :: id in before.issues ==> id in db.issues && db.issues[id] == before.issues[id])
    && (forall id :: id in db.issues ==> id in before.issues || id in ids[..n])
    && forall k :: 0 <= k < n ==> NodeWritten(db, cfg, plan, ids, actor, at, k)
  }

  /** The issue a key was given. */
  function IdMap(nodes: seq<NodeSpec>, ids: seq<int>): (m: map<int, int>)
    requires |nodes| == |ids|
    ensures forall key :: key in m <==> exists k :: 0 <= k < |nodes| && nodes[k].key == key
    ensures forall key :: key in m ==> exists k :: 0 <= k < |nodes| && nodes[k].key == key && ids[k] == m[key]
  {
    if nodes == [] then map[]
    else
      var last := |nodes| - 1;
      IdMap(nodes[..last], ids[..last])[nodes[last].key := ids[last]]
  }

  /** The spec's edges with keys replaced by ids. */
  ghost function SpecEdges(nodes: seq<NodeSpec>, ids: seq<int>): Graph.Edges
    requires |nodes| == |ids|
  {
    set i: nat, d | i < |nodes| && d in nodes[i].deps && d in IdMap(nodes, ids) :: (ids[i], IdMap(nodes, ids)[d])
  }

  /** All of a plan is in the store: its nodes, its edges and nothing else. */
  ghost predicate Written(before: Db, db: Db, cfg: Config, plan: ResolvedPlan, ids: seq<int>, actor: Actor, at: int) {
    && FreshIds(before, plan, ids)
    && NodesWritten(before, db, cfg, plan, ids, actor, at, |ids|)
    && db.deps == before.deps + SpecEdges(plan.nodes, ids)
  }

  // ----- Ids and keys -----

  lemma IdOfNode(plan: ResolvedPlan, ids: seq<int>, k: nat)
    requires Sound(plan) && |ids| == |plan.nodes| && k < |ids|
    ensures plan.nodes[k].key in IdMap(plan.nodes, ids) && IdMap(plan.nodes, ids)[plan.nodes[k].key] == ids[k]
    ensures plan.nodes[k].key in ByKey(plan.nodes) && ByKey(plan.nodes)[plan.nodes[k].key] == plan.nodes[k]
  {
    SoundParts(plan);
    var key := plan.nodes[k].key;
    assert key in IdMap(plan.nodes, ids) && key in ByKey(plan.nodes);
    var j :| 0 <= j < |ids| && plan.nodes[j].key == key && ids[j] == IdMap(plan.nodes, ids)[key];
    assert j == k;
    var n := ByKey(plan.nodes)[key];
    var l :| 0 <= l < |ids| && plan.nodes[l] == n;
    assert l == k;
  }

  lemma NodeOfId(plan: ResolvedPlan, ids: seq<int>, key: int) returns (k: nat)
    requires Sound(plan) && |ids| == |plan.nodes| && key in ByKey(plan.nodes)
    ensures k < |ids| && plan.nodes[k].key == key
    ensures key in IdMap(plan.nodes, ids) && IdMap(plan.nodes, ids)[key] == ids[k]
    ensures ByKey(plan.nodes)[key] == plan.nodes[k]
  {
    k :| 0 <= k < |plan.nodes| && plan.nodes[k].key == key;
    IdOfNode(plan, ids, k);
  }

  /** Replacing keys by ids is exact: an id edge stands for exactly one key edge. */
  lemma SpecEdgesAreKeyEdges(before: Db, plan: ResolvedPlan, ids: seq<int>, i: nat, j: nat)
    requires Sound(plan) && FreshIds(before, plan, ids) && i < |ids| && j < |ids|
    ensures (ids[i], ids[j]) in SpecEdges(plan.nodes, ids) <==>
            (plan.nodes[i].key, plan.nodes[j].key) in KeyEdges(ByKey(plan.nodes))
  {
    var nodes, m := plan.nodes, IdMap(plan.nodes, ids);
    IdOfNode(plan, ids, i);
    IdOfNode(plan, ids, j);
    if (nodes[i].key, nodes[j].key) in KeyEdges(ByKey(nodes)) {
      assert nodes[j].key in nodes[i].deps;
      assert (ids[i], m[nodes[j].key]) in SpecEdges(nodes, ids);
    }
    if (ids[i], ids[j]) in SpecEdges(nodes, ids) {
      var a: nat, d :| a < |nodes| && d in nodes[a].deps && d in m && (ids[a], m[d]) == (ids[i], ids[j]);
      assert a == i;
      SoundParts(plan);
      var b := NodeOfId(plan, ids, d);
      assert ids[b] == ids[j];
      assert b == j;
    }
  }

  lemma SpecEdgeEnds(plan: ResolvedPlan, ids: seq<int>, c: int, p: int) returns (i: nat, j: nat)
    requires Sound(plan) && |ids| == |plan.nodes| && (c, p) in SpecEdges(plan.nodes, ids)
    ensures i < |ids| && j < |ids| && ids[i] == c && ids[j] == p
  {
    var m := IdMap(plan.nodes, ids);
    var a: nat, d :| a < |plan.nodes| && d in plan.nodes[a].deps && d in m && (ids[a], m[d]) == (c, p);
    SoundParts(plan);
    i := a;
    j := NodeOfId(plan, ids, d);
  }

  // ----- No cycle is ever met -----

  lemma AllEdgesAreAcyclic(before: Db, plan: ResolvedPlan, ids: seq<int>)
    requires Inv(before) && Sound(plan) && FreshIds(before, plan, ids)
    ensures Graph.Acyclic(before.deps + SpecEdges(plan.nodes, ids))
  {
    var nodes, f := plan.nodes, SpecEdges(plan.nodes, ids);
    var h := (x: int) => if x in ids then nodes[Graph.FirstIndex(ids, x)].key else 0;
    forall x, y | (x, y) in f
      ensures (h(x), h(y)) in KeyEdges(ByKey(nodes)) && x in ids && y in ids
    {
      var i, j := SpecEdgeEnds(plan, ids, x, y);
      assert Graph.FirstIndex(ids, x) == i && Graph.FirstIndex(ids, y) == j;
      SpecEdgesAreKeyEdges(before, plan, ids, i, j);
    }
    Graph.MappedIsAcyclic(f, KeyEdges(ByKey(nodes)), h);
    var added := set x | x in ids;
    forall x, y | (x, y) in before.deps
      ensures x !in added && y !in added
    {
      assert x in before.issues && y in before.issues;
    }
    Graph.ApartIsAcyclic(before.deps, f, added);
  }

  lemma EdgeIsAccepted(before: Db, db: Db, plan: ResolvedPlan, ids: seq<int>, c: int, p: int)
    requires Inv(before) && Inv(db) && Sound(plan) && FreshIds(before, plan, ids)
    requires before.deps <= db.deps <= before.deps + SpecEdges(plan.nodes, ids) && (c, p) in SpecEdges(plan.nodes, ids)
    ensures c != p && !Graph.Reach(db.deps, p, c)
  {
    var all := before.deps + SpecEdges(plan.nodes, ids);
    AllEdgesAreAcyclic(before, plan, ids);
    Graph.AcyclicMono(db.deps + {(c, p)}, all);
    Graph.AddEdge(db.deps, c, p);
    Graph.ReachSelf(db.deps, p);
  }

  // ----- Creating -----

  ghost predicate ProjectsKnown(db: Db, plan: ResolvedPlan, n: nat)
    requires n <= |plan.nodes|
  {
    forall k :: 0 <= k < n ==> ProjectFor(plan, plan.nodes[k]) in db.projects
  }

  lemma NodeIsWritten(before: Db, db: Db, cfg: Config, plan: ResolvedPlan, ids: seq<int>, actor: Actor, at: int, k: nat)
    requires FreshIds(before, plan, ids) && k < |ids| && NodesWritten(before, db, cfg, plan, ids, actor, at, k)
    requires ProjectFor(plan, plan.nodes[k]) in db.projects
    ensures ids[k] !in db.issues
    ensures var r := StoreSpec.Create(db, cfg, SpecFor(plan, plan.nodes[k], actor, at), ids[k], at);
            r.Ok? && NodesWritten(before, r.value, cfg, plan, ids, actor, at, k + 1) && r.value.deps == db.deps
  {
    assert ids[k] !in ids[..k];
    var next := StoreSpec.Create(db, cfg, SpecFor(plan, plan.nodes[k], actor, at), ids[k], at).value;
    assert ids[..k + 1] == ids[..k] + [ids[k]];
    forall j | 0 <= j < k + 1
      ensures NodeWritten(next, cfg, plan, ids, actor, at, j)
    {
      assert j < k ==> NodeWritten(db, cfg, plan, ids, actor, at, j);
    }
  }

  /**
   Writing stopped at node `k`, the first whose project does not exist: the nodes before it are in the store, without
   edges.
   */
  ghost predicate StoppedAt(
    before: Db, db: Db, cfg: Config, plan: ResolvedPlan, ids: seq<int>, actor: Actor, at: int, slug: int, k: nat)
    requires |ids| == |plan.nodes|
  {
    && k < |ids| && ProjectsKnown(before, plan, k)
    && ProjectFor(plan, plan.nodes[k]) == slug && slug !in before.projects
    && NodesWritten(before, db, cfg, plan, ids, actor, at, k) && db.deps == before.deps
  }

  /** Stops at the first node whose project does not exist. */
  method CreateNodes(
    store: Store.Inner, plan: ResolvedPlan, at: int, actor: Actor, minted: seq<int>)
    returns (r: Result<(), Error>)
    requires store.Valid() && FreshIds(store.db, plan, minted)
    modifies store, store.engine
    ensures store.Valid()
    ensures r.Ok? <==> ProjectsKnown(old(store.db), plan, |minted|)
    ensures r.Ok? ==> NodesWritten(old(store.db), store.db, store.cfg, plan, minted, actor, at, |minted|)
                      && store.db.deps == old(store.db).deps
    ensures r.Err? ==>
              r.error.NoProject? && exists k: nat ::
                StoppedAt(old(store.db), store.db, store.cfg, plan, minted, actor, at, r.error.slug, k)
  {
    ghost var before := store.db;
    for k := 0 to |minted|
      invariant store.Valid() && store.db.deps == before.deps
      invariant NodesWritten(before, store.db, store.cfg, plan, minted, actor, at, k)
      invariant ProjectsKnown(before, plan, k)
    {
      if ProjectFor(plan, plan.nodes[k]) in store.db.projects {
        NodeIsWritten(before, store.db, store.cfg, plan, minted, actor, at, k);
      } else {
        assert minted[k] !in minted[..k];
      }
      var id := store.Create(SpecFor(plan, plan.nodes[k], actor, at), minted[k], at);
      if id.Err? {
        assert StoppedAt(before, store.db, store.cfg, plan, minted, actor, at, id.error.slug, k);
        return Err(id.error);
      }
    }
    return Ok(());
  }

  lemma TouchedNode(
    before: Db, db: Db, next: Db, cfg: Config, plan: ResolvedPlan, ids: seq<int>, actor: Actor, at: int, i: nat)
    requires FreshIds(before, plan, ids) && i < |ids|
    requires NodesWritten(before, db, cfg, plan, ids, actor, at, |ids|)
    requires next.projects == db.projects && next.folders == db.folders && next.filed == db.filed
    requires ids[i] in db.issues && next.issues == db.issues[ids[i] := db.issues[ids[i]].(updatedAt := at)]
    ensures NodesWritten(before, next, cfg, plan, ids, actor, at, |ids|)
  {
    forall k | 0 <= k < |ids|
      ensures NodeWritten(next, cfg, plan, ids, actor, at, k)
    {
      assert NodeWritten(db, cfg, plan, ids, actor, at, k);
    }
  }

  lemma EdgeIsWritten(
    before: Db, db: Db, cfg: Config, plan: ResolvedPlan, ids: seq<int>, actor: Actor, at: int, c: int, p: int)
    requires Inv(before) && Inv(db) && Sound(plan) && FreshIds(before, plan, ids)
    requires NodesWritten(before, db, cfg, plan, ids, actor, at, |ids|)
    requires before.deps <= db.deps <= before.deps + SpecEdges(plan.nodes, ids) && (c, p) in SpecEdges(plan.nodes, ids)
    ensures var r := StoreSpec.AddDep(db, c, p, actor, at);
            r.Ok? && NodesWritten(before, r.value, cfg, plan, ids, actor, at, |ids|)
            && r.value.deps == db.deps + {(c, p)}
  {
    EdgeIsAccepted(before, db, plan, ids, c, p);
    var i, j := SpecEdgeEnds(plan, ids, c, p);
    assert NodeWritten(db, cfg, plan, ids, actor, at, i) && NodeWritten(db, cfg, plan, ids, actor, at, j);
    AddDepEffect(db, c, p, actor, at);
    var next := StoreSpec.AddDep(db, c, p, actor, at).value;
    if next.issues == db.issues {
      forall k | 0 <= k < |ids|
        ensures NodeWritten(next, cfg, plan, ids, actor, at, k)
      {
        assert NodeWritten(db, cfg, plan, ids, actor, at, k);
      }
    } else {
      TouchedNode(before, db, next, cfg, plan, ids, actor, at, i);
    }
  }

  /** The first `n` dependencies of node `i` are stored. */
  ghost predicate DepsOf(db: Db, plan: ResolvedPlan, ids: seq<int>, i: nat, n: nat)
    requires |ids| == |plan.nodes| && i < |ids| && n <= |plan.nodes[i].deps|
  {
    var idOf := IdMap(plan.nodes, ids);
    forall j :: 0 <= j < n && plan.nodes[i].deps[j] in idOf ==> (ids[i], idOf[plan.nodes[i].deps[j]]) in db.deps
  }

  ghost predicate AllDepsOf(db: Db, plan: ResolvedPlan, ids: seq<int>, i: nat)
    requires |ids| == |plan.nodes| && i < |ids|
  {
    DepsOf(db, plan, ids, i, |plan.nodes[i].deps|)
  }

  /** While edges are added: every node is there, and the edges so far are some of the spec's. */
  ghost predicate Wiring(before: Db, db: Db, cfg: Config, plan: ResolvedPlan, ids: seq<int>, actor: Actor, at: int) {
    && FreshIds(before, plan, ids)
    && NodesWritten(before, db, cfg, plan, ids, actor, at, |ids|)
    && before.deps <= db.deps <= before.deps + SpecEdges(plan.nodes, ids)
  }

  lemma WireStep(
    before: Db, db: Db, cfg: Config, plan: ResolvedPlan, ids: seq<int>, actor: Actor, at: int, i: nat, j: nat)
    requires Inv(before) && Inv(db) && Sound(plan) && Wiring(before, db, cfg, plan, ids, actor, at)
    requires i < |plan.nodes| && j < |plan.nodes[i].deps| && DepsOf(db, plan, ids, i, j)
    ensures plan.nodes[i].deps[j] in IdMap(plan.nodes, ids)
    ensures var r := StoreSpec.AddDep(db, ids[i], IdMap(plan.nodes, ids)[plan.nodes[i].deps[j]], actor, at);
            && r.Ok?
            && Wiring(before, r.value, cfg, plan, ids, actor, at)
            && DepsOf(r.value, plan, ids, i, j + 1)
            && db.deps <= r.value.deps
  {
    var d := plan.nodes[i].deps[j];
    SoundParts(plan);
    var known := NodeOfId(plan, ids, d);
    var p := IdMap(plan.nodes, ids)[d];
    assert (ids[i], p) in SpecEdges(plan.nodes, ids);
    EdgeIsWritten(before, db, cfg, plan, ids, actor, at, ids[i], p);
  }

  ghost predicate WiredTo(db: Db, plan: ResolvedPlan, ids: seq<int>, n: nat)
    requires |ids| == |plan.nodes| && n <= |ids|
  {
    forall k: nat :: k < n ==> AllDepsOf(db, plan, ids, k)
  }

  lemma MoreIsWired(db: Db, next: Db, plan: ResolvedPlan, ids: seq<int>, n: nat)
    requires |ids| == |plan.nodes| && n < |ids| && db.deps <= next.deps
    requires WiredTo(db, plan, ids, n) && AllDepsOf(next, plan, ids, n)
    ensures WiredTo(next, plan, ids, n + 1)
  {
    forall k: nat | k < n
      ensures AllDepsOf(next, plan, ids, k)
    {
      assert AllDepsOf(db, plan, ids, k);
    }
  }

  method WireNode(
    store: Store.Inner, plan: ResolvedPlan, at: int, actor: Actor, ids: seq<int>, idOf: map<int, int>, i: nat,
    ghost before: Db)
    returns (r: Result<(), Error>)
    requires store.Valid() && Inv(before) && Sound(plan) && i < |plan.nodes|
    requires Wiring(before, store.db, store.cfg, plan, ids, actor, at) && idOf == IdMap(plan.nodes, ids)
    modifies store, store.engine
    ensures store.Valid() && r.Ok? && Wiring(before, store.db, store.cfg, plan, ids, actor, at)
    ensures WiredTo(old(store.db), plan, ids, i) ==> WiredTo(store.db, plan, ids, i + 1)
  {
    var deps := plan.nodes[i].deps;
    for j := 0 to |deps|
      invariant store.Valid() && Wiring(before, store.db, store.cfg, plan, ids, actor, at)
      invariant DepsOf(store.db, plan, ids, i, j) && old(store.db).deps <= store.db.deps
    {
      WireStep(before, store.db, store.cfg, plan, ids, actor, at, i, j);
      ghost var after := StoreSpec.AddDep(store.db, ids[i], idOf[deps[j]], actor, at);
      var added := store.AddDep(ids[i], idOf[deps[j]], actor, at);
      if added.Err? {
        return added;
      }
      assert store.db == after.value;
    }
    if WiredTo(old(store.db), plan, ids, i) {
      MoreIsWired(old(store.db), store.db, plan, ids, i);
    }
    return Ok(());
  }

  method CreateEdges(
    store: Store.Inner, plan: ResolvedPlan, at: int, actor: Actor, ids: seq<int>, ghost before: Db)
    returns (r: Result<(), Error>)
    requires store.Valid() && Inv(before) && Sound(plan)
    requires Wiring(before, store.db, store.cfg, plan, ids, actor, at)
    modifies store, store.engine
    ensures store.Valid() && r.Ok?
    ensures Written(before, store.db, store.cfg, plan, ids, actor, at)
  {
    var idOf := IdMap(plan.nodes, ids);
    for i := 0 to |plan.nodes|
      invariant store.Valid() && Wiring(before, store.db, store.cfg, plan, ids, actor, at)
      invariant WiredTo(store.db, plan, ids, i)
    {
      var wired := WireNode(store, plan, at, actor, ids, idOf, i, before);
      if wired.Err? {
        return wired;
      }
    }
    AllIsWired(before, store.db, store.cfg, plan, ids, actor, at);
    return Ok(());
  }

  lemma AllIsWired(before: Db, db: Db, cfg: Config, plan: ResolvedPlan, ids: seq<int>, actor: Actor, at: int)
    requires Wiring(before, db, cfg, plan, ids, actor, at)
    requires WiredTo(db, plan, ids, |ids|)
    ensures Written(before, db, cfg, plan, ids, actor, at)
  {
    var idOf := IdMap(plan.nodes, ids);
    forall c, p | (c, p) in SpecEdges(plan.nodes, ids)
      ensures (c, p) in db.deps
    {
      var a: nat, d :| a < |plan.nodes| && d in plan.nodes[a].deps && d in idOf && (ids[a], idOf[d]) == (c, p);
      assert AllDepsOf(db, plan, ids, a);
    }
  }

  /**
   Refuses an unsound plan, a name already in use and an unknown project, and nothing else: no
   dependency of a validated plan is ever refused. Only an unknown project leaves part of a plan behind,
   exactly the nodes before the first that names one.
   */
  method Create(
    store: Store.Inner, plan: ResolvedPlan, at: int, actor: Actor, minted: seq<int>)
    returns (r: Result<seq<int>, CreateError>)
    requires store.Valid() && FreshIds(store.db, plan, minted)
    modifies store, store.engine
    ensures store.Valid()
    ensures r.Ok? <==> Sound(plan) && NoPlan(old(store.db), plan.name)
                       && ProjectsKnown(old(store.db), plan, |plan.nodes|)
    ensures r.Ok? ==> r.value == minted && Written(old(store.db), store.db, store.cfg, plan, minted, actor, at)
    ensures r.Ok? ==> forall k: nat :: k < |minted| ==> NodeAsAsked(store.db, plan, minted, at, k)
    ensures r.Err? && r.error.Invalid? ==> !Sound(plan) && store.db == old(store.db)
    ensures r.Err? && r.error.Exists? ==> Sound(plan) && !NoPlan(store.db, plan.name) && store.db == old(store.db)
    ensures r.Err? && r.error.Refused? ==> Sound(plan) && NoPlan(old(store.db), plan.name) && r.error.error.NoProject?
                                           && exists k: nat ::
                                             StoppedAt(old(store.db), store.db, store.cfg, plan, minted, actor, at,
                                                       r.error.error.slug, k)
  {
    var problems := Validate(plan);
    if problems != [] {
      return Err(Invalid(problems));
    }
    var existing := CountMembers(store, plan.name);
    if existing > 0 {
      return Err(Exists(existing));
    }
    ghost var before := store.db;
    var nodes := CreateNodes(store, plan, at, actor, minted);
    if nodes.Err? {
      return Err(Refused(nodes.error));
    }
    var edges := CreateEdges(store, plan, at, actor, minted, before);
    WrittenAsAsked(before, store.db, store.cfg, plan, minted, actor, at);
    return Ok(minted);
  }

  method CountMembers(store: Store.Inner, name: int) returns (n: nat)
    requires store.Valid()
    ensures n == 0 <==> NoPlan(store.db, name)
  {
    var all := store.List(None, true, None);
    n := CountIn(all, name);
    ListedMembers(store.db, all, name);
  }

  ghost predicate NoMember(all: seq<Issue>, name: int) {
    forall k :: 0 <= k < |all| ==> !Member(all[k], name)
  }

  method CountIn(all: seq<Issue>, name: int) returns (n: nat)
    ensures n == 0 <==> NoMember(all, name)
  {
    n := 0;
    for k := 0 to |all|
      invariant n == 0 <==> forall j :: 0 <= j < k ==> !Member(all[j], name)
    {
      if Member(all[k], name) {
        n := n + 1;
      }
    }
  }

  lemma ListedMembers(db: Db, all: seq<Issue>, name: int)
    requires IsListing(db, WantedSet(db, None, true, None), all)
    ensures NoPlan(db, name) <==> NoMember(all, name)
  {
    if k :| 0 <= k < |all| && Member(all[k], name) {
      assert all[k] in all;
      assert Member(db.issues[all[k].id], name);
    }
    if id :| id in db.issues && Member(db.issues[id], name) {
      assert id in WantedSet(db, None, true, None);
      var k :| 0 <= k < |all| && all[k] == View(db, id);
    }
  }

  // ----- The round trip -----

  /** A sound plan has nodes, so once created it can be loaded. */
  lemma CreatedIsThere(before: Db, db: Db, cfg: Config, plan: ResolvedPlan, ids: seq<int>, actor: Actor, at: int)
    requires Sound(plan) && Written(before, db, cfg, plan, ids, actor, at)
    ensures !NoPlan(db, plan.name)
  {
    SoundParts(plan);
    assert NodeWritten(db, cfg, plan, ids, actor, at, 0);
    assert Member(db.issues[ids[0]], plan.name);
  }

  /**
   Creating, loading and showing in one go: whenever `create` succeeds `load` does, and the view holds the
   spec's own graph, a node for every key and an edge for every dependency.
   */
  method CreateThenShow(store: Store.Inner, plan: ResolvedPlan, at: int, actor: Actor, minted: seq<int>)
    returns (created: bool, g: PlanFrontier.Plan, edges: seq<(int, int)>)
    requires store.Valid() && FreshIds(store.db, plan, minted)
    modifies store, store.engine
    ensures store.Valid()
    ensures created <==>
            Sound(plan) && NoPlan(old(store.db), plan.name) && ProjectsKnown(old(store.db), plan, |plan.nodes|)
    ensures created ==> IsLoaded(store.db, plan.name, g) && |g.nodes| == |plan.nodes|
    ensures created ==> forall k: nat :: k < |minted| ==> NodeAsAsked(store.db, plan, minted, at, k)
    ensures created ==> forall k: nat :: k < |minted| ==> NodeShown(store.db, plan, minted, g, k)
    ensures created ==> forall c, p :: (c, p) in edges ==> c in minted && p in minted
    ensures created ==> forall i: nat, j: nat :: i < |minted| && j < |minted| ==>
                                                   ((minted[i], minted[j]) in edges <==>
                                                    (plan.nodes[i].key, plan.nodes[j].key) in KeyEdges(ByKey(plan.nodes)))
  {
    g, edges := PlanFrontier.Plan([], map[]), [];
    ghost var before := store.db;
    var written := Create(store, plan, at, actor, minted);
    created := written.Ok?;
    if created {
      CreatedIsThere(before, store.db, store.cfg, plan, minted, actor, at);
      var loaded := Load(store, plan.name);
      g := loaded.value;
      LoadedIsAcyclic(store.db, g, plan.name);
      var shown := Show(g);
      edges := shown.value.1;
      NodesRoundTrip(before, store.db, store.cfg, plan, minted, actor, at, g);
      EdgesRoundTrip(before, store.db, store.cfg, plan, minted, actor, at, g);
    }
  }

  /** The loaded plan has one node per spec node, carrying its key, and no other. */
  lemma NodesRoundTrip(
    before: Db, db: Db, cfg: Config, plan: ResolvedPlan, ids: seq<int>, actor: Actor, at: int, g: PlanFrontier.Plan)
    requires Inv(before) && Inv(db) && NoPlan(before, plan.name)
    requires Written(before, db, cfg, plan, ids, actor, at) && IsLoaded(db, plan.name, g)
    ensures forall i :: i in g.nodes ==> i.id in ids
    ensures forall k: nat :: k < |ids| ==> NodeShown(db, plan, ids, g, k)
    ensures |g.nodes| == |plan.nodes|
  {
    forall i | i in g.nodes
      ensures i.id in ids
    {
      assert ids[..|ids|] == ids;
      assert !Member(i, plan.name) || i.id !in before.issues;
    }
    forall k: nat | k < |ids|
      ensures NodeShown(db, plan, ids, g, k)
    {
      assert NodeWritten(db, cfg, plan, ids, actor, at, k);
    }
    var shown: seq<int> := seq(|g.nodes|, i requires 0 <= i < |g.nodes| => g.nodes[i].id);
    assert forall i :: 0 <= i < |shown| ==> g.nodes[i] in g.nodes;
    forall x
      ensures x in shown <==> x in ids
    {
      if x in ids {
        var k: nat :| k < |ids| && ids[k] == x;
        assert NodeShown(db, plan, ids, g, k);
        var i :| 0 <= i < |g.nodes| && g.nodes[i] == View(db, x);
        assert shown[i] == View(db, x).id;
      }
    }
    SameLength(shown, ids);
  }

  ghost predicate NodeShown(db: Db, plan: ResolvedPlan, ids: seq<int>, g: PlanFrontier.Plan, k: nat)
    requires |ids| == |plan.nodes| && k < |ids|
  {
    && ids[k] in db.issues && View(db, ids[k]) in g.nodes
    && db.issues[ids[k]].id == ids[k] && db.issues[ids[k]].metadata.plan == Some(plan.name)
    && db.issues[ids[k]].metadata.key == Some(plan.nodes[k].key)
    && db.issues[ids[k]].metadata.group == plan.nodes[k].group
  }

  /** No frontier of a created plan offers two nodes the spec put in one group. */
  lemma CreatedGroupsTakeTurns(
    before: Db, db: Db, cfg: Config, plan: ResolvedPlan, ids: seq<int>, actor: Actor, at: int, g: PlanFrontier.Plan,
    now: int, k: nat, l: nat, i: nat, j: nat)
    requires Inv(before) && Inv(db) && NoPlan(before, plan.name) && k < l < |plan.nodes|
    requires Written(before, db, cfg, plan, ids, actor, at) && IsLoaded(db, plan.name, g)
    requires plan.nodes[k].group.Some? && plan.nodes[k].group == plan.nodes[l].group
    requires i < |g.nodes| && g.nodes[i].id == ids[k] && j < |g.nodes| && g.nodes[j].id == ids[l]
    ensures !(PlanFrontier.Offered(g, i, now) && PlanFrontier.Offered(g, j, now))
  {
    WrittenAsAsked(before, db, cfg, plan, ids, actor, at);
    assert NodeAsAsked(db, plan, ids, at, k) && NodeAsAsked(db, plan, ids, at, l);
    assert g.nodes[i] in g.nodes && g.nodes[j] in g.nodes;
    PlanFrontier.OneOfGroup(g, now, i, j);
  }

  lemma {:induction false} SetOfDistinct(s: seq<int>)
    requires forall i, j :: 0 <= i < j < |s| ==> s[i] != s[j]
    ensures |set x | x in s| == |s|
  {
    if s != [] {
      SetOfDistinct(s[1..]);
      assert (set x | x in s) == {s[0]} + (set x | x in s[1..]);
    }
  }

  lemma SameLength(a: seq<int>, b: seq<int>)
    requires forall i, j :: 0 <= i < j < |a| ==> a[i] != a[j]
    requires forall i, j :: 0 <= i < j < |b| ==> b[i] != b[j]
    requires forall x :: x in a <==> x in b
    ensures |a| == |b|
  {
    SetOfDistinct(a);
    SetOfDistinct(b);
    assert (set x | x in a) == (set x | x in b);
  }

  /** And its edges are the spec's edges: nothing lost, nothing added. */
  lemma EdgesRoundTrip(
    before: Db, db: Db, cfg: Config, plan: ResolvedPlan, ids: seq<int>, actor: Actor, at: int, g: PlanFrontier.Plan)
    requires Inv(before) && Inv(db) && NoPlan(before, plan.name) && Sound(plan)
    requires Written(before, db, cfg, plan, ids, actor, at) && IsLoaded(db, plan.name, g)
    ensures forall c, p :: (c, p) in ViewEdges(g.nodes) ==> c in ids && p in ids
    ensures forall i: nat, j: nat :: i < |ids| && j < |ids| ==>
                                       ((ids[i], ids[j]) in ViewEdges(g.nodes) <==>
                                        (plan.nodes[i].key, plan.nodes[j].key) in KeyEdges(ByKey(plan.nodes)))
  {
    NodesRoundTrip(before, db, cfg, plan, ids, actor, at, g);
    forall c, p | (c, p) in ViewEdges(g.nodes)
      ensures c in ids && p in ids
    {
      ViewEdge(g.nodes, c, p);
      var i: nat :| EdgeAt(g.nodes, i, c, p);
      assert g.nodes[i] in g.nodes && g.nodes[Index(g.nodes)[p]] in g.nodes;
    }
    forall i: nat, j: nat | i < |ids| && j < |ids|
      ensures (ids[i], ids[j]) in ViewEdges(g.nodes) <==>
              (plan.nodes[i].key, plan.nodes[j].key) in KeyEdges(ByKey(plan.nodes))
    {
      StoredEdgeIsShown(before, db, cfg, plan, ids, actor, at, g, i, j);
      SpecEdgesAreKeyEdges(before, plan, ids, i, j);
    }
  }

  lemma StoredEdgeIsShown(
    before: Db, db: Db, cfg: Config, plan: ResolvedPlan, ids: seq<int>, actor: Actor, at: int, g: PlanFrontier.Plan,
    i: nat, j: nat)
    requires Inv(before) && Inv(db) && Written(before, db, cfg, plan, ids, actor, at) && IsLoaded(db, plan.name, g)
    requires i < |ids| && j < |ids|
    ensures (ids[i], ids[j]) in ViewEdges(g.nodes) <==> (ids[i], ids[j]) in SpecEdges(plan.nodes, ids)
  {
    assert NodeWritten(db, cfg, plan, ids, actor, at, i) && NodeWritten(db, cfg, plan, ids, actor, at, j);
    if (ids[i], ids[j]) in ViewEdges(g.nodes) {
      ShownIsStored(db, plan.name, g, ids[i], ids[j]);
    }
    if (ids[i], ids[j]) in db.deps {
      StoredIsShown(db, plan.name, g, ids[i], ids[j]);
    }
    assert (ids[i], ids[j]) !in before.deps;
  }

  lemma ShownIsStored(db: Db, name: int, g: PlanFrontier.Plan, c: int, p: int)
    requires IsLoaded(db, name, g) && (c, p) in ViewEdges(g.nodes)
    ensures (c, p) in db.deps
  {
    ViewEdge(g.nodes, c, p);
    var m: nat :| EdgeAt(g.nodes, m, c, p);
    var i := g.nodes[m];
    assert i in g.nodes;
    assert i == View(db, c);
  }

  lemma StoredIsShown(db: Db, name: int, g: PlanFrontier.Plan, c: int, p: int)
    requires Inv(db) && IsLoaded(db, name, g) && (c, p) in db.deps
    requires Member(db.issues[c], name) && Member(db.issues[p], name)
    ensures (c, p) in ViewEdges(g.nodes)
  {
    var k := NodeOf(db, name, g, c);
    var l := NodeOf(db, name, g, p);
    NodeIsIndexed(g.nodes, l);
    assert EdgeAt(g.nodes, k, c, p);
    ViewEdge(g.nodes, c, p);
  }

  lemma NodeOf(db: Db, name: int, g: PlanFrontier.Plan, id: int) returns (k: nat)
    requires Inv(db) && IsLoaded(db, name, g) && id in db.issues && Member(db.issues[id], name)
    ensures k < |g.nodes| && g.nodes[k].id == id
    ensures forall p :: p in DepIds(g.nodes[k].dependencies) <==> (id, p) in db.deps
  {
    assert RowOk(db.issues[id], id);
    k :| 0 <= k < |g.nodes| && g.nodes[k] == View(db, id);
  }

  lemma NodeIsIndexed(nodes: seq<Issue>, l: nat)
    requires l < |nodes|
    ensures nodes[l].id in Index(nodes)
  {
  }
}
