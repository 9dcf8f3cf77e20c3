/**
 An executor working through a plan in the store itself (src/plan.rs, src/adapter.rs): load, take the whole
 frontier, close its issues with evidence, load again.
 */
module PlanExecution {
  import opened Wrappers
  import opened Domain
  import opened StoreSpec
  import opened StoreInvariant
  import opened PlanTopo
  import opened PlanFrontier
  import opened PlanStore
  import opened PlanRuns
  import Ordered

  ghost predicate IsMember(db: Db, name: int, id: int) {
    id in db.issues && Member(db.issues[id], name)
  }

  /** The issue is open or closed, free to take, and waits only for the plan's own issues or for closed ones. */
  ghost predicate MemberQuiet(db: Db, name: int, now: int, id: int)
    requires id in db.issues
  {
    && Idle(db.issues[id], now)
    && forall p :: (id, p) in db.deps ==> IsMember(db, name, p) || (p in db.issues && db.issues[p].status == Closed)
  }

  ghost predicate StoreQuiet(db: Db, name: int, now: int) {
    Inv(db) && forall id {:trigger MemberQuiet(db, name, now, id)} :: IsMember(db, name, id) ==>
                                                                        MemberQuiet(db, name, now, id)
  }

  /** What is left to do. */
  ghost function Left(db: Db, name: int): set<int> {
    set id | id in db.issues && Member(db.issues[id], name) && db.issues[id].status != Closed
  }

  // ----- The loaded plan of a quiet store is quiet -----

  lemma NodeIsQuiet(db: Db, name: int, now: int, g: Plan, i: nat)
    requires StoreQuiet(db, name, now) && IsLoaded(db, name, g) && i < |g.nodes|
    ensures QuietAt(g, i, now)
  {
    var n := g.nodes[i];
    assert n in g.nodes && n == View(db, n.id);
    assert IsMember(db, name, n.id) && MemberQuiet(db, name, now, n.id);
    forall d | d in DepIds(n.dependencies)
      ensures Has(g, d) || StatusIn(g, d) == Closed
    {
      assert (n.id, d) in db.deps;
      if IsMember(db, name, d) {
        IdIsKey(db, d);
        var k :| 0 <= k < |g.nodes| && g.nodes[k] == View(db, d);
      }
    }
  }

  lemma LoadedIsQuiet(db: Db, name: int, now: int, g: Plan)
    requires StoreQuiet(db, name, now) && IsLoaded(db, name, g)
    ensures Quiet(g, now)
  {
    ApartMeansUnique(g);
    LoadedIsAcyclic(db, g, name);
    forall i: nat | i < |g.nodes|
      ensures QuietAt(g, i, now)
    {
      NodeIsQuiet(db, name, now, g, i);
    }
  }

  lemma LeftIsUndone(db: Db, name: int, g: Plan)
    requires Inv(db) && IsLoaded(db, name, g)
    ensures Left(db, name) != {} ==> Undone(g) != {}
    ensures forall i: nat :: i in Undone(g) ==> g.nodes[i].id in Left(db, name)
  {
    forall i: nat | i in Undone(g)
      ensures g.nodes[i].id in Left(db, name)
    {
      assert g.nodes[i] in g.nodes;
    }
    forall id | id in Left(db, name)
      ensures Undone(g) != {}
    {
      IdIsKey(db, id);
      var k: nat :| k < |g.nodes| && g.nodes[k] == View(db, id);
      assert k in Undone(g);
    }
  }

  // ----- Closing a frontier -----

  /** One accepted `close` after another; a refused one changes nothing. */
  function CloseEach(db: Db, ids: seq<int>, evidence: seq<int>, actor: Actor, at: int): Db {
    if ids == [] then db
    else
      var before := CloseEach(db, ids[..|ids| - 1], evidence, actor, at);
      match CloseUnchecked(before, ids[|ids| - 1], evidence, actor, at)
      case Ok(closed) => closed
      case Err(_) => before
  }

  /** A row once closed: out of the claim race, everything a plan looks at unchanged. */
  ghost predicate ClosedVersion(i: Issue, c: Issue) {
    && c.status == Closed && c.assignee == None
    && c.metadata == i.metadata && c.availableAt == i.availableAt
  }

  /** `m` is `db` with exactly the issues in `ids` closed. */
  ghost predicate ClosedIn(db: Db, m: Db, ids: seq<int>) {
    && Inv(m) && m.issues.Keys == db.issues.Keys && m.deps == db.deps
    && forall id :: id in db.issues ==>
                      if id in ids then ClosedVersion(db.issues[id], m.issues[id]) else m.issues[id] == db.issues[id]
  }

  lemma CloseOneMore(db: Db, m: Db, ids: seq<int>, id: int, evidence: seq<int>, actor: Actor, at: int)
    requires ClosedIn(db, m, ids) && id in db.issues
    ensures var r := CloseUnchecked(m, id, evidence, actor, at);
            r.Ok? && ClosedIn(db, r.value, ids + [id])
  {
    CloseKeeps(m, id, evidence, actor, at);
    IdIsKey(m, id);
  }

  lemma {:induction false} CloseEachCloses(db: Db, ids: seq<int>, evidence: seq<int>, actor: Actor, at: int)
    requires Inv(db) && forall id :: id in ids ==> id in db.issues
    ensures ClosedIn(db, CloseEach(db, ids, evidence, actor, at), ids)
  {
    if ids != [] {
      var last := |ids| - 1;
      assert ids == ids[..last] + [ids[last]];
      CloseEachCloses(db, ids[..last], evidence, actor, at);
      CloseOneMore(db, CloseEach(db, ids[..last], evidence, actor, at), ids[..last], ids[last], evidence, actor, at);
    }
  }

  /**
   An issue the frontier offers has every dependency closed, so `close` lets it through then and later in the round.
   */
  lemma OfferedMayClose(db: Db, name: int, now: int, g: Plan, i: nat, m: Db, ids: seq<int>, evidence: seq<int>)
    requires Inv(db) && IsLoaded(db, name, g) && Offered(g, i, now) && ClosedIn(db, m, ids) && evidence != []
    ensures MayClose(m, g.nodes[i].id, evidence)
  {
    EligibleIsReady(db, name, g, i, now);
    assert g.nodes[i] in g.nodes;
  }

  lemma ClosingKeepsQuiet(db: Db, name: int, now: int, m: Db, ids: seq<int>, later: int)
    requires StoreQuiet(db, name, now) && ClosedIn(db, m, ids) && now <= later
    ensures StoreQuiet(m, name, later)
  {
    forall id | IsMember(m, name, id)
      ensures MemberQuiet(m, name, later, id)
    {
      assert IsMember(db, name, id) && MemberQuiet(db, name, now, id);
      forall p | (id, p) in m.deps
        ensures IsMember(m, name, p) || (p in m.issues && m.issues[p].status == Closed)
      {
        assert p in db.issues;
      }
    }
  }

  lemma ClosingShrinksLeft(db: Db, name: int, m: Db, ids: seq<int>, id: int)
    requires ClosedIn(db, m, ids)
    ensures Left(m, name) <= Left(db, name)
    ensures id in ids && id in Left(db, name) ==> |Left(m, name)| < |Left(db, name)|
  {
    forall x | x in Left(m, name)
      ensures x in Left(db, name) && x !in ids
    {
      assert x in db.issues;
      assert x in ids ==> ClosedVersion(db.issues[x], m.issues[x]);
    }
    if id in ids && id in Left(db, name) {
      assert Left(m, name) <= Left(db, name) - {id};
      Ordered.SubsetSize(Left(m, name), Left(db, name) - {id});
    }
  }

  // ----- Rounds -----

  ghost function IdsAt(g: Plan, done: seq<nat>): (ids: seq<int>)
    requires InPlanRange(g, done)
    ensures |ids| == |done| && forall k :: 0 <= k < |done| ==> ids[k] == g.nodes[done[k]].id
  {
    if done == [] then [] else IdsAt(g, done[..|done| - 1]) + [g.nodes[done[|done| - 1]].id]
  }

  /** One round: the plan is loaded, the frontier at `now` taken whole, and its issues closed one by one. */
  datatype Turn = Turn(g: Plan, now: int, done: seq<nat>)

  ghost predicate StoreRound(db: Db, next: Db, name: int, t: Turn, evidence: seq<int>, actor: Actor) {
    && IsLoaded(db, name, t.g) && InPlanRange(t.g, t.done) && IsFrontier(t.g, t.now, Elems(t.done))
    && next == CloseEach(db, IdsAt(t.g, t.done), evidence, actor, t.now)
  }

  lemma IdsAreLive(db: Db, name: int, g: Plan, done: seq<nat>)
    requires IsLoaded(db, name, g) && InPlanRange(g, done)
    ensures forall id :: id in IdsAt(g, done) ==> id in db.issues
  {
    var ids := IdsAt(g, done);
    forall id | id in ids
      ensures id in db.issues
    {
      var k :| 0 <= k < |ids| && ids[k] == id;
      assert g.nodes[done[k]] in g.nodes;
    }
  }

  /** No close of a round is refused. */
  lemma NothingIsRefused(db: Db, next: Db, name: int, t: Turn, evidence: seq<int>, actor: Actor, k: nat)
    requires Inv(db) && StoreRound(db, next, name, t, evidence, actor) && evidence != [] && k < |t.done|
    ensures var ids := IdsAt(t.g, t.done);
            MayClose(CloseEach(db, ids[..k], evidence, actor, t.now), ids[k], evidence)
  {
    var ids := IdsAt(t.g, t.done);
    IdsAreLive(db, name, t.g, t.done);
    assert forall id :: id in ids[..k] ==> id in ids;
    CloseEachCloses(db, ids[..k], evidence, actor, t.now);
    assert t.done[k] in Elems(t.done);
    OfferedMayClose(db, name, t.now, t.g, t.done[k], CloseEach(db, ids[..k], evidence, actor, t.now), ids[..k],
                    evidence);
  }

  /** A round leaves a quiet store with strictly less to do. */
  lemma RoundAdvances(db: Db, next: Db, name: int, t: Turn, evidence: seq<int>, actor: Actor, later: int)
    requires StoreQuiet(db, name, t.now) && StoreRound(db, next, name, t, evidence, actor) && t.now <= later
    ensures StoreQuiet(next, name, later)
    ensures |Left(next, name)| <= Minus(|Left(db, name)|, 1)
  {
    var ids := IdsAt(t.g, t.done);
    IdsAreLive(db, name, t.g, t.done);
    CloseEachCloses(db, ids, evidence, actor, t.now);
    ClosingKeepsQuiet(db, name, t.now, next, ids, later);
    ClosingShrinksLeft(db, name, next, ids, 0);
    Ordered.SubsetSize(Left(next, name), Left(db, name));
    if Left(db, name) != {} {
      var id := SomethingCloses(db, name, t);
      ClosingShrinksLeft(db, name, next, ids, id);
    }
  }

  lemma SomethingCloses(db: Db, name: int, t: Turn) returns (id: int)
    requires StoreQuiet(db, name, t.now) && IsLoaded(db, name, t.g) && InPlanRange(t.g, t.done)
    requires IsFrontier(t.g, t.now, Elems(t.done)) && Left(db, name) != {}
    ensures id in IdsAt(t.g, t.done) && id in Left(db, name)
  {
    LoadedIsQuiet(db, name, t.now, t.g);
    LeftIsUndone(db, name, t.g);
    var i := OneIsClosed(t.g, t.now, t.done);
    var k :| 0 <= k < |t.done| && t.done[k] == i;
    id := t.g.nodes[i].id;
    assert IdsAt(t.g, t.done)[k] == id;
  }

  ghost predicate IsExecution(run: seq<Db>, name: int, turns: seq<Turn>, evidence: seq<int>, actor: Actor) {
    && |run| == |turns| + 1
    && (forall k, l :: 0 <= k <= l < |turns| ==> turns[k].now <= turns[l].now)
    && forall k: nat :: k < |turns| ==> TurnAt(run, name, turns, evidence, actor, k)
  }

  ghost predicate TurnAt(run: seq<Db>, name: int, turns: seq<Turn>, evidence: seq<int>, actor: Actor, k: nat)
    requires k < |turns| && |run| == |turns| + 1
  {
    StoreRound(run[k], run[k + 1], name, turns[k], evidence, actor)
  }

  /** Before round `k` the store is quiet and at least `k` of its `n` issues left are closed. */
  ghost predicate Advancing(run: seq<Db>, name: int, turns: seq<Turn>, n: nat, k: nat) {
    && k < |run|
    && (k < |turns| ==> StoreQuiet(run[k], name, turns[k].now))
    && |Left(run[k], name)| <= Minus(n, k)
  }

  lemma NextAdvances(
    run: seq<Db>, name: int, turns: seq<Turn>, evidence: seq<int>, actor: Actor, n: nat, good: nat -> bool, k: nat)
    requires forall j: nat :: good(j) == Advancing(run, name, turns, n, j)
    requires IsExecution(run, name, turns, evidence, actor) && k < |turns| && good(k)
    ensures good(k + 1)
  {
    assert TurnAt(run, name, turns, evidence, actor, k);
    var later := if k + 1 < |turns| then turns[k + 1].now else turns[k].now;
    RoundAdvances(run[k], run[k + 1], name, turns[k], evidence, actor, later);
  }

  lemma EveryRoundAdvances(run: seq<Db>, name: int, turns: seq<Turn>, evidence: seq<int>, actor: Actor, k: nat)
    requires IsExecution(run, name, turns, evidence, actor) && turns != [] && k <= |turns|
    requires StoreQuiet(run[0], name, turns[0].now)
    ensures Advancing(run, name, turns, |Left(run[0], name)|, k)
  {
    var n := |Left(run[0], name)|;
    var good := (j: nat) => Advancing(run, name, turns, n, j);
    forall j: nat | j < k && good(j)
      ensures good(j + 1)
    {
      NextAdvances(run, name, turns, evidence, actor, n, good, j);
    }
    Induct(good, k);
  }

  /**
   From a quiet store, as many rounds as the plan has unfinished issues finish it, whatever else the store
   holds, and no close in any of them is refused.
   */
  lemma PlanFinishesInTheStore(run: seq<Db>, name: int, turns: seq<Turn>, evidence: seq<int>, actor: Actor)
    requires IsExecution(run, name, turns, evidence, actor) && turns != [] && evidence != []
    requires StoreQuiet(run[0], name, turns[0].now) && |turns| >= |Left(run[0], name)|
    ensures Left(run[|turns|], name) == {}
    ensures forall k: nat, j: nat :: k < |turns| && j < |turns[k].done| ==>
                                       AcceptedAt(run, turns, evidence, actor, k, j)
  {
    EveryRoundAdvances(run, name, turns, evidence, actor, |turns|);
    forall k: nat, j: nat | k < |turns| && j < |turns[k].done|
      ensures AcceptedAt(run, turns, evidence, actor, k, j)
    {
      EveryRoundAdvances(run, name, turns, evidence, actor, k);
      assert TurnAt(run, name, turns, evidence, actor, k);
      NothingIsRefused(run[k], run[k + 1], name, turns[k], evidence, actor, j);
    }
  }

  /** The `j`-th close of round `k` goes through. */
  ghost predicate AcceptedAt(run: seq<Db>, turns: seq<Turn>, evidence: seq<int>, actor: Actor, k: nat, j: nat)
    requires k < |turns| && k < |run| && j < |turns[k].done|
  {
    && InPlanRange(turns[k].g, turns[k].done)
    && var ids := IdsAt(turns[k].g, turns[k].done);
    && MayClose(CloseEach(run[k], ids[..j], evidence, actor, turns[k].now), ids[j], evidence)
  }

  /** The unfinished issues are at most the nodes of the loaded plan. */
  lemma LeftWithinPlan(db: Db, name: int, g: Plan)
    requires Inv(db) && IsLoaded(db, name, g)
    ensures |Left(db, name)| <= |g.nodes|
  {
    var ids := set i | i in g.nodes :: i.id;
    forall id | id in Left(db, name)
      ensures id in ids
    {
      IdIsKey(db, id);
      assert View(db, id) in g.nodes && View(db, id).id == id;
    }
    Ordered.SubsetSize(Left(db, name), ids);
    IdCount(g.nodes);
  }

  lemma {:induction false} IdCount(nodes: seq<Issue>)
    ensures |set i | i in nodes :: i.id| <= |nodes|
  {
    if nodes != [] {
      var last := |nodes| - 1;
      IdCount(nodes[..last]);
      assert (set i | i in nodes :: i.id) == (set i | i in nodes[..last] :: i.id) + {nodes[last].id};
    }
  }
}
