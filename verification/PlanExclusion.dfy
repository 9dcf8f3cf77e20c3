/**
 Conflict groups over whole runs of the store: nodes sharing a group must not run concurrently (src/plan.rs:20).
 The frontier only looks at one plan (src/plan.rs:953-963), while `update` may start an issue, move it to
 another plan or to another group at any time (src/adapter.rs:955-1023).
 */
module PlanExclusion {
  import opened Wrappers
  import opened Domain
  import opened StoreSpec
  import opened StoreInvariant
  import opened PlanFrontier
  import opened PlanStore
  import PlanRuns
  import StoreRuns
  import WorkTime

  /** Among which issues a group is to be exclusive. */
  datatype Scope = OnePlan(name: int) | EachPlan | Everywhere

  type Slot = (Option<int>, int)

  /** What an issue in progress occupies: its group, within its plan or across plans. */
  function SlotOf(i: Issue, scope: Scope): Option<Slot> {
    if i.status != InProgress || i.metadata.group.None? then None
    else
      match scope
      case OnePlan(name) => if Member(i, name) then Some((Some(name), i.metadata.group.value)) else None
      case EachPlan => if i.metadata.plan.Some? then Some((i.metadata.plan, i.metadata.group.value)) else None
      case Everywhere => Some((None, i.metadata.group.value))
  }

  predicate Clash(i: Issue, j: Issue, scope: Scope) {
    SlotOf(i, scope).Some? && SlotOf(i, scope) == SlotOf(j, scope)
  }

  /** No two issues in progress share a group. */
  ghost predicate Exclusive(db: Db, scope: Scope) {
    forall x, y :: x in db.issues && y in db.issues && x != y ==> !Clash(db.issues[x], db.issues[y], scope)
  }

  /** The row `i` may stand under `id`: it is not in progress in a group, or no other issue occupies that. */
  ghost predicate HasRoom(db: Db, scope: Scope, id: int, i: Issue) {
    forall x :: x in db.issues && x != id ==> !Clash(i, db.issues[x], scope)
  }

  /**
   What to check before a call. Only an `update` can need it: status, plan and group after the patch must find room.
   */
  ghost predicate Careful(cfg: Config, db: Db, op: StoreRuns.Op, scope: Scope) {
    op.UpdateOp? && op.id in db.issues ==> HasRoom(db, scope, op.id, Patched(db.issues[op.id], cfg, op.patch, op.at))
  }

  // ----- Every other call can only free groups -----

  ghost predicate FreesAt(db: Db, next: Db, scope: Scope, id: int)
    requires id in next.issues
  {
    SlotOf(next.issues[id], scope) == None
    || (id in db.issues && SlotOf(next.issues[id], scope) == SlotOf(db.issues[id], scope))
  }

  ghost predicate Frees(db: Db, next: Db, scope: Scope) {
    forall id :: id in next.issues ==> FreesAt(db, next, scope, id)
  }

  lemma FreesTrans(a: Db, b: Db, c: Db, scope: Scope)
    requires Frees(a, b, scope) && Frees(b, c, scope)
    ensures Frees(a, c, scope)
  {
    forall id | id in c.issues
      ensures FreesAt(a, c, scope, id)
    {
      assert FreesAt(b, c, scope, id);
      assert id in b.issues ==> FreesAt(a, b, scope, id);
    }
  }

  lemma FreesKeeps(db: Db, next: Db, scope: Scope)
    requires Frees(db, next, scope) && Exclusive(db, scope)
    ensures Exclusive(next, scope)
  {
    forall x, y | x in next.issues && y in next.issues && x != y
      ensures !Clash(next.issues[x], next.issues[y], scope)
    {
      assert FreesAt(db, next, scope, x) && FreesAt(db, next, scope, y);
    }
  }

  /** Rewriting one row whose slot stays or is given up. */
  lemma SaveFrees(db: Db, i: Issue, at: int, actor: Actor, kind: EventKind, scope: Scope)
    requires SlotOf(i, scope) == None || (i.id in db.issues && SlotOf(i, scope) == SlotOf(db.issues[i.id], scope))
    ensures Frees(db, SaveAndLog(db, i, at, actor, kind), scope)
  {
  }

  lemma {:induction false} SweepFrees(db: Db, ids: seq<int>, at: int, scope: Scope)
    requires Inv(db)
    ensures Frees(db, SweepAll(db, ids, at), scope)
  {
    if ids != [] {
      var before, id := SweepAll(db, ids[..|ids| - 1], at), ids[|ids| - 1];
      SweepFrees(db, ids[..|ids| - 1], at, scope);
      if id in before.issues {
        SweepKeeps(db, ids[..|ids| - 1], at);
        IdIsKey(before, id);
        SaveFrees(before, WithoutClaim(before.issues[id], at), at, Sweeper, ClaimExpired, scope);
        FreesTrans(db, before, SweepAll(db, ids, at), scope);
      }
    }
  }

  lemma CloseFrees(db: Db, id: int, evidence: seq<int>, actor: Actor, at: int, scope: Scope)
    requires Inv(db)
    ensures Frees(db, StoreRuns.After(CloseUnchecked(db, id, evidence, actor, at), db), scope)
  {
  }

  lemma RelabelFrees(db: Db, id: int, changed: bool, actor: Actor, at: int, scope: Scope)
    requires Inv(db)
    ensures Frees(db, StoreRuns.After(Relabel(db, id, changed, actor, at), db), scope)
  {
    if id in db.issues {
      IdIsKey(db, id);
      SaveFrees(db, db.issues[id], at, actor, Labelled, scope);
    }
  }

  lemma SupersedeFrees(db: Db, id: int, replacement: int, ack: int, changed: bool, actor: Actor, at: int, scope: Scope)
    requires Inv(db)
    ensures Frees(db, StoreRuns.After(Supersede(db, id, replacement, ack, changed, actor, at), db), scope)
  {
    var closed := CloseUnchecked(db, id, [ack], actor, at);
    if closed.Ok? {
      CloseFrees(db, id, [ack], actor, at, scope);
      CloseKeeps(db, id, [ack], actor, at);
      RelabelFrees(closed.value, id, changed, actor, at, scope);
      FreesTrans(db, closed.value, StoreRuns.After(Relabel(closed.value, id, changed, actor, at), closed.value), scope);
    }
  }

  /** Claims, heartbeats, releases and dependency edits rewrite one row and keep its status and metadata. */
  lemma RowEditFrees(db: Db, next: Db, id: int, scope: Scope)
    requires next.issues.Keys == db.issues.Keys
    requires forall x :: x in db.issues && x != id ==> next.issues[x] == db.issues[x]
    requires id in db.issues ==>
               next.issues[id].status == db.issues[id].status && next.issues[id].metadata == db.issues[id].metadata
    ensures Frees(db, next, scope)
  {
  }

  lemma AddDepFrees(db: Db, child: int, parent: int, actor: Actor, at: int, scope: Scope)
    requires Inv(db)
    ensures Frees(db, StoreRuns.After(AddDep(db, child, parent, actor, at), db), scope)
  {
    AddDepEffect(db, child, parent, actor, at);
    RowEditFrees(db, StoreRuns.After(AddDep(db, child, parent, actor, at), db), child, scope);
  }

  lemma ClaimFrees(db: Db, id: int, who: int, kind: ActorKind, ttl: int, at: int, scope: Scope)
    requires Inv(db)
    ensures Frees(db, StoreRuns.After(ClaimFor(db, id, who, kind, ttl, at), db), scope)
  {
    if id in db.issues {
      IdIsKey(db, id);
    }
    RowEditFrees(db, StoreRuns.After(ClaimFor(db, id, who, kind, ttl, at), db), id, scope);
  }

  lemma TouchFrees(db: Db, id: int, who: int, ttl: int, at: int, scope: Scope)
    requires Inv(db) && id in db.issues
    ensures Frees(db, StoreRuns.After(TouchFor(db, id, who, ttl, at), db), scope)
  {
    IdIsKey(db, id);
    RowEditFrees(db, StoreRuns.After(TouchFor(db, id, who, ttl, at), db), id, scope);
  }

  lemma ReleaseFrees(db: Db, id: int, actor: Actor, at: int, scope: Scope)
    requires Inv(db)
    ensures Frees(db, StoreRuns.After(Release(db, id, actor, at), db), scope)
  {
    if id in db.issues {
      IdIsKey(db, id);
    }
    RowEditFrees(db, StoreRuns.After(Release(db, id, actor, at), db), id, scope);
  }

  lemma RemoteDepFrees(db: Db, child: int, actor: Actor, at: int, scope: Scope)
    requires Inv(db)
    ensures Frees(db, StoreRuns.After(AddRemoteDep(db, child, actor, at), db), scope)
  {
    if child in db.issues {
      IdIsKey(db, child);
    }
    RowEditFrees(db, StoreRuns.After(AddRemoteDep(db, child, actor, at), db), child, scope);
  }

  lemma LeaseFrees(cfg: Config, db: Db, op: StoreRuns.Op, scope: Scope)
    requires WorkTime.ValidWeek(cfg.week) && Inv(db)
    requires op.ClaimOp? || op.TouchOp? || op.ReleaseOp? || op.SweepOp?
    ensures Frees(db, StoreRuns.Step(cfg, db, op), scope)
  {
    match op
    case ClaimOp(id, who, kind, ttl, at) => ClaimFrees(db, id, who, kind, ClaimTtl(cfg, kind, ttl, at), at, scope);
    case TouchOp(id, who, at) =>
      if id in db.issues {
        TouchFrees(db, id, who, TouchTtl(cfg, db.issues[id].actorKind, at), at, scope);
      }
    case ReleaseOp(id, actor, at) => ReleaseFrees(db, id, actor, at, scope);
    case SweepOp(at) => SweepFrees(db, SweepList(db, at), at, scope);
  }

  lemma EditFrees(cfg: Config, db: Db, op: StoreRuns.Op, scope: Scope)
    requires WorkTime.ValidWeek(cfg.week) && Inv(db)
    requires op.AddDepOp? || op.RemoteDepOp? || op.CloseOp? || op.ForceCloseOp? || op.SupersedeOp? || op.RelabelOp?
    ensures Frees(db, StoreRuns.Step(cfg, db, op), scope)
  {
    match op
    case AddDepOp(child, parent, actor, at) => AddDepFrees(db, child, parent, actor, at, scope);
    case RemoteDepOp(child, actor, at) => RemoteDepFrees(db, child, actor, at, scope);
    case CloseOp(id, evidence, actor, at) => CloseFrees(db, id, evidence, actor, at, scope);
    case ForceCloseOp(id, evidence, actor, at) => CloseFrees(db, id, evidence, actor, at, scope);
    case SupersedeOp(id, r, ack, changed, actor, at) => SupersedeFrees(db, id, r, ack, changed, actor, at, scope);
    case RelabelOp(id, changed, actor, at) => RelabelFrees(db, id, changed, actor, at, scope);
  }

  lemma StepFrees(cfg: Config, db: Db, op: StoreRuns.Op, scope: Scope)
    requires WorkTime.ValidWeek(cfg.week) && Inv(db) && StoreRuns.Enabled(db, op) && !op.UpdateOp?
    ensures Frees(db, StoreRuns.Step(cfg, db, op), scope)
  {
    if op.ClaimOp? || op.TouchOp? || op.ReleaseOp? || op.SweepOp? {
      LeaseFrees(cfg, db, op, scope);
    } else if op.AddDepOp? || op.RemoteDepOp? || op.CloseOp? || op.ForceCloseOp? || op.SupersedeOp? || op.RelabelOp? {
      EditFrees(cfg, db, op, scope);
    }
  }

  // ----- Exactly when exclusion is kept -----

  lemma UpdatedIssues(cfg: Config, db: Db, op: StoreRuns.Op)
    requires WorkTime.ValidWeek(cfg.week) && Inv(db) && op.UpdateOp? && op.id in db.issues
    ensures StoreRuns.Step(cfg, db, op).issues == db.issues[op.id := Patched(db.issues[op.id], cfg, op.patch, op.at)]
  {
    IdIsKey(db, op.id);
  }

  /** Any call keeps groups exclusive exactly if it is not an update into an occupied group. */
  lemma StepKeepsExclusionIff(cfg: Config, db: Db, op: StoreRuns.Op, scope: Scope)
    requires WorkTime.ValidWeek(cfg.week) && Inv(db) && StoreRuns.Enabled(db, op) && Exclusive(db, scope)
    ensures Exclusive(StoreRuns.Step(cfg, db, op), scope) <==> Careful(cfg, db, op, scope)
  {
    var next := StoreRuns.Step(cfg, db, op);
    if !op.UpdateOp? {
      StepFrees(cfg, db, op, scope);
      FreesKeeps(db, next, scope);
    } else if op.id in db.issues {
      UpdatedIssues(cfg, db, op);
      RewriteKeepsIff(db, next, op.id, Patched(db.issues[op.id], cfg, op.patch, op.at), scope);
    }
  }

  lemma RewriteKeepsIff(db: Db, next: Db, id: int, i: Issue, scope: Scope)
    requires Exclusive(db, scope) && id in db.issues && next.issues == db.issues[id := i]
    ensures Exclusive(next, scope) <==> HasRoom(db, scope, id, i)
  {
    if HasRoom(db, scope, id, i) {
      forall x, y | x in next.issues && y in next.issues && x != y
        ensures !Clash(next.issues[x], next.issues[y], scope)
      {
        assert x != id && y != id ==> !Clash(db.issues[x], db.issues[y], scope);
        assert x == id ==> !Clash(i, db.issues[y], scope);
        assert y == id ==> !Clash(i, db.issues[x], scope);
      }
    }
    if Exclusive(next, scope) {
      forall x | x in db.issues && x != id
        ensures !Clash(i, db.issues[x], scope)
      {
        assert !Clash(next.issues[id], next.issues[x], scope);
      }
    }
  }

  ghost predicate ExclusiveTo(states: seq<Db>, scope: Scope, n: nat)
    requires n < |states|
  {
    forall k: nat :: k <= n ==> Exclusive(states[k], scope)
  }

  ghost predicate CarefulTo(cfg: Config, states: seq<Db>, ops: seq<StoreRuns.Op>, scope: Scope, n: nat)
    requires n <= |ops| && |states| == |ops| + 1
  {
    forall k: nat :: k < n ==> Careful(cfg, states[k], ops[k], scope)
  }

  /** Over every run of any calls groups stay exclusive throughout exactly if every update finds its group free. */
  lemma {:induction false} GroupsStayExclusiveIff(
    cfg: Config, states: seq<Db>, ops: seq<StoreRuns.Op>, scope: Scope, n: nat)
    requires WorkTime.ValidWeek(cfg.week) && StoreRuns.IsRun(cfg, states, ops) && n <= |ops|
    requires Inv(states[0]) && Exclusive(states[0], scope)
    ensures ExclusiveTo(states, scope, n) <==> CarefulTo(cfg, states, ops, scope, n)
  {
    if n > 0 {
      GroupsStayExclusiveIff(cfg, states, ops, scope, n - 1);
      StoreRuns.EveryReachableStateIsSound(cfg, states, ops, n - 1);
      assert CarefulTo(cfg, states, ops, scope, n) <==>
             CarefulTo(cfg, states, ops, scope, n - 1) && Careful(cfg, states[n - 1], ops[n - 1], scope);
      assert ExclusiveTo(states, scope, n) <==> ExclusiveTo(states, scope, n - 1) && Exclusive(states[n], scope);
      if ExclusiveTo(states, scope, n - 1) {
        StepKeepsExclusionIff(cfg, states[n - 1], ops[n - 1], scope);
      }
    }
  }

  // ----- What the frontier has to do with it -----

  /** What a loaded plan shows is what its part of the store holds. */
  lemma LoadedIsExclusiveIff(db: Db, name: int, g: Plan)
    requires Inv(db) && IsLoaded(db, name, g)
    ensures PlanRuns.Exclusive(g) <==> Exclusive(db, OnePlan(name))
  {
    if PlanRuns.Exclusive(g) {
      forall x, y | x in db.issues && y in db.issues && x != y
        ensures !Clash(db.issues[x], db.issues[y], OnePlan(name))
      {
        RowsApart(db, name, g, x, y);
      }
    }
    if Exclusive(db, OnePlan(name)) {
      forall i: nat, j: nat | i < j && PlanRuns.Running(g, i) && PlanRuns.Running(g, j)
        ensures !SameGroup(g, i, j)
      {
        NodesApart(db, name, g, i, j);
      }
    }
  }

  lemma NodesApart(db: Db, name: int, g: Plan, i: nat, j: nat)
    requires IsLoaded(db, name, g) && Exclusive(db, OnePlan(name))
    requires i < j && PlanRuns.Running(g, i) && PlanRuns.Running(g, j)
    ensures !SameGroup(g, i, j)
  {
    RowOf(db, name, g, i);
    RowOf(db, name, g, j);
    assert !Clash(db.issues[g.nodes[i].id], db.issues[g.nodes[j].id], OnePlan(name));
  }

  lemma RowsApart(db: Db, name: int, g: Plan, x: int, y: int)
    requires Inv(db) && IsLoaded(db, name, g) && PlanRuns.Exclusive(g) && x in db.issues && y in db.issues && x != y
    ensures !Clash(db.issues[x], db.issues[y], OnePlan(name))
  {
    if Clash(db.issues[x], db.issues[y], OnePlan(name)) {
      var i := NodeFor(db, name, g, x);
      var j := NodeFor(db, name, g, y);
      assert SameGroup(g, i, j) && SameGroup(g, j, i) && PlanRuns.Running(g, i) && PlanRuns.Running(g, j);
    }
  }

  lemma RowOf(db: Db, name: int, g: Plan, i: nat)
    requires IsLoaded(db, name, g) && i < |g.nodes|
    ensures var id := g.nodes[i].id;
            id in db.issues && g.nodes[i].status == db.issues[id].status
            && g.nodes[i].metadata == db.issues[id].metadata && Member(db.issues[id], name)
  {
    assert g.nodes[i] in g.nodes;
  }

  lemma NodeFor(db: Db, name: int, g: Plan, id: int) returns (i: nat)
    requires Inv(db) && IsLoaded(db, name, g) && id in db.issues && Member(db.issues[id], name)
    ensures i < |g.nodes| && g.nodes[i] == View(db, id) && g.nodes[i].id == id
  {
    IdIsKey(db, id);
    i :| 0 <= i < |g.nodes| && g.nodes[i] == View(db, id);
  }

  const START := Patch(Some(InProgress), None, None, None, None)

  /** One `update` to in progress after another; an unknown id changes nothing. */
  function StartEach(cfg: Config, db: Db, ids: seq<int>, actor: Actor, at: int): Db {
    if ids == [] then db
    else
      match Update(StartEach(cfg, db, ids[..|ids| - 1], actor, at), cfg, ids[|ids| - 1], START, actor, at)
      case Ok(next) => next
      case Err(_) => StartEach(cfg, db, ids[..|ids| - 1], actor, at)
  }

  /** `m` is `db` with the issues in `ids` in progress; nothing else changes status, plan or group. */
  ghost predicate StartedIn(db: Db, m: Db, ids: seq<int>) {
    && Inv(m) && m.issues.Keys == db.issues.Keys
    && forall id :: id in db.issues ==>
                      && m.issues[id].metadata == db.issues[id].metadata
                      && m.issues[id].status == if id in ids then InProgress else db.issues[id].status
  }

  lemma StartOneMore(cfg: Config, db: Db, m: Db, ids: seq<int>, id: int, actor: Actor, at: int)
    requires StartedIn(db, m, ids)
    ensures var r := Update(m, cfg, id, START, actor, at);
            if id in db.issues then r.Ok? && StartedIn(db, r.value, ids + [id]) else r.Err?
                                                                                     && StartedIn(db, m, ids + [id])
  {
    if id in db.issues {
      IdIsKey(m, id);
      UpdateKeeps(m, cfg, id, START, actor, at);
      var next := Update(m, cfg, id, START, actor, at).value;
      assert next.issues == m.issues[id := Patched(m.issues[id], cfg, START, at)];
    }
  }

  lemma {:induction false} StartEachStarts(cfg: Config, db: Db, ids: seq<int>, actor: Actor, at: int)
    requires Inv(db)
    ensures StartedIn(db, StartEach(cfg, db, ids, actor, at), ids)
  {
    if ids != [] {
      var last := |ids| - 1;
      assert ids == ids[..last] + [ids[last]];
      StartEachStarts(cfg, db, ids[..last], actor, at);
      StartOneMore(cfg, db, StartEach(cfg, db, ids[..last], actor, at), ids[..last], ids[last], actor, at);
    }
  }

  /** The ids all name nodes the frontier of the plan offers. */
  ghost predicate AllOffered(g: Plan, now: int, ids: seq<int>) {
    forall id :: id in ids ==> exists i: nat :: IsOfferedAs(g, now, id, i)
  }

  ghost predicate IsOfferedAs(g: Plan, now: int, id: int, i: nat) {
    Offered(g, i, now) && g.nodes[i].id == id
  }

  /** Something in progress in another plan, or in none, holds the group. */
  ghost predicate HeldOutside(db: Db, name: int, group: int) {
    exists x :: x in db.issues && !Member(db.issues[x], name) && Runs(db.issues[x], group)
  }

  /** No started node takes a group held outside its plan. */
  ghost predicate FreeOutside(db: Db, name: int, ids: seq<int>) {
    forall id :: id in ids && id in db.issues && db.issues[id].metadata.group.Some? ==>
                   !HeldOutside(db, name, db.issues[id].metadata.group.value)
  }

  /** The started issues belong to the plan, take different groups, and take none its running issues are in. */
  ghost predicate Fitting(db: Db, name: int, ids: seq<int>) {
    && (forall x :: x in ids ==> x in db.issues && Member(db.issues[x], name))
    && (forall x, y :: x in ids && y in ids && x != y ==> ApartGroups(db.issues[x], db.issues[y]))
    && forall x, y :: x in ids && y in db.issues && Member(db.issues[y], name) && db.issues[y].status == InProgress ==>
                        ApartGroups(db.issues[x], db.issues[y])
  }

  predicate ApartGroups(i: Issue, j: Issue) {
    i.metadata.group.Some? ==> i.metadata.group != j.metadata.group
  }

  lemma OfferedNode(db: Db, name: int, g: Plan, now: int, ids: seq<int>, x: int) returns (i: nat)
    requires IsLoaded(db, name, g) && AllOffered(g, now, ids) && x in ids
    ensures Offered(g, i, now) && g.nodes[i].id == x && x in db.issues && Member(db.issues[x], name)
    ensures g.nodes[i].metadata == db.issues[x].metadata
  {
    i :| IsOfferedAs(g, now, x, i);
    RowOf(db, name, g, i);
  }

  lemma OfferedApart(db: Db, name: int, g: Plan, now: int, ids: seq<int>, x: int, y: int)
    requires IsLoaded(db, name, g) && AllOffered(g, now, ids) && x in ids && y in ids && x != y
    ensures x in db.issues && y in db.issues && ApartGroups(db.issues[x], db.issues[y])
  {
    var i := OfferedNode(db, name, g, now, ids, x);
    var j := OfferedNode(db, name, g, now, ids, y);
    assert SameGroup(g, i, j) ==> SameGroup(g, j, i);
  }

  lemma OfferedFree(db: Db, name: int, g: Plan, now: int, ids: seq<int>, x: int, y: int)
    requires Inv(db) && IsLoaded(db, name, g) && AllOffered(g, now, ids) && x in ids
    requires y in db.issues && Member(db.issues[y], name) && db.issues[y].status == InProgress
    ensures x in db.issues && ApartGroups(db.issues[x], db.issues[y])
  {
    var i := OfferedNode(db, name, g, now, ids, x);
    var j := NodeFor(db, name, g, y);
    assert GroupOf(g, i).Some? && GroupOf(g, i) == GroupOf(g, j) ==> Runs(g.nodes[j], GroupOf(g, i).value);
  }

  lemma OfferedFits(db: Db, name: int, g: Plan, now: int, ids: seq<int>)
    requires Inv(db) && IsLoaded(db, name, g) && AllOffered(g, now, ids)
    ensures Fitting(db, name, ids)
  {
    forall x | x in ids
      ensures x in db.issues && Member(db.issues[x], name)
    {
      var _ := OfferedNode(db, name, g, now, ids, x);
    }
    forall x, y | x in ids && y in ids && x != y
      ensures ApartGroups(db.issues[x], db.issues[y])
    {
      OfferedApart(db, name, g, now, ids, x, y);
    }
    forall x, y | x in ids && y in db.issues && Member(db.issues[y], name) && db.issues[y].status == InProgress
      ensures ApartGroups(db.issues[x], db.issues[y])
    {
      OfferedFree(db, name, g, now, ids, x, y);
    }
  }

  /** Two issues of the plan that are in progress after the start do not share a group. */
  lemma StartedApart(db: Db, name: int, m: Db, ids: seq<int>, scope: Scope, x: int, y: int)
    requires Exclusive(db, scope) && Fitting(db, name, ids) && StartedIn(db, m, ids)
    requires scope == OnePlan(name) || (scope == Everywhere && FreeOutside(db, name, ids))
    requires x in m.issues && y in m.issues && x != y
    ensures !Clash(m.issues[x], m.issues[y], scope)
  {
    var i, j := db.issues[x], db.issues[y];
    if Clash(m.issues[x], m.issues[y], scope) {
      assert !ApartGroups(i, j) && !ApartGroups(j, i);
      assert x !in ids && y !in ids ==> Clash(i, j, scope);
      assert x in ids && !Member(j, name) ==> Runs(j, i.metadata.group.value);
      assert y in ids && !Member(i, name) ==> Runs(i, j.metadata.group.value);
    }
  }

  /** Starting any part of one frontier, in any order, keeps the plan's groups exclusive. */
  lemma FrontierStartsKeepExclusion(
    cfg: Config, db: Db, name: int, g: Plan, now: int, ids: seq<int>, actor: Actor, at: int)
    requires Inv(db) && IsLoaded(db, name, g) && AllOffered(g, now, ids) && Exclusive(db, OnePlan(name))
    ensures Exclusive(StartEach(cfg, db, ids, actor, at), OnePlan(name))
  {
    StartEachStarts(cfg, db, ids, actor, at);
    OfferedFits(db, name, g, now, ids);
    StartsAreApart(db, name, StartEach(cfg, db, ids, actor, at), ids, OnePlan(name));
  }

  lemma StartsAreApart(db: Db, name: int, m: Db, ids: seq<int>, scope: Scope)
    requires Exclusive(db, scope) && Fitting(db, name, ids) && StartedIn(db, m, ids)
    requires scope == OnePlan(name) || (scope == Everywhere && FreeOutside(db, name, ids))
    ensures Exclusive(m, scope)
  {
    forall x, y | x in m.issues && y in m.issues && x != y
      ensures !Clash(m.issues[x], m.issues[y], scope)
    {
      StartedApart(db, name, m, ids, scope, x, y);
    }
  }

  /** Across plans it does so exactly if nothing outside the plan is in progress in a group of a started node. */
  lemma FrontierStartsAcrossPlansIff(
    cfg: Config, db: Db, name: int, g: Plan, now: int, ids: seq<int>, actor: Actor, at: int)
    requires Inv(db) && IsLoaded(db, name, g) && AllOffered(g, now, ids) && Exclusive(db, Everywhere)
    ensures Exclusive(StartEach(cfg, db, ids, actor, at), Everywhere) <==> FreeOutside(db, name, ids)
  {
    var m := StartEach(cfg, db, ids, actor, at);
    StartEachStarts(cfg, db, ids, actor, at);
    OfferedFits(db, name, g, now, ids);
    if FreeOutside(db, name, ids) {
      StartsAreApart(db, name, m, ids, Everywhere);
    } else {
      var id :| id in ids && id in db.issues && db.issues[id].metadata.group.Some?
                && HeldOutside(db, name, db.issues[id].metadata.group.value);
      StartedCollides(db, name, m, ids, id);
    }
  }

  lemma StartedCollides(db: Db, name: int, m: Db, ids: seq<int>, id: int)
    requires Fitting(db, name, ids) && StartedIn(db, m, ids) && id in ids
    requires id in db.issues && db.issues[id].metadata.group.Some?
             && HeldOutside(db, name, db.issues[id].metadata.group.value)
    ensures !Exclusive(m, Everywhere)
  {
    var x :| x in db.issues && !Member(db.issues[x], name) && Runs(db.issues[x], db.issues[id].metadata.group.value);
    assert Clash(m.issues[id], m.issues[x], Everywhere);
  }

  // ----- Three ways to collide -----

  function Sample(id: int, status: Status, plan: int, group: int): Issue {
    Issue(id, 0, status, 2, false, None, None, None, None, None, 0, 0, None, [],
          Metadata(Some(plan), None, Some(group), None, false), [])
  }

  function TwoIssues(a: Issue, b: Issue): Db {
    EMPTY_DB.(issues := map[1 := a, 2 := b], projects := {0})
  }

  lemma TwoIssuesAreSound(a: Issue, b: Issue)
    requires RowOk(a, 1) && RowOk(b, 2) && a.project == b.project == 0 && a.parent == b.parent == None
    ensures Inv(TwoIssues(a, b))
  {
    EmptyStoreIsSound();
    var db := TwoIssues(a, b);
    assert ParentEdges(db.issues) == {} == ParentEdges(EMPTY_DB.issues);
  }

  /** Moving a running issue into a plan, its group untouched, collides there. */
  lemma PlanPatchCanCollide(cfg: Config) returns (db: Db, patch: Patch, next: Db)
    ensures Inv(db) && Exclusive(db, EachPlan) && patch.status.None?
            && patch.metadata == Some(MetaPatch(Set(5), Keep, Keep, Keep, Keep))
    ensures Update(db, cfg, 2, patch, System, 0) == Ok(next) && !Exclusive(next, OnePlan(5))
  {
    db := TwoIssues(Sample(1, InProgress, 5, 20), Sample(2, InProgress, 6, 20));
    TwoIssuesAreSound(db.issues[1], db.issues[2]);
    patch := Patch(None, None, None, Some(MetaPatch(Set(5), Keep, Keep, Keep, Keep)), None);
    next := Update(db, cfg, 2, patch, System, 0).value;
    assert Clash(next.issues[1], next.issues[2], OnePlan(5));
  }

  /** Moving a running issue into a group of its own plan collides. */
  lemma GroupPatchCanCollide(cfg: Config) returns (db: Db, patch: Patch, next: Db)
    ensures Inv(db) && Exclusive(db, EachPlan) && patch.status.None?
            && patch.metadata == Some(MetaPatch(Keep, Keep, Set(20), Keep, Keep))
    ensures Update(db, cfg, 2, patch, System, 0) == Ok(next) && !Exclusive(next, OnePlan(5))
  {
    db := TwoIssues(Sample(1, InProgress, 5, 20), Sample(2, InProgress, 5, 30));
    TwoIssuesAreSound(db.issues[1], db.issues[2]);
    patch := Patch(None, None, None, Some(MetaPatch(Keep, Keep, Set(20), Keep, Keep)), None);
    next := Update(db, cfg, 2, patch, System, 0).value;
    assert Clash(next.issues[1], next.issues[2], OnePlan(5));
  }

  function BusyElsewhere(): Db {
    TwoIssues(Sample(1, Open, 5, 20), Sample(2, InProgress, 6, 20))
  }

  /** A frontier offers a node whose group is busy in another plan; no patch is needed, only the start. */
  lemma OtherPlanCanCollide(cfg: Config) returns (db: Db, g: Plan, next: Db)
    ensures Inv(db) && Exclusive(db, Everywhere) && IsLoaded(db, 5, g) && Offered(g, 0, 0) && g.nodes[0].id == 1
    ensures next == StartEach(cfg, db, [1], System, 0) && Exclusive(next, EachPlan) && !Exclusive(next, Everywhere)
  {
    db := BusyElsewhere();
    g := OnlyNode();
    next := StartEach(cfg, db, [1], System, 0);
    BothRun(cfg);
  }

  lemma OnlyNode() returns (g: Plan)
    ensures IsLoaded(BusyElsewhere(), 5, g) && Offered(g, 0, 0) && g.nodes[0].id == 1
  {
    var db := BusyElsewhere();
    g := Plan([View(db, 1)], map[1 := Open, 2 := InProgress]);
    assert g.nodes[0].dependencies == [];
  }

  lemma BothRun(cfg: Config)
    ensures Inv(BusyElsewhere()) && Exclusive(BusyElsewhere(), Everywhere)
    ensures var next := StartEach(cfg, BusyElsewhere(), [1], System, 0); Exclusive(next, EachPlan)
                                                                         && !Exclusive(next, Everywhere)
  {
    var db := BusyElsewhere();
    TwoIssuesAreSound(db.issues[1], db.issues[2]);
    var next := StartEach(cfg, db, [1], System, 0);
    StartEachStarts(cfg, db, [1], System, 0);
    assert Clash(next.issues[1], next.issues[2], Everywhere);
  }
}
