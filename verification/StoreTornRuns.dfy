/**
 Runs that go on from a store reopened in the middle of a call: every operation keeps what every single append
 keeps, save a `create` that revives an id something still names as its parent.
 */
module StoreTornRuns {
  import opened Wrappers
  import opened Domain
  import opened StoreSpec
  import opened StoreInvariant
  import opened StoreTears
  import opened StoreRuns
  import Graph
  import WorkTime

  // ----- Operation by operation -----

  lemma SameRows(db: Db, next: Db)
    requires Between(db) && next.issues == db.issues && next.projects >= db.projects && next.deps == db.deps
    requires FoldersOk(next) && next.events == db.events && next.outbox == db.outbox && next.audit == db.audit
    ensures Between(next)
  {
    forall n | n in next.outbox
      ensures AuditRowOk(next, n)
    {
      assert AuditRowOk(db, n);
    }
  }

  lemma RewriteFits(db: Db, i: Issue)
    requires Between(db) && i.id in db.issues && RowOk(i, i.id)
    requires i.project == db.issues[i.id].project && i.parent == db.issues[i.id].parent
    ensures Between(Save(db, i))
  {
    var next := Save(db, i);
    assert ParentEdges(next.issues) == ParentEdges(db.issues);
    forall id | id in next.issues
      ensures ParentNear(next.issues, next.issues[id])
    {
      assert ParentNear(db.issues, db.issues[id]);
    }
    forall n | n in next.outbox
      ensures AuditRowOk(next, n)
    {
      assert AuditRowOk(db, n);
    }
  }

  lemma RewriteAndLogFits(db: Db, i: Issue, at: int, actor: Actor, kind: EventKind)
    requires Between(db) && i.id in db.issues && RowOk(i, i.id)
    requires i.project == db.issues[i.id].project && i.parent == db.issues[i.id].parent
    ensures Between(SaveAndLog(db, i, at, actor, kind))
  {
    RewriteFits(db, i);
    LogSteps(Save(db, i), i.id, at, actor, kind);
  }

  lemma UpdateFits(db: Db, cfg: Config, id: int, patch: Patch, actor: Actor, at: int)
    requires Between(db)
    ensures Between(StoreRuns.After(Update(db, cfg, id, patch, actor, at), db))
  {
    if id in db.issues {
      var i := db.issues[id];
      assert RowOk(i, id);
      var next := Patched(i, cfg, patch, at);
      var saved := Save(db, next);
      RewriteFits(db, next);
      var noted := if next.status != i.status then LogEvent(saved, id, at, actor, StatusChanged) else saved;
      LogSteps(saved, id, at, actor, StatusChanged);
      LogSteps(noted, id, at, actor, Updated);
    }
  }

  lemma EdgesFit(db: Db, deps: Graph.Edges)
    requires Between(db) && Graph.Acyclic(deps)
    requires forall c, p :: (c, p) in deps ==> c in db.issues && p in db.issues
    ensures Between(db.(deps := deps))
  {
    var next := db.(deps := deps);
    forall n | n in next.outbox
      ensures AuditRowOk(next, n)
    {
      assert AuditRowOk(db, n);
    }
  }

  lemma AddDepFits(db: Db, child: int, parent: int, actor: Actor, at: int)
    requires Between(db)
    ensures Between(StoreRuns.After(AddDep(db, child, parent, actor, at), db))
  {
    var r := AddDep(db, child, parent, actor, at);
    if r.Ok? && (child, parent) !in db.deps {
      var more := db.deps + {(child, parent)};
      Graph.AddEdge(db.deps, child, parent);
      EdgesFit(db, more);
      assert RowOk(db.issues[child], child);
      RewriteAndLogFits(db.(deps := more), db.issues[child].(updatedAt := at), at, actor, DependsOn);
    }
  }

  lemma RemoveDepFits(db: Db, child: int, parent: int, actor: Actor, at: int)
    requires Between(db)
    ensures Between(RemoveDep(db, child, parent, actor, at))
  {
    if (child, parent) in db.deps {
      var fewer := db.deps - {(child, parent)};
      Graph.AcyclicMono(fewer, db.deps);
      EdgesFit(db, fewer);
      LogSteps(db.(deps := fewer), child, at, actor, UnblockedFrom);
    }
  }

  lemma ClaimFits(db: Db, id: int, who: int, kind: ActorKind, ttl: int, at: int)
    requires Between(db)
    ensures Between(StoreRuns.After(ClaimFor(db, id, who, kind, ttl, at), db))
  {
    if ClaimFor(db, id, who, kind, ttl, at).Ok? {
      assert RowOk(db.issues[id], id);
      RewriteAndLogFits(db, WithClaim(db.issues[id], who, kind, at + ttl, at), at, Named(who), ClaimTaken);
    }
  }

  lemma TouchFits(db: Db, id: int, who: int, ttl: int, at: int)
    requires Between(db) && id in db.issues
    ensures Between(StoreRuns.After(TouchFor(db, id, who, ttl, at), db))
  {
    assert RowOk(db.issues[id], id);
    if TouchFor(db, id, who, ttl, at).Ok? {
      RewriteAndLogFits(db, db.issues[id].(expiresAt := Some(at + ttl), updatedAt := at), at, Named(who), Heartbeat);
    }
  }

  lemma ReleaseFits(db: Db, id: int, actor: Actor, at: int, kind: EventKind)
    requires Between(db) && id in db.issues
    ensures Between(SaveAndLog(db, WithoutClaim(db.issues[id], at), at, actor, kind))
  {
    assert RowOk(db.issues[id], id);
    RewriteAndLogFits(db, WithoutClaim(db.issues[id], at), at, actor, kind);
  }

  lemma {:induction false} SweepFits(db: Db, ids: seq<int>, at: int)
    requires Between(db)
    ensures Between(SweepAll(db, ids, at))
  {
    if ids != [] {
      var before, id := SweepAll(db, ids[..|ids| - 1], at), ids[|ids| - 1];
      SweepFits(db, ids[..|ids| - 1], at);
      if id in before.issues {
        LogSteps(before, id, at, Sweeper, Escalated);
        ReleaseFits(before, id, at := at, actor := Sweeper, kind := ClaimExpired);
      }
    }
  }

  lemma CloseFits(db: Db, id: int, evidence: seq<int>, actor: Actor, at: int)
    requires Between(db)
    ensures Between(StoreRuns.After(CloseUnchecked(db, id, evidence, actor, at), db))
  {
    if id in db.issues {
      var i := db.issues[id];
      assert RowOk(i, id);
      RewriteAndLogFits(db,
                        WithoutClaim(i, at).(evidence := MergeEvidence(i.evidence, evidence), status := Closed,
                        closedAt := Some(at)),
                        at, actor, Finished);
    }
  }

  lemma RelabelFits(db: Db, id: int, changed: bool, actor: Actor, at: int)
    requires Between(db)
    ensures Between(StoreRuns.After(Relabel(db, id, changed, actor, at), db))
  {
    if id in db.issues {
      assert RowOk(db.issues[id], id);
      RewriteAndLogFits(db, db.issues[id], at, actor, Labelled);
    }
  }

  lemma SupersedeFits(db: Db, id: int, replacement: int, ack: int, changed: bool, actor: Actor, at: int)
    requires Between(db)
    ensures Between(StoreRuns.After(Supersede(db, id, replacement, ack, changed, actor, at), db))
  {
    var closed := CloseUnchecked(db, id, [ack], actor, at);
    if closed.Ok? {
      CloseFits(db, id, [ack], actor, at);
      RelabelFits(closed.value, id, changed, actor, at);
    }
  }

  lemma RemoteDepFits(db: Db, child: int, actor: Actor, at: int)
    requires Between(db)
    ensures Between(StoreRuns.After(AddRemoteDep(db, child, actor, at), db))
  {
    if child in db.issues {
      assert RowOk(db.issues[child], child);
      RewriteAndLogFits(db, db.issues[child].(updatedAt := at), at, actor, DependsOnRemote);
    }
  }

  lemma FolderFits(db: Db, slug: int, under: Option<int>)
    requires Between(db)
    ensures Between(StoreRuns.After(EnsureFolder(db, slug, under), db))
  {
    FoldersStay(db, slug, under);
    SameRows(db, StoreRuns.After(EnsureFolder(db, slug, under), db));
  }

  lemma FilingFits(db: Db, project: int, folder: Option<int>)
    requires Between(db)
    ensures Between(StoreRuns.After(SetProjectFolder(db, project, folder), db))
  {
    SameRows(db, StoreRuns.After(SetProjectFolder(db, project, folder), db));
  }

  lemma DropFits(db: Db, slug: int)
    requires Between(db)
    ensures Between(StoreRuns.After(DropProject(db, slug), db))
  {
    var r := DropProject(db, slug);
    if r.Ok? {
      var next, mine := r.value, IssuesOf(db, slug);
      Graph.AcyclicMono(next.deps, db.deps);
      assert ParentEdges(next.issues) <= ParentEdges(db.issues);
      Graph.AcyclicMono(ParentEdges(next.issues), ParentEdges(db.issues));
      forall id | id in next.issues
        ensures ParentNear(next.issues, next.issues[id])
      {
        assert ParentNear(db.issues, db.issues[id]);
      }
      forall n | n in next.outbox
        ensures AuditRowOk(next, n)
      {
        assert AuditRowOk(db, n);
      }
    }
  }

  lemma MarksFit(db: Db, n: int, at: int, error: int)
    requires Between(db)
    ensures Between(MarkDelivered(db, n, at)) && Between(MarkFailed(db, n, at, error))
  {
    var a, b := MarkDelivered(db, n, at), MarkFailed(db, n, at, error);
    forall k | k in db.outbox
      ensures AuditRowOk(a, k) && AuditRowOk(b, k)
    {
      assert AuditRowOk(db, k);
    }
  }

  // ----- Any operation, any run -----

  /** A `create` is refused, or the issue it makes fits where it is put; no other call has anything to check. */
  ghost predicate Fits(cfg: Config, db: Db, op: Op) {
    op.CreateOp? && Create(db, cfg, op.spec, op.minted, op.at).Ok? ==>
      CreateFits(db, op.spec, op.spec.id.GetOr(op.minted))
  }

  lemma LeaseStepFits(cfg: Config, db: Db, op: Op)
    requires WorkTime.ValidWeek(cfg.week) && Between(db) && (op.ClaimOp? || op.TouchOp? || op.ReleaseOp? || op.SweepOp?)
    ensures Between(Step(cfg, db, op))
  {
    match op
    case ClaimOp(id, who, kind, ttl, at) => ClaimFits(db, id, who, kind, ClaimTtl(cfg, kind, ttl, at), at);
    case TouchOp(id, who, at) =>
      if id in db.issues {
        TouchFits(db, id, who, TouchTtl(cfg, db.issues[id].actorKind, at), at);
      }
    case ReleaseOp(id, actor, at) =>
      if id in db.issues {
        ReleaseFits(db, id, actor, at, Released);
      }
    case SweepOp(at) => SweepFits(db, SweepList(db, at), at);
  }

  lemma EditStepFits(cfg: Config, db: Db, op: Op)
    requires WorkTime.ValidWeek(cfg.week) && Between(db)
    requires op.UpdateOp? || op.AddDepOp? || op.RemoveDepOp? || op.CloseOp? || op.ForceCloseOp? || op.SupersedeOp?
             || op.RelabelOp? || op.RemoteDepOp?
    ensures Between(Step(cfg, db, op))
  {
    match op
    case UpdateOp(id, patch, actor, at) => UpdateFits(db, cfg, id, patch, actor, at);
    case AddDepOp(c, p, actor, at) => AddDepFits(db, c, p, actor, at);
    case RemoveDepOp(c, p, actor, at) => RemoveDepFits(db, c, p, actor, at);
    case CloseOp(id, evidence, actor, at) => CloseFits(db, id, evidence, actor, at);
    case ForceCloseOp(id, evidence, actor, at) => CloseFits(db, id, evidence, actor, at);
    case SupersedeOp(id, r, ack, changed, actor, at) => SupersedeFits(db, id, r, ack, changed, actor, at);
    case RelabelOp(id, changed, actor, at) => RelabelFits(db, id, changed, actor, at);
    case RemoteDepOp(child, actor, at) => RemoteDepFits(db, child, actor, at);
  }

  lemma OtherStepFits(cfg: Config, db: Db, op: Op)
    requires WorkTime.ValidWeek(cfg.week) && Between(db) && Enabled(db, op)
    requires op.EnsureProjectOp? || op.EnsureFolderOp? || op.FileOp? || op.DropOp? || op.DeliveredOp? || op.FailedOp?
             || op.ReopenOp?
    ensures Between(Step(cfg, db, op))
  {
    match op
    case EnsureProjectOp(slug) => SameRows(db, EnsureProject(db, slug));
    case EnsureFolderOp(slug, under) => FolderFits(db, slug, under);
    case FileOp(project, folder) => FilingFits(db, project, folder);
    case DropOp(slug) => DropFits(db, slug);
    case DeliveredOp(n, at) => MarksFit(db, n, at, 0);
    case FailedOp(n, next, error) => MarksFit(db, n, next, error);
    case ReopenOp(counter) => ReopenStep(db, counter);
  }

  /** On a store reopened from a cut, any call keeps `Between` exactly if it is not a `create` that does not fit. */
  lemma StepKeepsBetweenIff(cfg: Config, db: Db, op: Op)
    requires WorkTime.ValidWeek(cfg.week) && Between(db) && Enabled(db, op)
    ensures Between(Step(cfg, db, op)) <==> Fits(cfg, db, op)
  {
    if op.CreateOp? {
      if Create(db, cfg, op.spec, op.minted, op.at).Ok? {
        CreateOnTornIff(db, cfg, op.spec, op.minted, op.at);
      }
    } else if op.ClaimOp? || op.TouchOp? || op.ReleaseOp? || op.SweepOp? {
      LeaseStepFits(cfg, db, op);
    } else if op.EnsureProjectOp? || op.EnsureFolderOp? || op.FileOp? || op.DropOp? || op.DeliveredOp? || op.FailedOp?
              || op.ReopenOp? {
      OtherStepFits(cfg, db, op);
    } else {
      EditStepFits(cfg, db, op);
    }
  }

  ghost predicate FitsTo(cfg: Config, states: seq<Db>, ops: seq<Op>, n: nat)
    requires n <= |ops| && |states| == |ops| + 1
  {
    forall k: nat :: k < n ==> Fits(cfg, states[k], ops[k])
  }

  ghost predicate BetweenTo(states: seq<Db>, n: nat)
    requires n < |states|
  {
    forall k: nat :: k <= n ==> Between(states[k])
  }

  /**
   Over every run from a store reopened from a cut, however it goes on: `Between` holds throughout exactly if every
   `create` fits.
   */
  lemma {:induction false} TornRunsKeepBetweenIff(cfg: Config, states: seq<Db>, ops: seq<Op>, n: nat)
    requires WorkTime.ValidWeek(cfg.week) && IsRun(cfg, states, ops) && Between(states[0]) && n <= |ops|
    ensures BetweenTo(states, n) <==> FitsTo(cfg, states, ops, n)
  {
    if n > 0 {
      TornRunsKeepBetweenIff(cfg, states, ops, n - 1);
      assert FitsTo(cfg, states, ops, n) <==> FitsTo(cfg, states, ops, n - 1) && Fits(cfg, states[n - 1], ops[n - 1]);
      assert BetweenTo(states, n) <==> BetweenTo(states, n - 1) && Between(states[n]);
      if BetweenTo(states, n - 1) {
        StepKeepsBetweenIff(cfg, states[n - 1], ops[n - 1]);
      }
    }
  }

  /** On a sound store every `create` fits: nothing names an id that is not there. */
  lemma SoundCreatesFit(cfg: Config, db: Db, op: Op)
    requires WorkTime.ValidWeek(cfg.week) && Inv(db) && Enabled(db, op)
    ensures Fits(cfg, db, op)
  {
    SoundIffWhole(db);
    StepKeeps(cfg, db, op);
    SoundIffWhole(Step(cfg, db, op));
    StepKeepsBetweenIff(cfg, db, op);
  }
}
