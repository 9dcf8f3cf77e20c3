/** Whole runs of the store: any operations, in any order, across any number of reopens. */
module StoreRuns {
  import opened Wrappers
  import opened Domain
  import opened StoreSpec
  import opened StoreInvariant
  import opened StoreEffects
  import WorkTime
  import WorkLaws

  datatype Op =
    | CreateOp(spec: NewIssue, minted: int, at: int)
    | UpdateOp(id: int, patch: Patch, actor: Actor, at: int)
    | AddDepOp(child: int, parent: int, actor: Actor, at: int)
    | RemoveDepOp(child: int, parent: int, actor: Actor, at: int)
    | ClaimOp(id: int, who: int, kind: ActorKind, ttlSeconds: Option<int>, at: int)
    | TouchOp(id: int, who: int, at: int)
    | ReleaseOp(id: int, actor: Actor, at: int)
    | SweepOp(at: int)
    | CloseOp(id: int, evidence: seq<int>, actor: Actor, at: int)
    | ForceCloseOp(id: int, evidence: seq<int>, actor: Actor, at: int)
    | SupersedeOp(id: int, replacement: int, ack: int, changed: bool, actor: Actor, at: int)
    | RelabelOp(id: int, changed: bool, actor: Actor, at: int)
    | RemoteDepOp(child: int, actor: Actor, at: int)
    | EnsureProjectOp(slug: int)
    | EnsureFolderOp(slug: int, under: Option<int>)
    | FileOp(project: int, folder: Option<int>)
    | DropOp(slug: int)
    | DeliveredOp(number: int, at: int)
    | FailedOp(number: int, next: int, error: int)
    | ReopenOp(counter: int)

  /** Fresh ids are fresh; a reopened store starts at the engine's counter, never behind its own. */
  ghost predicate Enabled(db: Db, op: Op) {
    match op
    case CreateOp(_, minted, _) => minted !in db.issues
    case ReopenOp(counter) => counter >= db.audit
    case _ => true
  }

  ghost function After(r: Result<Db, Error>, db: Db): Db {
    if r.Ok? then r.value else db
  }

  /** The state after one call; a refused call changes nothing. */
  ghost function Step(cfg: Config, db: Db, op: Op): Db
    requires WorkTime.ValidWeek(cfg.week)
  {
    match op
    case CreateOp(spec, minted, at) => After(Create(db, cfg, spec, minted, at), db)
    case UpdateOp(id, patch, actor, at) => After(Update(db, cfg, id, patch, actor, at), db)
    case AddDepOp(c, p, actor, at) => After(AddDep(db, c, p, actor, at), db)
    case RemoveDepOp(c, p, actor, at) => RemoveDep(db, c, p, actor, at)
    case ClaimOp(id, who, kind, ttl, at) => After(Claim(db, cfg, id, who, kind, ttl, at), db)
    case TouchOp(id, who, at) => After(Touch(db, cfg, id, who, at), db)
    case ReleaseOp(id, actor, at) => After(Release(db, id, actor, at), db)
    case SweepOp(at) => SweepAll(db, SweepList(db, at), at)
    case CloseOp(id, evidence, actor, at) =>
      if MayClose(db, id, evidence) then After(CloseUnchecked(db, id, evidence, actor, at), db) else db
    case ForceCloseOp(id, evidence, actor, at) => After(CloseUnchecked(db, id, evidence, actor, at), db)
    case SupersedeOp(id, r, ack, changed, actor, at) => After(Supersede(db, id, r, ack, changed, actor, at), db)
    case RelabelOp(id, changed, actor, at) => After(Relabel(db, id, changed, actor, at), db)
    case RemoteDepOp(child, actor, at) => After(AddRemoteDep(db, child, actor, at), db)
    case EnsureProjectOp(slug) => EnsureProject(db, slug)
    case EnsureFolderOp(slug, under) => After(EnsureFolder(db, slug, under), db)
    case FileOp(project, folder) => After(SetProjectFolder(db, project, folder), db)
    case DropOp(slug) => After(DropProject(db, slug), db)
    case DeliveredOp(n, at) => MarkDelivered(db, n, at)
    case FailedOp(n, next, error) => MarkFailed(db, n, next, error)
    case ReopenOp(counter) => db.(audit := counter)
  }

  ghost predicate IsRun(cfg: Config, states: seq<Db>, ops: seq<Op>)
    requires WorkTime.ValidWeek(cfg.week)
  {
    && |states| == |ops| + 1
    && forall k :: 0 <= k < |ops| ==> Enabled(states[k], ops[k]) && states[k + 1] == Step(cfg, states[k], ops[k])
  }

  /**
   A call that is refused leaves the store as it was; in particular a close without evidence or with open
   dependencies.
   */
  lemma RefusalChangesNothing(cfg: Config, db: Db, op: Op)
    requires WorkTime.ValidWeek(cfg.week)
    ensures op.CloseOp?
            && (op.evidence == [] || exists p ::
                  (op.id, p) in db.deps && p in db.issues && db.issues[p].status != Closed) ==>
              Step(cfg, db, op) == db
    ensures (op.ClaimOp? || op.TouchOp? || op.ReleaseOp? || op.UpdateOp? || op.CloseOp? || op.ForceCloseOp?)
            && op.id !in db.issues ==>
              Step(cfg, db, op) == db
  {
    if op.CloseOp? {
      MayCloseLaw(db, op.id, op.evidence);
    }
  }

  // ----- The invariant holds throughout -----

  lemma ClaimForKeeps(db: Db, id: int, who: int, kind: ActorKind, ttl: int, at: int)
    requires Inv(db)
    ensures Inv(After(ClaimFor(db, id, who, kind, ttl, at), db))
  {
    if id in db.issues {
      ClaimKeeps(db, id, who, kind, ttl, at);
    }
  }

  lemma TouchForKeeps(db: Db, id: int, who: int, ttl: int, at: int)
    requires Inv(db)
    ensures Inv(After(TouchFor(db, id, who, ttl, at), db))
  {
    if id in db.issues && db.issues[id].assignee == Some(who) {
      TouchKeeps(db, id, who, ttl, at);
    }
  }

  lemma StepKeeps(cfg: Config, db: Db, op: Op)
    requires WorkTime.ValidWeek(cfg.week) && Inv(db) && Enabled(db, op)
    ensures Inv(Step(cfg, db, op))
  {
    match op
    case CreateOp(spec, minted, at) => CreateKeeps(db, cfg, spec, minted, at);
    case UpdateOp(id, patch, actor, at) => UpdateKeeps(db, cfg, id, patch, actor, at);
    case AddDepOp(c, p, actor, at) => AddDepKeeps(db, c, p, actor, at);
    case RemoveDepOp(c, p, actor, at) => RemoveDepKeeps(db, c, p, actor, at);
    case ClaimOp(id, who, kind, ttlSeconds, at) =>
      ClaimForKeeps(db, id, who, kind, ClaimTtl(cfg, kind, ttlSeconds, at), at);
    case TouchOp(id, who, at) =>
      if id in db.issues {
        TouchForKeeps(db, id, who, TouchTtl(cfg, db.issues[id].actorKind, at), at);
      }
    case ReleaseOp(id, actor, at) =>
      if id in db.issues {
        ReleaseKeeps(db, id, actor, at, Released);
      }
    case SweepOp(at) => SweepKeeps(db, SweepList(db, at), at);
    case CloseOp(id, evidence, actor, at) => CloseKeeps(db, id, evidence, actor, at);
    case ForceCloseOp(id, evidence, actor, at) => CloseKeeps(db, id, evidence, actor, at);
    case SupersedeOp(id, r, ack, changed, actor, at) => SupersedeKeeps(db, id, r, ack, changed, actor, at);
    case RelabelOp(id, changed, actor, at) => RelabelKeeps(db, id, changed, actor, at);
    case RemoteDepOp(child, actor, at) => RemoteDepKeeps(db, child, actor, at);
    case EnsureProjectOp(slug) => ProjectKeeps(db, slug);
    case EnsureFolderOp(slug, under) => FolderKeeps(db, slug, under);
    case FileOp(project, folder) => FilingKeeps(db, project, folder);
    case DropOp(slug) => DropKeeps(db, slug);
    case DeliveredOp(n, at) => MarksKeep(db, n, at, 0);
    case FailedOp(n, next, error) => MarksKeep(db, n, next, error);
    case ReopenOp(counter) => ReopenKeeps(db, counter);
  }

  /**
   In every reachable state: dependencies are acyclic with both ends live, issue parents and folders
   form forests, claim fields stand or fall together, and live audit and outbox rows pair off.
   */
  lemma {:induction false} EveryReachableStateIsSound(cfg: Config, states: seq<Db>, ops: seq<Op>, k: nat)
    requires WorkTime.ValidWeek(cfg.week) && IsRun(cfg, states, ops) && Inv(states[0]) && k < |states|
    ensures Inv(states[k])
  {
    if k > 0 {
      EveryReachableStateIsSound(cfg, states, ops, k - 1);
      StepKeeps(cfg, states[k - 1], ops[k - 1]);
    }
  }

  /** In particular in every state of every run of a store that started empty. */
  lemma EveryRunFromEmptyIsSound(cfg: Config, states: seq<Db>, ops: seq<Op>, k: nat)
    requires WorkTime.ValidWeek(cfg.week) && IsRun(cfg, states, ops) && states[0] == EMPTY_DB && k < |states|
    ensures Inv(states[k])
  {
    EmptyStoreIsSound();
    EveryReachableStateIsSound(cfg, states, ops, k);
  }

  // ----- Audit numbers and the outbox -----

  /** New rows only above the counter; old rows unchanged, except outbox rows not yet delivered. */
  ghost predicate Onward(db: Db, next: Db) {
    && db.audit <= next.audit
    && (forall n :: n in next.events ==> (n in db.events && next.events[n] == db.events[n]) || n > db.audit)
    && forall n :: n in next.outbox ==>
                     (n in db.outbox && (next.outbox[n] == db.outbox[n] || db.outbox[n].deliveredAt.None?)) || n > db.audit
  }

  lemma OnwardTrans(a: Db, b: Db, c: Db)
    requires Onward(a, b) && Onward(b, c)
    ensures Onward(a, c)
  {
  }

  lemma LogOnward(db: Db, id: int, at: int, actor: Actor, kind: EventKind)
    ensures Onward(db, LogEvent(db, id, at, actor, kind))
  {
  }

  lemma SaveAndLogOnward(db: Db, i: Issue, at: int, actor: Actor, kind: EventKind)
    ensures Onward(db, SaveAndLog(db, i, at, actor, kind))
  {
    LogOnward(Save(db, i), i.id, at, actor, kind);
  }

  lemma {:induction false} SweepOnward(db: Db, ids: seq<int>, at: int)
    ensures Onward(db, SweepAll(db, ids, at))
  {
    if ids != [] {
      var before, id := SweepAll(db, ids[..|ids| - 1], at), ids[|ids| - 1];
      SweepOnward(db, ids[..|ids| - 1], at);
      if id in before.issues {
        LogOnward(before, id, at, Sweeper, Escalated);
        SaveAndLogOnward(before, WithoutClaim(before.issues[id], at), at, Sweeper, ClaimExpired);
        OnwardTrans(db, before, SweepAll(db, ids, at));
      }
    }
  }

  lemma UpdateOnward(db: Db, cfg: Config, id: int, patch: Patch, actor: Actor, at: int)
    ensures Onward(db, After(Update(db, cfg, id, patch, actor, at), db))
  {
    if id in db.issues {
      var saved := Save(db, Patched(db.issues[id], cfg, patch, at));
      LogOnward(saved, id, at, actor, Updated);
      LogOnward(saved, id, at, actor, StatusChanged);
      var noted := LogEvent(saved, id, at, actor, StatusChanged);
      LogOnward(noted, id, at, actor, Updated);
      OnwardTrans(saved, noted, LogEvent(noted, id, at, actor, Updated));
    }
  }

  lemma CreateOnward(db: Db, cfg: Config, spec: NewIssue, minted: int, at: int)
    ensures Onward(db, After(Create(db, cfg, spec, minted, at), db))
  {
    if Create(db, cfg, spec, minted, at).Ok? {
      SaveAndLogOnward(db, FreshRow(spec, spec.id.GetOr(minted), spec.project.value, cfg, at), at, spec.createdBy,
                       Created);
    }
  }

  lemma DepsOnward(db: Db, c: int, p: int, actor: Actor, at: int)
    ensures Onward(db, After(AddDep(db, c, p, actor, at), db))
    ensures Onward(db, RemoveDep(db, c, p, actor, at))
  {
    if c in db.issues {
      SaveAndLogOnward(db.(deps := db.deps + {(c, p)}), db.issues[c].(updatedAt := at), at, actor, DependsOn);
    }
    LogOnward(db.(deps := db.deps - {(c, p)}), c, at, actor, UnblockedFrom);
  }

  lemma ClaimForOnward(db: Db, id: int, who: int, kind: ActorKind, ttl: int, at: int)
    ensures Onward(db, After(ClaimFor(db, id, who, kind, ttl, at), db))
  {
    if id in db.issues {
      SaveAndLogOnward(db, WithClaim(db.issues[id], who, kind, at + ttl, at), at, Named(who), ClaimTaken);
    }
  }

  lemma TouchForOnward(db: Db, id: int, who: int, ttl: int, at: int)
    ensures Onward(db, After(TouchFor(db, id, who, ttl, at), db))
  {
    if id in db.issues {
      SaveAndLogOnward(db, db.issues[id].(expiresAt := Some(at + ttl), updatedAt := at), at, Named(who), Heartbeat);
    }
  }

  lemma ReleaseOnward(db: Db, id: int, actor: Actor, at: int)
    ensures Onward(db, After(Release(db, id, actor, at), db))
  {
    if id in db.issues {
      SaveAndLogOnward(db, WithoutClaim(db.issues[id], at), at, actor, Released);
    }
  }

  lemma CloseOnward(db: Db, id: int, evidence: seq<int>, actor: Actor, at: int)
    ensures Onward(db, After(CloseUnchecked(db, id, evidence, actor, at), db))
  {
    if id in db.issues {
      var i := db.issues[id];
      SaveAndLogOnward(db,
                       WithoutClaim(i, at).(evidence := MergeEvidence(i.evidence, evidence), status := Closed,
                       closedAt := Some(at)),
                       at, actor, Finished);
    }
  }

  lemma RelabelOnward(db: Db, id: int, changed: bool, actor: Actor, at: int)
    ensures Onward(db, After(Relabel(db, id, changed, actor, at), db))
  {
    if id in db.issues {
      SaveAndLogOnward(db, db.issues[id], at, actor, Labelled);
    }
  }

  lemma SupersedeOnward(db: Db, id: int, replacement: int, ack: int, changed: bool, actor: Actor, at: int)
    ensures Onward(db, After(Supersede(db, id, replacement, ack, changed, actor, at), db))
  {
    var closed := CloseUnchecked(db, id, [ack], actor, at);
    if closed.Ok? {
      CloseOnward(db, id, [ack], actor, at);
      RelabelOnward(closed.value, id, changed, actor, at);
      OnwardTrans(db, closed.value, After(Relabel(closed.value, id, changed, actor, at), closed.value));
    }
  }

  lemma RemoteDepOnward(db: Db, child: int, actor: Actor, at: int)
    ensures Onward(db, After(AddRemoteDep(db, child, actor, at), db))
  {
    if child in db.issues {
      SaveAndLogOnward(db, db.issues[child].(updatedAt := at), at, actor, DependsOnRemote);
    }
  }

  /** Operations that write no audit event. */
  lemma FilingOnward(db: Db, slug: int, folder: Option<int>)
    ensures Onward(db, EnsureProject(db, slug))
    ensures Onward(db, After(EnsureFolder(db, slug, folder), db))
    ensures Onward(db, After(SetProjectFolder(db, slug, folder), db))
  {
  }

  lemma DropOnward(db: Db, slug: int)
    ensures Onward(db, After(DropProject(db, slug), db))
  {
  }

  lemma MarksOnward(db: Db, n: int, at: int, error: int)
    ensures Onward(db, MarkDelivered(db, n, at))
    ensures Onward(db, MarkFailed(db, n, at, error))
  {
  }

  lemma StepOnward(cfg: Config, db: Db, op: Op)
    requires WorkTime.ValidWeek(cfg.week) && Enabled(db, op)
    ensures Onward(db, Step(cfg, db, op))
  {
    match op
    case CreateOp(spec, minted, at) => CreateOnward(db, cfg, spec, minted, at);
    case UpdateOp(id, patch, actor, at) => UpdateOnward(db, cfg, id, patch, actor, at);
    case AddDepOp(c, p, actor, at) => DepsOnward(db, c, p, actor, at);
    case RemoveDepOp(c, p, actor, at) => DepsOnward(db, c, p, actor, at);
    case ClaimOp(id, who, kind, ttlSeconds, at) => ClaimForOnward(db, id, who, kind,
                                                                  ClaimTtl(cfg, kind, ttlSeconds, at), at);
    case TouchOp(id, who, at) =>
      if id in db.issues {
        TouchForOnward(db, id, who, TouchTtl(cfg, db.issues[id].actorKind, at), at);
      }
    case ReleaseOp(id, actor, at) => ReleaseOnward(db, id, actor, at);
    case SweepOp(at) => SweepOnward(db, SweepList(db, at), at);
    case CloseOp(id, evidence, actor, at) => CloseOnward(db, id, evidence, actor, at);
    case ForceCloseOp(id, evidence, actor, at) => CloseOnward(db, id, evidence, actor, at);
    case SupersedeOp(id, r, ack, changed, actor, at) => SupersedeOnward(db, id, r, ack, changed, actor, at);
    case RelabelOp(id, changed, actor, at) => RelabelOnward(db, id, changed, actor, at);
    case RemoteDepOp(child, actor, at) => RemoteDepOnward(db, child, actor, at);
    case EnsureProjectOp(slug) => FilingOnward(db, slug, None);
    case EnsureFolderOp(slug, under) => FilingOnward(db, slug, under);
    case FileOp(project, folder) => FilingOnward(db, project, folder);
    case DropOp(slug) => DropOnward(db, slug);
    case DeliveredOp(n, at) => MarksOnward(db, n, at, 0);
    case FailedOp(n, next, error) => MarksOnward(db, n, next, error);
    case ReopenOp(_) =>
  }

  ghost predicate AllOnward(states: seq<Db>) {
    forall k :: 0 <= k < |states| - 1 ==> Onward(states[k], states[k + 1])
  }

  lemma {:induction false} OnwardChain(states: seq<Db>, i: nat, j: nat)
    requires AllOnward(states) && i <= j < |states|
    ensures Onward(states[i], states[j])
    decreases j - i
  {
    if i < j {
      OnwardChain(states, i, j - 1);
      OnwardTrans(states[i], states[j - 1], states[j]);
    }
  }

  lemma RunOnward(cfg: Config, states: seq<Db>, ops: seq<Op>, i: nat, j: nat)
    requires WorkTime.ValidWeek(cfg.week) && IsRun(cfg, states, ops) && i <= j < |states|
    ensures Onward(states[i], states[j])
  {
    forall k | 0 <= k < |states| - 1
      ensures Onward(states[k], states[k + 1])
    {
      StepOnward(cfg, states[k], ops[k]);
    }
    OnwardChain(states, i, j);
  }

  /** A number that appears later than another state is larger than every number that state had used. */
  lemma AuditNumbersOnlyGrow(cfg: Config, states: seq<Db>, ops: seq<Op>, i: nat, j: nat, n: int)
    requires WorkTime.ValidWeek(cfg.week) && IsRun(cfg, states, ops) && Inv(states[0]) && i <= j < |states|
    requires n in states[j].events && n !in states[i].events
    ensures forall m :: m in states[i].events || m in states[i].outbox ==> m < n
    ensures n > states[i].audit
  {
    EveryReachableStateIsSound(cfg, states, ops, i);
    RunOnward(cfg, states, ops, i, j);
    forall m | m in states[i].events || m in states[i].outbox
      ensures m < n
    {
      assert AuditRowOk(states[i], m);
    }
  }

  /** A number whose rows were dropped never comes back. */
  lemma AuditNumbersAreNotReused(cfg: Config, states: seq<Db>, ops: seq<Op>, i: nat, j: nat, k: nat, n: int)
    requires WorkTime.ValidWeek(cfg.week) && IsRun(cfg, states, ops) && Inv(states[0]) && i <= j <= k < |states|
    requires n in states[i].events && n !in states[j].events
    ensures n !in states[k].events && n !in states[k].outbox
  {
    EveryReachableStateIsSound(cfg, states, ops, i);
    EveryReachableStateIsSound(cfg, states, ops, k);
    RunOnward(cfg, states, ops, i, j);
    RunOnward(cfg, states, ops, j, k);
    assert AuditRowOk(states[i], n);
    assert forall m :: m in states[k].outbox ==> m in states[k].events by {
      forall m | m in states[k].outbox
        ensures m in states[k].events
      {
        assert AuditRowOk(states[k], m);
      }
    }
  }

  /** And a number still in use names the event it always named. */
  lemma AuditNumbersKeepTheirEvent(cfg: Config, states: seq<Db>, ops: seq<Op>, i: nat, j: nat, n: int)
    requires WorkTime.ValidWeek(cfg.week) && IsRun(cfg, states, ops) && Inv(states[0]) && i <= j < |states|
    requires n in states[i].events && n in states[j].events
    ensures states[j].events[n] == states[i].events[n]
  {
    EveryReachableStateIsSound(cfg, states, ops, i);
    RunOnward(cfg, states, ops, i, j);
    assert AuditRowOk(states[i], n);
  }

  /** A delivered outbox row stays as it is and is never due again. */
  lemma DeliveredStaysDelivered(cfg: Config, states: seq<Db>, ops: seq<Op>, i: nat, j: nat, n: int, at: int)
    requires WorkTime.ValidWeek(cfg.week) && IsRun(cfg, states, ops) && Inv(states[0]) && i <= j < |states|
    requires n in states[i].outbox && states[i].outbox[n].deliveredAt.Some?
    ensures n in states[j].outbox ==> states[j].outbox[n] == states[i].outbox[n] && !IsPending(states[j].outbox[n], at)
  {
    EveryReachableStateIsSound(cfg, states, ops, i);
    RunOnward(cfg, states, ops, i, j);
    assert AuditRowOk(states[i], n);
  }

  // ----- Claims are exclusive -----

  ghost predicate HeldPast(db: Db, id: int, who: int, t: int) {
    && id in db.issues
    && db.issues[id].assignee == Some(who)
    && db.issues[id].expiresAt.Some?
    && db.issues[id].expiresAt.value > t
  }

  /** The calls that may end `who`'s hold on `id` before `t`, its own shortening renewals included. */
  ghost predicate MayFree(cfg: Config, db: Db, op: Op, id: int, who: int, t: int)
    requires WorkTime.ValidWeek(cfg.week)
  {
    match op
    case ReleaseOp(x, _, _) => x == id
    case CloseOp(x, _, _, _) => x == id
    case ForceCloseOp(x, _, _, _) => x == id
    case SupersedeOp(x, _, _, _, _, _) => x == id
    case DropOp(slug) => id in db.issues && db.issues[id].project == slug
    case SweepOp(at) =>
      && id in db.issues && db.issues[id].actorKind != Some(Human)
      && db.issues[id].expiresAt.Some? && db.issues[id].expiresAt.value <= at
    case TouchOp(x, y, at) =>
      x == id && y == who && id in db.issues && at + TouchTtl(cfg, db.issues[id].actorKind, at) <= t
    case ClaimOp(x, y, kind, ttlSeconds, at) =>
      x == id && (at > t || (y == who && at + ClaimTtl(cfg, kind, ttlSeconds, at) <= t))
    case _ => false
  }

  /** However often and whenever sweeps run, a person's claim is never ended by one, lapsed or not. */
  lemma {:induction false} SweepsSparePeople(cfg: Config, states: seq<Db>, ops: seq<Op>, id: int, k: nat)
    requires WorkTime.ValidWeek(cfg.week) && IsRun(cfg, states, ops) && Inv(states[0]) && k < |states|
    requires id in states[0].issues && states[0].issues[id].actorKind == Some(Human)
    requires forall j :: 0 <= j < |ops| ==> ops[j].SweepOp?
    ensures id in states[k].issues && states[k].issues[id] == states[0].issues[id]
  {
    if k > 0 {
      SweepsSparePeople(cfg, states, ops, id, k - 1);
      EveryReachableStateIsSound(cfg, states, ops, k - 1);
      SweepLaw(states[k - 1], ops[k - 1].at);
    }
  }

  lemma SaveElsewhereHolds(db: Db, i: Issue, at: int, actor: Actor, kind: EventKind, id: int, who: int, t: int)
    requires HeldPast(db, id, who, t)
             && (i.id == id ==> i.assignee == Some(who) && i.expiresAt.Some? && i.expiresAt.value > t)
    ensures HeldPast(SaveAndLog(db, i, at, actor, kind), id, who, t)
  {
  }

  lemma LogHolds(db: Db, x: int, at: int, actor: Actor, kind: EventKind, id: int, who: int, t: int)
    requires HeldPast(db, id, who, t)
    ensures HeldPast(LogEvent(db, x, at, actor, kind), id, who, t)
  {
  }

  lemma CreateHolds(db: Db, cfg: Config, spec: NewIssue, minted: int, at: int, id: int, who: int, t: int)
    requires HeldPast(db, id, who, t) && minted !in db.issues
    ensures HeldPast(After(Create(db, cfg, spec, minted, at), db), id, who, t)
  {
    if Create(db, cfg, spec, minted, at).Ok? {
      var i := FreshRow(spec, spec.id.GetOr(minted), spec.project.value, cfg, at);
      SaveElsewhereHolds(db, i, at, spec.createdBy, Created, id, who, t);
    }
  }

  lemma UpdateHolds(db: Db, cfg: Config, x: int, patch: Patch, actor: Actor, at: int, id: int, who: int, t: int)
    requires Inv(db) && HeldPast(db, id, who, t)
    ensures HeldPast(After(Update(db, cfg, x, patch, actor, at), db), id, who, t)
  {
    if x in db.issues {
      assert RowOk(db.issues[x], x);
      var saved := Save(db, Patched(db.issues[x], cfg, patch, at));
      LogHolds(saved, x, at, actor, StatusChanged, id, who, t);
      LogHolds(saved, x, at, actor, Updated, id, who, t);
      LogHolds(LogEvent(saved, x, at, actor, StatusChanged), x, at, actor, Updated, id, who, t);
    }
  }

  lemma DepsHold(db: Db, c: int, p: int, actor: Actor, at: int, id: int, who: int, t: int)
    requires Inv(db) && HeldPast(db, id, who, t)
    ensures HeldPast(After(AddDep(db, c, p, actor, at), db), id, who, t)
    ensures HeldPast(RemoveDep(db, c, p, actor, at), id, who, t)
  {
    if c in db.issues {
      assert RowOk(db.issues[c], c);
      SaveElsewhereHolds(db.(deps := db.deps + {(c, p)}), db.issues[c].(updatedAt := at), at, actor, DependsOn, id,
                         who, t);
    }
    LogHolds(db.(deps := db.deps - {(c, p)}), c, at, actor, UnblockedFrom, id, who, t);
  }

  lemma ClaimForHolds(db: Db, x: int, y: int, kind: ActorKind, ttl: int, at: int, id: int, who: int, t: int)
    requires Inv(db) && HeldPast(db, id, who, t)
    requires x == id ==> at <= t && (y == who ==> at + ttl > t)
    ensures HeldPast(After(ClaimFor(db, x, y, kind, ttl, at), db), id, who, t)
  {
    if x in db.issues {
      assert RowOk(db.issues[x], x);
      if ClaimFor(db, x, y, kind, ttl, at).Ok? {
        SaveElsewhereHolds(db, WithClaim(db.issues[x], y, kind, at + ttl, at), at, Named(y), ClaimTaken, id, who, t);
      }
    }
  }

  lemma TouchForHolds(db: Db, x: int, y: int, ttl: int, at: int, id: int, who: int, t: int)
    requires Inv(db) && HeldPast(db, id, who, t)
    requires x == id && y == who ==> at + ttl > t
    ensures HeldPast(After(TouchFor(db, x, y, ttl, at), db), id, who, t)
  {
    if x in db.issues && db.issues[x].assignee == Some(y) {
      assert RowOk(db.issues[x], x);
      SaveElsewhereHolds(db, db.issues[x].(expiresAt := Some(at + ttl), updatedAt := at), at, Named(y), Heartbeat, id,
                         who, t);
    }
  }

  lemma FreeingElsewhereHolds(db: Db, x: int, evidence: seq<int>, actor: Actor, at: int, id: int, who: int, t: int)
    requires Inv(db) && HeldPast(db, id, who, t) && x != id
    ensures HeldPast(After(Release(db, x, actor, at), db), id, who, t)
    ensures HeldPast(After(CloseUnchecked(db, x, evidence, actor, at), db), id, who, t)
  {
    if x in db.issues {
      var i := db.issues[x];
      assert RowOk(i, x);
      SaveElsewhereHolds(db, WithoutClaim(i, at), at, actor, Released, id, who, t);
      SaveElsewhereHolds(db,
                         WithoutClaim(i, at).(evidence := MergeEvidence(i.evidence, evidence), status := Closed,
                         closedAt := Some(at)),
                         at, actor, Finished, id, who, t);
    }
  }

  lemma RelabelHolds(db: Db, x: int, changed: bool, actor: Actor, at: int, id: int, who: int, t: int)
    requires RowsOk(db) && HeldPast(db, id, who, t)
    ensures HeldPast(After(Relabel(db, x, changed, actor, at), db), id, who, t)
    ensures HeldPast(After(AddRemoteDep(db, x, actor, at), db), id, who, t)
  {
    if x in db.issues {
      IdIsKey(db, x);
      SaveElsewhereHolds(db, db.issues[x], at, actor, Labelled, id, who, t);
      SaveElsewhereHolds(db, db.issues[x].(updatedAt := at), at, actor, DependsOnRemote, id, who, t);
    }
  }

  lemma SupersedeHolds(
    db: Db, x: int, replacement: int, ack: int, changed: bool, actor: Actor, at: int, id: int, who: int, t: int)
    requires Inv(db) && HeldPast(db, id, who, t) && x != id
    ensures HeldPast(After(Supersede(db, x, replacement, ack, changed, actor, at), db), id, who, t)
  {
    var closed := CloseUnchecked(db, x, [ack], actor, at);
    if closed.Ok? {
      FreeingElsewhereHolds(db, x, [ack], actor, at, id, who, t);
      CloseKeeps(db, x, [ack], actor, at);
      RelabelHolds(closed.value, x, changed, actor, at, id, who, t);
    }
  }

  lemma QuietHolds(db: Db, slug: int, under: Option<int>, n: int, at: int, error: int, id: int, who: int, t: int)
    requires HeldPast(db, id, who, t)
    ensures HeldPast(EnsureProject(db, slug), id, who, t)
    ensures HeldPast(After(EnsureFolder(db, slug, under), db), id, who, t)
    ensures HeldPast(After(SetProjectFolder(db, slug, under), db), id, who, t)
    ensures db.issues[id].project != slug ==> HeldPast(After(DropProject(db, slug), db), id, who, t)
    ensures HeldPast(MarkDelivered(db, n, at), id, who, t)
    ensures HeldPast(MarkFailed(db, n, at, error), id, who, t)
  {
  }

  lemma StepHolds(cfg: Config, db: Db, op: Op, id: int, who: int, t: int)
    requires WorkTime.ValidWeek(cfg.week) && Inv(db) && Enabled(db, op)
    requires HeldPast(db, id, who, t) && !MayFree(cfg, db, op, id, who, t)
    ensures HeldPast(Step(cfg, db, op), id, who, t)
  {
    match op
    case CreateOp(spec, minted, at) => CreateHolds(db, cfg, spec, minted, at, id, who, t);
    case UpdateOp(x, patch, actor, at) => UpdateHolds(db, cfg, x, patch, actor, at, id, who, t);
    case AddDepOp(c, p, actor, at) => DepsHold(db, c, p, actor, at, id, who, t);
    case RemoveDepOp(c, p, actor, at) => DepsHold(db, c, p, actor, at, id, who, t);
    case ClaimOp(x, y, kind, ttlSeconds, at) =>
      ClaimForHolds(db, x, y, kind, ClaimTtl(cfg, kind, ttlSeconds, at), at, id, who, t);
    case TouchOp(x, y, at) =>
      if x in db.issues {
        TouchForHolds(db, x, y, TouchTtl(cfg, db.issues[x].actorKind, at), at, id, who, t);
      }
    case ReleaseOp(x, actor, at) => FreeingElsewhereHolds(db, x, [], actor, at, id, who, t);
    case SweepOp(at) => SweepLaw(db, at);
    case CloseOp(x, evidence, actor, at) => FreeingElsewhereHolds(db, x, evidence, actor, at, id, who, t);
    case ForceCloseOp(x, evidence, actor, at) => FreeingElsewhereHolds(db, x, evidence, actor, at, id, who, t);
    case SupersedeOp(x, r, ack, changed, actor, at) => SupersedeHolds(db, x, r, ack, changed, actor, at, id, who, t);
    case RelabelOp(x, changed, actor, at) => RelabelHolds(db, x, changed, actor, at, id, who, t);
    case RemoteDepOp(x, actor, at) => RelabelHolds(db, x, false, actor, at, id, who, t);
    case EnsureProjectOp(slug) => QuietHolds(db, slug, None, 0, 0, 0, id, who, t);
    case EnsureFolderOp(slug, under) => QuietHolds(db, slug, under, 0, 0, 0, id, who, t);
    case FileOp(project, folder) => QuietHolds(db, project, folder, 0, 0, 0, id, who, t);
    case DropOp(slug) => QuietHolds(db, slug, None, 0, 0, 0, id, who, t);
    case DeliveredOp(n, at) => QuietHolds(db, 0, None, n, at, 0, id, who, t);
    case FailedOp(n, next, error) => QuietHolds(db, 0, None, n, next, error, id, who, t);
    case ReopenOp(_) =>
  }

  /** Until something frees it, every state of a run shows the claim still held. */
  lemma {:induction false} ClaimOutlives(cfg: Config, states: seq<Db>, ops: seq<Op>, id: int, who: int, t: int, k: nat)
    requires WorkTime.ValidWeek(cfg.week) && IsRun(cfg, states, ops) && Inv(states[0]) && k < |states|
    requires HeldPast(states[0], id, who, t)
    requires forall j :: 0 <= j < |ops| ==> !MayFree(cfg, states[j], ops[j], id, who, t)
    ensures HeldPast(states[k], id, who, t)
  {
    if k > 0 {
      ClaimOutlives(cfg, states, ops, id, who, t, k - 1);
      EveryReachableStateIsSound(cfg, states, ops, k - 1);
      StepHolds(cfg, states[k - 1], ops[k - 1], id, who, t);
    }
  }

  /**
   Once `who`'s claim has succeeded with an expiry past `t`, nobody else's claim succeeds by `t`
   unless something freed the issue in between, and the refusal names the holder.
   */
  lemma ClaimsAreExclusive(
    cfg: Config, db: Db, states: seq<Db>, ops: seq<Op>, id: int, who: int, kind: ActorKind, ttlSeconds: Option<int>,
    at: int,
    other: int, otherKind: ActorKind, otherTtl: Option<int>, t: int)
    requires WorkTime.ValidWeek(cfg.week) && Inv(db)
    requires IsRun(cfg, states, ops) && Claim(db, cfg, id, who, kind, ttlSeconds, at) == Ok(states[0])
    requires t < at + ClaimTtl(cfg, kind, ttlSeconds, at)
    requires forall j :: 0 <= j < |ops| ==> !MayFree(cfg, states[j], ops[j], id, who, t)
    requires other != who
    ensures Claim(states[|ops|], cfg, id, other, otherKind, otherTtl, t) == Err(AlreadyClaimed(who))
  {
    StepKeeps(cfg, db, ClaimOp(id, who, kind, ttlSeconds, at));
    assert RowOk(db.issues[id], id);
    ClaimOutlives(cfg, states, ops, id, who, t, |ops|);
  }

  /** Nobody but the holder can claim the issue before `e`. */
  ghost predicate ExclusiveUntil(cfg: Config, db: Db, id: int, who: int, e: int)
    requires WorkTime.ValidWeek(cfg.week)
  {
    forall other: int, kind: ActorKind, ttl: Option<int>, t: int :: other != who && t < e ==>
                                                                      !Claim(db, cfg, id, other, kind, ttl, t).Ok?
  }

  /** A claim keeps others out exactly until it expires. */
  lemma ExclusiveExactlyUntilExpiry(cfg: Config, db: Db, id: int, who: int, x: int, e: int)
    requires WorkTime.ValidWeek(cfg.week) && id in db.issues
    requires db.issues[id].assignee == Some(who) && db.issues[id].expiresAt == Some(x)
    ensures ExclusiveUntil(cfg, db, id, who, e) <==> e <= x
  {
    if x < e {
      var other := who + 1;
      assert other != who && Claim(db, cfg, id, other, Agent, None, x).Ok?;
    }
  }

  /**
   A lease promised until `e` survives the holder's own heartbeat or renewal at `at` exactly when the new
   lease reaches that far: neither is held to the time already promised.
   */
  lemma RenewalKeepsThePromiseIff(
    cfg: Config, db: Db, id: int, who: int, kind: ActorKind, ttlSeconds: Option<int>, at: int, e: int)
    requires WorkTime.ValidWeek(cfg.week) && Inv(db) && id in db.issues && db.issues[id].assignee == Some(who)
    ensures var touched := Touch(db, cfg, id, who, at);
            touched.Ok? && (ExclusiveUntil(cfg, touched.value, id, who, e) <==>
                            e <= at + TouchTtl(cfg, db.issues[id].actorKind, at))
    ensures var renewed := Claim(db, cfg, id, who, kind, ttlSeconds, at);
            renewed.Ok? && (ExclusiveUntil(cfg, renewed.value, id, who, e) <==>
                            e <= at + ClaimTtl(cfg, kind, ttlSeconds, at))
  {
    IdIsKey(db, id);
    var touched := Touch(db, cfg, id, who, at).value;
    var renewed := Claim(db, cfg, id, who, kind, ttlSeconds, at).value;
    ExclusiveExactlyUntilExpiry(cfg, touched, id, who, at + TouchTtl(cfg, db.issues[id].actorKind, at), e);
    ExclusiveExactlyUntilExpiry(cfg, renewed, id, who, at + ClaimTtl(cfg, kind, ttlSeconds, at), e);
  }

  /** A heartbeat is not clamped to the claim it renews: it can shorten a long lease. */
  lemma TouchCanShortenALease(cfg: Config, db: Db, id: int, who: int, other: int, at: int)
    requires WorkTime.ValidWeek(cfg.week) && cfg.policy == DEFAULT_POLICY && Inv(db)
    requires id in db.issues && !Held(db.issues[id], at) && who != other
    ensures var claimed := Claim(db, cfg, id, who, Agent, Some(604_800), at);
            && claimed.Ok? && claimed.value.issues[id].expiresAt == Some(at + 604_800)
            && var touched := Touch(claimed.value, cfg, id, who, at);
            && touched.Ok? && Claim(touched.value, cfg, id, other, Agent, None, at + 1_800).Ok?
  {
    assert RowOk(db.issues[id], id);
  }

  /** Under the default week and policy the seven-day clamp always binds a human claim; a heartbeat outlasts it. */
  lemma DefaultHumanClaimIsClamped(cfg: Config, at: int)
    requires cfg.policy == DEFAULT_POLICY && cfg.week == WorkTime.DEFAULT_WEEK
    ensures WorkTime.ValidWeek(cfg.week)
    ensures ClaimTtl(cfg, Human, None, at) == 7 * 86_400
    ensures TouchTtl(cfg, Some(Human), at) >= 7 * 86_400 + 8 * 3_600
  {
    WorkLaws.DefaultHumanSpan(at);
  }
}
