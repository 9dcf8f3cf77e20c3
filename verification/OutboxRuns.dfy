/**
 The outbox over whole runs (src/adapter.rs:357-402, 639-700): what is logged becomes due at once, stays as it is
 until something marks it, and is delivered by nothing but a mark.
 */
module OutboxRuns {
  import opened Wrappers
  import opened Domain
  import opened StoreSpec
  import opened StoreInvariant
  import opened StoreEffects
  import opened StoreRuns
  import Store
  import StoreTears
  import WorkTime

  /** A row that was there, or a new one nobody has tried to deliver. */
  ghost predicate LetterFrom(db: Db, next: Db, n: int)
    requires n in next.outbox
  {
    || (n in db.outbox && next.outbox[n] == db.outbox[n])
    || (n > db.audit && next.outbox[n].deliveredAt == None && next.outbox[n].attempts == 0
        && next.outbox[n].nextAttemptAt == next.outbox[n].occurredAt)
  }

  /** Rows are added and removed, none is rewritten. */
  ghost predicate Posts(db: Db, next: Db) {
    db.audit <= next.audit && forall n :: n in next.outbox ==> LetterFrom(db, next, n)
  }

  lemma PostsTrans(a: Db, b: Db, c: Db)
    requires Posts(a, b) && Posts(b, c)
    ensures Posts(a, c)
  {
    forall n | n in c.outbox
      ensures LetterFrom(a, c, n)
    {
      assert LetterFrom(b, c, n);
      assert n in b.outbox ==> LetterFrom(a, b, n);
    }
  }

  lemma LogPosts(db: Db, id: int, at: int, actor: Actor, kind: EventKind)
    ensures Posts(db, LogEvent(db, id, at, actor, kind))
  {
  }

  lemma RowPosts(db: Db, i: Issue, at: int, actor: Actor, kind: EventKind)
    ensures Posts(db, SaveAndLog(db, i, at, actor, kind))
  {
    LogPosts(Save(db, i), i.id, at, actor, kind);
  }

  lemma UpdatePosts(db: Db, cfg: Config, id: int, patch: Patch, actor: Actor, at: int)
    ensures Posts(db, StoreRuns.After(Update(db, cfg, id, patch, actor, at), db))
  {
    if id in db.issues {
      var i := db.issues[id];
      var next := Patched(i, cfg, patch, at);
      var saved := Save(db, next);
      var noted := if next.status != i.status then LogEvent(saved, id, at, actor, StatusChanged) else saved;
      LogPosts(saved, id, at, actor, StatusChanged);
      LogPosts(noted, id, at, actor, Updated);
      assert Posts(db, saved);
      PostsTrans(db, noted, LogEvent(noted, id, at, actor, Updated));
    }
  }

  lemma DepsPost(db: Db, c: int, p: int, actor: Actor, at: int)
    ensures Posts(db, StoreRuns.After(AddDep(db, c, p, actor, at), db)) && Posts(db, RemoveDep(db, c, p, actor, at))
  {
    if c in db.issues {
      RowPosts(db.(deps := db.deps + {(c, p)}), db.issues[c].(updatedAt := at), at, actor, DependsOn);
    }
    LogPosts(db.(deps := db.deps - {(c, p)}), c, at, actor, UnblockedFrom);
  }

  lemma LeasePosts(db: Db, id: int, who: int, kind: ActorKind, ttl: int, actor: Actor, at: int)
    requires id in db.issues
    ensures Posts(db, StoreRuns.After(ClaimFor(db, id, who, kind, ttl, at), db))
    ensures Posts(db, StoreRuns.After(TouchFor(db, id, who, ttl, at), db))
    ensures Posts(db, StoreRuns.After(Release(db, id, actor, at), db))
  {
    RowPosts(db, WithClaim(db.issues[id], who, kind, at + ttl, at), at, Named(who), ClaimTaken);
    RowPosts(db, db.issues[id].(expiresAt := Some(at + ttl), updatedAt := at), at, Named(who), Heartbeat);
    RowPosts(db, WithoutClaim(db.issues[id], at), at, actor, Released);
  }

  lemma {:induction false} SweepPosts(db: Db, ids: seq<int>, at: int)
    ensures Posts(db, SweepAll(db, ids, at))
  {
    if ids != [] {
      var before, id := SweepAll(db, ids[..|ids| - 1], at), ids[|ids| - 1];
      SweepPosts(db, ids[..|ids| - 1], at);
      if id in before.issues {
        LogPosts(before, id, at, Sweeper, Escalated);
        RowPosts(before, WithoutClaim(before.issues[id], at), at, Sweeper, ClaimExpired);
        PostsTrans(db, before, SweepOne(before, id, at));
      }
    }
  }

  lemma ClosePosts(db: Db, id: int, evidence: seq<int>, actor: Actor, at: int)
    ensures Posts(db, StoreRuns.After(CloseUnchecked(db, id, evidence, actor, at), db))
  {
  }

  lemma RelabelPosts(db: Db, id: int, changed: bool, actor: Actor, at: int)
    ensures Posts(db, StoreRuns.After(Relabel(db, id, changed, actor, at), db))
    ensures Posts(db, StoreRuns.After(AddRemoteDep(db, id, actor, at), db))
  {
    if id in db.issues {
      RowPosts(db, db.issues[id], at, actor, Labelled);
      RowPosts(db, db.issues[id].(updatedAt := at), at, actor, DependsOnRemote);
    }
  }

  lemma SupersedePosts(db: Db, id: int, replacement: int, ack: int, changed: bool, actor: Actor, at: int)
    ensures Posts(db, StoreRuns.After(Supersede(db, id, replacement, ack, changed, actor, at), db))
  {
    var closed := CloseUnchecked(db, id, [ack], actor, at);
    if closed.Ok? {
      ClosePosts(db, id, [ack], actor, at);
      RelabelPosts(closed.value, id, changed, actor, at);
      PostsTrans(db, closed.value, StoreRuns.After(Relabel(closed.value, id, changed, actor, at), closed.value));
    }
  }

  lemma LoggedStepPosts(cfg: Config, db: Db, op: Op)
    requires WorkTime.ValidWeek(cfg.week)
    requires op.UpdateOp? || op.AddDepOp? || op.RemoveDepOp? || op.CloseOp? || op.ForceCloseOp? || op.SupersedeOp?
             || op.RelabelOp? || op.RemoteDepOp?
    ensures Posts(db, Step(cfg, db, op))
  {
    match op
    case UpdateOp(id, patch, actor, at) => UpdatePosts(db, cfg, id, patch, actor, at);
    case AddDepOp(c, p, actor, at) => DepsPost(db, c, p, actor, at);
    case RemoveDepOp(c, p, actor, at) => DepsPost(db, c, p, actor, at);
    case CloseOp(id, evidence, actor, at) => ClosePosts(db, id, evidence, actor, at);
    case ForceCloseOp(id, evidence, actor, at) => ClosePosts(db, id, evidence, actor, at);
    case SupersedeOp(id, r, ack, changed, actor, at) => SupersedePosts(db, id, r, ack, changed, actor, at);
    case RelabelOp(id, changed, actor, at) => RelabelPosts(db, id, changed, actor, at);
    case RemoteDepOp(child, actor, at) => RelabelPosts(db, child, false, actor, at);
  }

  lemma LeaseStepPosts(cfg: Config, db: Db, op: Op)
    requires WorkTime.ValidWeek(cfg.week) && (op.ClaimOp? || op.TouchOp? || op.ReleaseOp? || op.SweepOp?)
    ensures Posts(db, Step(cfg, db, op))
  {
    match op
    case ClaimOp(id, who, kind, ttl, at) =>
      if id in db.issues {
        LeasePosts(db, id, who, kind, ClaimTtl(cfg, kind, ttl, at), System, at);
      }
    case TouchOp(id, who, at) =>
      if id in db.issues {
        LeasePosts(db, id, who, Human, TouchTtl(cfg, db.issues[id].actorKind, at), System, at);
      }
    case ReleaseOp(id, actor, at) =>
      if id in db.issues {
        LeasePosts(db, id, 0, Human, 0, actor, at);
      }
    case SweepOp(at) => SweepPosts(db, SweepList(db, at), at);
  }

  /** The one row a mark is about. */
  ghost predicate Marks(op: Op, n: int) {
    (op.DeliveredOp? || op.FailedOp?) && op.number == n
  }

  /** No call but a mark of its own number rewrites a row of the outbox, and every new row is due. */
  lemma StepPosts(cfg: Config, db: Db, op: Op, n: int)
    requires WorkTime.ValidWeek(cfg.week) && Enabled(db, op) && n in Step(cfg, db, op).outbox && !Marks(op, n)
    ensures LetterFrom(db, Step(cfg, db, op), n)
  {
    if op.ClaimOp? || op.TouchOp? || op.ReleaseOp? || op.SweepOp? {
      LeaseStepPosts(cfg, db, op);
    } else if op.UpdateOp? || op.AddDepOp? || op.RemoveDepOp? || op.CloseOp? || op.ForceCloseOp? || op.SupersedeOp?
              || op.RelabelOp? || op.RemoteDepOp? {
      LoggedStepPosts(cfg, db, op);
    } else if op.DeliveredOp? || op.FailedOp? {
      MarkLaw(db, op.number, if op.DeliveredOp? then op.at else op.next, if op.FailedOp? then op.error else 0);
    }
  }

  ghost predicate DeliveredAlready(db: Db, n: int) {
    n in db.outbox && db.outbox[n].deliveredAt.Some?
  }

  lemma LetterInRun(cfg: Config, states: seq<Db>, ops: seq<Op>, k: nat, n: int)
    requires WorkTime.ValidWeek(cfg.week) && IsRun(cfg, states, ops) && k < |ops|
    requires n in states[k + 1].outbox && !Marks(ops[k], n)
    ensures LetterFrom(states[k], states[k + 1], n)
  {
    StepPosts(cfg, states[k], ops[k], n);
  }

  /** A mark leaves a delivered row alone, and delivers only if it says so. */
  lemma MarkInRun(cfg: Config, states: seq<Db>, ops: seq<Op>, k: nat, n: int)
    requires WorkTime.ValidWeek(cfg.week) && IsRun(cfg, states, ops) && k < |ops|
    requires n in states[k + 1].outbox && Marks(ops[k], n)
    ensures n in states[k].outbox
    ensures DeliveredAlready(states[k], n) ==> states[k + 1].outbox[n] == states[k].outbox[n]
    ensures !DeliveredAlready(states[k], n) && DeliveredAlready(states[k + 1], n) ==>
              ops[k].DeliveredOp? && states[k + 1].outbox[n].deliveredAt == Some(ops[k].at)
  {
    var op := ops[k];
    MarkLaw(states[k], n, if op.DeliveredOp? then op.at else op.next, if op.FailedOp? then op.error else 0);
  }

  /** A row delivered in the course of a run was marked so, after it had been written. */
  lemma {:induction false} DeliveredOnlyByMark(
    cfg: Config, states: seq<Db>, ops: seq<Op>, n: int, k: nat)
    returns (j: nat)
    requires WorkTime.ValidWeek(cfg.week) && IsRun(cfg, states, ops) && k < |states|
    requires DeliveredAlready(states[k], n) && !DeliveredAlready(states[0], n)
    ensures j < k && ops[j].DeliveredOp? && ops[j].number == n
    ensures n in states[j].outbox && states[j].outbox[n].deliveredAt == None
    ensures states[k].outbox[n].deliveredAt == Some(ops[j].at)
  {
    if Marks(ops[k - 1], n) {
      MarkInRun(cfg, states, ops, k - 1, n);
    } else {
      LetterInRun(cfg, states, ops, k - 1, n);
    }
    if DeliveredAlready(states[k - 1], n) {
      j := DeliveredOnlyByMark(cfg, states, ops, n, k - 1);
    } else {
      j := k - 1;
    }
  }

  /** Only a mark of its own number changes a row of the outbox. */
  lemma LetterStays(cfg: Config, states: seq<Db>, ops: seq<Op>, i: nat, k: nat, n: int)
    requires WorkTime.ValidWeek(cfg.week) && IsRun(cfg, states, ops) && Inv(states[0]) && i <= k < |states|
    requires n in states[i].outbox && n in states[k].outbox && forall j :: i <= j < k ==> !Marks(ops[j], n)
    ensures states[k].outbox[n] == states[i].outbox[n]
  {
    forall j: nat | i <= j < k
      ensures n <= states[j].audit && Carried(states, j, n)
    {
      NotNewer(cfg, states, ops, i, j, n);
      if n in states[j + 1].outbox {
        LetterInRun(cfg, states, ops, j, n);
      }
    }
    CarriedAlong(states, i, k, n);
  }

  ghost predicate Carried(states: seq<Db>, j: nat, n: int)
    requires j + 1 < |states|
  {
    n in states[j + 1].outbox ==> LetterFrom(states[j], states[j + 1], n)
  }

  lemma {:induction false} CarriedAlong(states: seq<Db>, i: nat, k: nat, n: int)
    requires i <= k < |states| && n in states[i].outbox && n in states[k].outbox
    requires forall j: nat :: i <= j < k ==> n <= states[j].audit && Carried(states, j, n)
    ensures states[k].outbox[n] == states[i].outbox[n]
  {
    if i < k {
      assert Carried(states, k - 1, n);
      CarriedAlong(states, i, k - 1, n);
    }
  }

  lemma NotNewer(cfg: Config, states: seq<Db>, ops: seq<Op>, i: nat, k: nat, n: int)
    requires WorkTime.ValidWeek(cfg.week) && IsRun(cfg, states, ops) && Inv(states[0]) && i <= k < |states|
    requires n in states[i].outbox
    ensures n <= states[k].audit
  {
    EveryReachableStateIsSound(cfg, states, ops, i);
    RunOnward(cfg, states, ops, i, k);
    assert AuditRowOk(states[i], n);
  }

  /** Until it is marked or its issue goes, an entry made in a run is due from the time it was made. */
  lemma EntryStaysDue(
    cfg: Config, states: seq<Db>, ops: seq<Op>, i: nat, k: nat, n: int, id: int, at: int, actor: Actor, kind: EventKind,
    later: int)
    requires WorkTime.ValidWeek(cfg.week) && IsRun(cfg, states, ops) && Inv(states[0]) && i <= k < |states|
    requires Entered(states[i], n, id, at, actor, kind) && n in states[k].outbox && at <= later
    requires forall j :: i <= j < k ==> !Marks(ops[j], n)
    ensures states[k].outbox[n].deliveredAt == None && states[k].outbox[n].nextAttemptAt <= later
  {
    LetterStays(cfg, states, ops, i, k, n);
  }

  /** What was just logged is handed out for delivery, unless as many older rows are due as were asked for. */
  method LogThenPoll(store: Store.Inner, id: int, at: int, actor: Actor, kind: EventKind, limit: nat)
    returns (due: seq<int>)
    requires store.Valid() && id in store.db.issues
    modifies store, store.engine
    ensures store.Valid() && OneEntry(old(store.db), store.db, id, at, actor, kind)
    ensures store.db.audit in due || (|due| == limit && forall m :: m in due ==> m < store.db.audit)
  {
    LogKeeps(store.db, id, at, actor, kind);
    StoreTears.SoundIffWhole(store.db);
    store.LogEvent(id, at, actor, kind);
    due := store.PendingEvents(at, limit);
  }
}
