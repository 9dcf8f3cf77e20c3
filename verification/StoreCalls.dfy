/**
 Runs of the store itself: calling the class operation by operation is exactly what the runs of `StoreRuns` are about.
 */
module StoreCalls {
  import opened Wrappers
  import opened Domain
  import opened StoreSpec
  import opened StoreInvariant
  import opened StoreRuns
  import Store
  import WorkTime

  method CallIssue(store: Store.Inner, op: Op)
    requires store.Valid() && Enabled(store.db, op)
    requires op.CreateOp? || op.UpdateOp? || op.CloseOp? || op.ForceCloseOp? || op.SupersedeOp? || op.RelabelOp?
    modifies store, store.engine
    ensures store.Valid() && store.db == Step(store.cfg, old(store.db), op)
  {
    match op {
      case CreateOp(spec, minted, at) => var _ := store.Create(spec, minted, at);
      case UpdateOp(id, patch, actor, at) => var _ := store.Update(id, patch, actor, at);
      case CloseOp(id, evidence, actor, at) => var _ := store.Close(id, evidence, actor, at);
      case ForceCloseOp(id, evidence, actor, at) => var _ := store.CloseUnchecked(id, evidence, actor, at);
      case SupersedeOp(id, r, ack, changed, actor, at) => var _ := store.Supersede(id, r, ack, changed, actor, at);
      case RelabelOp(id, changed, actor, at) => var _ := store.Relabel(id, changed, actor, at);
    }
  }

  method CallLease(store: Store.Inner, op: Op)
    requires store.Valid() && Enabled(store.db, op)
    requires op.ClaimOp? || op.TouchOp? || op.ReleaseOp? || op.SweepOp?
    modifies store, store.engine
    ensures store.Valid() && store.db == Step(store.cfg, old(store.db), op)
  {
    match op {
      case ClaimOp(id, who, kind, ttl, at) => var _ := store.Claim(id, who, kind, ttl, at);
      case TouchOp(id, who, at) => var _ := store.Touch(id, who, at);
      case ReleaseOp(id, actor, at) => var _ := store.Release(id, actor, at);
      case SweepOp(at) => var _, _ := store.Sweep(at);
    }
  }

  method CallEdge(store: Store.Inner, op: Op)
    requires store.Valid() && Enabled(store.db, op)
    requires op.AddDepOp? || op.RemoveDepOp? || op.RemoteDepOp?
    modifies store, store.engine
    ensures store.Valid() && store.db == Step(store.cfg, old(store.db), op)
  {
    match op {
      case AddDepOp(c, p, actor, at) => var _ := store.AddDep(c, p, actor, at);
      case RemoveDepOp(c, p, actor, at) => store.RemoveDep(c, p, actor, at);
      case RemoteDepOp(child, actor, at) => var _ := store.AddRemoteDep(child, actor, at);
    }
  }

  method CallPlace(store: Store.Inner, op: Op)
    requires store.Valid() && Enabled(store.db, op)
    requires op.EnsureProjectOp? || op.EnsureFolderOp? || op.FileOp? || op.DropOp?
    modifies store, store.engine
    ensures store.Valid() && store.db == Step(store.cfg, old(store.db), op)
  {
    match op {
      case EnsureProjectOp(slug) => store.EnsureProject(slug);
      case EnsureFolderOp(slug, under) => var _ := store.EnsureFolder(slug, under);
      case FileOp(project, folder) => var _ := store.SetProjectFolder(project, folder);
      case DropOp(slug) => var _ := store.DropProject(slug);
    }
  }

  method CallOutbox(store: Store.Inner, op: Op)
    requires store.Valid() && Enabled(store.db, op) && (op.DeliveredOp? || op.FailedOp?)
    modifies store, store.engine
    ensures store.Valid() && store.db == Step(store.cfg, old(store.db), op)
  {
    match op {
      case DeliveredOp(n, at) => store.MarkDelivered(n, at);
      case FailedOp(n, next, error) => store.MarkFailed(n, next, error);
    }
  }

  /** One call of the class, refusals included, is one step of a run. */
  method Call(store: Store.Inner, op: Op)
    requires store.Valid() && Enabled(store.db, op) && !op.ReopenOp?
    modifies store, store.engine
    ensures store.Valid() && store.db == Step(store.cfg, old(store.db), op)
  {
    if op.ClaimOp? || op.TouchOp? || op.ReleaseOp? || op.SweepOp? {
      CallLease(store, op);
    } else if op.AddDepOp? || op.RemoveDepOp? || op.RemoteDepOp? {
      CallEdge(store, op);
    } else if op.CreateOp? || op.UpdateOp? || op.CloseOp? || op.ForceCloseOp? || op.SupersedeOp? || op.RelabelOp? {
      CallIssue(store, op);
    } else if op.DeliveredOp? || op.FailedOp? {
      CallOutbox(store, op);
    } else {
      CallPlace(store, op);
    }
  }

  /**
   A list of calls makes a run, if every id minted for it is not in use when its turn comes; it stops at the first
   that is.
   */
  method CallAll(store: Store.Inner, ops: seq<Op>) returns (done: nat, ghost states: seq<Db>)
    requires store.Valid() && forall k :: 0 <= k < |ops| ==> !ops[k].ReopenOp?
    modifies store, store.engine
    ensures store.Valid() && done <= |ops| && IsRun(store.cfg, states, ops[..done])
    ensures states[0] == old(store.db) && states[done] == store.db
    ensures done < |ops| ==> ops[done].CreateOp? && ops[done].minted in store.db.issues
  {
    done, states := 0, [store.db];
    while done < |ops|
      invariant store.Valid() && done <= |ops| && |states| == done + 1 && IsRun(store.cfg, states, ops[..done])
      invariant states[0] == old(store.db) && states[done] == store.db
    {
      var op := ops[done];
      if op.CreateOp? {
        var taken := store.LoadIssue(op.minted);
        if taken.Some? {
          return;
        }
      }
      Call(store, op);
      OneMoreStep(store.cfg, states, ops[..done], op, store.db);
      assert ops[..done + 1] == ops[..done] + [op];
      done, states := done + 1, states + [store.db];
    }
  }

  lemma OneMoreStep(cfg: Config, states: seq<Db>, ops: seq<Op>, op: Op, next: Db)
    requires WorkTime.ValidWeek(cfg.week) && IsRun(cfg, states, ops)
    requires Enabled(states[|ops|], op) && next == Step(cfg, states[|ops|], op)
    ensures IsRun(cfg, states + [next], ops + [op])
  {
  }
}
