/** The global invariant of the store, and the proof that every operation keeps it. */
module StoreInvariant {
  import opened Wrappers
  import opened Domain
  import opened StoreSpec
  import Graph

  // ----- The invariant -----

  ghost predicate ClaimFieldsTogether(i: Issue) {
    i.assignee.Some? == i.actorKind.Some? == i.expiresAt.Some?
  }

  ghost predicate RowOk(i: Issue, id: int) {
    && i.id == id
    && i.dependencies == []
    && ClaimFieldsTogether(i)
    && (i.status == Closed <==> i.closedAt.Some?)
  }

  ghost predicate RowsOk(db: Db) {
    forall id :: id in db.issues ==> RowOk(db.issues[id], id) && db.issues[id].project in db.projects
  }

  /** Both ends of every dependency are live, and dependencies never loop. */
  ghost predicate DepsOk(db: Db) {
    && (forall c, p :: (c, p) in db.deps ==> c in db.issues && p in db.issues)
    && Graph.Acyclic(db.deps)
  }

  ghost function ParentEdges(issues: map<int, Issue>): (e: Graph.Edges)
    ensures forall c, p :: (c, p) in e <==> c in issues && issues[c].parent == Some(p)
  {
    set id | id in issues && issues[id].parent.Some? :: (id, issues[id].parent.value)
  }

  ghost predicate ParentOk(issues: map<int, Issue>, i: Issue) {
    i.parent.Some? ==> i.parent.value in issues && issues[i.parent.value].project == i.project
  }

  /** Issue parents are live, project-local, and form a forest. */
  ghost predicate ParentsOk(issues: map<int, Issue>) {
    && (forall id :: id in issues ==> ParentOk(issues, issues[id]))
    && Graph.Acyclic(ParentEdges(issues))
  }

  ghost predicate FoldersOk(db: Db) {
    && (forall s :: s in db.folders && db.folders[s].Some? ==> db.folders[s].value in db.folders)
    && (forall p :: p in db.filed ==> db.filed[p] in db.folders)
    && Graph.Acyclic(FolderEdges(db.folders))
  }

  ghost predicate AuditRowOk(db: Db, n: int) {
    && n in db.events && n in db.outbox
    && 0 < n <= db.audit
    && db.outbox[n].number == n
    && db.outbox[n].issueId == db.events[n].issueId
    && db.outbox[n].kind == db.events[n].kind
    && db.events[n].issueId in db.issues
    && db.outbox[n].project == db.issues[db.events[n].issueId].project
  }

  /** Live audit events and live outbox rows correspond one to one. */
  ghost predicate AuditOk(db: Db) {
    db.audit >= 0 && forall n :: n in db.events || n in db.outbox ==> AuditRowOk(db, n)
  }

  ghost predicate Inv(db: Db) {
    RowsOk(db) && DepsOk(db) && ParentsOk(db.issues) && FoldersOk(db) && AuditOk(db)
  }

  // ----- Writes that keep it -----

  /** Rewriting a row without moving it in the hierarchy. */
  lemma SaveKeeps(db: Db, i: Issue)
    requires Inv(db) && i.id in db.issues && RowOk(i, i.id)
    requires i.project == db.issues[i.id].project && i.parent == db.issues[i.id].parent
    ensures Inv(Save(db, i))
  {
    var next := Save(db, i);
    assert ParentEdges(next.issues) == ParentEdges(db.issues);
    forall id | id in next.issues
      ensures ParentOk(next.issues, next.issues[id])
    {
      assert ParentOk(db.issues, db.issues[id]);
    }
    forall n | n in next.events || n in next.outbox
      ensures AuditRowOk(next, n)
    {
      assert AuditRowOk(db, n);
    }
  }

  lemma LogKeeps(db: Db, id: int, at: int, actor: Actor, kind: EventKind)
    requires Inv(db) && id in db.issues
    ensures Inv(LogEvent(db, id, at, actor, kind))
  {
    var next := LogEvent(db, id, at, actor, kind);
    forall n | n in next.events || n in next.outbox
      ensures AuditRowOk(next, n)
    {
      assert n != next.audit ==> AuditRowOk(db, n);
    }
  }

  lemma SaveAndLogKeeps(db: Db, i: Issue, at: int, actor: Actor, kind: EventKind)
    requires Inv(db) && i.id in db.issues && RowOk(i, i.id)
    requires i.project == db.issues[i.id].project && i.parent == db.issues[i.id].parent
    ensures Inv(SaveAndLog(db, i, at, actor, kind))
  {
    SaveKeeps(db, i);
    LogKeeps(Save(db, i), i.id, at, actor, kind);
  }

  /** A new row sits under a live parent and above nothing. */
  lemma InsertKeeps(db: Db, i: Issue)
    requires Inv(db) && i.id !in db.issues && RowOk(i, i.id)
    requires i.project in db.projects && ParentOk(db.issues, i)
    ensures Inv(Save(db, i))
  {
    var next := Save(db, i);
    forall id | id in next.issues
      ensures ParentOk(next.issues, next.issues[id])
    {
      assert id != i.id ==> ParentOk(db.issues, db.issues[id]);
    }
    if i.parent.Some? {
      var e, p := ParentEdges(db.issues), i.parent.value;
      assert ParentEdges(next.issues) == e + {(i.id, p)};
      if Graph.Reach(e, p, i.id) {
        var prev := Graph.LastHop(e, p, i.id);
        assert ParentOk(db.issues, db.issues[prev]);
      }
      Graph.AddEdge(e, i.id, p);
    } else {
      assert ParentEdges(next.issues) == ParentEdges(db.issues);
    }
    forall n | n in next.events || n in next.outbox
      ensures AuditRowOk(next, n)
    {
      assert AuditRowOk(db, n);
    }
  }

  lemma CreateKeeps(db: Db, cfg: Config, spec: NewIssue, minted: int, at: int)
    requires Inv(db) && minted !in db.issues
    ensures var r := Create(db, cfg, spec, minted, at); r.Ok? ==> Inv(r.value)
  {
    if Create(db, cfg, spec, minted, at).Ok? {
      var i := FreshRow(spec, spec.id.GetOr(minted), spec.project.value, cfg, at);
      InsertKeeps(db, i);
      LogKeeps(Save(db, i), i.id, at, spec.createdBy, Created);
    }
  }

  lemma UpdateKeeps(db: Db, cfg: Config, id: int, patch: Patch, actor: Actor, at: int)
    requires Inv(db)
    ensures var r := Update(db, cfg, id, patch, actor, at); r.Ok? ==> Inv(r.value)
  {
    if id in db.issues {
      var i := db.issues[id];
      assert RowOk(i, id);
      var next := Patched(i, cfg, patch, at);
      SaveKeeps(db, next);
      var saved := Save(db, next);
      LogKeeps(saved, id, at, actor, StatusChanged);
      LogKeeps(saved, id, at, actor, Updated);
      LogKeeps(LogEvent(saved, id, at, actor, StatusChanged), id, at, actor, Updated);
    }
  }

  lemma DepWriteKeeps(db: Db, deps: Graph.Edges)
    requires Inv(db) && Graph.Acyclic(deps)
    requires forall c, p :: (c, p) in deps ==> c in db.issues && p in db.issues
    ensures Inv(db.(deps := deps))
  {
    var next := db.(deps := deps);
    forall n | n in next.events || n in next.outbox
      ensures AuditRowOk(next, n)
    {
      assert AuditRowOk(db, n);
    }
  }

  lemma AddDepKeeps(db: Db, child: int, parent: int, actor: Actor, at: int)
    requires Inv(db)
    ensures var r := AddDep(db, child, parent, actor, at); r.Ok? ==> Inv(r.value)
  {
    var r := AddDep(db, child, parent, actor, at);
    if r.Ok? && (child, parent) !in db.deps {
      Graph.AddEdge(db.deps, child, parent);
      var linked := db.(deps := db.deps + {(child, parent)});
      DepWriteKeeps(db, db.deps + {(child, parent)});
      assert RowOk(linked.issues[child], child);
      SaveAndLogKeeps(linked, linked.issues[child].(updatedAt := at), at, actor, DependsOn);
    }
  }

  /** An accepted edge adds itself and nothing else; at most its child's `updatedAt` moves. */
  lemma AddDepEffect(db: Db, c: int, p: int, actor: Actor, at: int)
    requires RowsOk(db)
    ensures var r := AddDep(db, c, p, actor, at);
            && (r.Ok? <==> c != p && c in db.issues && p in db.issues && !Graph.Reach(db.deps, p, c))
            && (r.Ok? ==>
                  && r.value.deps == db.deps + {(c, p)}
                  && r.value.projects == db.projects && r.value.folders == db.folders && r.value.filed == db.filed
                  && (r.value.issues == db.issues || r.value.issues == db.issues[c := db.issues[c].(updatedAt := at)]))
  {
    if c in db.issues {
      IdIsKey(db, c);
      var linked := Save(db.(deps := db.deps + {(c, p)}), db.issues[c].(updatedAt := at));
      assert LogEvent(linked, c, at, actor, DependsOn).(audit := linked.audit, events := linked.events,
        outbox := linked.outbox) == linked;
    }
  }

  lemma IdIsKey(db: Db, id: int)
    requires RowsOk(db) && id in db.issues
    ensures db.issues[id].id == id
  {
    assert RowOk(db.issues[id], id);
  }

  lemma RemoveDepKeeps(db: Db, child: int, parent: int, actor: Actor, at: int)
    requires Inv(db)
    ensures Inv(RemoveDep(db, child, parent, actor, at))
  {
    if (child, parent) in db.deps {
      var fewer := db.deps - {(child, parent)};
      Graph.AcyclicMono(fewer, db.deps);
      DepWriteKeeps(db, fewer);
      LogKeeps(db.(deps := fewer), child, at, actor, UnblockedFrom);
    }
  }

  lemma ClaimKeeps(db: Db, id: int, who: int, kind: ActorKind, ttl: int, at: int)
    requires Inv(db) && id in db.issues
    ensures Inv(SaveAndLog(db, WithClaim(db.issues[id], who, kind, at + ttl, at), at, Named(who), ClaimTaken))
  {
    assert RowOk(db.issues[id], id);
    SaveAndLogKeeps(db, WithClaim(db.issues[id], who, kind, at + ttl, at), at, Named(who), ClaimTaken);
  }

  lemma TouchKeeps(db: Db, id: int, who: int, ttl: int, at: int)
    requires Inv(db) && id in db.issues && db.issues[id].assignee == Some(who)
    ensures Inv(SaveAndLog(db, db.issues[id].(expiresAt := Some(at + ttl), updatedAt := at), at, Named(who), Heartbeat))
  {
    assert RowOk(db.issues[id], id);
    SaveAndLogKeeps(db, db.issues[id].(expiresAt := Some(at + ttl), updatedAt := at), at, Named(who), Heartbeat);
  }

  lemma ReleaseKeeps(db: Db, id: int, actor: Actor, at: int, kind: EventKind)
    requires Inv(db) && id in db.issues
    ensures Inv(SaveAndLog(db, WithoutClaim(db.issues[id], at), at, actor, kind))
  {
    assert RowOk(db.issues[id], id);
    SaveAndLogKeeps(db, WithoutClaim(db.issues[id], at), at, actor, kind);
  }

  lemma {:induction false} SweepKeeps(db: Db, ids: seq<int>, at: int)
    requires Inv(db)
    ensures Inv(SweepAll(db, ids, at))
  {
    if ids != [] {
      var before, id := SweepAll(db, ids[..|ids| - 1], at), ids[|ids| - 1];
      SweepKeeps(db, ids[..|ids| - 1], at);
      if id in before.issues {
        LogKeeps(before, id, at, Sweeper, Escalated);
        ReleaseKeeps(before, id, Sweeper, at, ClaimExpired);
      }
    }
  }

  /** A sweep touches only the issues on its list. */
  lemma {:induction false} SweepLeaves(db: Db, ids: seq<int>, at: int, id: int)
    requires Inv(db) && id in db.issues && id !in ids
    ensures id in SweepAll(db, ids, at).issues && SweepAll(db, ids, at).issues[id] == db.issues[id]
  {
    if ids != [] {
      var before, last := SweepAll(db, ids[..|ids| - 1], at), ids[|ids| - 1];
      SweepLeaves(db, ids[..|ids| - 1], at, id);
      SweepKeeps(db, ids[..|ids| - 1], at);
      assert last in before.issues ==> RowOk(before.issues[last], last);
    }
  }

  /** What one turn of the sweep's loop does. */
  lemma SweepTurn(db: Db, at: int, k: nat)
    requires Inv(db) && k < |SweepList(db, at)|
    ensures var ids := SweepList(db, at);
            var swept, id := SweepAll(db, ids[..k], at), ids[k];
            && id in swept.issues && swept.issues[id] == db.issues[id] && db.issues[id].id == id
            && SweepAll(db, ids[..k + 1], at) == SweepOne(swept, id, at)
            && (forall h ::
                  ByHolder(db, ids[..k + 1], h) ==
                  ByHolder(db, ids[..k], h) + if HumanHolds(db.issues[id]) == h then [id] else [])
  {
    var ids := SweepList(db, at);
    assert ids[..k + 1][..k] == ids[..k];
    assert ids[k] in ids && ids[k] !in ids[..k];
    SweepLeaves(db, ids[..k], at, ids[k]);
    assert RowOk(db.issues[ids[k]], ids[k]);
  }

  lemma CloseKeeps(db: Db, id: int, evidence: seq<int>, actor: Actor, at: int)
    requires Inv(db)
    ensures var r := CloseUnchecked(db, id, evidence, actor, at); r.Ok? ==> Inv(r.value)
  {
    if id in db.issues {
      var i := db.issues[id];
      assert RowOk(i, id);
      SaveAndLogKeeps(db,
                      WithoutClaim(i, at).(evidence := MergeEvidence(i.evidence, evidence), status := Closed,
                      closedAt := Some(at)),
                      at, actor, Finished);
    }
  }

  lemma RelabelKeeps(db: Db, id: int, changed: bool, actor: Actor, at: int)
    requires Inv(db)
    ensures var r := Relabel(db, id, changed, actor, at); r.Ok? ==> Inv(r.value)
  {
    if id in db.issues {
      assert RowOk(db.issues[id], id);
      SaveAndLogKeeps(db, db.issues[id], at, actor, Labelled);
    }
  }

  lemma SupersedeKeeps(db: Db, id: int, replacement: int, ack: int, changed: bool, actor: Actor, at: int)
    requires Inv(db)
    ensures var r := Supersede(db, id, replacement, ack, changed, actor, at); r.Ok? ==> Inv(r.value)
  {
    var closed := CloseUnchecked(db, id, [ack], actor, at);
    if closed.Ok? {
      CloseKeeps(db, id, [ack], actor, at);
      RelabelKeeps(closed.value, id, changed, actor, at);
    }
  }

  lemma RemoteDepKeeps(db: Db, child: int, actor: Actor, at: int)
    requires Inv(db)
    ensures var r := AddRemoteDep(db, child, actor, at); r.Ok? ==> Inv(r.value)
  {
    if child in db.issues {
      assert RowOk(db.issues[child], child);
      SaveAndLogKeeps(db, db.issues[child].(updatedAt := at), at, actor, DependsOnRemote);
    }
  }

  lemma FoldersStay(db: Db, slug: int, parent: Option<int>)
    requires FoldersOk(db)
    ensures var r := EnsureFolder(db, slug, parent); r.Ok? ==> FoldersOk(r.value)
  {
    var r := EnsureFolder(db, slug, parent);
    if r.Ok? {
      var e := FolderEdges(db.folders - {slug});
      assert e <= FolderEdges(db.folders);
      Graph.AcyclicMono(e, FolderEdges(db.folders));
      if parent.Some? {
        assert FolderEdges(r.value.folders) == e + {(slug, parent.value)};
        if Graph.Reach(e, parent.value, slug) {
          Graph.ReachMono(e, FolderEdges(db.folders), parent.value, slug);
        }
        Graph.AddEdge(e, slug, parent.value);
      } else {
        assert FolderEdges(r.value.folders) == e;
      }
    }
  }

  lemma FolderKeeps(db: Db, slug: int, parent: Option<int>)
    requires Inv(db)
    ensures var r := EnsureFolder(db, slug, parent); r.Ok? ==> Inv(r.value)
  {
    var r := EnsureFolder(db, slug, parent);
    FoldersStay(db, slug, parent);
    if r.Ok? {
      forall n | n in r.value.events || n in r.value.outbox
        ensures AuditRowOk(r.value, n)
      {
        assert AuditRowOk(db, n);
      }
    }
  }

  lemma ProjectKeeps(db: Db, slug: int)
    requires Inv(db)
    ensures Inv(EnsureProject(db, slug))
  {
    var next := EnsureProject(db, slug);
    forall n | n in next.events || n in next.outbox
      ensures AuditRowOk(next, n)
    {
      assert AuditRowOk(db, n);
    }
  }

  lemma FilingKeeps(db: Db, project: int, folder: Option<int>)
    requires Inv(db)
    ensures var r := SetProjectFolder(db, project, folder); r.Ok? ==> Inv(r.value)
  {
    var r := SetProjectFolder(db, project, folder);
    if r.Ok? {
      forall n | n in r.value.events || n in r.value.outbox
        ensures AuditRowOk(r.value, n)
      {
        assert AuditRowOk(db, n);
      }
    }
  }

  /** A project takes its whole part of the hierarchy with it, so no live row is left pointing at it. */
  lemma DropKeeps(db: Db, slug: int)
    requires Inv(db)
    ensures var r := DropProject(db, slug); r.Ok? ==> Inv(r.value)
  {
    var r := DropProject(db, slug);
    if r.Ok? {
      var next, mine := r.value, IssuesOf(db, slug);
      Graph.AcyclicMono(next.deps, db.deps);
      assert ParentEdges(next.issues) <= ParentEdges(db.issues);
      Graph.AcyclicMono(ParentEdges(next.issues), ParentEdges(db.issues));
      forall id | id in next.issues
        ensures ParentOk(next.issues, next.issues[id])
      {
        assert ParentOk(db.issues, db.issues[id]);
      }
      forall n | n in next.events || n in next.outbox
        ensures AuditRowOk(next, n)
      {
        assert AuditRowOk(db, n);
      }
    }
  }

  lemma MarksKeep(db: Db, n: int, at: int, error: int)
    requires Inv(db)
    ensures Inv(MarkDelivered(db, n, at)) && Inv(MarkFailed(db, n, at, error))
  {
    var a, b := MarkDelivered(db, n, at), MarkFailed(db, n, at, error);
    forall k | k in db.events || k in db.outbox
      ensures AuditRowOk(a, k) && AuditRowOk(b, k)
    {
      assert AuditRowOk(db, k);
    }
  }

  lemma EmptyStoreIsSound()
    ensures Inv(EMPTY_DB)
  {
    Graph.RankedIsAcyclic({}, map[]);
    assert ParentEdges(EMPTY_DB.issues) == {} && FolderEdges(EMPTY_DB.folders) == {};
  }

  /** What reopening does to the visible state. */
  lemma ReopenKeeps(db: Db, counter: int)
    requires Inv(db) && counter >= db.audit
    ensures Inv(db.(audit := counter))
  {
    var next := db.(audit := counter);
    forall n | n in next.events || n in next.outbox
      ensures AuditRowOk(next, n)
    {
      assert AuditRowOk(db, n);
    }
  }
}
