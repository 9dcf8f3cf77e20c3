/**
 What every call of the store leaves in the rows, field by field, so that each operation is pinned down without
 reference to the function that specifies it (src/adapter.rs).
 */
module StoreEffects {
  import opened Wrappers
  import opened Domain
  import opened StoreSpec
  import opened StoreInvariant
  import Graph
  import Ordered
  import WorkTime

  // ----- The log -----

  /** Number `n` is an event about the issue and a row of the outbox that is due from `at` on. */
  ghost predicate Entered(db: Db, n: int, id: int, at: int, actor: Actor, kind: EventKind) {
    && n in db.events && n in db.outbox && id in db.issues
    && db.events[n].issueId == id && db.events[n].at == at && db.events[n].actor == actor && db.events[n].kind == kind
    && db.outbox[n].number == n && db.outbox[n].issueId == id && db.outbox[n].project == db.issues[id].project
    && db.outbox[n].occurredAt == at && db.outbox[n].kind == kind
    && db.outbox[n].nextAttemptAt == at && db.outbox[n].deliveredAt == None
    && db.outbox[n].attempts == 0 && db.outbox[n].lastError == None
  }

  /** Exactly one entry more in the history and the outbox, under the next number. */
  ghost predicate OneEntry(db: Db, next: Db, id: int, at: int, actor: Actor, kind: EventKind) {
    && next.audit == db.audit + 1 && Entered(next, next.audit, id, at, actor, kind)
    && next.events.Keys == db.events.Keys + {next.audit} && next.outbox.Keys == db.outbox.Keys + {next.audit}
    && (forall n :: n in db.events && n != next.audit ==> next.events[n] == db.events[n])
    && forall n :: n in db.outbox && n != next.audit ==> next.outbox[n] == db.outbox[n]
  }

  ghost predicate NoEntry(db: Db, next: Db) {
    next.audit == db.audit && next.events == db.events && next.outbox == db.outbox
  }

  lemma LogLaw(db: Db, id: int, at: int, actor: Actor, kind: EventKind)
    requires id in db.issues
    ensures var next := LogEvent(db, id, at, actor, kind);
            && OneEntry(db, next, id, at, actor, kind)
            && next.issues == db.issues && SameElsewhere(db, next) && next.deps == db.deps
  {
  }

  /** A new entry is waiting to be sent from the moment it was made, until something marks it. */
  lemma NewEntryIsDue(db: Db, n: int, id: int, at: int, actor: Actor, kind: EventKind, later: int)
    requires Entered(db, n, id, at, actor, kind) && at <= later
    ensures IsPending(db.outbox[n], later)
  {
  }

  // ----- Frames -----

  ghost predicate SameElsewhere(db: Db, next: Db) {
    next.projects == db.projects && next.folders == db.folders && next.filed == db.filed
  }

  /** Of the issues only `id` may have changed, and nothing but issues, history and outbox has. */
  ghost predicate OnlyRow(db: Db, next: Db, id: int) {
    && SameElsewhere(db, next) && next.deps == db.deps && next.issues.Keys == db.issues.Keys
    && forall x :: x in db.issues && x != id ==> next.issues[x] == db.issues[x]
  }

  /** What no update of a row ever touches. */
  ghost predicate SameIdentity(i: Issue, j: Issue) {
    && j.id == i.id && j.project == i.project && j.isGoal == i.isGoal && j.parent == i.parent
    && j.createdAt == i.createdAt && j.dependencies == i.dependencies
  }

  ghost predicate SameContent(i: Issue, j: Issue) {
    && j.status == i.status && j.priority == i.priority && j.availableAt == i.availableAt
    && j.closedAt == i.closedAt && j.evidence == i.evidence && j.metadata == i.metadata
  }

  ghost predicate SameClaim(i: Issue, j: Issue) {
    j.assignee == i.assignee && j.actorKind == i.actorKind && j.expiresAt == i.expiresAt
  }

  lemma RowLaw(db: Db, i: Issue, at: int, actor: Actor, kind: EventKind)
    ensures var next := SaveAndLog(db, i, at, actor, kind);
            && OneEntry(db, next, i.id, at, actor, kind)
            && next.issues == db.issues[i.id := i] && SameElsewhere(db, next) && next.deps == db.deps
            && (i.id in db.issues ==> OnlyRow(db, next, i.id))
  {
    LogLaw(Save(db, i), i.id, at, actor, kind);
  }

  // ----- Create and update -----

  /** A create is accepted exactly into a known project, under a live parent of it, with an id not in use. */
  lemma CreateVerdict(db: Db, cfg: Config, spec: NewIssue, minted: int, at: int)
    requires minted !in db.issues
    ensures var id := if spec.id.Some? then spec.id.value else minted;
            Create(db, cfg, spec, minted, at).Ok? <==>
            && spec.project.Some? && spec.project.value in db.projects && id !in db.issues
            && (spec.parent.Some? ==>
                  spec.parent.value in db.issues && db.issues[spec.parent.value].project == spec.project.value)
  {
  }

  lemma CreateLaw(db: Db, cfg: Config, spec: NewIssue, minted: int, at: int)
    requires minted !in db.issues
    ensures var r := Create(db, cfg, spec, minted, at);
            var id := if spec.id.Some? then spec.id.value else minted;
            && (r.Ok? ==> CreatedRow(db, r.value, cfg, spec, id, at))
            && (r.Err? && spec.project.Some? && spec.project.value !in db.projects ==>
                  r.error == NoProject(spec.project.value))
  {
    CreateVerdict(db, cfg, spec, minted, at);
    if Create(db, cfg, spec, minted, at).Ok? {
      RowLaw(db, FreshRow(spec, spec.id.GetOr(minted), spec.project.value, cfg, at), at, spec.createdBy, Created);
    }
  }

  /**
   The new row is open and unclaimed, carries what was asked for, and waits out the creation grace unless told when.
   */
  ghost predicate CreatedRow(db: Db, next: Db, cfg: Config, spec: NewIssue, id: int, at: int) {
    && next.issues.Keys == db.issues.Keys + {id} && id !in db.issues
    && (forall x :: x in db.issues ==> next.issues[x] == db.issues[x])
    && SameElsewhere(db, next) && next.deps == db.deps && OneEntry(db, next, id, at, spec.createdBy, Created)
    && var j := next.issues[id];
    && j.id == id && Some(j.project) == spec.project && j.status == Open && j.isGoal == spec.isGoal
    && j.parent == spec.parent && j.metadata == spec.metadata && j.evidence == [] && j.closedAt == None
    && j.assignee == None && j.actorKind == None && j.expiresAt == None
    && (spec.priority != 0 ==> j.priority == spec.priority) && (spec.priority == 0 ==> j.priority == 2)
    && (spec.availableAt.Some? ==> j.availableAt == spec.availableAt)
    && (spec.availableAt.None? ==> j.availableAt == Some(at + cfg.policy.creationGrace))
    && j.createdAt == at && j.updatedAt == at && j.dependencies == []
  }

  /** A key of the metadata after a patch: kept, cleared, or as set. */
  ghost predicate KeyPatched<T>(before: Option<T>, change: Change<T>, now: Option<T>) {
    match change
    case Keep => now == before
    case Clear => now.None?
    case Set(v) => now.Some? && now.value == v
  }

  ghost predicate MetadataPatched(m: Metadata, p: MetaPatch, n: Metadata) {
    && KeyPatched(m.plan, p.plan, n.plan) && KeyPatched(m.key, p.key, n.key)
    && KeyPatched(m.group, p.group, n.group) && KeyPatched(m.estimate, p.estimate, n.estimate)
    && (p.imported.Keep? ==> n.imported == m.imported) && (p.imported.Clear? ==> !n.imported)
    && (p.imported.Set? ==> n.imported == p.imported.value)
  }

  /** Without a gate of its own an edit defers the issue, and never brings forward a later gate it had. */
  ghost predicate GateMoved(i: Issue, j: Issue, cfg: Config, at: int) {
    && j.availableAt.Some? && j.availableAt.value >= at + cfg.policy.editDeferral
    && (i.availableAt.Some? ==> j.availableAt.value >= i.availableAt.value)
    && (i.availableAt.Some? && i.availableAt.value >= 0 ==>
          j.availableAt.value == at + cfg.policy.editDeferral || j.availableAt == i.availableAt)
    && (i.availableAt.None? && at + cfg.policy.editDeferral >= 0 ==>
          j.availableAt.value == at + cfg.policy.editDeferral)
  }

  /** What a patch does to a row. */
  ghost predicate RowPatched(i: Issue, j: Issue, cfg: Config, patch: Patch, at: int) {
    && SameIdentity(i, j) && SameClaim(i, j) && j.updatedAt == at
    && j.status == (if patch.status.Some? then patch.status.value else i.status)
    && j.priority == (if patch.priority.Some? then patch.priority.value else i.priority)
    && j.evidence == (if patch.evidence.Some? then patch.evidence.value else i.evidence)
    && (patch.metadata.None? ==> j.metadata == i.metadata)
    && (patch.metadata.Some? ==> MetadataPatched(i.metadata, patch.metadata.value, j.metadata))
    && (patch.availableAt.Some? ==> j.availableAt == patch.availableAt)
    && (patch.availableAt.None? ==> GateMoved(i, j, cfg, at))
    && (patch.status.None? ==> j.closedAt == i.closedAt)
    && (patch.status == Some(Closed) ==> j.closedAt == Some(at))
    && (patch.status.Some? && patch.status != Some(Closed) ==> j.closedAt == None)
  }

  lemma PatchLaw(i: Issue, cfg: Config, patch: Patch, at: int)
    ensures RowPatched(i, Patched(i, cfg, patch, at), cfg, patch, at)
  {
  }

  ghost predicate UpdatedRow(db: Db, next: Db, cfg: Config, id: int, patch: Patch, actor: Actor, at: int)
    requires id in db.issues
  {
    && OnlyRow(db, next, id) && RowPatched(db.issues[id], next.issues[id], cfg, patch, at)
    && Entered(next, next.audit, id, at, actor, Updated)
    && if next.issues[id].status == db.issues[id].status then
         next.audit == db.audit + 1
       else
         next.audit == db.audit + 2 && Entered(next, db.audit + 1, id, at, actor, StatusChanged)
  }

  /** An update is refused only on an unknown issue. */
  lemma UpdateLaw(db: Db, cfg: Config, id: int, patch: Patch, actor: Actor, at: int)
    requires Inv(db)
    ensures var r := Update(db, cfg, id, patch, actor, at);
            (r.Ok? <==> id in db.issues) && (r.Ok? ==> UpdatedRow(db, r.value, cfg, id, patch, actor, at))
  {
    if id in db.issues {
      IdIsKey(db, id);
      var i := db.issues[id];
      var j := Patched(i, cfg, patch, at);
      PatchLaw(i, cfg, patch, at);
      var saved := Save(db, j);
      LogLaw(saved, id, at, actor, StatusChanged);
      var noted := if j.status != i.status then LogEvent(saved, id, at, actor, StatusChanged) else saved;
      LogLaw(noted, id, at, actor, Updated);
    }
  }

  // ----- Dependencies -----

  /** An edge that is new touches its child and makes one entry; one that is there already changes nothing. */
  lemma AddDepLaw(db: Db, child: int, parent: int, actor: Actor, at: int)
    requires Inv(db) && AddDep(db, child, parent, actor, at).Ok?
    ensures child in db.issues
    ensures var next := AddDep(db, child, parent, actor, at).value;
            && ((child, parent) in db.deps ==> next == db)
            && ((child, parent) !in db.deps ==>
                  && OneEntry(db, next, child, at, actor, DependsOn) && next.issues.Keys == db.issues.Keys
                  && var i, j := db.issues[child], next.issues[child];
                  SameIdentity(i, j) && SameContent(i, j) && SameClaim(i, j) && j.updatedAt == at)
  {
    IdIsKey(db, child);
    if (child, parent) !in db.deps {
      RowLaw(db.(deps := db.deps + {(child, parent)}), db.issues[child].(updatedAt := at), at, actor, DependsOn);
    }
  }

  lemma AddDepRefusals(db: Db, child: int, parent: int, actor: Actor, at: int)
    requires AddDep(db, child, parent, actor, at).Err?
    ensures AddDep(db, child, parent, actor, at).error ==
            if child == parent then Cycle
            else if child !in db.issues then NotFound(child)
            else if parent !in db.issues then NotFound(parent)
            else Cycle
  {
  }

  lemma RemoveDepLaw(db: Db, child: int, parent: int, actor: Actor, at: int)
    requires Inv(db)
    ensures var next := RemoveDep(db, child, parent, actor, at);
            && next.deps == db.deps - {(child, parent)} && next.issues == db.issues && SameElsewhere(db, next)
            && ((child, parent) in db.deps ==> OneEntry(db, next, child, at, actor, UnblockedFrom))
            && ((child, parent) !in db.deps ==> NoEntry(db, next))
  {
  }

  // ----- Claims -----

  /** A claim is refused exactly on an unknown issue or while someone else's lease runs. */
  lemma ClaimLaw(db: Db, id: int, who: int, kind: ActorKind, ttl: int, at: int)
    requires Inv(db)
    ensures var r := ClaimFor(db, id, who, kind, ttl, at);
            && (r.Ok? <==>
                && id in db.issues
                && !(var i := db.issues[id];
                     i.assignee.Some? && i.assignee != Some(who) && i.expiresAt.Some? && at < i.expiresAt.value))
            && (r.Ok? ==>
                  && OnlyRow(db, r.value, id) && OneEntry(db, r.value, id, at, Named(who), ClaimTaken)
                  && var i, j := db.issues[id], r.value.issues[id];
                  && SameIdentity(i, j) && SameContent(i, j) && j.updatedAt == at
                  && j.assignee == Some(who) && j.actorKind == Some(kind) && j.expiresAt == Some(at + ttl))
            && (r.Err? && id in db.issues ==>
                  r.error.AlreadyClaimed? && db.issues[id].assignee == Some(r.error.holder))
  {
    if id in db.issues {
      IdIsKey(db, id);
      RowLaw(db, WithClaim(db.issues[id], who, kind, at + ttl, at), at, Named(who), ClaimTaken);
    }
  }

  /**
   Every lease is what was asked for, or the default, cut to the policy's maximum; people are counted in working time.
   */
  lemma ClaimTtlLaw(cfg: Config, kind: ActorKind, ttlSeconds: Option<int>, at: int)
    requires WorkTime.ValidWeek(cfg.week)
    ensures var ttl, most := ClaimTtl(cfg, kind, ttlSeconds, at), cfg.policy.maxTtl;
            && ttl <= most
            && (kind == Agent && ttlSeconds.Some? ==>
                  ttl <= ttlSeconds.value && (ttl == ttlSeconds.value || ttl == most))
            && (kind == Agent && ttlSeconds.None? ==>
                  ttl <= cfg.policy.agentTtl && (ttl == cfg.policy.agentTtl || ttl == most))
            && (kind == Human && ttlSeconds.Some? ==>
                  forall minutes ::
                    minutes >= 1 && (minutes == ttlSeconds.value / 60 || (minutes == 1 && ttlSeconds.value < 60)) ==>
                      CutTo(ttl, WorkTime.Deadline(cfg.week, at, minutes) - at, most))
            && (kind == Human && ttlSeconds.None? ==>
                  CutTo(ttl, WorkTime.Deadline(cfg.week, at, cfg.policy.humanHours * 60) - at, most))
  {
  }

  /** The smaller of the two. */
  ghost predicate CutTo(ttl: int, wanted: int, most: int) {
    ttl <= wanted && ttl <= most && (ttl == wanted || ttl == most)
  }

  lemma TouchLaw(db: Db, cfg: Config, id: int, who: int, at: int)
    requires WorkTime.ValidWeek(cfg.week) && Inv(db)
    ensures var r := Touch(db, cfg, id, who, at);
            && (r.Ok? <==> id in db.issues && db.issues[id].assignee == Some(who))
            && (r.Ok? ==>
                  && OnlyRow(db, r.value, id) && OneEntry(db, r.value, id, at, Named(who), Heartbeat)
                  && var i, j := db.issues[id], r.value.issues[id];
                  && SameIdentity(i, j) && SameContent(i, j) && j.updatedAt == at
                  && j.assignee == i.assignee && j.actorKind == i.actorKind
                  && (i.actorKind != Some(Human) ==> j.expiresAt == Some(at + cfg.policy.agentTtl))
                  && (i.actorKind == Some(Human) ==>
                        j.expiresAt == Some(WorkTime.Deadline(cfg.week, at, cfg.policy.humanHours * 60))))
  {
    if id in db.issues {
      IdIsKey(db, id);
    }
  }

  ghost predicate Unclaimed(i: Issue) {
    i.assignee == None && i.actorKind == None && i.expiresAt == None
  }

  lemma ReleaseLaw(db: Db, id: int, actor: Actor, at: int)
    requires Inv(db)
    ensures var r := Release(db, id, actor, at);
            && (r.Ok? <==> id in db.issues)
            && (r.Ok? ==>
                  && OnlyRow(db, r.value, id) && OneEntry(db, r.value, id, at, actor, Released)
                  && var i, j := db.issues[id], r.value.issues[id];
                  SameIdentity(i, j) && SameContent(i, j) && Unclaimed(j) && j.updatedAt == at)
  {
    if id in db.issues {
      IdIsKey(db, id);
      RowLaw(db, WithoutClaim(db.issues[id], at), at, actor, Released);
    }
  }

  // ----- Closing -----

  /** Old evidence stays in front; everything new is there; nothing else is, and nothing new twice. */
  lemma {:induction false} EvidenceLaw(have: seq<int>, add: seq<int>)
    ensures var all := MergeEvidence(have, add);
            && have <= all
            && (forall e :: e in all <==> e in have || e in add)
            && forall k, l :: 0 <= k < l < |all| && |have| <= l ==> all[k] != all[l]
    decreases |add|
  {
    if add != [] {
      EvidenceLaw(if add[0] in have then have else have + [add[0]], add[1..]);
    }
  }

  lemma CloseLaw(db: Db, id: int, evidence: seq<int>, actor: Actor, at: int)
    requires Inv(db)
    ensures var r := CloseUnchecked(db, id, evidence, actor, at);
            (r.Ok? <==> id in db.issues) && (r.Ok? ==> ClosedRow(db, r.value, id, evidence, actor, at))
  {
    if id in db.issues {
      IdIsKey(db, id);
      EvidenceLaw(db.issues[id].evidence, evidence);
    }
  }

  ghost predicate ClosedRow(db: Db, next: Db, id: int, evidence: seq<int>, actor: Actor, at: int)
    requires id in db.issues
  {
    && OnlyRow(db, next, id) && OneEntry(db, next, id, at, actor, Finished)
    && var i, j := db.issues[id], next.issues[id];
    && SameIdentity(i, j) && Unclaimed(j) && j.updatedAt == at
    && j.status == Closed && j.closedAt == Some(at)
    && j.priority == i.priority && j.availableAt == i.availableAt && j.metadata == i.metadata
    && i.evidence <= j.evidence
    && (forall e :: e in j.evidence <==> e in i.evidence || e in evidence)
    && forall k, l :: 0 <= k < l < |j.evidence| && |i.evidence| <= l ==> j.evidence[k] != j.evidence[l]
  }

  /** Done needs evidence, and every dependency that is there closed. */
  lemma MayCloseLaw(db: Db, id: int, evidence: seq<int>)
    ensures MayClose(db, id, evidence) <==>
            && |evidence| > 0 && id in db.issues
            && forall p :: (id, p) in db.deps && p in db.issues ==> db.issues[p].status == Closed
  {
    assert forall p :: OpenBlocker(db, id, p) <==>
                       (id, p) in db.deps && p in db.issues && db.issues[p].status != Closed;
  }

  /** A label edit that changes something is one entry, and otherwise nothing at all. */
  lemma RelabelLaw(db: Db, id: int, changed: bool, actor: Actor, at: int)
    requires Inv(db)
    ensures var r := Relabel(db, id, changed, actor, at);
            && (r.Ok? <==> id in db.issues)
            && (r.Ok? ==> r.value.issues == db.issues && r.value.deps == db.deps && SameElsewhere(db, r.value))
            && (r.Ok? && changed ==> OneEntry(db, r.value, id, at, actor, Labelled))
            && (r.Ok? && !changed ==> NoEntry(db, r.value))
  {
    if id in db.issues {
      IdIsKey(db, id);
      assert db.issues[id := db.issues[id]] == db.issues;
    }
  }

  /** Superseding needs both issues known and nothing else; it closes the one and leaves the other alone. */
  lemma SupersedeLaw(db: Db, id: int, replacement: int, ack: int, changed: bool, actor: Actor, at: int)
    requires Inv(db)
    ensures var r := Supersede(db, id, replacement, ack, changed, actor, at);
            && (r.Ok? <==> id in db.issues && replacement in db.issues)
            && (r.Ok? ==>
                  && OnlyRow(db, r.value, id) && Entered(r.value, db.audit + 1, id, at, actor, Finished)
                  && r.value.audit == (if changed then db.audit + 2 else db.audit + 1)
                  && (changed ==> Entered(r.value, db.audit + 2, id, at, actor, Labelled))
                  && r.value.issues[id].status == Closed && r.value.issues[id].closedAt == Some(at)
                  && Unclaimed(r.value.issues[id]) && ack in r.value.issues[id].evidence)
  {
    if id in db.issues && replacement in db.issues {
      CloseLaw(db, id, [ack], actor, at);
      CloseKeeps(db, id, [ack], actor, at);
      assert [ack][0] in [ack];
      ClosedThenLabelled(db, CloseUnchecked(db, id, [ack], actor, at).value, id, ack, changed, actor, at);
    }
  }

  lemma ClosedThenLabelled(db: Db, closed: Db, id: int, ack: int, changed: bool, actor: Actor, at: int)
    requires id in db.issues && Inv(closed) && ClosedRow(db, closed, id, [ack], actor, at)
    ensures var r := Relabel(closed, id, changed, actor, at);
            && r.Ok? && OnlyRow(db, r.value, id) && r.value.issues[id] == closed.issues[id]
            && Entered(r.value, db.audit + 1, id, at, actor, Finished)
            && r.value.audit == (if changed then db.audit + 2 else db.audit + 1)
            && (changed ==> Entered(r.value, db.audit + 2, id, at, actor, Labelled))
  {
    RelabelLaw(closed, id, changed, actor, at);
  }

  lemma RemoteDepLaw(db: Db, child: int, actor: Actor, at: int)
    requires Inv(db)
    ensures var r := AddRemoteDep(db, child, actor, at);
            && (r.Ok? <==> child in db.issues)
            && (r.Ok? ==>
                  && OnlyRow(db, r.value, child) && OneEntry(db, r.value, child, at, actor, DependsOnRemote)
                  && var i, j := db.issues[child], r.value.issues[child];
                  SameIdentity(i, j) && SameContent(i, j) && SameClaim(i, j) && j.updatedAt == at)
  {
    if child in db.issues {
      IdIsKey(db, child);
    }
  }

  // ----- Projects, folders, outbox -----

  lemma FolderLaw(db: Db, slug: int, parent: Option<int>)
    ensures var r := EnsureFolder(db, slug, parent);
            && (r.Ok? ==>
                  && slug in r.value.folders && r.value.folders[slug] == parent
                  && r.value.folders.Keys == db.folders.Keys + {slug}
                  && (forall s :: s in db.folders && s != slug ==> r.value.folders[s] == db.folders[s])
                  && r.value.issues == db.issues && r.value.projects == db.projects && r.value.filed == db.filed
                  && r.value.deps == db.deps && NoEntry(db, r.value))
            && (r.Ok? <==>
                (parent.Some? ==>
                   && parent.value != slug && parent.value in db.folders
                   && !Graph.Reach(FolderEdges(db.folders), parent.value, slug)))
  {
  }

  lemma FilingLaw(db: Db, project: int, folder: Option<int>)
    ensures var r := SetProjectFolder(db, project, folder);
            && (r.Ok? <==> project in db.projects && (folder.Some? ==> folder.value in db.folders))
            && (r.Ok? ==>
                  && (project in r.value.filed <==> folder.Some?)
                  && (folder.Some? ==> r.value.filed[project] == folder.value)
                  && (forall p :: p != project ==> (p in r.value.filed <==> p in db.filed))
                  && (forall p :: p != project && p in db.filed ==> r.value.filed[p] == db.filed[p])
                  && r.value.issues == db.issues && r.value.projects == db.projects && r.value.folders == db.folders
                  && r.value.deps == db.deps && NoEntry(db, r.value))
  {
  }

  lemma ProjectLaw(db: Db, slug: int)
    ensures var next := EnsureProject(db, slug);
            && next.projects == db.projects + {slug} && next.issues == db.issues && next.folders == db.folders
            && next.filed == db.filed && next.deps == db.deps && NoEntry(db, next)
  {
  }

  /** Dropping a project takes exactly its issues, their edges, history and outbox rows, and the project. */
  lemma DropLaw(db: Db, slug: int)
    ensures var r := DropProject(db, slug);
            && (r.Ok? <==> slug in db.projects)
            && (r.Ok? ==>
                  && r.value.projects == db.projects - {slug}
                  && r.value.folders == db.folders && r.value.filed == db.filed && r.value.audit == db.audit
                  && (forall id :: id in r.value.issues <==> id in db.issues && db.issues[id].project != slug)
                  && (forall id :: id in r.value.issues ==> r.value.issues[id] == db.issues[id])
                  && (forall c, p :: (c, p) in r.value.deps <==>
                                     (c, p) in db.deps && !InProject(db, slug, c) && !InProject(db, slug, p))
                  && (forall n :: n in r.value.events <==> n in db.events && !InProject(db, slug, db.events[n].issueId))
                  && (forall n :: n in r.value.events ==> r.value.events[n] == db.events[n])
                  && (forall n :: n in r.value.outbox <==> n in db.outbox && !InProject(db, slug, db.outbox[n].issueId))
                  && forall n :: n in r.value.outbox ==> r.value.outbox[n] == db.outbox[n])
  {
  }

  ghost predicate InProject(db: Db, slug: int, id: int) {
    id in db.issues && db.issues[id].project == slug
  }

  /**
   A mark touches one undelivered row: delivered for good, or put off with the error noted; each counts an attempt.
   */
  lemma MarkLaw(db: Db, n: int, at: int, error: int)
    ensures var a, b := MarkDelivered(db, n, at), MarkFailed(db, n, at, error);
            && a.outbox.Keys == db.outbox.Keys == b.outbox.Keys
            && a == db.(outbox := a.outbox) && b == db.(outbox := b.outbox)
            && (forall m :: m in db.outbox && (m != n || db.outbox[m].deliveredAt.Some?) ==>
                              a.outbox[m] == db.outbox[m] && b.outbox[m] == db.outbox[m])
            && (n in db.outbox && db.outbox[n].deliveredAt.None? ==>
                  && SameLetter(db.outbox[n], a.outbox[n]) && SameLetter(db.outbox[n], b.outbox[n])
                  && a.outbox[n].deliveredAt == Some(at) && a.outbox[n].lastError == None
                  && a.outbox[n].nextAttemptAt == db.outbox[n].nextAttemptAt
                  && b.outbox[n].deliveredAt == None && b.outbox[n].lastError == Some(error)
                  && b.outbox[n].nextAttemptAt == at)
  {
  }

  ghost predicate SameLetter(o: Outbox, p: Outbox) {
    && p.number == o.number && p.issueId == o.issueId && p.project == o.project && p.occurredAt == o.occurredAt
    && p.kind == o.kind && p.attempts == o.attempts + 1
  }

  // ----- Sweeping -----

  ghost predicate HasLapsed(i: Issue, at: int) {
    i.assignee.Some? && i.expiresAt.Some? && i.expiresAt.value <= at
  }

  /**
   What a sweep at `at` leaves of one issue: a lapsed lease of a person is reported and kept, any other is cleared.
   */
  ghost predicate SweptRow(i: Issue, j: Issue, at: int) {
    if HasLapsed(i, at) && i.actorKind != Some(Human) then
      SameIdentity(i, j) && SameContent(i, j) && Unclaimed(j) && j.updatedAt == at
    else
      j == i
  }

  /** A person's lapsed claim is escalated; any other expires. */
  function KindOf(i: Issue): EventKind {
    if i.actorKind == Some(Human) then Escalated else ClaimExpired
  }

  /** The sweep made an entry of this kind about the issue. */
  ghost predicate Reported(db: Db, next: Db, id: int, at: int, kind: EventKind) {
    exists n :: db.audit < n <= next.audit && Entered(next, n, id, at, Sweeper, kind)
  }

  ghost predicate RowsSwept(db: Db, next: Db, ids: seq<int>, at: int) {
    && next.issues.Keys == db.issues.Keys && next.deps == db.deps && SameElsewhere(db, next)
    && forall id :: id in db.issues ==>
                      && (id in ids ==> SweptRow(db.issues[id], next.issues[id], at))
                      && (id !in ids ==> next.issues[id] == db.issues[id])
  }

  ghost predicate AllReported(db: Db, next: Db, ids: seq<int>, at: int) {
    && db.audit <= next.audit
    && forall id :: id in ids && id in db.issues ==> Reported(db, next, id, at, KindOf(db.issues[id]))
  }

  /** Old entries stay, and a new one is about an issue swept. */
  ghost predicate EntriesSwept(db: Db, next: Db, ids: seq<int>) {
    && db.audit <= next.audit
    && (forall n :: n in db.events ==> n in next.events && next.events[n] == db.events[n])
    && (forall n :: n in db.outbox ==> n in next.outbox && next.outbox[n] == db.outbox[n])
    && forall n :: n in next.events && n !in db.events ==> EntryOfSweep(db, next, ids, n)
  }

  ghost predicate SweptAlready(db: Db, next: Db, ids: seq<int>, at: int) {
    Inv(next) && RowsSwept(db, next, ids, at) && AllReported(db, next, ids, at) && EntriesSwept(db, next, ids)
  }

  /** A new event is about an issue swept, and says which of the two happened to it. */
  ghost predicate EntryOfSweep(db: Db, next: Db, ids: seq<int>, n: int)
    requires n in next.events
  {
    var e := next.events[n];
    && n > db.audit && e.issueId in ids && e.issueId in db.issues && e.actor == Sweeper
    && e.kind == KindOf(db.issues[e.issueId])
  }

  lemma SweepOneMore(db: Db, m: Db, ids: seq<int>, id: int, at: int)
    requires Inv(db) && SweptAlready(db, m, ids, at) && id in db.issues && id !in ids && HasLapsed(db.issues[id], at)
    ensures SweptAlready(db, SweepOne(m, id, at), ids + [id], at)
  {
    IdIsKey(m, id);
    LogKeeps(m, id, at, Sweeper, Escalated);
    ReleaseKeeps(m, id, Sweeper, at, ClaimExpired);
    OneSwept(m, id, at);
    SweptOneMore(db, m, SweepOne(m, id, at), ids, id, at);
  }

  lemma SweptOneMore(db: Db, m: Db, next: Db, ids: seq<int>, id: int, at: int)
    requires SweptAlready(db, m, ids, at) && id in db.issues && id !in ids && HasLapsed(db.issues[id], at) && Inv(next)
    requires OnlyRow(m, next, id) && SweptRow(m.issues[id], next.issues[id], at)
    requires OneEntry(m, next, id, at, Sweeper, KindOf(db.issues[id]))
    ensures SweptAlready(db, next, ids + [id], at)
  {
    forall n | n in m.events || n in m.outbox
      ensures n <= m.audit
    {
      assert AuditRowOk(m, n);
    }
    OneMoreReported(db, m, next, ids, id, at);
    OneMoreEntry(db, m, next, ids, id, at);
  }

  lemma OneMoreReported(db: Db, m: Db, next: Db, ids: seq<int>, id: int, at: int)
    requires AllReported(db, m, ids, at) && RowsSwept(db, m, ids, at) && id in db.issues
    requires OnlyRow(m, next, id) && SweptRow(m.issues[id], next.issues[id], at)
    requires OneEntry(m, next, id, at, Sweeper, KindOf(db.issues[id]))
    requires forall n :: n in m.events || n in m.outbox ==> n <= m.audit
    ensures AllReported(db, next, ids + [id], at)
  {
    forall x | x in ids + [id] && x in db.issues
      ensures Reported(db, next, x, at, KindOf(db.issues[x]))
    {
      if x == id {
        assert Entered(next, next.audit, id, at, Sweeper, KindOf(db.issues[id]));
      } else {
        ReportStays(db, m, next, x, at, KindOf(db.issues[x]));
      }
    }
  }

  lemma OneMoreEntry(db: Db, m: Db, next: Db, ids: seq<int>, id: int, at: int)
    requires EntriesSwept(db, m, ids) && id in db.issues
    requires OneEntry(m, next, id, at, Sweeper, KindOf(db.issues[id]))
    requires forall n :: n in m.events || n in m.outbox ==> n <= m.audit
    ensures EntriesSwept(db, next, ids + [id])
  {
    forall n | n in next.events && n !in db.events
      ensures EntryOfSweep(db, next, ids + [id], n)
    {
      assert n in m.events ==> EntryOfSweep(db, m, ids, n);
    }
  }

  lemma OneSwept(m: Db, id: int, at: int)
    requires Inv(m) && id in m.issues && HasLapsed(m.issues[id], at)
    ensures var next := SweepOne(m, id, at);
            && OnlyRow(m, next, id) && SweptRow(m.issues[id], next.issues[id], at)
            && OneEntry(m, next, id, at, Sweeper, KindOf(m.issues[id]))
  {
    IdIsKey(m, id);
  }

  lemma ReportStays(db: Db, m: Db, next: Db, x: int, at: int, kind: EventKind)
    requires Reported(db, m, x, at, kind) && m.audit <= next.audit && x in next.issues
    requires x in m.issues && next.issues[x].project == m.issues[x].project
    requires forall n :: n in m.events && n <= m.audit ==> n in next.events && next.events[n] == m.events[n]
    requires forall n :: n in m.outbox && n <= m.audit ==> n in next.outbox && next.outbox[n] == m.outbox[n]
    ensures Reported(db, next, x, at, kind)
  {
    var n :| db.audit < n <= m.audit && Entered(m, n, x, at, Sweeper, kind);
    assert Entered(next, n, x, at, Sweeper, kind);
  }

  lemma {:induction false} SweptUpTo(db: Db, ids: seq<int>, at: int)
    requires Inv(db) && (forall id :: id in ids ==> id in db.issues && HasLapsed(db.issues[id], at))
    requires forall k, l :: 0 <= k < l < |ids| ==> ids[k] != ids[l]
    ensures SweptAlready(db, SweepAll(db, ids, at), ids, at)
  {
    if ids != [] {
      var last := |ids| - 1;
      SweptUpTo(db, ids[..last], at);
      assert ids == ids[..last] + [ids[last]];
      SweepOneMore(db, SweepAll(db, ids[..last], at), ids[..last], ids[last], at);
    }
  }

  /** Agents' lapsed claims are cleared, people's lapsed claims only reported, every other issue is left as it was. */
  lemma SweepLaw(db: Db, at: int)
    requires Inv(db)
    ensures var next := SweepAll(db, SweepList(db, at), at);
            && next.issues.Keys == db.issues.Keys && next.deps == db.deps && SameElsewhere(db, next)
            && (forall id :: id in db.issues ==> SweptRow(db.issues[id], next.issues[id], at))
            && (forall id :: id in db.issues && HasLapsed(db.issues[id], at)
                             && db.issues[id].actorKind != Some(Human) ==>
                               Reported(db, next, id, at, ClaimExpired))
            && (forall id :: id in db.issues && HasLapsed(db.issues[id], at)
                             && db.issues[id].actorKind == Some(Human) ==>
                               Reported(db, next, id, at, Escalated))
            && EntriesSwept(db, next, SweepList(db, at))
  {
    var ids := SweepList(db, at);
    SweptUpTo(db, ids, at);
    assert forall id :: id in ids <==> id in db.issues && HasLapsed(db.issues[id], at);
  }

  // ----- Reading -----

  /** A listed issue comes before another only by priority, then creation, then id. */
  lemma ListLaw(list: seq<Issue>, k: int, l: int)
    requires (forall a, b :: 0 <= a < b < |list| ==> !ByAge()(list[b], list[a])) && 0 <= k < l < |list|
    ensures list[k].priority <= list[l].priority
    ensures list[k].priority == list[l].priority ==> list[k].createdAt <= list[l].createdAt
    ensures list[k].priority == list[l].priority && list[k].createdAt == list[l].createdAt ==> list[k].id <= list[l].id
  {
    assert !ByAge()(list[l], list[k]);
  }

  /** What the store offers: open, past its gate, on no running lease, every dependency there and closed. */
  lemma ReadyLaw(db: Db, id: int, at: int)
    ensures IsReady(db, id, at) <==>
            && id in db.issues && db.issues[id].status == Open
            && (db.issues[id].availableAt.Some? ==> db.issues[id].availableAt.value <= at)
            && !(db.issues[id].assignee.Some? && db.issues[id].expiresAt.Some? && at < db.issues[id].expiresAt.value)
            && forall p :: (id, p) in db.deps ==> p in db.issues && db.issues[p].status == Closed
  {
  }

  /** A view is the row with its dependencies, each once, in order of id. */
  lemma ViewLaw(db: Db, id: int)
    requires id in db.issues
    ensures var i, v := db.issues[id], View(db, id);
            && v == i.(dependencies := v.dependencies)
            && (forall p :: Some(p) in v.dependencies <==> (id, p) in db.deps)
            && (forall k :: 0 <= k < |v.dependencies| ==> v.dependencies[k].Some?)
            && forall k, l :: 0 <= k < l < |v.dependencies| ==> v.dependencies[k].value < v.dependencies[l].value
  {
    AsDepsLaw(Ordered.Sorted(Parents(db, id)));
  }

  lemma {:induction false} AsDepsLaw(ids: seq<int>)
    ensures |AsDeps(ids)| == |ids| && forall k :: 0 <= k < |ids| ==> AsDeps(ids)[k] == Some(ids[k])
  {
    if ids != [] {
      AsDepsLaw(ids[1..]);
    }
  }

  /** A listing asks for open work or all of it, of one project or any, and for one issue or any. */
  lemma WantedLaw(i: Issue, project: Option<int>, all: bool, onlyId: Option<int>)
    ensures Wanted(i, project, all, onlyId) <==>
            && !(i.status == Closed && !all)
            && (project == None || project == Some(i.project)) && (onlyId == None || onlyId == Some(i.id))
  {
  }

  /** Unless configured otherwise: half an hour, 48 working hours, ten and two minutes, and at most seven days. */
  lemma DefaultPolicyLaw(p: Policy)
    requires p == DEFAULT_POLICY
    ensures p.agentTtl == 1_800 && p.humanHours == 48 && p.creationGrace == 600 && p.editDeferral == 120
            && p.maxTtl == 604_800
  {
  }

  // ----- Refusals -----

  /** Every call about an issue names the id that is not there. */
  lemma UnknownIssueRefusals(
    db: Db, cfg: Config, id: int, other: int, patch: Patch, who: int, kind: ActorKind, ttl: int, evidence: seq<int>,
    changed: bool, actor: Actor, at: int)
    requires WorkTime.ValidWeek(cfg.week) && id !in db.issues && id != other
    ensures Update(db, cfg, id, patch, actor, at) == Err(NotFound(id))
    ensures AddDep(db, id, other, actor, at) == Err(NotFound(id))
    ensures other in db.issues ==> AddDep(db, other, id, actor, at) == Err(NotFound(id))
    ensures ClaimFor(db, id, who, kind, ttl, at) == Err(NotFound(id))
    ensures Touch(db, cfg, id, who, at) == Err(NotFound(id))
    ensures Release(db, id, actor, at) == Err(NotFound(id))
    ensures CloseUnchecked(db, id, evidence, actor, at) == Err(NotFound(id))
    ensures Relabel(db, id, changed, actor, at) == Err(NotFound(id))
    ensures AddRemoteDep(db, id, actor, at) == Err(NotFound(id))
    ensures Supersede(db, other, id, who, changed, actor, at) == Err(NotFound(id))
    ensures other in db.issues ==> Supersede(db, id, other, who, changed, actor, at) == Err(NotFound(id))
  {
  }

  /** A create checks its project, then its parent, then its id. */
  lemma CreateRefusals(db: Db, cfg: Config, spec: NewIssue, minted: int, at: int)
    requires Create(db, cfg, spec, minted, at).Err?
    ensures var e := Create(db, cfg, spec, minted, at).error;
            && (spec.project.None? ==> e == Bad)
            && (spec.project.Some? && spec.project.value !in db.projects ==> e == NoProject(spec.project.value))
            && (spec.project.Some? && spec.project.value in db.projects ==>
                  e == if spec.parent.Some?
                          && spec.parent.value !in db.issues then NotFound(spec.parent.value) else Bad)
  {
  }

  lemma PlaceRefusals(db: Db, slug: int, parent: Option<int>)
    ensures EnsureFolder(db, slug, parent).Err? ==>
              && parent.Some?
              && EnsureFolder(db, slug, parent).error ==
                 if parent.value != slug && parent.value !in db.folders then NoFolder(parent.value) else Bad
    ensures slug !in db.projects ==> SetProjectFolder(db, slug, parent) == Err(NoProject(slug))
    ensures slug in db.projects && parent.Some? && parent.value !in db.folders ==>
              SetProjectFolder(db, slug, parent) == Err(NoFolder(parent.value))
    ensures slug !in db.projects ==> DropProject(db, slug) == Err(NoProject(slug))
  {
  }
}
