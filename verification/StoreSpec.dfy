/**
 What each store operation of src/adapter.rs does, as a function on the store's visible state:
 the live rows of every record type and the audit counter.
 */
module StoreSpec {
  import opened Wrappers
  import opened Domain
  import Graph
  import Ordered
  import Sorting
  import WorkTime

  datatype Actor = Named(name: int) | System | Sweeper | Importer

  datatype EventKind =
    | Created | StatusChanged | Updated | DependsOn | UnblockedFrom | ClaimTaken | Heartbeat
    | Released | Escalated | ClaimExpired | Finished | Labelled | DependsOnRemote

  datatype Event = Event(issueId: int, at: int, actor: Actor, kind: EventKind)

  datatype Outbox = Outbox(
    number: int, issueId: int, project: int, occurredAt: int, kind: EventKind,
    nextAttemptAt: int, deliveredAt: Option<int>, attempts: nat, lastError: Option<int>)

  datatype Policy = Policy(agentTtl: int, humanHours: int, creationGrace: int, editDeferral: int, maxTtl: int)

  const DEFAULT_POLICY := Policy(30 * 60, 48, 10 * 60, 2 * 60, 7 * 24 * 3600)

  datatype Config = Config(policy: Policy, week: WorkTime.WorkWeek)

  /** The live rows, and the counter behind `next_seq`. `deps` holds `(child, parent)` pairs. */
  datatype Db = Db(
    issues: map<int, Issue>,
    projects: set<int>,
    folders: map<int, Option<int>>,
    filed: map<int, int>,
    deps: Graph.Edges,
    events: map<int, Event>,
    outbox: map<int, Outbox>,
    audit: int)

  const EMPTY_DB := Db(map[], {}, map[], map[], {}, map[], map[], 0)

  datatype Error =
    | NotFound(id: int) | NoProject(slug: int) | NoFolder(slug: int) | AlreadyClaimed(holder: int)
    | Cycle | NoEvidence | StillWaits(blocker: int) | Bad

  // ----- Row and log writes -----

  function Save(db: Db, i: Issue): Db {
    db.(issues := db.issues[i.id := i])
  }

  /** `log_event`: an audit event, and its outbound twin when the issue exists. */
  function LogEvent(db: Db, id: int, at: int, actor: Actor, kind: EventKind): Db {
    var n := db.audit + 1;
    var logged := db.(audit := n, events := db.events[n := Event(id, at, actor, kind)]);
    if id in db.issues then
      logged.(outbox := db.outbox[n := Outbox(n, id, db.issues[id].project, at, kind, at, None, 0, None)])
    else
      logged
  }

  function SaveAndLog(db: Db, i: Issue, at: int, actor: Actor, kind: EventKind): Db {
    LogEvent(Save(db, i), i.id, at, actor, kind)
  }

  // ----- Issue lifecycle -----

  datatype NewIssue = NewIssue(
    id: Option<int>, project: Option<int>, parent: Option<int>, priority: int, isGoal: bool,
    availableAt: Option<int>, createdBy: Actor, metadata: Metadata)

  function FreshRow(spec: NewIssue, id: int, project: int, cfg: Config, at: int): Issue {
    Issue(
      id, project, Open, if spec.priority == 0 then 2 else spec.priority, spec.isGoal, spec.parent,
      None, None, None, Some(spec.availableAt.GetOr(at + cfg.policy.creationGrace)),
      at, at, None, [], spec.metadata, [])
  }

  /** `minted` is the id the suffix loop settles on when the caller names none. */
  function Create(db: Db, cfg: Config, spec: NewIssue, minted: int, at: int): Result<Db, Error> {
    if spec.project.None? then Err(Bad)
    else
      var project, id := spec.project.value, spec.id.GetOr(minted);
      if project !in db.projects then Err(NoProject(project))
      else if spec.parent.Some? && spec.parent.value !in db.issues then Err(NotFound(spec.parent.value))
      else if spec.parent.Some? && db.issues[spec.parent.value].project != project then Err(Bad)
      else if spec.id.Some? && id in db.issues then Err(Bad)
      else Ok(SaveAndLog(db, FreshRow(spec, id, project, cfg, at), at, spec.createdBy, Created))
  }

  /** `metadata` is merged key by key; a null value clears its key. */
  datatype Patch = Patch(
    status: Option<Status>, priority: Option<int>, evidence: Option<seq<int>>, metadata: Option<MetaPatch>,
    availableAt: Option<int>)

  datatype Change<+T> = Keep | Clear | Set(value: T) {
    function Apply(before: Option<T>): Option<T> {
      match this
      case Keep => before
      case Clear => None
      case Set(v) => Some(v)
    }
  }

  datatype MetaPatch = MetaPatch(
    plan: Change<int>, key: Change<int>, group: Change<int>, estimate: Change<int>, imported: Change<bool>)

  function Merge(m: Metadata, p: MetaPatch): Metadata {
    Metadata(
      p.plan.Apply(m.plan), p.key.Apply(m.key), p.group.Apply(m.group), p.estimate.Apply(m.estimate),
      p.imported.Apply(Some(m.imported)).GetOr(false))
  }

  function Patched(i: Issue, cfg: Config, patch: Patch, at: int): Issue {
    i.(
    status := patch.status.GetOr(i.status),
    priority := patch.priority.GetOr(i.priority),
    evidence := patch.evidence.GetOr(i.evidence),
    metadata := if patch.metadata.Some? then Merge(i.metadata, patch.metadata.value) else i.metadata,
    closedAt := if patch.status.None? then i.closedAt else if patch.status.value == Closed then Some(at) else None,
    availableAt := Some(patch.availableAt.GetOr(Max(at + cfg.policy.editDeferral, i.availableAt.GetOr(0)))),
    updatedAt := at)
  }

  function Update(db: Db, cfg: Config, id: int, patch: Patch, actor: Actor, at: int): Result<Db, Error> {
    if id !in db.issues then Err(NotFound(id))
    else
      var i := db.issues[id];
      var next := Patched(i, cfg, patch, at);
      var saved := Save(db, next);
      var noted := if next.status != i.status then LogEvent(saved, id, at, actor, StatusChanged) else saved;
      Ok(LogEvent(noted, id, at, actor, Updated))
  }

  ghost function AddDep(db: Db, child: int, parent: int, actor: Actor, at: int): Result<Db, Error> {
    if child == parent then Err(Cycle)
    else if child !in db.issues then Err(NotFound(child))
    else if parent !in db.issues then Err(NotFound(parent))
    else if Graph.Reach(db.deps, parent, child) then Err(Cycle)
    else if (child, parent) in db.deps then Ok(db)
    else
      Ok(SaveAndLog(db.(deps := db.deps + {(child, parent)}), db.issues[child].(updatedAt := at), at, actor, DependsOn))
  }

  function RemoveDep(db: Db, child: int, parent: int, actor: Actor, at: int): Db {
    if (child, parent) in db.deps then
      LogEvent(db.(deps := db.deps - {(child, parent)}), child, at, actor, UnblockedFrom)
    else
      db
  }

  // ----- Claims -----

  ghost function HumanTtl(cfg: Config, at: int): int
    requires WorkTime.ValidWeek(cfg.week)
  {
    WorkTime.Deadline(cfg.week, at, cfg.policy.humanHours * 60) - at
  }

  ghost function ClaimTtl(cfg: Config, kind: ActorKind, ttlSeconds: Option<int>, at: int): int
    requires WorkTime.ValidWeek(cfg.week)
  {
    match kind
    case Agent =>
      Min(ttlSeconds.GetOr(cfg.policy.agentTtl), cfg.policy.maxTtl)
    case Human =>
      var business := if ttlSeconds.Some?
                      then WorkTime.Deadline(cfg.week, at, Max(ttlSeconds.value / 60, 1)) - at
                      else HumanTtl(cfg, at);
      Min(business, cfg.policy.maxTtl)
  }

  function WithClaim(i: Issue, who: int, kind: ActorKind, expires: int, at: int): Issue {
    i.(assignee := Some(who), actorKind := Some(kind), expiresAt := Some(expires), updatedAt := at)
  }

  function WithoutClaim(i: Issue, at: int): Issue {
    i.(assignee := None, actorKind := None, expiresAt := None, updatedAt := at)
  }

  /** Takes (or renews) a claim for `ttl` seconds; a live claim of someone else is never stolen. */
  function ClaimFor(db: Db, id: int, who: int, kind: ActorKind, ttl: int, at: int): Result<Db, Error> {
    if id !in db.issues then Err(NotFound(id))
    else
      var i := db.issues[id];
      if Held(i, at) && i.assignee != Some(who) then Err(AlreadyClaimed(i.assignee.value))
      else Ok(SaveAndLog(db, WithClaim(i, who, kind, at + ttl, at), at, Named(who), ClaimTaken))
  }

  ghost function Claim(
    db: Db, cfg: Config, id: int, who: int, kind: ActorKind, ttlSeconds: Option<int>, at: int): Result<Db, Error>
    requires WorkTime.ValidWeek(cfg.week)
  {
    ClaimFor(db, id, who, kind, ClaimTtl(cfg, kind, ttlSeconds, at), at)
  }

  ghost function TouchTtl(cfg: Config, kind: Option<ActorKind>, at: int): int
    requires WorkTime.ValidWeek(cfg.week)
  {
    if kind == Some(Human) then HumanTtl(cfg, at) else cfg.policy.agentTtl
  }

  /** Renews the holder's own claim for `ttl` seconds from `at`, whatever it had left. */
  function TouchFor(db: Db, id: int, who: int, ttl: int, at: int): Result<Db, Error> {
    if id !in db.issues then Err(NotFound(id))
    else if db.issues[id].assignee != Some(who) then Err(Bad)
    else Ok(SaveAndLog(db, db.issues[id].(expiresAt := Some(at + ttl), updatedAt := at), at, Named(who), Heartbeat))
  }

  ghost function Touch(db: Db, cfg: Config, id: int, who: int, at: int): Result<Db, Error>
    requires WorkTime.ValidWeek(cfg.week)
  {
    if id !in db.issues then Err(NotFound(id))
    else TouchFor(db, id, who, TouchTtl(cfg, db.issues[id].actorKind, at), at)
  }

  function Release(db: Db, id: int, actor: Actor, at: int): Result<Db, Error> {
    if id !in db.issues then Err(NotFound(id))
    else Ok(SaveAndLog(db, WithoutClaim(db.issues[id], at), at, actor, Released))
  }

  /** A claim that has run out by `at`. */
  predicate Lapsed(i: Issue, at: int) {
    i.assignee.Some? && i.expiresAt.Some? && i.expiresAt.value <= at
  }

  /** One step of the sweep: a lapsed human claim is only escalated, an agent's is cleared. */
  function SweepOne(db: Db, id: int, at: int): Db
    requires id in db.issues
  {
    if db.issues[id].actorKind == Some(Human) then LogEvent(db, id, at, Sweeper, Escalated)
    else SaveAndLog(db, WithoutClaim(db.issues[id], at), at, Sweeper, ClaimExpired)
  }

  /** The sweep handles a snapshot of ids one after the other. */
  function SweepAll(db: Db, ids: seq<int>, at: int): Db {
    if ids == [] then db
    else
      var before, id := SweepAll(db, ids[..|ids| - 1], at), ids[|ids| - 1];
      if id in before.issues then SweepOne(before, id, at) else before
  }

  ghost function LapsedSet(db: Db, at: int): set<int> {
    set id | id in db.issues && Lapsed(db.issues[id], at)
  }

  /** The snapshot a sweep at `at` works through. */
  ghost function SweepList(db: Db, at: int): (ids: seq<int>)
    ensures Ordered.Ascending(ids) && forall id :: id in ids <==> id in db.issues && Lapsed(db.issues[id], at)
  {
    Ordered.Sorted(LapsedSet(db, at))
  }

  predicate HumanHolds(i: Issue) {
    i.actorKind == Some(Human)
  }

  /** The ids whose claim was a human's (escalated) or not (requeued), in the order swept. */
  function ByHolder(db: Db, ids: seq<int>, human: bool): (r: seq<int>)
    requires forall id :: id in ids ==> id in db.issues
    ensures forall id :: id in r <==> id in ids && HumanHolds(db.issues[id]) == human
  {
    if ids == [] then []
    else
      var last := ids[|ids| - 1];
      assert ids == ids[..|ids| - 1] + [last];
      ByHolder(db, ids[..|ids| - 1], human) + if HumanHolds(db.issues[last]) == human then [last] else []
  }

  // ----- Closing -----

  ghost predicate OpenBlocker(db: Db, id: int, blocker: int) {
    (id, blocker) in db.deps && blocker in db.issues && !IsTerminal(db.issues[blocker].status)
  }

  /** Evidence accumulates without repeats. */
  function MergeEvidence(have: seq<int>, add: seq<int>): seq<int>
    decreases |add|
  {
    if add == [] then have
    else MergeEvidence(if add[0] in have then have else have + [add[0]], add[1..])
  }

  function CloseUnchecked(db: Db, id: int, evidence: seq<int>, actor: Actor, at: int): Result<Db, Error> {
    if id !in db.issues then Err(NotFound(id))
    else
      var i := db.issues[id];
      Ok(SaveAndLog(db,
                    WithoutClaim(i, at).(evidence := MergeEvidence(i.evidence, evidence), status := Closed,
                    closedAt := Some(at)),
                    at, actor, Finished))
  }

  /** A label edit: labels themselves are not modelled, `changed` says whether the edit writes anything. */
  function Relabel(db: Db, id: int, changed: bool, actor: Actor, at: int): Result<Db, Error> {
    if id !in db.issues then Err(NotFound(id))
    else if changed then Ok(SaveAndLog(db, db.issues[id], at, actor, Labelled))
    else Ok(db)
  }

  /** Closes in favour of a known replacement, blockers or not, and labels the closed issue. */
  function Supersede(
    db: Db, id: int, replacement: int, ack: int, changed: bool, actor: Actor, at: int): Result<Db, Error> {
    if replacement !in db.issues then Err(NotFound(replacement))
    else
      match CloseUnchecked(db, id, [ack], actor, at)
      case Err(e) => Err(e)
      case Ok(closed) => Relabel(closed, id, changed, actor, at)
  }

  /**
   Records a dependency on another store's issue: its own table is not modelled, the touched row and the event are.
   */
  function AddRemoteDep(db: Db, child: int, actor: Actor, at: int): Result<Db, Error> {
    if child !in db.issues then Err(NotFound(child))
    else Ok(SaveAndLog(db, db.issues[child].(updatedAt := at), at, actor, DependsOnRemote))
  }

  /** `close` goes through only with evidence and no open dependency. */
  ghost predicate MayClose(db: Db, id: int, evidence: seq<int>) {
    evidence != [] && id in db.issues && forall p :: !OpenBlocker(db, id, p)
  }

  // ----- Projects and folders -----

  function EnsureProject(db: Db, slug: int): Db {
    db.(projects := db.projects + {slug})
  }

  ghost function FolderEdges(folders: map<int, Option<int>>): (e: Graph.Edges)
    ensures forall s, p :: (s, p) in e <==> s in folders && folders[s] == Some(p)
  {
    set s | s in folders && folders[s].Some? :: (s, folders[s].value)
  }

  ghost function EnsureFolder(db: Db, slug: int, parent: Option<int>): Result<Db, Error> {
    if parent.Some? && parent.value == slug then Err(Bad)
    else if parent.Some? && parent.value !in db.folders then Err(NoFolder(parent.value))
    else if parent.Some? && Graph.Reach(FolderEdges(db.folders), parent.value, slug) then Err(Bad)
    else Ok(db.(folders := db.folders[slug := parent]))
  }

  function SetProjectFolder(db: Db, project: int, folder: Option<int>): Result<Db, Error> {
    if project !in db.projects then Err(NoProject(project))
    else match folder
         case Some(f) => if f !in db.folders then Err(NoFolder(f)) else Ok(db.(filed := db.filed[project := f]))
         case None => Ok(db.(filed := db.filed - {project}))
  }

  ghost function IssuesOf(db: Db, slug: int): set<int> {
    set id | id in db.issues && db.issues[id].project == slug
  }

  ghost function EventsAbout(db: Db, mine: set<int>): set<int> {
    set n | n in db.events && db.events[n].issueId in mine
  }

  ghost function OutboxAbout(db: Db, mine: set<int>): set<int> {
    set n | n in db.outbox && db.outbox[n].issueId in mine
  }

  /** Removes a project with its issues, their edges in both directions, their history and outbox. */
  ghost function DropProject(db: Db, slug: int): Result<Db, Error> {
    if slug !in db.projects then Err(NoProject(slug))
    else
      var mine := IssuesOf(db, slug);
      Ok(db.(
         issues := db.issues - mine,
         projects := db.projects - {slug},
         deps := (set e | e in db.deps && e.0 !in mine && e.1 !in mine),
         events := db.events - EventsAbout(db, mine),
         outbox := db.outbox - OutboxAbout(db, mine)))
  }

  // ----- Outbox -----

  function MarkDelivered(db: Db, n: int, at: int): Db {
    if n in db.outbox && db.outbox[n].deliveredAt.None? then
      var row := db.outbox[n];
      db.(outbox := db.outbox[n := row.(deliveredAt := Some(at), attempts := row.attempts + 1, lastError := None)])
    else
      db
  }

  function MarkFailed(db: Db, n: int, nextAttemptAt: int, error: int): Db {
    if n in db.outbox && db.outbox[n].deliveredAt.None? then
      var row := db.outbox[n];
      db.(outbox := db.outbox[n := row.(attempts := row.attempts + 1, nextAttemptAt := nextAttemptAt,
      lastError := Some(error))])
    else
      db
  }

  predicate IsPending(row: Outbox, at: int) {
    row.deliveredAt.None? && row.nextAttemptAt <= at
  }

  // ----- Reading -----

  ghost function Parents(db: Db, id: int): (ps: set<int>)
    ensures forall p :: p in ps <==> (id, p) in db.deps
  {
    set e | e in db.deps && e.0 == id :: e.1
  }

  function AsDeps(ids: seq<int>): (deps: seq<Option<int>>)
    ensures forall x :: Some(x) in deps <==> x in ids
  {
    if ids == [] then [] else [Some(ids[0])] + AsDeps(ids[1..])
  }

  /** `row_to_issue`: the stored row with its dependencies, ordered by id. */
  ghost function View(db: Db, id: int): (i: Issue)
    requires id in db.issues
    ensures forall p :: p in DepIds(i.dependencies) <==> (id, p) in db.deps
  {
    db.issues[id].(dependencies := AsDeps(Ordered.Sorted(Parents(db, id))))
  }

  /** Lists come by priority, then age, then id. */
  function ByAge(): (Issue, Issue) -> bool {
    (a: Issue, b: Issue) =>
      || a.priority < b.priority
      || (a.priority == b.priority && a.createdAt < b.createdAt)
      || (a.priority == b.priority && a.createdAt == b.createdAt && a.id < b.id)
  }

  /** `list` holds the views of the issues in `ids`, each once, in list order. */
  ghost predicate IsListing(db: Db, ids: set<int>, list: seq<Issue>) {
    && (forall id :: id in ids ==> id in db.issues && View(db, id) in list)
    && (forall i :: i in list ==> i.id in ids && i.id in db.issues && i == View(db, i.id))
    && Sorting.Distinct(list)
    && Sorting.InOrder(ByAge(), list)
  }

  predicate Wanted(i: Issue, project: Option<int>, all: bool, onlyId: Option<int>) {
    && (all || i.status != Closed)
    && (project.None? || i.project == project.value)
    && (onlyId.None? || i.id == onlyId.value)
  }

  ghost function WantedSet(db: Db, project: Option<int>, all: bool, onlyId: Option<int>): set<int> {
    set id | id in db.issues && Wanted(db.issues[id], project, all, onlyId)
  }

  // ----- Readiness -----

  ghost predicate IsReady(db: Db, id: int, at: int) {
    && id in db.issues
    && var i := db.issues[id];
    && i.status == Open
    && !(i.availableAt.Some? && i.availableAt.value > at)
    && (forall p :: (id, p) in db.deps ==> p in db.issues && IsTerminal(db.issues[p].status))
    && !Held(i, at)
  }
  ghost function ReadySet(db: Db, project: Option<int>, at: int): set<int> {
    set id | id in db.issues && IsReady(db, id, at) && (project.None? || db.issues[id].project == project.value)
  }
}
