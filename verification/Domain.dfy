/**
 The tracker's vocabulary (src/types.rs). Ids, slugs, actors and metadata strings are integers: the
 model uses only their equality and their total order.
 */
module Domain {
  import opened Wrappers

  datatype Status = Open | InProgress | Review | Blocked | Deferred | Closed

  predicate IsTerminal(s: Status) {
    s == Closed
  }

  datatype ActorKind = Agent | Human

  /** The plan block of an issue's metadata, `group` already filtered to non-empty names, and the importer's mark. */
  datatype Metadata = Metadata(
    plan: Option<int>, key: Option<int>, group: Option<int>, estimate: Option<int>, imported: bool)

  /** Stored rows carry no `dependencies`; reads fill them in from the dependency table. */
  datatype Issue = Issue(
    id: int,
    project: int,
    status: Status,
    priority: int,
    isGoal: bool,
    parent: Option<int>,
    assignee: Option<int>,
    actorKind: Option<ActorKind>,
    expiresAt: Option<int>,
    availableAt: Option<int>,
    createdAt: int,
    updatedAt: int,
    closedAt: Option<int>,
    evidence: seq<int>,
    metadata: Metadata,
    dependencies: seq<Option<int>>)

  /** A live claim at `at`. */
  predicate Held(i: Issue, at: int) {
    i.assignee.Some? && i.expiresAt.Some? && i.expiresAt.value > at
  }

  /** `PlanGraph::dep_ids`: the named dependencies, in order, duplicates kept. */
  function DepIds(deps: seq<Option<int>>): (ids: seq<int>)
    ensures forall x :: x in ids <==> Some(x) in deps
  {
    if deps == [] then []
    else (if deps[0].Some? then [deps[0].value] else []) + DepIds(deps[1..])
  }

  /** The order `sort_by_key` uses for plan nodes: priority, creation, plan key (or id), id. */
  function PlanKey(i: Issue): (int, int, int, int) {
    (i.priority, i.createdAt, i.metadata.key.GetOr(i.id), i.id)
  }

  predicate KeyLess(a: (int, int, int, int), b: (int, int, int, int)) {
    || a.0 < b.0
    || (a.0 == b.0 && a.1 < b.1)
    || (a.0 == b.0 && a.1 == b.1 && a.2 < b.2)
    || (a.0 == b.0 && a.1 == b.1 && a.2 == b.2 && a.3 < b.3)
  }

  /**
   The plan order in the issues' own fields: the more urgent first, then the older, then by key (or id), then by id.
   */
  ghost predicate Sooner(i: Issue, j: Issue) {
    || i.priority < j.priority
    || (i.priority == j.priority && i.createdAt < j.createdAt)
    || (i.priority == j.priority && i.createdAt == j.createdAt && NameOf(i) < NameOf(j))
    || (i.priority == j.priority && i.createdAt == j.createdAt && NameOf(i) == NameOf(j) && i.id < j.id)
  }

  /** The key the spec gave the node, or else its id. */
  ghost function NameOf(i: Issue): (name: int)
    ensures i.metadata.key.Some? ==> name == i.metadata.key.value
    ensures i.metadata.key.None? ==> name == i.id
  {
    match i.metadata.key
    case Some(key) => key
    case None => i.id
  }

  /** What `sort_by_key` compares puts issues in that order. */
  lemma KeyOrdersBySooner(i: Issue, j: Issue)
    ensures KeyLess(PlanKey(i), PlanKey(j)) <==> Sooner(i, j)
  {
  }
}
