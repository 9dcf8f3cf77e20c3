/**
 What an import promises (src/jsonl.rs): the state it lands, the states it can be resumed from, and
 which closed rows go through `close`.
 */
module ImportSpec {
  import opened Wrappers
  import opened Domain
  import opened StoreSpec
  import opened StoreInvariant
  import Graph

  /** One entry of a row's `dependencies`; `blocks` is false for other kinds of edge. */
  datatype Dep = Dep(blocks: bool, target: Option<int>)

  /** An exported row. `id` is missing, `status` unknown or `createdAt` malformed when `None`. */
  datatype Row = Row(
    id: Option<int>, status: Option<Status>, parent: Option<int>, priority: int, isGoal: bool,
    createdAt: Option<int>, createdBy: Actor, metadata: Metadata, closedAt: int, reason: int, refs: seq<int>,
    note: int, deps: seq<Dep>)

  /** An import into `project`; `rename` is the prefix rewrite, the identity when there is none. */
  datatype Job = Job(project: int, rows: seq<Row>, rename: int -> int)

  function IdOf(job: Job, r: Row): int {
    job.rename(r.id.GetOr(0))
  }

  function StatusOf(r: Row): Status {
    r.status.GetOr(Open)
  }

  function TargetOf(job: Job, d: Dep): Option<int> {
    if d.blocks && d.target.Some? then Some(job.rename(d.target.value)) else None
  }

  predicate Readable(r: Row) {
    r.id.Some? && r.status.Some?
  }

  /** The issue is this importer's own copy, in the same project. */
  predicate Mine(job: Job, i: Issue) {
    i.project == job.project && i.metadata.imported
  }

  // ----- When an import goes through -----

  ghost predicate AllReadable(job: Job) {
    forall k :: 0 <= k < |job.rows| ==> Readable(job.rows[k])
  }

  ghost predicate Clashes(job: Job, db: Db, k: nat)
    requires k < |job.rows|
  {
    var id := IdOf(job, job.rows[k]);
    id in db.issues && !Mine(job, db.issues[id])
  }

  ghost predicate NoConflict(job: Job, db: Db) {
    forall k: nat :: k < |job.rows| ==> !Clashes(job, db, k)
  }

  /** `id` belongs to one of the first `n` rows. */
  ghost predicate Among(job: Job, n: nat, id: int)
    requires n <= |job.rows|
  {
    exists j :: 0 <= j < n && IdOf(job, job.rows[j]) == id
  }

  /** When its turn comes, row `k` is already there or can be created. */
  ghost predicate Creatable(job: Job, db: Db, k: nat)
    requires k < |job.rows|
  {
    var r := job.rows[k];
    || IdOf(job, r) in db.issues
    || Among(job, k, IdOf(job, r))
    || (r.createdAt.Some? && job.project in db.projects && (r.parent.Some? ==> ParentThere(job, db, k, r.parent.value)))
  }

  ghost predicate AllCreatable(job: Job, db: Db) {
    forall k: nat :: k < |job.rows| ==> Creatable(job, db, k)
  }

  ghost predicate ParentThere(job: Job, db: Db, k: nat, parent: int)
    requires k < |job.rows|
  {
    (parent in db.issues && db.issues[parent].project == job.project) || Among(job, k, parent)
  }

  ghost function RowIds(job: Job): (ids: set<int>)
    ensures forall id :: id in ids <==> Among(job, |job.rows|, id)
  {
    set r | r in job.rows :: IdOf(job, r)
  }

  ghost function FinalIds(job: Job, db: Db): set<int> {
    db.issues.Keys + RowIds(job)
  }

  ghost predicate Links(job: Job, r: Row, d: Dep, ids: set<int>) {
    d in r.deps && TargetOf(job, d).Some? && TargetOf(job, d).value != IdOf(job, r) && TargetOf(job, d).value in ids
  }

  /** The edges the rows ask for between issues in `ids`, except from an issue to itself. */
  ghost function RowEdges(job: Job, ids: set<int>): Graph.Edges {
    set r, d | r in job.rows && d in r.deps && Links(job, r, d, ids) :: (IdOf(job, r), TargetOf(job, d).value)
  }

  ghost function FinalEdges(job: Job, db: Db): Graph.Edges {
    db.deps + RowEdges(job, FinalIds(job, db))
  }

  /**
   The edges afterwards: those there were, and every blocking entry of a row that leads to another issue that is
   there.
   */
  lemma EdgesLaw(job: Job, db: Db, c: int, p: int)
    ensures (c, p) in FinalEdges(job, db) <==>
            (c, p) in db.deps || (c != p && (p in db.issues || Among(job, |job.rows|, p)) && Asks(job, c, p))
  {
    if (c, p) in RowEdges(job, FinalIds(job, db)) {
      var r, d :| r in job.rows && d in r.deps && Links(job, r, d, FinalIds(job, db))
                  && (c, p) == (IdOf(job, r), TargetOf(job, d).value);
      assert AsksBy(job, r, d, c, p);
    }
    if c != p && (p in db.issues || Among(job, |job.rows|, p)) && Asks(job, c, p) {
      var r, d :| AsksBy(job, r, d, c, p);
      assert Links(job, r, d, FinalIds(job, db));
    }
  }

  ghost predicate AsksBy(job: Job, r: Row, d: Dep, c: int, p: int) {
    && r in job.rows && d in r.deps && d.blocks && d.target.Some?
    && job.rename(r.id.GetOr(0)) == c && job.rename(d.target.value) == p
  }

  ghost predicate Asks(job: Job, c: int, p: int) {
    exists r, d :: AsksBy(job, r, d, c, p)
  }

  /**
   Nothing of the import is refused over an id of its own: only one held by an issue of another project or another
   origin.
   */
  lemma ConflictLaw(job: Job, db: Db)
    requires AllReadable(job)
    ensures NoConflict(job, db) <==>
            forall r :: r in job.rows && r.id.Some? && job.rename(r.id.value) in db.issues ==>
                          && db.issues[job.rename(r.id.value)].project == job.project
                          && db.issues[job.rename(r.id.value)].metadata.imported
  {
    if NoConflict(job, db) {
      forall r | r in job.rows && r.id.Some? && job.rename(r.id.value) in db.issues
        ensures db.issues[job.rename(r.id.value)].project == job.project
        ensures db.issues[job.rename(r.id.value)].metadata.imported
      {
        var k: nat :| k < |job.rows| && job.rows[k] == r;
        assert !Clashes(job, db, k);
      }
    }
    forall k: nat | k < |job.rows|
      ensures job.rows[k] in job.rows && job.rows[k].id.Some?
    {
      assert Readable(job.rows[k]);
    }
  }

  ghost predicate Clean(job: Job, db: Db) {
    && AllReadable(job)
    && NoConflict(job, db)
    && AllCreatable(job, db)
    && Graph.Acyclic(FinalEdges(job, db))
  }

  // ----- Statuses -----

  ghost function Start(db: Db, id: int): Status {
    if id in db.issues then db.issues[id].status else Open
  }

  /** The first status other than open and closed among the first `n` rows of `id`. */
  ghost function Mark(job: Job, n: nat, id: int): (s: Option<Status>)
    requires n <= |job.rows|
    ensures s.Some? ==> s.value != Open && s.value != Closed
  {
    if n == 0 then None
    else
      var earlier, r := Mark(job, n - 1, id), job.rows[n - 1];
      if earlier.Some? then earlier
      else if IdOf(job, r) == id && StatusOf(r) != Open && StatusOf(r) != Closed then Some(StatusOf(r))
      else None
  }

  /** A mark applies only to an issue that is open. */
  ghost function Marked(job: Job, db: Db, n: nat, id: int): Status
    requires n <= |job.rows|
  {
    if Start(db, id) == Open then Mark(job, n, id).GetOr(Open) else Start(db, id)
  }

  ghost predicate WantsClosed(job: Job, id: int) {
    exists k :: 0 <= k < |job.rows| && IdOf(job, job.rows[k]) == id && StatusOf(job.rows[k]) == Closed
  }

  ghost function Final(job: Job, db: Db, id: int): Status {
    if WantsClosed(job, id) then Closed else Marked(job, db, |job.rows|, id)
  }

  ghost predicate OnTheWay(job: Job, db: Db, id: int, s: Status) {
    s == Start(db, id) || s == Marked(job, db, |job.rows|, id) || s == Final(job, db, id)
  }

  // ----- States of an import -----

  /** What no write of an import changes in a row that is there. */
  ghost predicate SameBody(i: Issue, j: Issue) {
    && j.project == i.project && j.parent == i.parent && j.isGoal == i.isGoal && j.priority == i.priority
    && j.createdAt == i.createdAt && j.metadata == i.metadata
  }

  /** The issue carries what row `r` says: where it hangs, how urgent it is, when it was made, and its plan block. */
  ghost predicate CopyOf(job: Job, r: Row, id: int, i: Issue) {
    && IdOf(job, r) == id && i.project == job.project && i.parent == r.parent && i.isGoal == r.isGoal
    && (r.priority != 0 ==> i.priority == r.priority) && (r.priority == 0 ==> i.priority == 2)
    && r.createdAt == Some(i.createdAt) && i.metadata.imported
    && i.metadata.plan == r.metadata.plan && i.metadata.key == r.metadata.key
    && i.metadata.group == r.metadata.group && i.metadata.estimate == r.metadata.estimate
  }

  ghost predicate Copied(job: Job, id: int, i: Issue) {
    exists r :: r in job.rows && CopyOf(job, r, id, i)
  }

  function Before(a: Db, id: int): Option<Issue> {
    if id in a.issues then Some(a.issues[id]) else None
  }

  /** A row that was there keeps its body, and a new one is copied from the file. */
  ghost predicate BodyKept(job: Job, id: int, was: Option<Issue>, now: Issue) {
    match was
    case Some(i) => SameBody(i, now)
    case None => Copied(job, id, now)
  }

  ghost predicate BodiesKept(job: Job, a: Db, b: Db) {
    forall id :: id in b.issues ==> BodyKept(job, id, Before(a, id), b.issues[id])
  }

  lemma BodyStays(job: Job, id: int, was: Option<Issue>, i: Issue, j: Issue)
    requires BodyKept(job, id, was, i) && SameBody(i, j)
    ensures BodyKept(job, id, was, j)
  {
    if was.None? {
      var r :| r in job.rows && CopyOf(job, r, id, i);
      assert CopyOf(job, r, id, j);
    }
  }

  /** Only rows of the import are new or changed, and they are all the importer's own. */
  ghost predicate Framed(job: Job, a: Db, b: Db) {
    && b.projects == a.projects && b.folders == a.folders && b.filed == a.filed
    && a.issues.Keys <= b.issues.Keys <= FinalIds(job, a)
    && (forall id :: id in b.issues && id in RowIds(job) ==> Mine(job, b.issues[id]))
    && (forall id :: id in a.issues && id !in RowIds(job) ==> b.issues[id] == a.issues[id])
  }

  /** A state an import started in `a` can be stopped in. */
  ghost predicate Underway(job: Job, a: Db, b: Db) {
    && Framed(job, a, b)
    && a.deps <= b.deps <= FinalEdges(job, a)
    && forall id :: id in b.issues && id in RowIds(job) ==> OnTheWay(job, a, id, b.issues[id].status)
  }

  /** The state an import started in `a` ends in. */
  ghost predicate Landed(job: Job, a: Db, b: Db) {
    && Framed(job, a, b)
    && b.issues.Keys == FinalIds(job, a)
    && b.deps == FinalEdges(job, a)
    && forall id :: id in RowIds(job) ==> b.issues[id].status == Final(job, a, id)
  }

  ghost predicate SameOutcome(b: Db, c: Db) {
    && b.issues.Keys == c.issues.Keys
    && b.deps == c.deps
    && forall id :: id in b.issues ==> b.issues[id].status == c.issues[id].status
  }

  lemma LandingIsUnique(job: Job, a: Db, b: Db, c: Db)
    requires Landed(job, a, b) && Landed(job, a, c)
    ensures SameOutcome(b, c)
  {
  }

  lemma LandedIsUnderway(job: Job, a: Db, b: Db)
    requires Landed(job, a, b)
    ensures Underway(job, a, b)
  {
  }

  lemma SameFinals(job: Job, a: Db, b: Db)
    requires Underway(job, a, b)
    ensures FinalIds(job, b) == FinalIds(job, a)
    ensures FinalEdges(job, b) == FinalEdges(job, a)
    ensures forall id :: id in RowIds(job) ==> Final(job, b, id) == Final(job, a, id)
  {
  }

  /** Wherever an import was stopped, the same import goes through from there. */
  lemma ResumeIsClean(job: Job, a: Db, b: Db)
    requires Clean(job, a) && Underway(job, a, b)
    ensures Clean(job, b)
  {
    SameFinals(job, a, b);
    forall k: nat | k < |job.rows|
      ensures !Clashes(job, b, k) && Creatable(job, b, k)
    {
      assert Creatable(job, a, k);
      var r := job.rows[k];
      assert Among(job, |job.rows|, IdOf(job, r));
      if r.parent.Some? && ParentThere(job, a, k, r.parent.value) {
        ParentStays(job, a, b, k, r.parent.value);
      }
    }
  }

  lemma ParentStays(job: Job, a: Db, b: Db, k: nat, parent: int)
    requires k < |job.rows| && Underway(job, a, b) && ParentThere(job, a, k, parent)
    ensures ParentThere(job, b, k, parent)
  {
    if !Among(job, k, parent) && parent in RowIds(job) {
      assert Mine(job, b.issues[parent]);
    }
  }

  /** And it lands where the uninterrupted import would have. */
  lemma ResumeLandsTheSame(job: Job, a: Db, b: Db, c: Db)
    requires Underway(job, a, b) && Landed(job, b, c)
    ensures Landed(job, a, c)
  {
    SameFinals(job, a, b);
  }

  // ----- Which rows can be closed in order -----

  /** The rows to close: exported closed and not closed yet. */
  ghost function ToClose(job: Job, a: Db): (t: set<int>)
    ensures forall id :: id in t <==> id in RowIds(job) && WantsClosed(job, id) && Start(a, id) != Closed
  {
    set id | id in RowIds(job) && WantsClosed(job, id) && Start(a, id) != Closed
  }

  /** Every blocker of `id` was closed to begin with or is in `f`. */
  ghost predicate Unblocked(a: Db, deps: Graph.Edges, f: set<int>, id: int) {
    forall p :: (id, p) in deps ==> Start(a, p) == Closed || p in f
  }

  ghost predicate ClosedUnder(job: Job, a: Db, deps: Graph.Edges, f: set<int>) {
    forall id :: id in ToClose(job, a) && Unblocked(a, deps, f, id) ==> id in f
  }

  /** The least set of rows to close that takes in every row whose blockers are all closed. */
  ghost predicate IsLeastFixpoint(job: Job, a: Db, deps: Graph.Edges, c: set<int>) {
    && c <= ToClose(job, a)
    && ClosedUnder(job, a, deps, c)
    && forall f: set<int> :: ClosedUnder(job, a, deps, f) ==> c <= f
  }

  lemma FixpointIsUnique(job: Job, a: Db, deps: Graph.Edges, c: set<int>, d: set<int>)
    requires IsLeastFixpoint(job, a, deps, c) && IsLeastFixpoint(job, a, deps, d)
    ensures c == d
  {
  }

  /** Not closed to begin with and not to be closed. */
  ghost predicate StaysOpen(job: Job, a: Db, id: int) {
    Start(a, id) != Closed && id !in ToClose(job, a)
  }

  /** A dependency path of at least one step, through rows to be closed, to an issue that stays open. */
  ghost predicate HeldOpenBy(job: Job, a: Db, deps: Graph.Edges, p: seq<int>) {
    && |p| >= 2 && Graph.IsPath(deps, p)
    && (forall k :: 0 <= k < |p| - 1 ==> p[k] in ToClose(job, a))
    && StaysOpen(job, a, p[|p| - 1])
  }

  ghost predicate HeldOpen(job: Job, a: Db, deps: Graph.Edges, id: int) {
    exists p :: HeldOpenBy(job, a, deps, p) && p[0] == id
  }

  lemma HeldOpenStep(job: Job, a: Db, deps: Graph.Edges, id: int, next: int)
    requires id in ToClose(job, a) && (id, next) in deps
    requires StaysOpen(job, a, next) || HeldOpen(job, a, deps, next)
    ensures HeldOpen(job, a, deps, id)
  {
    if StaysOpen(job, a, next) {
      assert Graph.Hop(deps, [id, next], 0);
      assert HeldOpenBy(job, a, deps, [id, next]);
    } else {
      var p :| HeldOpenBy(job, a, deps, p) && p[0] == next;
      assert Graph.Hop(deps, [id, next], 0);
      Graph.JoinPaths(deps, [id, next], p);
      var q := [id, next] + p[1..];
      assert q == [id] + p;
      assert HeldOpenBy(job, a, deps, q);
    }
  }

  lemma HeldOpenFirst(job: Job, a: Db, deps: Graph.Edges, id: int) returns (next: int)
    requires HeldOpen(job, a, deps, id)
    ensures id in ToClose(job, a) && (id, next) in deps
    ensures StaysOpen(job, a, next) || HeldOpen(job, a, deps, next)
  {
    var p :| HeldOpenBy(job, a, deps, p) && p[0] == id;
    assert Graph.Hop(deps, p, 0);
    next := p[1];
    if |p| > 2 {
      Graph.SubPath(deps, p, 1, |p|);
      assert HeldOpenBy(job, a, deps, p[1..|p|]);
    }
  }

  /**
   The rows left over are exactly those from which a dependency path, through rows to be closed, leads
   to an issue that stays open.
   */
  lemma LeftoversAreHeldOpen(job: Job, a: Db, deps: Graph.Edges, c: set<int>, id: int)
    requires IsLeastFixpoint(job, a, deps, c) && Graph.Acyclic(deps) && id in ToClose(job, a)
    ensures id !in c <==> HeldOpen(job, a, deps, id)
  {
    var free := set x | x in ToClose(job, a) && !HeldOpen(job, a, deps, x);
    forall x | x in ToClose(job, a) && Unblocked(a, deps, free, x)
      ensures x in free
    {
      if HeldOpen(job, a, deps, x) {
        var next := HeldOpenFirst(job, a, deps, x);
      }
    }
    assert c <= free;
    if id !in c && !HeldOpen(job, a, deps, id) {
      var stuck := set x | x in ToClose(job, a) && x !in c && !HeldOpen(job, a, deps, x);
      forall x | x in stuck
        ensures Graph.HasNext(deps, stuck, x)
      {
        var p :| (x, p) in deps && Start(a, p) != Closed && p !in c;
        if p !in stuck {
          HeldOpenStep(job, a, deps, x, p);
        }
      }
      Graph.StuckHasCycle(deps, stuck, id);
    }
  }

  // ----- What is counted -----

  /** How many of the first `n` rows were there before. */
  ghost function PresentCount(job: Job, db: Db, n: nat): nat
    requires n <= |job.rows|
  {
    if n == 0 then 0 else PresentCount(job, db, n - 1) + if IdOf(job, job.rows[n - 1]) in db.issues then 1 else 0
  }

  /** How many of the first `n` rows change their id. */
  ghost function RenamedCount(job: Job, n: nat): nat
    requires n <= |job.rows|
  {
    if n == 0 then 0
    else RenamedCount(job, n - 1) + if Some(IdOf(job, job.rows[n - 1])) != job.rows[n - 1].id then 1 else 0
  }

  /** An entry for another issue that is not in `ids`. */
  ghost predicate Misses(job: Job, r: Row, d: Dep, ids: set<int>) {
    TargetOf(job, d).Some? && TargetOf(job, d).value != IdOf(job, r) && TargetOf(job, d).value !in ids
  }

  /** Dependency entries that link to a known issue, and entries that name an unknown one. */
  datatype Tally = Tally(links: nat, misses: nat)

  function Plus(a: Tally, b: Tally): Tally {
    Tally(a.links + b.links, a.misses + b.misses)
  }

  ghost function EntryTally(job: Job, r: Row, d: Dep, ids: set<int>): Tally {
    if Links(job, r, d, ids) then Tally(1, 0) else if Misses(job, r, d, ids) then Tally(0, 1) else Tally(0, 0)
  }

  /** The row's first `n` entries. */
  ghost function RowTally(job: Job, r: Row, n: nat, ids: set<int>): Tally
    requires n <= |r.deps|
  {
    if n == 0 then Tally(0, 0) else Plus(RowTally(job, r, n - 1, ids), EntryTally(job, r, r.deps[n - 1], ids))
  }

  /** All entries of the first `n` rows. */
  ghost function FullTally(job: Job, n: nat, ids: set<int>): Tally
    requires n <= |job.rows|
  {
    if n == 0 then Tally(0, 0)
    else Plus(FullTally(job, n - 1, ids), RowTally(job, job.rows[n - 1], |job.rows[n - 1].deps|, ids))
  }

  lemma RowTallyStep(job: Job, r: Row, n: nat, ids: set<int>)
    requires n < |r.deps|
    ensures RowTally(job, r, n + 1, ids) == Plus(RowTally(job, r, n, ids), EntryTally(job, r, r.deps[n], ids))
  {
  }

  lemma FullTallyStep(job: Job, n: nat, ids: set<int>)
    requires n < |job.rows|
    ensures FullTally(job, n + 1, ids) ==
            Plus(FullTally(job, n, ids), RowTally(job, job.rows[n], |job.rows[n].deps|, ids))
  {
  }

  lemma PresentStep(job: Job, db: Db, n: nat)
    requires n < |job.rows|
    ensures PresentCount(job, db, n + 1) ==
            PresentCount(job, db, n) + if IdOf(job, job.rows[n]) in db.issues then 1 else 0
  {
  }

  lemma RenamedStep(job: Job, n: nat)
    requires n < |job.rows|
    ensures RenamedCount(job, n + 1) ==
            RenamedCount(job, n) + if Some(IdOf(job, job.rows[n])) != job.rows[n].id then 1 else 0
  {
  }

  // ----- File order -----

  /** The same rows, imported in the same way, in another file order. */
  ghost predicate Reordered(job: Job, other: Job) {
    && multiset(job.rows) == multiset(other.rows)
    && job.project == other.project
    && job.rename == other.rename
  }

  /** No two rows end up with one id. */
  ghost predicate DistinctIds(job: Job) {
    forall i, j :: 0 <= i < j < |job.rows| ==> IdOf(job, job.rows[i]) != IdOf(job, job.rows[j])
  }

  lemma SameRows(job: Job, other: Job, r: Row)
    requires Reordered(job, other)
    ensures r in job.rows <==> r in other.rows
    ensures IdOf(job, r) == IdOf(other, r)
  {
    assert r in multiset(job.rows) <==> r in multiset(other.rows);
  }

  lemma SameRowIds(job: Job, other: Job)
    requires Reordered(job, other)
    ensures RowIds(job) == RowIds(other)
  {
    forall id
      ensures id in RowIds(job) <==> id in RowIds(other)
    {
      if id in RowIds(job) {
        var k :| 0 <= k < |job.rows| && IdOf(job, job.rows[k]) == id;
        HasRow(other, job.rows[k], job);
      }
      if id in RowIds(other) {
        var k :| 0 <= k < |other.rows| && IdOf(other, other.rows[k]) == id;
        HasRow(job, other.rows[k], other);
      }
    }
  }

  lemma HasRow(job: Job, r: Row, other: Job)
    requires Reordered(job, other) || Reordered(other, job)
    requires r in other.rows
    ensures r in job.rows && IdOf(job, r) == IdOf(other, r) && Among(job, |job.rows|, IdOf(job, r))
    ensures StatusOf(r) == Closed ==> WantsClosed(job, IdOf(job, r))
  {
    if Reordered(job, other) {
      SameRows(job, other, r);
    } else {
      SameRows(other, job, r);
    }
    var k :| 0 <= k < |job.rows| && job.rows[k] == r;
  }

  lemma SameEdges(job: Job, other: Job, ids: set<int>)
    requires Reordered(job, other)
    ensures RowEdges(job, ids) == RowEdges(other, ids)
  {
    forall r, d
      ensures r in job.rows && d in r.deps && Links(job, r, d, ids) <==>
              r in other.rows && d in r.deps && Links(other, r, d, ids)
      ensures (IdOf(job, r), TargetOf(job, d).GetOr(0)) == (IdOf(other, r), TargetOf(other, d).GetOr(0))
    {
      SameRows(job, other, r);
    }
    forall c, p
      ensures (c, p) in RowEdges(job, ids) <==> (c, p) in RowEdges(other, ids)
    {
      if (c, p) in RowEdges(job, ids) {
        var r, d :| r in job.rows && d in r.deps && Links(job, r, d, ids)
                    && (c, p) == (IdOf(job, r), TargetOf(job, d).value);
        assert (IdOf(other, r), TargetOf(other, d).value) in RowEdges(other, ids);
      }
      if (c, p) in RowEdges(other, ids) {
        var r, d :| r in other.rows && d in r.deps && Links(other, r, d, ids)
                    && (c, p) == (IdOf(other, r), TargetOf(other, d).value);
        assert (IdOf(job, r), TargetOf(job, d).value) in RowEdges(job, ids);
      }
    }
  }

  lemma SameToClose(job: Job, other: Job, a: Db)
    requires Reordered(job, other)
    ensures FinalIds(job, a) == FinalIds(other, a) && FinalEdges(job, a) == FinalEdges(other, a)
    ensures ToClose(job, a) == ToClose(other, a)
    ensures forall id :: WantsClosed(job, id) <==> WantsClosed(other, id)
  {
    SameRowIds(job, other);
    SameEdges(job, other, FinalIds(job, a));
    forall id
      ensures WantsClosed(job, id) <==> WantsClosed(other, id)
    {
      if WantsClosed(job, id) {
        var k :| 0 <= k < |job.rows| && IdOf(job, job.rows[k]) == id && StatusOf(job.rows[k]) == Closed;
        HasRow(other, job.rows[k], job);
      }
      if WantsClosed(other, id) {
        var k :| 0 <= k < |other.rows| && IdOf(other, other.rows[k]) == id && StatusOf(other.rows[k]) == Closed;
        HasRow(job, other.rows[k], other);
      }
    }
  }

  /** Whatever the file order, the same rows are closed in order and the same are left over. */
  lemma ClosingIgnoresFileOrder(job: Job, other: Job, a: Db, c: set<int>, d: set<int>)
    requires Reordered(job, other)
    requires IsLeastFixpoint(job, a, FinalEdges(job, a), c) && IsLeastFixpoint(other, a, FinalEdges(other, a), d)
    ensures c == d && ToClose(job, a) - c == ToClose(other, a) - d
  {
    SameToClose(job, other, a);
    SameRule(job, other, a, FinalEdges(job, a));
    FixpointIsUnique(job, a, FinalEdges(job, a), c, d);
  }

  lemma SameRule(job: Job, other: Job, a: Db, deps: Graph.Edges)
    requires ToClose(job, a) == ToClose(other, a)
    ensures forall f: set<int> :: ClosedUnder(job, a, deps, f) <==> ClosedUnder(other, a, deps, f)
  {
  }

  /** With distinct ids a row's mark is its own status, wherever it stands. */
  lemma {:induction false} MarkOfOnly(job: Job, n: nat, k: nat)
    requires DistinctIds(job) && k < |job.rows| && n <= |job.rows|
    ensures var r := job.rows[k];
            Mark(job, n, IdOf(job, r)) == if k < n && StatusOf(r) != Open
                                             && StatusOf(r) != Closed then Some(StatusOf(r)) else None
  {
    if n > 0 {
      MarkOfOnly(job, n - 1, k);
      var i, j := if k < n - 1 then k else n - 1, if k < n - 1 then n - 1 else k;
      assert i < j ==> IdOf(job, job.rows[i]) != IdOf(job, job.rows[j]);
    }
  }

  lemma SameFinalsReordered(job: Job, other: Job, a: Db, id: int)
    requires Reordered(job, other) && DistinctIds(job) && DistinctIds(other) && id in RowIds(job)
    ensures Final(job, a, id) == Final(other, a, id)
  {
    SameToClose(job, other, a);
    var k :| 0 <= k < |job.rows| && IdOf(job, job.rows[k]) == id;
    HasRow(other, job.rows[k], job);
    var l :| 0 <= l < |other.rows| && other.rows[l] == job.rows[k];
    MarkOfOnly(job, |job.rows|, k);
    MarkOfOnly(other, |other.rows|, l);
  }

  /**
   Where row `k` ends, ids being distinct: closed if the file says so, and otherwise where the file says unless the
   issue had left the open state before.
   */
  lemma FinalLaw(job: Job, db: Db, k: nat)
    requires DistinctIds(job) && k < |job.rows| && job.rows[k].id.Some? && job.rows[k].status.Some?
    ensures var id, asked := job.rename(job.rows[k].id.value), job.rows[k].status.value;
            Final(job, db, id) == if asked == Closed then Closed
            else if id in db.issues && db.issues[id].status != Open then db.issues[id].status
            else asked
  {
    var id := job.rename(job.rows[k].id.value);
    MarkOfOnly(job, |job.rows|, k);
    if WantsClosed(job, id) {
      var l :| 0 <= l < |job.rows| && IdOf(job, job.rows[l]) == id && StatusOf(job.rows[l]) == Closed;
      assert l == k;
    }
  }

  /** Whatever the file order, rows with distinct ids land the same ids, statuses and edges. */
  lemma LandingIgnoresFileOrder(job: Job, other: Job, a: Db, b: Db)
    requires Reordered(job, other) && DistinctIds(job) && DistinctIds(other)
    ensures Landed(job, a, b) <==> Landed(other, a, b)
  {
    SameToClose(job, other, a);
    SameRowIds(job, other);
    forall id | id in RowIds(job)
      ensures Final(job, a, id) == Final(other, a, id)
    {
      SameFinalsReordered(job, other, a, id);
    }
    SameFrame(job, other, a, b);
  }

  lemma SameFrame(job: Job, other: Job, a: Db, b: Db)
    requires RowIds(job) == RowIds(other) && job.project == other.project
    ensures Framed(job, a, b) <==> Framed(other, a, b)
  {
  }
}
