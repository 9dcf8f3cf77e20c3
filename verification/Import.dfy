/**
 `import` (src/jsonl.rs) as a whole: when it goes through, what it lands, which rows are closed in order,
 and that stopping it between any two writes loses nothing.
 */
module Import {
  import opened Wrappers
  import opened Domain
  import opened StoreSpec
  import opened StoreInvariant
  import opened ImportSpec
  import opened ImportWrites
  import opened ImportRows
  import opened ImportEdges
  import opened ImportClosing
  import ImportBodies
  import Graph
  import Store

  datatype Report = Report(imported: nat, present: nat, renamed: nat, deps: nat, missingDeps: nat, exceptionClosed: nat)

  lemma CreatedIsLinking(job: Job, a: Db, b: Db)
    requires RowsCreated(job, a, b, |job.rows|)
    ensures Linking(job, a, b)
  {
    assert b.issues.Keys == FinalIds(job, a);
  }

  lemma CreatesCloseNothing(ws: seq<Write>)
    requires OnlyCreates(ws)
    ensures ClosedBy(ws) == {} && ForcedBy(ws) == {}
  {
  }

  lemma LinkedStartsRounds(job: Job, cfg: Config, a: Db, b: Db, ws: seq<Write>)
    requires Linking(job, a, b) && b.deps == FinalEdges(job, a)
    requires Ongoing(job, cfg, a, ws, b) && ClosedBy(ws) == {} && ForcedBy(ws) == {}
    ensures Rounds(job, cfg, a, b, 0, {}, ws)
  {
  }

  /** What the closing phase has done once it is over. */
  ghost predicate ClosedInOrder(job: Job, a: Db, b: Db, ws: seq<Write>) {
    && IsLeastFixpoint(job, a, b.deps, ClosedBy(ws))
    && ForcedBy(ws) == ToClose(job, a) - ClosedBy(ws)
  }

  lemma NoneLeft(job: Job, left: seq<Row>)
    ensures left == [] <==> IdsOf(job, left) == {}
  {
    if left != [] {
      assert left[0] in left;
      assert IdOf(job, left[0]) in IdsOf(job, left);
    }
  }

  /** Closed in order and closed by exception make up all rows to close. */
  lemma AllClosed(job: Job, cfg: Config, a: Db, b: Db, c: set<int>, ws: seq<Write>, left: seq<Row>)
    requires Excepting(job, cfg, a, b, c, IdsOf(job, left), ws) && IsLeastFixpoint(job, a, FinalEdges(job, a), c)
    requires IdsOf(job, left) == ToClose(job, a) - c
    ensures Ongoing(job, cfg, a, ws, b) && Landed(job, a, b) && ClosedInOrder(job, a, b, ws)
    ensures |left| == 0 <==> ForcedBy(ws) == {}
  {
    assert c + IdsOf(job, left) == ToClose(job, a);
    AllLanded(job, a, b);
    NoneLeft(job, left);
  }

  method CloseRows(store: Store.Inner, job: Job, at: int, ghost a: Db, ghost ws: seq<Write>)
    returns (exceptions: nat, ghost ws': seq<Write>)
    requires store.Valid() && Rounds(job, store.cfg, a, store.db, 0, {}, ws)
    modifies store, store.engine
    ensures store.Valid() && Ongoing(job, store.cfg, a, ws', store.db)
    ensures Landed(job, a, store.db) && ClosedInOrder(job, a, store.db, ws')
    ensures exceptions == 0 <==> ForcedBy(ws') == {}
    ensures DistinctIds(job) ==> exceptions == |ForcedBy(ws')|
  {
    var left;
    ghost var c, x;
    left, c, ws' := AllRounds(store, job, at, a, ws);
    x, ws' := CloseLeft(store, job, left, a, c, ws');
    AllClosed(job, store.cfg, a, store.db, c, ws', left);
    exceptions := |left|;
  }

  /**
   The counts of the report: new ids, rows already there, renamed rows, links made and missed, and rows closed by
   exception.
   */
  ghost predicate CountsRight(job: Job, a: Db, ws: seq<Write>, rep: Report) {
    && rep.imported == |FinalIds(job, a)| - |a.issues.Keys|
    && rep.renamed == RenamedCount(job, |job.rows|)
    && Tally(rep.deps, rep.missingDeps) == FullTally(job, |job.rows|, FinalIds(job, a))
    && (rep.exceptionClosed == 0 <==> ForcedBy(ws) == {})
    && (DistinctIds(job) ==> rep.exceptionClosed == |ForcedBy(ws)|)
  }

  /** The writing part: rows, then edges, then closings. */
  method WriteRows(
    store: Store.Inner, job: Job, at: int, present: nat)
    returns (r: Result<Report, ImportError>, ghost writes: seq<Write>)
    requires store.Valid() && AllReadable(job) && NoConflict(job, store.db)
    modifies store, store.engine
    ensures store.Valid() && Ongoing(job, store.cfg, old(store.db), writes, store.db)
    ensures r.Ok? <==> Clean(job, old(store.db))
    ensures r.Ok? ==> Landed(job, old(store.db), store.db) && ClosedInOrder(job, old(store.db), store.db, writes)
    ensures r.Ok? ==> CountsRight(job, old(store.db), writes, r.value) && r.value.present == present
    ensures r == Err(Failed(Cycle)) <==>
            AllCreatable(job, old(store.db)) && !Graph.Acyclic(FinalEdges(job, old(store.db)))
    ensures r.Err? ==> !r.error.Conflicts?
  {
    ghost var a := store.db;
    var created, linked;
    created, writes := CreateRows(store, job);
    if created.Err? {
      return Err(created.error), writes;
    }
    CreatedIsLinking(job, a, store.db);
    CreatesCloseNothing(writes);
    linked, writes := LinkRows(store, job, at, a, writes);
    if linked.Err? {
      return Err(Failed(linked.error)), writes;
    }
    assert Graph.Acyclic(store.db.deps);
    LinkedStartsRounds(job, store.cfg, a, store.db, writes);
    var exceptions;
    exceptions, writes := CloseRows(store, job, at, a, writes);
    var renamed := CountRenamed(job);
    return Ok(Report(created.value, present, renamed, linked.value.links, linked.value.misses, exceptions)), writes;
  }

  /**
   Writes nothing on an unreadable row, a conflict or a dry run. Otherwise it goes through exactly when
   every row can be created in file order and the dependencies together are acyclic; it then lands the
   promised ids, statuses and edges, closing through `close` exactly the least fixpoint of "to be closed
   and all blockers closed".
   */
  method Run(
    store: Store.Inner, job: Job, at: int, dryRun: bool)
    returns (r: Result<Report, ImportError>, ghost writes: seq<Write>)
    requires store.Valid()
    modifies store, store.engine
    ensures store.Valid() && StateAfter(store.cfg, old(store.db), writes) == Ok(store.db)
    ensures !AllReadable(job) ==> r == Err(BadRow) && writes == []
    ensures AllReadable(job) && !NoConflict(job, old(store.db)) ==>
              writes == [] && r.Err? && r.error.Conflicts? && ClashesAre(job, old(store.db), |job.rows|, r.error.ids)
    ensures AllReadable(job) && NoConflict(job, old(store.db)) ==> Resumable(job, store.cfg, old(store.db), writes)
    ensures dryRun ==> writes == [] && (r.Ok? <==> AllReadable(job) && NoConflict(job, old(store.db)))
    ensures !dryRun ==> (r.Ok? <==> Clean(job, old(store.db)))
    ensures !dryRun && r.Ok? ==>
              Landed(job, old(store.db), store.db) && ClosedInOrder(job, old(store.db), store.db, writes)
    ensures !dryRun && r.Ok? ==> CountsRight(job, old(store.db), writes, r.value)
    ensures r.Ok? ==> r.value.present == PresentCount(job, old(store.db), |job.rows|)
    ensures AllFromFile(job, writes) && BodiesKept(job, old(store.db), store.db)
    ensures r == Err(Failed(Cycle)) ==>
              AllCreatable(job, old(store.db)) && !Graph.Acyclic(FinalEdges(job, old(store.db)))
  {
    writes := [];
    ghost var a := store.db;
    var found := FindConflicts(store, job);
    if found.Err? {
      return Err(BadRow), writes;
    }
    if found.value.0 != [] {
      return Err(Conflicts(found.value.0)), writes;
    }
    if dryRun {
      NoWrites(job, store.cfg, store.db);
      return Ok(Report(0, found.value.1, 0, 0, 0, 0)), writes;
    }
    r, writes := WriteRows(store, job, at, found.value.1);
    ImportBodies.BodiesAfter(job, store.cfg, a, writes, store.db);
  }

  /** A resume after any number of writes goes through and ends with the same ids, statuses and edges. */
  lemma ResumeEndsTheSame(job: Job, cfg: Config, a: Db, writes: seq<Write>, k: nat, b: Db, whole: Db, resumed: Db)
    requires Clean(job, a) && Resumable(job, cfg, a, writes) && k <= |writes|
    requires StateAfter(cfg, a, writes[..k]) == Ok(b)
    requires Landed(job, a, whole)
    ensures Clean(job, b)
    ensures Landed(job, b, resumed) ==> SameOutcome(whole, resumed)
  {
    assert StopsWell(job, cfg, a, writes, k);
    ResumeIsClean(job, a, b);
    if Landed(job, b, resumed) {
      ResumeLandsTheSame(job, a, b, resumed);
      LandingIsUnique(job, a, whole, resumed);
    }
  }

  /** A second run of a finished import changes no id, status or edge. */
  lemma RerunChangesNothing(job: Job, a: Db, b: Db, c: Db)
    requires Clean(job, a) && Landed(job, a, b) && Landed(job, b, c)
    ensures Clean(job, b) && SameOutcome(b, c)
  {
    LandedIsUnderway(job, a, b);
    ResumeIsClean(job, a, b);
    ResumeLandsTheSame(job, a, b, c);
    LandingIsUnique(job, a, b, c);
  }
}
