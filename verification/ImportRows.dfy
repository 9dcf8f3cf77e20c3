/** The first half of `import` (src/jsonl.rs): conflicts are found before anything is written, then rows are created. */
module ImportRows {
  import opened Wrappers
  import opened Domain
  import opened StoreSpec
  import opened StoreInvariant
  import opened ImportSpec
  import opened ImportWrites
  import Store

  datatype ImportError = BadRow | Conflicts(ids: seq<int>) | Failed(error: Error)

  // ----- Phase 0: conflicts are found before anything is written -----

  ghost predicate ClashAmong(job: Job, db: Db, n: nat, id: int)
    requires n <= |job.rows|
  {
    exists k: nat :: k < n && Clashes(job, db, k) && IdOf(job, job.rows[k]) == id
  }

  /** Lists exactly the ids that clash among the first `n` rows. */
  ghost predicate ClashesAre(job: Job, db: Db, n: nat, conflicts: seq<int>)
    requires n <= |job.rows|
  {
    forall id :: id in conflicts <==> ClashAmong(job, db, n, id)
  }

  lemma ClashStep(job: Job, db: Db, n: nat, conflicts: seq<int>)
    requires n < |job.rows| && ClashesAre(job, db, n, conflicts)
    ensures ClashesAre(job, db, n + 1, if Clashes(job, db, n) then conflicts + [IdOf(job, job.rows[n])] else conflicts)
  {
  }

  lemma NoneClash(job: Job, db: Db, conflicts: seq<int>)
    requires ClashesAre(job, db, |job.rows|, conflicts)
    ensures conflicts == [] <==> NoConflict(job, db)
  {
    if k: nat :| k < |job.rows| && Clashes(job, db, k) {
      assert ClashAmong(job, db, |job.rows|, IdOf(job, job.rows[k]));
    }
    if conflicts != [] {
      assert conflicts[0] in conflicts;
      assert ClashAmong(job, db, |job.rows|, conflicts[0]);
    }
  }

  /** Fails on the first unreadable row; otherwise lists the conflicting ids. */
  method FindConflicts(store: Store.Inner, job: Job) returns (r: Result<(seq<int>, nat), ()>)
    requires store.Valid()
    ensures r.Ok? <==> AllReadable(job)
    ensures r.Ok? ==> ClashesAre(job, store.db, |job.rows|, r.value.0)
                      && (r.value.0 == [] <==> NoConflict(job, store.db))
    ensures r.Ok? && r.value.0 == [] ==> r.value.1 == PresentCount(job, store.db, |job.rows|)
  {
    var conflicts: seq<int> := [];
    var present := 0;
    for k := 0 to |job.rows|
      invariant forall j :: 0 <= j < k ==> Readable(job.rows[j])
      invariant ClashesAre(job, store.db, k, conflicts)
      invariant conflicts == [] ==> present == PresentCount(job, store.db, k)
    {
      var row := job.rows[k];
      if !Readable(row) {
        return Err(());
      }
      var existing := store.Get(IdOf(job, row));
      ClashStep(job, store.db, k, conflicts);
      PresentStep(job, store.db, k);
      if existing.Some? && Mine(job, existing.value) {
        present := present + 1;
      } else if existing.Some? {
        conflicts := conflicts + [IdOf(job, row)];
      }
    }
    NoneClash(job, store.db, conflicts);
    return Ok((conflicts, present));
  }

  // ----- Phase 1: create everything as open -----

  function SpecOf(job: Job, row: Row): NewIssue {
    NewIssue(Some(IdOf(job, row)), Some(job.project), row.parent, row.priority, row.isGoal, Some(0), row.createdBy,
             row.metadata.(imported := true))
  }

  /** The first `n` rows are there. */
  ghost predicate RowsCreated(job: Job, a: Db, b: Db, n: nat)
    requires n <= |job.rows|
  {
    && Framed(job, a, b)
    && b.deps == a.deps
    && (forall id :: id in b.issues <==> id in a.issues || Among(job, n, id))
    && forall id :: id in b.issues ==> b.issues[id].status == Start(a, id)
  }

  lemma CreatedIsUnderway(job: Job, a: Db, b: Db, n: nat)
    requires n <= |job.rows| && RowsCreated(job, a, b, n)
    ensures Underway(job, a, b)
  {
  }

  lemma AmongStep(job: Job, n: nat)
    requires n < |job.rows|
    ensures forall id :: Among(job, n + 1, id) <==> Among(job, n, id) || id == IdOf(job, job.rows[n])
  {
    forall id
      ensures Among(job, n + 1, id) <==> Among(job, n, id) || id == IdOf(job, job.rows[n])
    {
      if id == IdOf(job, job.rows[n]) {
        assert 0 <= n < n + 1;
      }
    }
  }

  /** A new row of the import is added, open and marked. */
  lemma RowAdded(job: Job, a: Db, b: Db, n: nat, c: Db, i: Issue)
    requires n < |job.rows| && RowsCreated(job, a, b, n)
    requires i.id == IdOf(job, job.rows[n]) && i.id !in b.issues && Mine(job, i) && i.status == Open
    requires c.issues == b.issues[i.id := i] && c.deps == b.deps
    requires c.projects == b.projects && c.folders == b.folders && c.filed == b.filed
    ensures RowsCreated(job, a, c, n + 1)
  {
    AmongStep(job, n);
    assert i.id !in a.issues;
    assert Among(job, |job.rows|, i.id);
    FrameGrows(job, a, b, c, i);
  }

  lemma FrameGrows(job: Job, a: Db, b: Db, c: Db, i: Issue)
    requires Framed(job, a, b) && i.id !in b.issues && i.id in RowIds(job) && Mine(job, i)
    requires c.issues == b.issues[i.id := i]
    requires c.projects == b.projects && c.folders == b.folders && c.filed == b.filed
    ensures Framed(job, a, c)
  {
  }

  lemma OneMoreKey(rows: map<int, Issue>, i: Issue)
    requires i.id !in rows
    ensures |rows[i.id := i].Keys| == |rows.Keys| + 1
  {
    assert rows[i.id := i].Keys == rows.Keys + {i.id};
  }

  /** The parent the row names, if any, is there and in the import's project. */
  predicate ParentKnown(job: Job, b: Db, row: Row) {
    row.parent.Some? ==> row.parent.value in b.issues && b.issues[row.parent.value].project == job.project
  }

  /** `create` on a row of the import: when it is accepted, and the row it then adds. */
  lemma CreateRowEffect(job: Job, cfg: Config, b: Db, row: Row, at: int)
    requires IdOf(job, row) !in b.issues
    ensures var id := IdOf(job, row);
            var r := Create(b, cfg, SpecOf(job, row), id, at);
            var i := FreshRow(SpecOf(job, row), id, job.project, cfg, at);
            && (r.Ok? <==> job.project in b.projects && ParentKnown(job, b, row))
            && (r.Err? ==> r.error != Cycle)
            && (r.Ok? ==> r.value.issues == b.issues[id := i] && r.value.deps == b.deps
                          && r.value.projects == b.projects
                          && r.value.folders == b.folders && r.value.filed == b.filed)
  {
  }

  lemma CreateStep(job: Job, cfg: Config, a: Db, b: Db, n: nat)
    requires n < |job.rows| && RowsCreated(job, a, b, n) && IdOf(job, job.rows[n]) !in b.issues
    requires NoConflict(job, a)
    ensures var id := IdOf(job, job.rows[n]);
            var at := job.rows[n].createdAt.GetOr(0);
            var r := Create(b, cfg, SpecOf(job, job.rows[n]), id, at);
            && (job.rows[n].createdAt.Some? ==> (r.Ok? <==> Creatable(job, a, n)))
            && (r.Err? ==> r.error != Cycle)
            && (r.Ok? ==> RowsCreated(job, a, r.value, n + 1) && |r.value.issues.Keys| == |b.issues.Keys| + 1)
  {
    var row, id := job.rows[n], IdOf(job, job.rows[n]);
    var at := row.createdAt.GetOr(0);
    CreateRowEffect(job, cfg, b, row, at);
    CreateVerdict(job, a, b, n);
    var r := Create(b, cfg, SpecOf(job, row), id, at);
    if r.Ok? {
      var i := FreshRow(SpecOf(job, row), id, job.project, cfg, at);
      RowAdded(job, a, b, n, r.value, i);
      OneMoreKey(b.issues, i);
    }
  }

  lemma CreateVerdict(job: Job, a: Db, b: Db, n: nat)
    requires n < |job.rows| && RowsCreated(job, a, b, n) && IdOf(job, job.rows[n]) !in b.issues && NoConflict(job, a)
    ensures var row := job.rows[n];
            Creatable(job, a, n) <==> row.createdAt.Some? && job.project in b.projects && ParentKnown(job, b, row)
  {
    var row := job.rows[n];
    if row.parent.Some? {
      ParentAgrees(job, a, b, n, row.parent.value);
    }
  }

  lemma ParentAgrees(job: Job, a: Db, b: Db, n: nat, parent: int)
    requires n < |job.rows| && RowsCreated(job, a, b, n) && NoConflict(job, a)
    ensures parent in b.issues && b.issues[parent].project == job.project <==> ParentThere(job, a, n, parent)
  {
    if Among(job, n, parent) {
      var k :| 0 <= k < n && IdOf(job, job.rows[k]) == parent;
      assert Among(job, |job.rows|, parent);
      assert Mine(job, b.issues[parent]);
    } else if parent in b.issues && parent in RowIds(job) {
      var k :| 0 <= k < |job.rows| && IdOf(job, job.rows[k]) == parent;
      assert !Clashes(job, a, k);
      assert Mine(job, b.issues[parent]);
    }
  }

  lemma SkipStep(job: Job, a: Db, b: Db, n: nat)
    requires n < |job.rows| && RowsCreated(job, a, b, n) && IdOf(job, job.rows[n]) in b.issues
    ensures RowsCreated(job, a, b, n + 1) && Creatable(job, a, n)
  {
    AmongStep(job, n);
  }

  ghost predicate OnlyCreates(ws: seq<Write>) {
    forall w :: w in ws ==> w.CreateW?
  }

  lemma CreationLogged(job: Job, cfg: Config, a: Db, b: Db, n: nat, ws: seq<Write>, w: Write, c: Db)
    requires Ongoing(job, cfg, a, ws, b) && w.CreateW? && Apply(cfg, b, w) == Ok(c)
    requires n < |job.rows| && RowsCreated(job, a, c, n + 1) && FromFile(job, w)
    ensures Ongoing(job, cfg, a, ws + [w], c)
    ensures OnlyCreates(ws) ==> OnlyCreates(ws + [w])
  {
    CreatedIsUnderway(job, a, c, n + 1);
    OneMore(job, cfg, a, ws, b, w, c);
  }

  method CreateRow(store: Store.Inner, job: Job, k: nat, ghost a: Db, ghost writes: seq<Write>)
    returns (r: Result<(), Error>, ghost writes': seq<Write>)
    requires store.Valid() && NoConflict(job, a) && k < |job.rows| && RowsCreated(job, a, store.db, k)
    requires IdOf(job, job.rows[k]) !in store.db.issues && job.rows[k].createdAt.Some?
    requires Ongoing(job, store.cfg, a, writes, store.db)
    modifies store, store.engine
    ensures store.Valid() && Ongoing(job, store.cfg, a, writes', store.db)
    ensures r.Ok? <==> Creatable(job, a, k)
    ensures r.Err? ==> r.error != Cycle
    ensures r.Ok? ==> RowsCreated(job, a, store.db, k + 1) && |store.db.issues.Keys| == |old(store.db).issues.Keys| + 1
    ensures OnlyCreates(writes) ==> OnlyCreates(writes')
  {
    var row, id := job.rows[k], IdOf(job, job.rows[k]);
    ghost var before := store.db;
    ghost var w := CreateW(SpecOf(job, row), id, row.createdAt.value);
    ghost var after := Apply(store.cfg, before, w);
    CreateStep(job, store.cfg, a, before, k);
    assert row in job.rows && WriteOf(job, row, w);
    var created := store.Create(SpecOf(job, row), id, row.createdAt.value);
    if created.Err? {
      return Err(created.error), writes;
    }
    assert store.db == after.value;
    CreationLogged(job, store.cfg, a, before, k, writes, w, store.db);
    return Ok(()), writes + [w];
  }

  ghost predicate CreatableTo(job: Job, a: Db, n: nat)
    requires n <= |job.rows|
  {
    forall j: nat :: j < n ==> Creatable(job, a, j)
  }

  lemma OneMoreCreatable(job: Job, a: Db, n: nat)
    requires n < |job.rows| && CreatableTo(job, a, n)
    ensures CreatableTo(job, a, n + 1) <==> Creatable(job, a, n)
    ensures !Creatable(job, a, n) ==> !AllCreatable(job, a)
  {
  }

  /** One row of the phase: skipped if it is there, created otherwise. */
  method EnsureRow(store: Store.Inner, job: Job, k: nat, ghost a: Db, ghost writes: seq<Write>)
    returns (created: Result<bool, ImportError>, ghost writes': seq<Write>)
    requires store.Valid() && NoConflict(job, a) && k < |job.rows| && RowsCreated(job, a, store.db, k)
    requires Ongoing(job, store.cfg, a, writes, store.db) && OnlyCreates(writes)
    modifies store, store.engine
    ensures store.Valid() && Ongoing(job, store.cfg, a, writes', store.db) && OnlyCreates(writes')
    ensures created.Ok? <==> Creatable(job, a, k)
    ensures created.Ok? ==>
              RowsCreated(job, a, store.db, k + 1)
              && |store.db.issues.Keys| == |old(store.db).issues.Keys| + if created.value then 1 else 0
    ensures created.Err? ==> !created.error.Conflicts? && created.error != Failed(Cycle)
  {
    var existing := store.Get(IdOf(job, job.rows[k]));
    if existing.Some? {
      SkipStep(job, a, store.db, k);
      return Ok(false), writes;
    }
    CreateVerdict(job, a, store.db, k);
    if job.rows[k].createdAt.None? {
      return Err(BadRow), writes;
    }
    var row;
    row, writes' := CreateRow(store, job, k, a, writes);
    if row.Err? {
      return Err(Failed(row.error)), writes';
    }
    return Ok(true), writes';
  }

  method CreateRows(store: Store.Inner, job: Job) returns (r: Result<nat, ImportError>, ghost writes: seq<Write>)
    requires store.Valid() && NoConflict(job, store.db) && AllReadable(job)
    modifies store, store.engine
    ensures store.Valid() && Ongoing(job, store.cfg, old(store.db), writes, store.db)
    ensures r.Ok? <==> AllCreatable(job, old(store.db))
    ensures r.Ok? ==> RowsCreated(job, old(store.db), store.db, |job.rows|)
    ensures r.Ok? ==> |store.db.issues.Keys| == |old(store.db).issues.Keys| + r.value
    ensures OnlyCreates(writes)
    ensures r.Err? ==> !r.error.Conflicts? && r.error != Failed(Cycle)
  {
    writes := [];
    ghost var a := store.db;
    NoWrites(job, store.cfg, a);
    NothingDone(job, a);
    var imported := 0;
    for k := 0 to |job.rows|
      invariant store.Valid() && RowsCreated(job, a, store.db, k)
      invariant Ongoing(job, store.cfg, a, writes, store.db)
      invariant CreatableTo(job, a, k)
      invariant |store.db.issues.Keys| == |a.issues.Keys| + imported
      invariant OnlyCreates(writes)
    {
      OneMoreCreatable(job, a, k);
      var created;
      created, writes := EnsureRow(store, job, k, a, writes);
      if created.Err? {
        return Err(created.error), writes;
      }
      if created.value {
        imported := imported + 1;
      }
    }
    return Ok(imported), writes;
  }

  /** The same pass counts the rows whose id is rewritten. */
  method CountRenamed(job: Job) returns (renamed: nat)
    ensures renamed == RenamedCount(job, |job.rows|)
  {
    renamed := 0;
    for k := 0 to |job.rows|
      invariant renamed == RenamedCount(job, k)
    {
      RenamedStep(job, k);
      if Some(IdOf(job, job.rows[k])) != job.rows[k].id {
        renamed := renamed + 1;
      }
    }
  }
}
