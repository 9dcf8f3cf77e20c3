/** The dependency phase of `import` (src/jsonl.rs). */
module ImportEdges {
  import opened Wrappers
  import opened StoreSpec
  import opened StoreInvariant
  import opened ImportSpec
  import opened ImportWrites
  import Graph
  import Store

  /** All rows are there, some of their edges are, and no status has moved. */
  ghost predicate Linking(job: Job, a: Db, b: Db) {
    && Framed(job, a, b)
    && b.issues.Keys == FinalIds(job, a)
    && a.deps <= b.deps <= FinalEdges(job, a)
    && forall id :: id in b.issues ==> b.issues[id].status == Start(a, id)
  }

  lemma LinkingIsUnderway(job: Job, a: Db, b: Db)
    requires Linking(job, a, b)
    ensures Underway(job, a, b)
  {
  }

  /** Entry `d` of the row needs no edge, or its edge is there. */
  ghost predicate DepLinked(job: Job, b: Db, r: Row, d: Dep) {
    Links(job, r, d, b.issues.Keys) ==> (IdOf(job, r), TargetOf(job, d).value) in b.deps
  }

  ghost predicate DepsLinked(job: Job, b: Db, r: Row, n: nat)
    requires n <= |r.deps|
  {
    forall j :: 0 <= j < n ==> DepLinked(job, b, r, r.deps[j])
  }

  ghost predicate RowsLinked(job: Job, b: Db, n: nat)
    requires n <= |job.rows|
  {
    forall k :: 0 <= k < n ==> DepsLinked(job, b, job.rows[k], |job.rows[k].deps|)
  }

  lemma DepsStayLinked(job: Job, b: Db, c: Db, r: Row, n: nat)
    requires n <= |r.deps| && b.deps <= c.deps && c.issues.Keys == b.issues.Keys && DepsLinked(job, b, r, n)
    ensures DepsLinked(job, c, r, n)
  {
    forall j | 0 <= j < n
      ensures DepLinked(job, c, r, r.deps[j])
    {
      assert DepLinked(job, b, r, r.deps[j]);
    }
  }

  lemma RowsStayLinked(job: Job, b: Db, c: Db, n: nat)
    requires n < |job.rows| && b.deps <= c.deps && c.issues.Keys == b.issues.Keys && RowsLinked(job, b, n)
    requires DepsLinked(job, c, job.rows[n], |job.rows[n].deps|)
    ensures RowsLinked(job, c, n + 1)
  {
    forall k | 0 <= k < n
      ensures DepsLinked(job, c, job.rows[k], |job.rows[k].deps|)
    {
      assert DepsLinked(job, b, job.rows[k], |job.rows[k].deps|);
      DepsStayLinked(job, b, c, job.rows[k], |job.rows[k].deps|);
    }
  }

  lemma AllLinked(job: Job, a: Db, b: Db)
    requires Linking(job, a, b) && RowsLinked(job, b, |job.rows|)
    ensures b.deps == FinalEdges(job, a)
  {
    forall c, p | (c, p) in RowEdges(job, FinalIds(job, a))
      ensures (c, p) in b.deps
    {
      var r, d :| r in job.rows && d in r.deps && Links(job, r, d, FinalIds(job, a))
                  && (c, p) == (IdOf(job, r), TargetOf(job, d).value);
      var k :| 0 <= k < |job.rows| && job.rows[k] == r;
      assert DepsLinked(job, b, r, |r.deps|);
      var j :| 0 <= j < |r.deps| && r.deps[j] == d;
      assert DepLinked(job, b, r, r.deps[j]);
    }
  }

  /** Rewriting a row of the import in place. */
  lemma RowRewritten(job: Job, a: Db, b: Db, c: Db, id: int)
    requires Framed(job, a, b) && id in b.issues && id in RowIds(job)
    requires c.projects == b.projects && c.folders == b.folders && c.filed == b.filed
    requires c.issues.Keys == b.issues.Keys && (forall x :: x in b.issues && x != id ==> c.issues[x] == b.issues[x])
    requires c.issues[id].project == b.issues[id].project && c.issues[id].metadata == b.issues[id].metadata
    ensures Framed(job, a, c)
  {
  }

  lemma EdgeIsWanted(job: Job, a: Db, b: Db, r: Row, d: Dep)
    requires Linking(job, a, b) && r in job.rows && Links(job, r, d, b.issues.Keys)
    ensures (IdOf(job, r), TargetOf(job, d).value) in FinalEdges(job, a)
    ensures IdOf(job, r) in RowIds(job) && IdOf(job, r) in b.issues
  {
    assert (IdOf(job, r), TargetOf(job, d).value) in RowEdges(job, FinalIds(job, a));
    RowHasId(job, r);
  }

  lemma EdgeRefused(job: Job, a: Db, b: Db, c: int, p: int, at: int)
    requires Inv(b) && b.deps <= FinalEdges(job, a) && (c, p) in FinalEdges(job, a)
    requires c in b.issues && p in b.issues && c != p && AddDep(b, c, p, IMPORTER, at).Err?
    ensures AddDep(b, c, p, IMPORTER, at).error == Cycle && !Graph.Acyclic(FinalEdges(job, a))
  {
    Graph.AddEdge(b.deps, c, p);
    if Graph.Acyclic(FinalEdges(job, a)) {
      Graph.AcyclicMono(b.deps + {(c, p)}, FinalEdges(job, a));
    }
  }

  lemma EdgeAccepted(job: Job, a: Db, b: Db, c: int, p: int, at: int, next: Db)
    requires Inv(b) && Linking(job, a, b) && (c, p) in FinalEdges(job, a) && c in RowIds(job)
    requires AddDep(b, c, p, IMPORTER, at) == Ok(next)
    ensures Linking(job, a, next) && next.deps == b.deps + {(c, p)}
  {
    AddDepEffect(b, c, p, IMPORTER, at);
    EdgeIsIn(job, a, b, c, p, at, next);
  }

  lemma EdgeIsIn(job: Job, a: Db, b: Db, c: int, p: int, at: int, next: Db)
    requires Linking(job, a, b) && (c, p) in FinalEdges(job, a) && c in RowIds(job) && c in b.issues
    requires next.deps == b.deps + {(c, p)} && next.projects == b.projects && next.folders == b.folders
             && next.filed == b.filed
    requires next.issues == b.issues || next.issues == b.issues[c := b.issues[c].(updatedAt := at)]
    ensures Linking(job, a, next)
  {
    if next.issues != b.issues {
      RowRewritten(job, a, b, next, c);
    }
  }

  /** The rows' edges between known issues are refused only if the edges together are cyclic. */
  lemma LinkStep(job: Job, a: Db, b: Db, r: Row, d: Dep, at: int)
    requires Inv(b) && Linking(job, a, b) && r in job.rows && Links(job, r, d, b.issues.Keys)
    ensures var s := AddDep(b, IdOf(job, r), TargetOf(job, d).value, IMPORTER, at);
            && (s.Err? ==> s.error == Cycle && !Graph.Acyclic(FinalEdges(job, a)))
            && (s.Ok? ==> Linking(job, a, s.value) && DepLinked(job, s.value, r, d) && b.deps <= s.value.deps)
  {
    var c, p := IdOf(job, r), TargetOf(job, d).value;
    EdgeIsWanted(job, a, b, r, d);
    var s := AddDep(b, c, p, IMPORTER, at);
    if s.Ok? {
      EdgeAccepted(job, a, b, c, p, at, s.value);
    } else {
      EdgeRefused(job, a, b, c, p, at);
    }
  }

  lemma RowHasId(job: Job, r: Row)
    requires r in job.rows
    ensures IdOf(job, r) in RowIds(job)
  {
    var k :| 0 <= k < |job.rows| && job.rows[k] == r;
    assert Among(job, |job.rows|, IdOf(job, r));
  }

  /** A target that is not in the store is counted as missing and skipped. */
  lemma MissingTarget(job: Job, a: Db, b: Db, r: Row, t: int, at: int)
    requires Linking(job, a, b) && r in job.rows && t !in b.issues && t != IdOf(job, r)
    ensures AddDep(b, IdOf(job, r), t, IMPORTER, at) == Err(NotFound(t))
  {
    RowHasId(job, r);
  }

  /** What one accepted `add_dep` of the import does to the state and to the record of writes. */
  lemma DepAdded(job: Job, cfg: Config, a: Db, b: Db, r: Row, j: nat, ws: seq<Write>, w: Write, c: Db)
    requires Linking(job, a, b) && Ongoing(job, cfg, a, ws, b) && r in job.rows
    requires j < |r.deps| && DepsLinked(job, b, r, j) && w.LinkW? && Apply(cfg, b, w) == Ok(c) && FromFile(job, w)
    requires Linking(job, a, c) && DepLinked(job, c, r, r.deps[j]) && b.deps <= c.deps
    ensures Ongoing(job, cfg, a, ws + [w], c) && DepsLinked(job, c, r, j + 1)
    ensures ClosedBy(ws + [w]) == ClosedBy(ws) && ForcedBy(ws + [w]) == ForcedBy(ws)
  {
    DepsStayLinked(job, b, c, r, j);
    LinkLogged(job, cfg, a, b, ws, w, c);
  }

  lemma LinkLogged(job: Job, cfg: Config, a: Db, b: Db, ws: seq<Write>, w: Write, c: Db)
    requires Ongoing(job, cfg, a, ws, b) && w.LinkW? && Apply(cfg, b, w) == Ok(c) && Linking(job, a, c)
             && FromFile(job, w)
    ensures Ongoing(job, cfg, a, ws + [w], c)
    ensures ClosedBy(ws + [w]) == ClosedBy(ws) && ForcedBy(ws + [w]) == ForcedBy(ws)
  {
    LinkingIsUnderway(job, a, c);
    OneMore(job, cfg, a, ws, b, w, c);
    ClosedByOneMore(ws, w);
  }

  lemma LinkFromFile(job: Job, r: Row, j: nat, w: Write)
    requires r in job.rows && j < |r.deps| && w.LinkW? && w.child == IdOf(job, r)
             && TargetOf(job, r.deps[j]) == Some(w.parent)
    ensures FromFile(job, w)
  {
    assert r.deps[j] in r.deps;
    assert WriteOf(job, r, w);
  }

  method LinkDep(store: Store.Inner, job: Job, r: Row, j: nat, at: int, ghost a: Db, ghost writes: seq<Write>)
    returns (linked: Result<bool, Error>, ghost writes': seq<Write>)
    requires store.Valid() && Linking(job, a, store.db) && Ongoing(job, store.cfg, a, writes, store.db)
    requires r in job.rows && j < |r.deps| && DepsLinked(job, store.db, r, j)
    requires TargetOf(job, r.deps[j]).Some? && TargetOf(job, r.deps[j]).value != IdOf(job, r)
    modifies store, store.engine
    ensures store.Valid() && Linking(job, a, store.db) && Ongoing(job, store.cfg, a, writes', store.db)
    ensures old(store.db).deps <= store.db.deps
            && (ClosedBy(writes'), ForcedBy(writes')) == (ClosedBy(writes), ForcedBy(writes))
    ensures linked.Ok? ==>
              DepsLinked(job, store.db, r, j + 1)
              && (linked.value <==> TargetOf(job, r.deps[j]).value in FinalIds(job, a))
    ensures linked.Err? ==> linked.error == Cycle && !Graph.Acyclic(FinalEdges(job, a))
  {
    var c, p := IdOf(job, r), TargetOf(job, r.deps[j]).value;
    ghost var before := store.db;
    ghost var w := LinkW(c, p, at);
    ghost var after := Apply(store.cfg, before, w);
    if p in before.issues {
      LinkStep(job, a, before, r, r.deps[j], at);
      LinkFromFile(job, r, j, w);
      if after.Ok? {
        DepAdded(job, store.cfg, a, before, r, j, writes, w, after.value);
      }
    } else {
      MissingTarget(job, a, before, r, p, at);
    }
    var added := store.AddDep(c, p, IMPORTER, at);
    if added.Err? {
      if added.error.NotFound? {
        return Ok(false), writes;
      }
      return Err(added.error), writes;
    }
    assert store.db == after.value;
    return Ok(true), writes + [w];
  }

  /** One dependency entry: skipped, linked, or counted as missing. */
  method LinkEntry(store: Store.Inner, job: Job, r: Row, j: nat, at: int, ghost a: Db, ghost writes: seq<Write>)
    returns (entry: Result<Tally, Error>, ghost writes': seq<Write>)
    requires store.Valid() && Linking(job, a, store.db) && Ongoing(job, store.cfg, a, writes, store.db)
    requires r in job.rows && j < |r.deps| && DepsLinked(job, store.db, r, j)
    modifies store, store.engine
    ensures store.Valid() && Linking(job, a, store.db) && Ongoing(job, store.cfg, a, writes', store.db)
    ensures old(store.db).deps <= store.db.deps
            && (ClosedBy(writes'), ForcedBy(writes')) == (ClosedBy(writes), ForcedBy(writes))
    ensures entry.Ok? ==>
              DepsLinked(job, store.db, r, j + 1) && entry.value == EntryTally(job, r, r.deps[j], FinalIds(job, a))
    ensures entry.Err? ==> entry.error == Cycle && !Graph.Acyclic(FinalEdges(job, a))
  {
    var target := TargetOf(job, r.deps[j]);
    if target.None? || target.value == IdOf(job, r) {
      return Ok(Tally(0, 0)), writes;
    }
    var linked;
    linked, writes' := LinkDep(store, job, r, j, at, a, writes);
    if linked.Err? {
      return Err(linked.error), writes';
    }
    return Ok(if linked.value then Tally(1, 0) else Tally(0, 1)), writes';
  }

  /** The first `n` entries of row `r` are in, or one of them was refused. */
  ghost predicate EntriesBy(
    job: Job, cfg: Config, a: Db, ws: seq<Write>, b: Db, r: Row, n: nat, counts: Result<Tally, Error>) {
    match counts
    case Ok(tally) =>
      Linking(job, a, b) && Ongoing(job, cfg, a, ws, b) && n <= |r.deps| && DepsLinked(job, b, r, n)
      && tally == RowTally(job, r, n, FinalIds(job, a))
    case Err(e) =>
      Linking(job, a, b) && Ongoing(job, cfg, a, ws, b) && e == Cycle && !Graph.Acyclic(FinalEdges(job, a))
  }

  method LinkNextEntry(
    store: Store.Inner, job: Job, r: Row, j: nat, tally: Tally, at: int, ghost a: Db, ghost writes: seq<Write>)
    returns (counts: Result<Tally, Error>, ghost writes': seq<Write>)
    requires store.Valid() && r in job.rows && j < |r.deps|
    requires EntriesBy(job, store.cfg, a, writes, store.db, r, j, Ok(tally))
    modifies store, store.engine
    ensures store.Valid() && EntriesBy(job, store.cfg, a, writes', store.db, r, j + 1, counts)
    ensures old(store.db).deps <= store.db.deps
            && (ClosedBy(writes'), ForcedBy(writes')) == (ClosedBy(writes), ForcedBy(writes))
  {
    RowTallyStep(job, r, j, FinalIds(job, a));
    counts, writes' := LinkEntry(store, job, r, j, at, a, writes);
    if counts.Ok? {
      counts := Ok(Plus(tally, counts.value));
    }
  }

  method LinkRow(store: Store.Inner, job: Job, r: Row, at: int, ghost a: Db, ghost writes: seq<Write>)
    returns (counts: Result<Tally, Error>, ghost writes': seq<Write>)
    requires store.Valid() && Linking(job, a, store.db) && Ongoing(job, store.cfg, a, writes, store.db) && r in job.rows
    modifies store, store.engine
    ensures store.Valid() && EntriesBy(job, store.cfg, a, writes', store.db, r, |r.deps|, counts)
    ensures old(store.db).deps <= store.db.deps
            && (ClosedBy(writes'), ForcedBy(writes')) == (ClosedBy(writes), ForcedBy(writes))
  {
    counts, writes' := Ok(Tally(0, 0)), writes;
    for j := 0 to |r.deps|
      invariant store.Valid() && counts.Ok? && EntriesBy(job, store.cfg, a, writes', store.db, r, j, counts)
      invariant old(store.db).deps <= store.db.deps
                && (ClosedBy(writes'), ForcedBy(writes')) == (ClosedBy(writes), ForcedBy(writes))
    {
      counts, writes' := LinkNextEntry(store, job, r, j, counts.value, at, a, writes');
      if counts.Err? {
        return;
      }
    }
  }

  lemma RowIsLinked(job: Job, before: Db, db: Db, k: nat, ids: set<int>)
    requires k < |job.rows| && RowsLinked(job, before, k) && before.deps <= db.deps
             && db.issues.Keys == before.issues.Keys
    requires DepsLinked(job, db, job.rows[k], |job.rows[k].deps|)
    ensures RowsLinked(job, db, k + 1)
    ensures FullTally(job, k + 1, ids) ==
            Plus(FullTally(job, k, ids), RowTally(job, job.rows[k], |job.rows[k].deps|, ids))
  {
    FullTallyStep(job, k, ids);
    RowsStayLinked(job, before, db, k);
  }

  /** The edges of the first `n` rows are in, or one of them was refused. */
  ghost predicate LinkedBy(job: Job, cfg: Config, a: Db, ws: seq<Write>, b: Db, n: nat, counts: Result<Tally, Error>) {
    match counts
    case Ok(tally) =>
      Linking(job, a, b) && Ongoing(job, cfg, a, ws, b) && n <= |job.rows| && RowsLinked(job, b, n)
      && tally == FullTally(job, n, FinalIds(job, a))
    case Err(e) =>
      Linking(job, a, b) && Ongoing(job, cfg, a, ws, b) && e == Cycle && !Graph.Acyclic(FinalEdges(job, a))
  }

  method LinkNext(store: Store.Inner, job: Job, k: nat, tally: Tally, at: int, ghost a: Db, ghost writes: seq<Write>)
    returns (counts: Result<Tally, Error>, ghost writes': seq<Write>)
    requires store.Valid() && k < |job.rows| && LinkedBy(job, store.cfg, a, writes, store.db, k, Ok(tally))
    modifies store, store.engine
    ensures store.Valid() && LinkedBy(job, store.cfg, a, writes', store.db, k + 1, counts)
    ensures (ClosedBy(writes'), ForcedBy(writes')) == (ClosedBy(writes), ForcedBy(writes))
  {
    ghost var before := store.db;
    counts, writes' := LinkRow(store, job, job.rows[k], at, a, writes);
    if counts.Ok? {
      RowIsLinked(job, before, store.db, k, FinalIds(job, a));
      counts := Ok(Plus(tally, counts.value));
    }
  }

  method LinkEveryRow(store: Store.Inner, job: Job, at: int, ghost a: Db, ghost writes: seq<Write>)
    returns (counts: Result<Tally, Error>, ghost writes': seq<Write>)
    requires store.Valid() && LinkedBy(job, store.cfg, a, writes, store.db, 0, Ok(Tally(0, 0)))
    modifies store, store.engine
    ensures store.Valid() && LinkedBy(job, store.cfg, a, writes', store.db, |job.rows|, counts)
    ensures (ClosedBy(writes'), ForcedBy(writes')) == (ClosedBy(writes), ForcedBy(writes))
  {
    counts, writes' := Ok(Tally(0, 0)), writes;
    for k := 0 to |job.rows|
      invariant store.Valid() && counts.Ok? && LinkedBy(job, store.cfg, a, writes', store.db, k, counts)
      invariant (ClosedBy(writes'), ForcedBy(writes')) == (ClosedBy(writes), ForcedBy(writes))
    {
      counts, writes' := LinkNext(store, job, k, counts.value, at, a, writes');
      if counts.Err? {
        return;
      }
    }
  }

  /** Ends with every edge the rows ask for, or with a cycle among them. */
  method LinkRows(store: Store.Inner, job: Job, at: int, ghost a: Db, ghost writes: seq<Write>)
    returns (counts: Result<Tally, Error>, ghost writes': seq<Write>)
    requires store.Valid() && Linking(job, a, store.db) && Ongoing(job, store.cfg, a, writes, store.db)
    modifies store, store.engine
    ensures store.Valid() && Linking(job, a, store.db) && Ongoing(job, store.cfg, a, writes', store.db)
    ensures (ClosedBy(writes'), ForcedBy(writes')) == (ClosedBy(writes), ForcedBy(writes))
    ensures counts.Ok? ==>
              store.db.deps == FinalEdges(job, a) && counts.value == FullTally(job, |job.rows|, FinalIds(job, a))
    ensures counts.Err? ==> counts.error == Cycle && !Graph.Acyclic(FinalEdges(job, a))
  {
    counts, writes' := LinkEveryRow(store, job, at, a, writes);
    if counts.Ok? {
      AllLinked(job, a, store.db);
    }
  }
}
