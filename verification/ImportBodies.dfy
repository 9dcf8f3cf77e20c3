/**
 What an import makes of the rows themselves: nothing of a row is lost, and nothing of an existing issue is touched.
 */
module ImportBodies {
  import opened Wrappers
  import opened Domain
  import opened StoreSpec
  import opened StoreInvariant
  import opened StoreEffects
  import opened ImportSpec
  import opened ImportWrites

  /** One write keeps the bodies of the rows that are there, and a row it adds is copied from the file. */
  lemma WriteKeepsBodies(job: Job, cfg: Config, a: Db, b: Db, w: Write, c: Db)
    requires Inv(b) && BodiesKept(job, a, b) && a.issues.Keys <= b.issues.Keys
    requires FromFile(job, w) && Apply(cfg, b, w) == Ok(c)
    ensures Inv(c) && BodiesKept(job, a, c) && a.issues.Keys <= c.issues.Keys
  {
    var r :| r in job.rows && WriteOf(job, r, w);
    match w
    case CreateW(spec, minted, at) => CreateKeepsBodies(job, cfg, a, b, r, spec, minted, at, c);
    case LinkW(child, parent, at) => LinkKeepsBodies(job, a, b, child, parent, at, c);
    case StatusW(id, patch, at) => StatusKeepsBodies(job, cfg, a, b, id, patch, at, c);
    case CloseW(id, evidence, at) => CloseKeepsBodies(job, a, b, id, evidence, at, c);
    case ForceW(id, evidence, at) => CloseKeepsBodies(job, a, b, id, evidence, at, c);
  }

  lemma LinkKeepsBodies(job: Job, a: Db, b: Db, child: int, parent: int, at: int, c: Db)
    requires Inv(b) && BodiesKept(job, a, b) && AddDep(b, child, parent, IMPORTER, at) == Ok(c)
    ensures Inv(c) && BodiesKept(job, a, c) && c.issues.Keys == b.issues.Keys
  {
    AddDepKeeps(b, child, parent, IMPORTER, at);
    AddDepEffect(b, child, parent, IMPORTER, at);
    RewriteKeepsBodies(job, a, b, c, child);
  }

  lemma StatusKeepsBodies(job: Job, cfg: Config, a: Db, b: Db, id: int, patch: Patch, at: int, c: Db)
    requires Inv(b) && BodiesKept(job, a, b) && Update(b, cfg, id, patch, IMPORTER, at) == Ok(c)
    requires patch.priority == None && patch.metadata == None
    ensures Inv(c) && BodiesKept(job, a, c) && c.issues.Keys == b.issues.Keys
  {
    UpdateKeeps(b, cfg, id, patch, IMPORTER, at);
    UpdateLaw(b, cfg, id, patch, IMPORTER, at);
    RewriteKeepsBodies(job, a, b, c, id);
  }

  lemma CloseKeepsBodies(job: Job, a: Db, b: Db, id: int, evidence: seq<int>, at: int, c: Db)
    requires Inv(b) && BodiesKept(job, a, b) && CloseUnchecked(b, id, evidence, IMPORTER, at) == Ok(c)
    ensures Inv(c) && BodiesKept(job, a, c) && c.issues.Keys == b.issues.Keys
  {
    CloseKeeps(b, id, evidence, IMPORTER, at);
    CloseLaw(b, id, evidence, IMPORTER, at);
    RewriteKeepsBodies(job, a, b, c, id);
  }

  lemma RewriteKeepsBodies(job: Job, a: Db, b: Db, c: Db, id: int)
    requires BodiesKept(job, a, b) && c.issues.Keys == b.issues.Keys
    requires forall x :: x in b.issues && x != id ==> c.issues[x] == b.issues[x]
    requires id in b.issues ==> SameBody(b.issues[id], c.issues[id])
    ensures BodiesKept(job, a, c)
  {
    forall x | x in c.issues
      ensures BodyKept(job, x, Before(a, x), c.issues[x])
    {
      assert BodyKept(job, x, Before(a, x), b.issues[x]);
      BodyStays(job, x, Before(a, x), b.issues[x], c.issues[x]);
    }
  }

  lemma CreateKeepsBodies(
    job: Job, cfg: Config, a: Db, b: Db, r: Row, spec: NewIssue, minted: int, at: int, c: Db)
    requires Inv(b) && BodiesKept(job, a, b) && a.issues.Keys <= b.issues.Keys
    requires r in job.rows && SpecFromRow(job, r, spec, minted, at) && Create(b, cfg, spec, minted, at) == Ok(c)
    ensures Inv(c) && BodiesKept(job, a, c) && a.issues.Keys <= c.issues.Keys
  {
    assert minted !in b.issues;
    CreateKeeps(b, cfg, spec, minted, at);
    CreateLaw(b, cfg, spec, minted, at);
    assert CopyOf(job, r, minted, c.issues[minted]);
    forall x | x in c.issues
      ensures BodyKept(job, x, Before(a, x), c.issues[x])
    {
      if x != minted {
        assert BodyKept(job, x, Before(a, x), b.issues[x]);
      }
    }
  }

  /**
   So after any number of its writes, all issues the import found are as they were but for status and dates, and all
   new ones say what their row says.
   */
  lemma {:induction false} BodiesAfter(job: Job, cfg: Config, a: Db, ws: seq<Write>, b: Db)
    requires Inv(a) && AllFromFile(job, ws) && StateAfter(cfg, a, ws) == Ok(b)
    ensures Inv(b) && BodiesKept(job, a, b) && a.issues.Keys <= b.issues.Keys
  {
    if ws != [] {
      var last := |ws| - 1;
      assert ws[last] in ws && forall w :: w in ws[..last] ==> w in ws;
      var before := StateAfter(cfg, a, ws[..last]).value;
      BodiesAfter(job, cfg, a, ws[..last], before);
      WriteKeepsBodies(job, cfg, a, before, ws[last], b);
    }
  }
}
