/** The store calls an import makes, and what stopping it between two of them leaves behind. */
module ImportWrites {
  import opened Wrappers
  import opened Domain
  import opened StoreSpec
  import opened StoreInvariant
  import opened ImportSpec

  datatype Write =
    | CreateW(spec: NewIssue, minted: int, at: int)
    | LinkW(child: int, parent: int, at: int)
    | StatusW(id: int, patch: Patch, at: int)
    | CloseW(id: int, evidence: seq<int>, at: int)
    | ForceW(id: int, evidence: seq<int>, at: int)

  const IMPORTER := Importer

  ghost function Apply(cfg: Config, db: Db, w: Write): Result<Db, Error> {
    match w
    case CreateW(spec, minted, at) => Create(db, cfg, spec, minted, at)
    case LinkW(c, p, at) => AddDep(db, c, p, IMPORTER, at)
    case StatusW(id, patch, at) => Update(db, cfg, id, patch, IMPORTER, at)
    case CloseW(id, evidence, at) =>
      if MayClose(db, id, evidence) then CloseUnchecked(db, id, evidence, IMPORTER, at) else Err(Bad)
    case ForceW(id, evidence, at) => CloseUnchecked(db, id, evidence, IMPORTER, at)
  }

  /** The state after the writes, all of which the store has to accept. */
  ghost function StateAfter(cfg: Config, a: Db, ws: seq<Write>): Result<Db, Error> {
    if ws == [] then Ok(a)
    else
      var before := StateAfter(cfg, a, ws[..|ws| - 1]);
      if before.Ok? then Apply(cfg, before.value, ws[|ws| - 1]) else before
  }

  ghost predicate StopsWell(job: Job, cfg: Config, a: Db, ws: seq<Write>, k: nat)
    requires k <= |ws|
  {
    var b := StateAfter(cfg, a, ws[..k]);
    b.Ok? && Underway(job, a, b.value)
  }

  /** Stopped after any number of its writes, the import leaves a state it can be resumed from. */
  ghost predicate Resumable(job: Job, cfg: Config, a: Db, ws: seq<Write>) {
    forall k: nat :: k <= |ws| ==> StopsWell(job, cfg, a, ws, k)
  }

  /** A create asks for what the row says, in the import's project and marked as the importer's. */
  ghost predicate SpecFromRow(job: Job, r: Row, spec: NewIssue, minted: int, at: int) {
    && spec.id == Some(IdOf(job, r)) && minted == IdOf(job, r) && spec.project == Some(job.project)
    && spec.parent == r.parent && spec.priority == r.priority && spec.isGoal == r.isGoal
    && spec.createdBy == r.createdBy && spec.availableAt == Some(0) && r.createdAt == Some(at)
    && spec.metadata.imported && spec.metadata.plan == r.metadata.plan && spec.metadata.key == r.metadata.key
    && spec.metadata.group == r.metadata.group && spec.metadata.estimate == r.metadata.estimate
  }

  /**
   What a write about row `r` may be: the row itself, its status and nothing else, or its closing with its evidence.
   */
  ghost predicate WriteOf(job: Job, r: Row, w: Write) {
    match w
    case CreateW(spec, minted, at) => SpecFromRow(job, r, spec, minted, at)
    case LinkW(child, parent, _) => child == IdOf(job, r) && exists d :: d in r.deps && TargetOf(job, d) == Some(parent)
    case StatusW(id, patch, _) =>
      && id == IdOf(job, r) && patch.status == r.status && patch.priority == None && patch.metadata == None
      && patch.evidence == None && patch.availableAt == Some(0)
    case CloseW(id, evidence, at) => id == IdOf(job, r) && evidence == [r.reason] + r.refs && at == r.closedAt
    case ForceW(id, evidence, at) => id == IdOf(job, r) && evidence == [r.note] && at == r.closedAt
  }

  ghost predicate FromFile(job: Job, w: Write) {
    exists r :: r in job.rows && WriteOf(job, r, w)
  }

  /** Every write comes from a row of the file. */
  ghost predicate AllFromFile(job: Job, ws: seq<Write>) {
    forall w :: w in ws ==> FromFile(job, w)
  }

  ghost predicate Ongoing(job: Job, cfg: Config, a: Db, ws: seq<Write>, b: Db) {
    StateAfter(cfg, a, ws) == Ok(b) && Resumable(job, cfg, a, ws) && AllFromFile(job, ws)
  }

  lemma OneMore(job: Job, cfg: Config, a: Db, ws: seq<Write>, b: Db, w: Write, c: Db)
    requires Ongoing(job, cfg, a, ws, b) && Apply(cfg, b, w) == Ok(c) && Underway(job, a, c) && FromFile(job, w)
    ensures Ongoing(job, cfg, a, ws + [w], c)
  {
    var next := ws + [w];
    assert next[..|next| - 1] == ws;
    forall k: nat | k <= |next|
      ensures StopsWell(job, cfg, a, next, k)
    {
      if k <= |ws| {
        assert next[..k] == ws[..k];
        assert StopsWell(job, cfg, a, ws, k);
      } else {
        assert next[..k] == next;
      }
    }
  }

  lemma NoWrites(job: Job, cfg: Config, a: Db)
    requires NoConflict(job, a)
    ensures Ongoing(job, cfg, a, [], a)
  {
    NothingDone(job, a);
    assert StopsWell(job, cfg, a, [], 0);
  }

  lemma NothingDone(job: Job, a: Db)
    requires NoConflict(job, a)
    ensures Underway(job, a, a)
  {
    forall id | id in a.issues && id in RowIds(job)
      ensures Mine(job, a.issues[id])
    {
      var k :| 0 <= k < |job.rows| && IdOf(job, job.rows[k]) == id;
      assert !Clashes(job, a, k);
    }
  }

  // ----- Which rows were closed how -----

  ghost function ClosedBy(ws: seq<Write>): set<int> {
    set w | w in ws && w.CloseW? :: w.id
  }

  ghost function ForcedBy(ws: seq<Write>): set<int> {
    set w | w in ws && w.ForceW? :: w.id
  }

  lemma ClosedByOneMore(ws: seq<Write>, w: Write)
    ensures ClosedBy(ws + [w]) == ClosedBy(ws) + (if w.CloseW? then {w.id} else {})
    ensures ForcedBy(ws + [w]) == ForcedBy(ws) + (if w.ForceW? then {w.id} else {})
  {
    assert forall x :: x in ws + [w] <==> x in ws || x == w;
  }
}
