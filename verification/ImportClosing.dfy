/** The last phase of `import` (src/jsonl.rs): statuses, with closings in rounds and the exceptions after them. */
module ImportClosing {
  import opened Wrappers
  import opened Domain
  import opened StoreSpec
  import opened StoreInvariant
  import opened ImportSpec
  import opened ImportWrites
  import ImportEdges
  import Store

  /** The first `n` rows' marks are applied, the issues in `c` are closed, and no other status has moved. */
  ghost predicate Statuses(job: Job, a: Db, b: Db, n: nat, c: set<int>)
    requires n <= |job.rows|
  {
    && Framed(job, a, b)
    && b.issues.Keys == FinalIds(job, a)
    && b.deps == FinalEdges(job, a)
    && c <= ToClose(job, a)
    && forall id :: id in RowIds(job) ==> b.issues[id].status == if id in c then Closed else Marked(job, a, n, id)
  }

  /** Every set closed under the rule takes in `c`. */
  ghost predicate Forced(job: Job, a: Db, c: set<int>) {
    forall f: set<int> :: ClosedUnder(job, a, FinalEdges(job, a), f) ==> c <= f
  }

  lemma {:induction false} MarkStays(job: Job, n: nat, m: nat, id: int)
    requires n <= m <= |job.rows| && Mark(job, n, id).Some?
    ensures Mark(job, m, id) == Mark(job, n, id)
  {
    if n < m {
      MarkStays(job, n, m - 1, id);
    }
  }

  lemma StatusesUnderway(job: Job, a: Db, b: Db, n: nat, c: set<int>)
    requires n <= |job.rows| && Statuses(job, a, b, n, c)
    ensures Underway(job, a, b)
  {
    forall id | id in RowIds(job)
      ensures OnTheWay(job, a, id, b.issues[id].status)
    {
      if Mark(job, n, id).Some? {
        MarkStays(job, n, |job.rows|, id);
      }
    }
  }

  /** An issue is closed now exactly if it was to begin with or the import has closed it. */
  lemma ClosedNow(job: Job, a: Db, b: Db, n: nat, c: set<int>, id: int)
    requires n <= |job.rows| && Statuses(job, a, b, n, c) && id in b.issues
    ensures b.issues[id].status == Closed <==> Start(a, id) == Closed || id in c
  {
  }

  // ----- One row -----

  lemma RowUntouched(job: Job, a: Db, b: Db, n: nat, c: set<int>)
    requires n < |job.rows| && Statuses(job, a, b, n, c)
    requires var r := job.rows[n]; StatusOf(r) == Open || StatusOf(r) == Closed || b.issues[IdOf(job, r)].status != Open
    ensures Statuses(job, a, b, n + 1, c)
  {
  }

  /** `next` is `b` with only the row `id` rewritten, its project and metadata kept. */
  ghost predicate OneRowNew(b: Db, next: Db, id: int) {
    && id in b.issues && id in next.issues
    && next.issues == b.issues[id := next.issues[id]]
    && next.issues[id].project == b.issues[id].project && next.issues[id].metadata == b.issues[id].metadata
    && next.deps == b.deps && next.projects == b.projects && next.folders == b.folders && next.filed == b.filed
  }

  lemma RewriteKeepsFrame(job: Job, a: Db, b: Db, next: Db, id: int)
    requires Framed(job, a, b) && b.issues.Keys == FinalIds(job, a) && b.deps == FinalEdges(job, a)
    requires OneRowNew(b, next, id) && id in RowIds(job)
    ensures Framed(job, a, next) && next.issues.Keys == FinalIds(job, a) && next.deps == FinalEdges(job, a)
  {
    ImportEdges.RowRewritten(job, a, b, next, id);
  }

  lemma MarkOneMore(job: Job, a: Db, n: nat, x: int)
    requires n < |job.rows| && x != IdOf(job, job.rows[n])
    ensures Marked(job, a, n + 1, x) == Marked(job, a, n, x)
  {
    assert Mark(job, n + 1, x) == Mark(job, n, x);
  }

  lemma RowMarked(job: Job, cfg: Config, a: Db, b: Db, n: nat, c: set<int>, patch: Patch, at: int, next: Db)
    requires n < |job.rows| && Inv(b) && Statuses(job, a, b, n, c)
    requires var r := job.rows[n]; StatusOf(r) != Open && StatusOf(r) != Closed && b.issues[IdOf(job, r)].status == Open
                                   && patch.status == Some(StatusOf(r)) && patch.metadata.None?
    requires Update(b, cfg, IdOf(job, job.rows[n]), patch, IMPORTER, at) == Ok(next)
    ensures Statuses(job, a, next, n + 1, c)
  {
    var r := job.rows[n];
    var id := IdOf(job, r);
    ImportEdges.RowHasId(job, r);
    UpdateEffect(b, cfg, id, patch, at);
    RewriteKeepsFrame(job, a, b, next, id);
    forall x | x in RowIds(job)
      ensures next.issues[x].status == if x in c then Closed else Marked(job, a, n + 1, x)
    {
      if x != id {
        MarkOneMore(job, a, n, x);
      }
    }
  }

  /** A status update rewrites one row and leaves the rest of the visible state alone. */
  lemma UpdateEffect(b: Db, cfg: Config, id: int, patch: Patch, at: int)
    requires Inv(b) && id in b.issues && patch.status.Some?
    ensures var s := Update(b, cfg, id, patch, IMPORTER, at);
            && s.Ok?
            && s.value.issues == b.issues[id := Patched(b.issues[id], cfg, patch, at)]
            && s.value.deps == b.deps && s.value.projects == b.projects && s.value.folders == b.folders
            && s.value.filed == b.filed
  {
    IdIsKey(b, id);
  }

  lemma CloseEffect(b: Db, id: int, evidence: seq<int>, at: int)
    requires Inv(b) && id in b.issues
    ensures var s := CloseUnchecked(b, id, evidence, IMPORTER, at);
            s.Ok? && OneRowNew(b, s.value, id) && s.value.issues[id].status == Closed
  {
    IdIsKey(b, id);
  }

  /** `d` is `c` with the issue added. */
  lemma IssueClosed(job: Job, a: Db, b: Db, n: nat, c: set<int>, id: int, evidence: seq<int>, at: int, d: set<int>)
    requires n <= |job.rows| && Inv(b) && Statuses(job, a, b, n, c) && id in ToClose(job, a) && d == c + {id}
    ensures var s := CloseUnchecked(b, id, evidence, IMPORTER, at);
            s.Ok? && Statuses(job, a, s.value, n, d)
  {
    CloseEffect(b, id, evidence, at);
    RowClosed(job, a, b, n, c, id, CloseUnchecked(b, id, evidence, IMPORTER, at).value);
  }

  lemma RowClosed(job: Job, a: Db, b: Db, n: nat, c: set<int>, id: int, next: Db)
    requires n <= |job.rows| && Statuses(job, a, b, n, c) && id in ToClose(job, a)
    requires OneRowNew(b, next, id) && next.issues[id].status == Closed
    ensures Statuses(job, a, next, n, c + {id})
  {
    RewriteKeepsFrame(job, a, b, next, id);
  }

  /** `close` lets an issue through only once every set closed under the rule must contain it. */
  lemma CloseIsForced(job: Job, a: Db, b: Db, n: nat, c: set<int>, id: int, evidence: seq<int>)
    requires n <= |job.rows| && Inv(b) && Statuses(job, a, b, n, c) && Forced(job, a, c)
    requires id in ToClose(job, a) && MayClose(b, id, evidence)
    ensures Forced(job, a, c + {id})
  {
    forall f: set<int> | ClosedUnder(job, a, FinalEdges(job, a), f)
      ensures c + {id} <= f
    {
      forall p | (id, p) in FinalEdges(job, a)
        ensures Start(a, p) == Closed || p in f
      {
        assert (id, p) in b.deps && !OpenBlocker(b, id, p);
        ClosedNow(job, a, b, n, c, p);
      }
      assert Unblocked(a, FinalEdges(job, a), f, id);
    }
  }

  lemma ToCloseHas(job: Job, a: Db, b: Db, n: nat, c: set<int>, r: Row)
    requires n <= |job.rows| && Statuses(job, a, b, n, c) && r in job.rows
    ensures IdOf(job, r) in RowIds(job) && IdOf(job, r) in b.issues
    ensures StatusOf(r) == Closed && b.issues[IdOf(job, r)].status != Closed ==>
              IdOf(job, r) in ToClose(job, a) && IdOf(job, r) !in c
  {
    ImportEdges.RowHasId(job, r);
    var k :| 0 <= k < |job.rows| && job.rows[k] == r;
    ClosedNow(job, a, b, n, c, IdOf(job, r));
  }

  // ----- One round -----

  /** What the rounds keep, writes included. */
  ghost predicate Rounds(job: Job, cfg: Config, a: Db, b: Db, n: nat, c: set<int>, ws: seq<Write>)
    requires n <= |job.rows|
  {
    && Statuses(job, a, b, n, c) && Forced(job, a, c)
    && Ongoing(job, cfg, a, ws, b)
    && ClosedBy(ws) == c && ForcedBy(ws) == {}
  }

  lemma RoundsClose(job: Job, cfg: Config, a: Db, b: Db, n: nat, c: set<int>, ws: seq<Write>, w: Write)
    requires n <= |job.rows| && Inv(b) && Rounds(job, cfg, a, b, n, c, ws)
    requires w.CloseW? && w.id in ToClose(job, a) && MayClose(b, w.id, w.evidence) && FromFile(job, w)
    ensures var s := CloseUnchecked(b, w.id, w.evidence, IMPORTER, w.at);
            s.Ok? && Rounds(job, cfg, a, s.value, n, c + {w.id}, ws + [w])
  {
    IssueClosed(job, a, b, n, c, w.id, w.evidence, w.at, c + {w.id});
    CloseIsForced(job, a, b, n, c, w.id, w.evidence);
    Logged(job, cfg, a, b, ws, w, CloseUnchecked(b, w.id, w.evidence, IMPORTER, w.at).value, n, c + {w.id});
  }

  /** One more accepted write, logged. */
  lemma Logged(job: Job, cfg: Config, a: Db, b: Db, ws: seq<Write>, w: Write, next: Db, n: nat, c: set<int>)
    requires n <= |job.rows| && Ongoing(job, cfg, a, ws, b) && Apply(cfg, b, w) == Ok(next)
             && Statuses(job, a, next, n, c) && FromFile(job, w)
    ensures Ongoing(job, cfg, a, ws + [w], next)
    ensures ClosedBy(ws + [w]) == ClosedBy(ws) + (if w.CloseW? then {w.id} else {})
    ensures ForcedBy(ws + [w]) == ForcedBy(ws) + (if w.ForceW? then {w.id} else {})
  {
    StatusesUnderway(job, a, next, n, c);
    OneMore(job, cfg, a, ws, b, w, next);
    ClosedByOneMore(ws, w);
  }

  lemma RoundsMark(job: Job, cfg: Config, a: Db, b: Db, n: nat, c: set<int>, ws: seq<Write>, w: Write, next: Db)
    requires n < |job.rows| && Inv(b) && Rounds(job, cfg, a, b, n, c, ws)
    requires var r := job.rows[n];
             && StatusOf(r) != Open && StatusOf(r) != Closed && b.issues[IdOf(job, r)].status == Open
             && w.StatusW? && w.id == IdOf(job, r) && w.patch.status == Some(StatusOf(r)) && w.patch.metadata.None?
    requires Update(b, cfg, w.id, w.patch, IMPORTER, w.at) == Ok(next) && FromFile(job, w)
    ensures Rounds(job, cfg, a, next, n + 1, c, ws + [w])
  {
    RowMarked(job, cfg, a, b, n, c, w.patch, w.at, next);
    Logged(job, cfg, a, b, ws, w, next, n + 1, c);
  }

  /** A first round goes through all rows; later ones only through closed rows that had to wait. */
  ghost predicate Queue(job: Job, pending: seq<Row>, n: nat) {
    || (n == 0 && pending == job.rows)
    || (n == |job.rows| && forall r :: r in pending ==> r in job.rows && StatusOf(r) == Closed)
  }

  ghost predicate Waiting(job: Job, rows: seq<Row>, id: int) {
    exists k :: 0 <= k < |rows| && IdOf(job, rows[k]) == id && StatusOf(rows[k]) == Closed
  }

  /** Every row still to be closed waits in `failed`, or in `pending` from position `k` on. */
  ghost predicate Covered(job: Job, a: Db, c: set<int>, failed: seq<Row>, pending: seq<Row>, k: nat)
    requires k <= |pending|
  {
    forall id :: id in ToClose(job, a) && id !in c ==> Waiting(job, failed, id) || Waiting(job, pending[k..], id)
  }

  lemma CoveredStep(
    job: Job, a: Db, c: set<int>, c': set<int>, failed: seq<Row>, failed': seq<Row>, pending: seq<Row>, k: nat)
    requires k < |pending| && Covered(job, a, c, failed, pending, k) && c <= c'
    requires failed' == failed || failed' == failed + [pending[k]]
    requires failed' == failed ==>
               StatusOf(pending[k]) != Closed || IdOf(job, pending[k]) !in ToClose(job, a)
               || IdOf(job, pending[k]) in c'
    ensures Covered(job, a, c', failed', pending, k + 1)
  {
    forall id | id in ToClose(job, a) && id !in c'
      ensures Waiting(job, failed', id) || Waiting(job, pending[k + 1..], id)
    {
      if Waiting(job, failed, id) {
        var j :| 0 <= j < |failed| && IdOf(job, failed[j]) == id && StatusOf(failed[j]) == Closed;
        assert failed'[j] == failed[j];
      } else {
        var j :| 0 <= j < |pending[k..]| && IdOf(job, pending[k..][j]) == id && StatusOf(pending[k..][j]) == Closed;
        if j > 0 {
          assert pending[k + 1..][j - 1] == pending[k..][j];
        } else {
          assert failed'[|failed' | - 1] == pending[k];
        }
      }
    }
  }

  /** The row waits on an open dependency and has not been closed. */
  ghost predicate StillWaiting(job: Job, b: Db, c: set<int>, r: Row) {
    IdOf(job, r) !in c && exists p :: OpenBlocker(b, IdOf(job, r), p)
  }

  /** The rows put back in a round; while nothing has moved, each of them is still waiting. */
  ghost predicate PutBack(job: Job, a: Db, b: Db, c: set<int>, failed: seq<Row>, progressed: bool) {
    && (forall r :: r in failed ==> r in job.rows && StatusOf(r) == Closed && IdOf(job, r) in ToClose(job, a))
    && (!progressed ==> forall r :: r in failed ==> StillWaiting(job, b, c, r))
  }

  /** No two of the rows share an id. */
  ghost predicate ApartRows(job: Job, rows: seq<Row>) {
    forall i, j :: 0 <= i < j < |rows| ==> IdOf(job, rows[i]) != IdOf(job, rows[j])
  }

  datatype Turn = Moves | Waits | Passes

  /** Only the first round, which begins at row 0, goes through the rows of the file. */
  function NextRow(job: Job, n: nat): nat {
    if n < |job.rows| then n + 1 else n
  }

  function EvidenceOf(r: Row): seq<int> {
    [r.reason] + r.refs
  }

  /** A row to be closed whose issue is not: closes it, or finds it waiting on an open dependency. */
  method TryClose(
    store: Store.Inner, job: Job, r: Row, ghost a: Db, ghost n: nat, ghost c: set<int>, ghost ws: seq<Write>)
    returns (closed: bool, ghost c': set<int>, ghost ws': seq<Write>)
    requires store.Valid() && n <= |job.rows| && Rounds(job, store.cfg, a, store.db, n, c, ws)
    requires r in job.rows && IdOf(job, r) in ToClose(job, a) && IdOf(job, r) in store.db.issues
    modifies store, store.engine
    ensures store.Valid() && Rounds(job, store.cfg, a, store.db, n, c', ws')
    ensures closed ==> c' == c + {IdOf(job, r)}
    ensures !closed ==> store.db == old(store.db) && c' == c && exists p :: OpenBlocker(store.db, IdOf(job, r), p)
  {
    var id := IdOf(job, r);
    ghost var before := store.db;
    ghost var after := CloseUnchecked(before, id, EvidenceOf(r), IMPORTER, r.closedAt);
    assert WriteOf(job, r, CloseW(id, EvidenceOf(r), r.closedAt));
    if MayClose(before, id, EvidenceOf(r)) {
      RoundsClose(job, store.cfg, a, before, n, c, ws, CloseW(id, EvidenceOf(r), r.closedAt));
    }
    var done := store.Close(id, EvidenceOf(r), IMPORTER, r.closedAt);
    if done.Err? {
      assert done.error.StillWaits?;
      return false, c, ws;
    }
    assert store.db == after.value;
    return true, c + {id}, ws + [CloseW(id, EvidenceOf(r), r.closedAt)];
  }

  method SetStatus(
    store: Store.Inner, job: Job, r: Row, at: int, ghost a: Db, ghost n: nat, ghost c: set<int>, ghost ws: seq<Write>)
    returns (ghost ws': seq<Write>)
    requires store.Valid() && n < |job.rows| && Rounds(job, store.cfg, a, store.db, n, c, ws)
    requires r == job.rows[n] && StatusOf(r) != Open && StatusOf(r) != Closed
    requires IdOf(job, r) in store.db.issues && store.db.issues[IdOf(job, r)].status == Open
    modifies store, store.engine
    ensures store.Valid() && Rounds(job, store.cfg, a, store.db, n + 1, c, ws')
  {
    var id := IdOf(job, r);
    var patch := Patch(Some(StatusOf(r)), None, None, None, Some(0));
    ghost var before := store.db;
    ghost var after := Update(before, store.cfg, id, patch, IMPORTER, at);
    UpdateEffect(before, store.cfg, id, patch, at);
    ws' := ws + [StatusW(id, patch, at)];
    assert WriteOf(job, r, StatusW(id, patch, at)) && r in job.rows;
    RoundsMark(job, store.cfg, a, before, n, c, ws, StatusW(id, patch, at), after.value);
    var updated := store.Update(id, patch, IMPORTER, at);
    assert store.db == after.value;
  }

  /** One row of a round; `n` is the row's place in the file in the first round, and past its end later. */
  method TakeTurn(
    store: Store.Inner, job: Job, r: Row, at: int, ghost a: Db, ghost n: nat, ghost c: set<int>, ghost ws: seq<Write>)
    returns (turn: Turn, ghost c': set<int>, ghost ws': seq<Write>)
    requires store.Valid() && n <= |job.rows| && Rounds(job, store.cfg, a, store.db, n, c, ws) && r in job.rows
    requires if n < |job.rows| then r == job.rows[n] else StatusOf(r) == Closed
    modifies store, store.engine
    ensures store.Valid() && Rounds(job, store.cfg, a, store.db, NextRow(job, n), c', ws') && c <= c'
    ensures turn.Moves? || (store.db == old(store.db) && c' == c)
    ensures turn.Waits? ==>
              StatusOf(r) == Closed && StillWaiting(job, store.db, c, r) && IdOf(job, r) in ToClose(job, a)
    ensures !turn.Waits? && StatusOf(r) == Closed && IdOf(job, r) in ToClose(job, a) ==> IdOf(job, r) in c'
  {
    c', ws' := c, ws;
    var id := IdOf(job, r);
    ToCloseHas(job, a, store.db, n, c, r);
    ClosedNow(job, a, store.db, n, c, id);
    var current := store.Get(id);
    var status := current.value.status;
    if n < |job.rows| && (StatusOf(r) == Open || StatusOf(r) == Closed || status != Open) {
      RowUntouched(job, a, store.db, n, c);
    }
    if StatusOf(r) == Closed && status != Closed {
      var closed;
      closed, c', ws' := TryClose(store, job, r, a, NextRow(job, n), c, ws);
      turn := if closed then Moves else Waits;
    } else if StatusOf(r) == Closed || StatusOf(r) == Open || status != Open {
      turn := Passes;
    } else {
      ws' := SetStatus(store, job, r, at, a, n, c, ws);
      turn := Moves;
    }
  }

  /** Where a round stands before position `k` of its queue. */
  ghost predicate Passing(
    job: Job, a: Db, b: Db, c: set<int>, failed: seq<Row>, progressed: bool, pending: seq<Row>, k: nat)
    requires k <= |pending|
  {
    && Covered(job, a, c, failed, pending, k)
    && PutBack(job, a, b, c, failed, progressed)
    && |failed| + (if progressed then 1 else 0) <= k
    && (forall r :: r in failed ==> r in pending[..k])
    && (ApartRows(job, pending) ==> ApartRows(job, failed))
  }

  lemma PassingStep(
    job: Job, a: Db, b: Db, c: set<int>, failed: seq<Row>, progressed: bool, pending: seq<Row>, k: nat, turn: Turn,
    b': Db, c': set<int>)
    requires k < |pending| && Passing(job, a, b, c, failed, progressed, pending, k) && pending[k] in job.rows && c <= c'
    requires turn.Moves? || (b' == b && c' == c)
    requires var r := pending[k]; turn.Waits? ==>
               StatusOf(r) == Closed && StillWaiting(job, b', c, r) && IdOf(job, r) in ToClose(job, a)
    requires var r := pending[k]; !turn.Waits? && StatusOf(r) == Closed && IdOf(job, r) in ToClose(job, a) ==>
               IdOf(job, r) in c'
    ensures Passing(
              job, a, b', c', if turn.Waits? then failed + [pending[k]] else failed, progressed
                                                                                     || turn.Moves?, pending, k + 1)
  {
    CoveredStep(job, a, c, c', failed, if turn.Waits? then failed + [pending[k]] else failed, pending, k);
    ApartStep(job, failed, pending, k);
  }

  lemma ApartStep(job: Job, failed: seq<Row>, pending: seq<Row>, k: nat)
    requires k < |pending| && forall r :: r in failed ==> r in pending[..k]
    ensures forall r :: r in failed + [pending[k]] ==> r in pending[..k + 1]
    ensures ApartRows(job, pending) && ApartRows(job, failed) ==> ApartRows(job, failed + [pending[k]])
  {
    assert pending[..k + 1] == pending[..k] + [pending[k]];
    forall i | 0 <= i < |failed| && ApartRows(job, pending)
      ensures IdOf(job, failed[i]) != IdOf(job, pending[k])
    {
      assert failed[i] in failed;
      var l :| 0 <= l < k && pending[..k][l] == failed[i];
      assert pending[l] == failed[i];
    }
  }

  /** The rows put back so far, and whether anything has moved. */
  datatype Pass = Still(failed: seq<Row>) | Moving(failed: seq<Row>)

  function Noted(p: Pass, r: Row, turn: Turn): Pass {
    match turn
    case Moves => Moving(p.failed)
    case Waits => p.(failed := p.failed + [r])
    case Passes => p
  }

  /** The state of a round before position `k` of its queue. */
  ghost predicate InRound(
    job: Job, cfg: Config, a: Db, b: Db, n: nat, c: set<int>, ws: seq<Write>, p: Pass, pending: seq<Row>, k: nat) {
    match p
    case Still(failed) =>
      k <= |pending| && n <= |job.rows| && Rounds(job, cfg, a, b, n, c, ws)
      && Passing(job, a, b, c, failed, false, pending, k)
    case Moving(failed) =>
      k <= |pending| && n <= |job.rows| && Rounds(job, cfg, a, b, n, c, ws)
      && Passing(job, a, b, c, failed, true, pending, k)
  }

  lemma InRoundStep(
    job: Job, cfg: Config, a: Db, b: Db, c: set<int>, p: Pass, pending: seq<Row>, k: nat, turn: Turn,
    b': Db, n: nat, c': set<int>, ws: seq<Write>)
    requires k < |pending| && Passing(job, a, b, c, p.failed, p.Moving?, pending, k) && pending[k] in job.rows
             && c <= c'
    requires n <= |job.rows| && Rounds(job, cfg, a, b', n, c', ws)
    requires turn.Moves? || (b' == b && c' == c)
    requires var r := pending[k]; turn.Waits? ==>
               StatusOf(r) == Closed && StillWaiting(job, b', c, r) && IdOf(job, r) in ToClose(job, a)
    requires var r := pending[k]; !turn.Waits? && StatusOf(r) == Closed && IdOf(job, r) in ToClose(job, a) ==>
               IdOf(job, r) in c'
    ensures InRound(job, cfg, a, b', n, c', ws, Noted(p, pending[k], turn), pending, k + 1)
  {
    PassingStep(job, a, b, c, p.failed, p.Moving?, pending, k, turn, b', c');
  }

  method TakeNext(
    store: Store.Inner, job: Job, pending: seq<Row>, k: nat, p: Pass, at: int, ghost a: Db, ghost n: nat,
    ghost c: set<int>, ghost ws: seq<Write>)
    returns (p': Pass, ghost c': set<int>, ghost ws': seq<Write>)
    requires store.Valid() && k < |pending| && InRound(job, store.cfg, a, store.db, n, c, ws, p, pending, k)
    requires pending[k] in job.rows
             && if n < |job.rows| then pending[k] == job.rows[n] else StatusOf(pending[k]) == Closed
    modifies store, store.engine
    ensures store.Valid() && InRound(job, store.cfg, a, store.db, NextRow(job, n), c', ws', p', pending, k + 1)
  {
    ghost var before := store.db;
    var turn;
    turn, c', ws' := TakeTurn(store, job, pending[k], at, a, n, c, ws);
    InRoundStep(job, store.cfg, a, before, c, p, pending, k, turn, store.db, NextRow(job, n), c', ws');
    p' := Noted(p, pending[k], turn);
  }

  /** The rows of the file gone through before position `k` of a queue that began at row `n`. */
  function RowsSeen(job: Job, n: nat, k: nat): nat {
    if n < |job.rows| then k else n
  }

  lemma NextInQueue(job: Job, pending: seq<Row>, n: nat, k: nat)
    requires Queue(job, pending, n) && n <= |job.rows| && k < |pending|
    ensures var m := RowsSeen(job, n, k);
            && NextRow(job, m) == RowsSeen(job, n, k + 1) && pending[k] in job.rows
            && if m < |job.rows| then pending[k] == job.rows[m] else StatusOf(pending[k]) == Closed
  {
    assert pending[k] in pending;
  }

  method GoThrough(
    store: Store.Inner, job: Job, pending: seq<Row>, at: int, ghost a: Db, ghost n: nat, ghost c: set<int>,
    ghost ws: seq<Write>)
    returns (p: Pass, ghost c': set<int>, ghost ws': seq<Write>)
    requires store.Valid() && n <= |job.rows| && Queue(job, pending, n)
    requires InRound(job, store.cfg, a, store.db, RowsSeen(job, n, 0), c, ws, Still([]), pending, 0)
    modifies store, store.engine
    ensures store.Valid()
            && InRound(job, store.cfg, a, store.db, RowsSeen(job, n, |pending|), c', ws', p, pending, |pending|)
  {
    p, c', ws' := Still([]), c, ws;
    for k := 0 to |pending|
      invariant store.Valid() && InRound(job, store.cfg, a, store.db, RowsSeen(job, n, k), c', ws', p, pending, k)
    {
      NextInQueue(job, pending, n, k);
      p, c', ws' := TakeNext(store, job, pending, k, p, at, a, RowsSeen(job, n, k), c', ws');
    }
  }

  method Round(
    store: Store.Inner, job: Job, pending: seq<Row>, at: int, ghost a: Db, ghost n: nat, ghost c: set<int>,
    ghost ws: seq<Write>)
    returns (failed: seq<Row>, progressed: bool, ghost c': set<int>, ghost ws': seq<Write>)
    requires store.Valid() && n <= |job.rows| && Rounds(job, store.cfg, a, store.db, n, c, ws)
    requires Queue(job, pending, n) && Covered(job, a, c, pending, [], 0)
    modifies store, store.engine
    ensures store.Valid() && Rounds(job, store.cfg, a, store.db, |job.rows|, c', ws')
    ensures PutBack(job, a, store.db, c', failed, progressed) && Covered(job, a, c', failed, [], 0)
    ensures |failed| <= |pending| && (progressed ==> |failed| < |pending|)
    ensures ApartRows(job, pending) ==> ApartRows(job, failed)
  {
    RoundBegins(job, store.cfg, a, store.db, n, c, ws, pending);
    var p: Pass;
    p, c', ws' := GoThrough(store, job, pending, at, a, n, c, ws);
    RoundOver(job, store.cfg, a, store.db, n, c', ws', p, pending);
    failed, progressed := p.failed, p.Moving?;
  }

  lemma RoundBegins(job: Job, cfg: Config, a: Db, b: Db, n: nat, c: set<int>, ws: seq<Write>, pending: seq<Row>)
    requires n <= |job.rows| && Rounds(job, cfg, a, b, n, c, ws) && Queue(job, pending, n)
             && Covered(job, a, c, pending, [], 0)
    ensures InRound(job, cfg, a, b, RowsSeen(job, n, 0), c, ws, Still([]), pending, 0)
  {
    assert pending[0..] == pending;
  }

  lemma RoundOver(job: Job, cfg: Config, a: Db, b: Db, n: nat, c: set<int>, ws: seq<Write>, p: Pass, pending: seq<Row>)
    requires n <= |job.rows| && Queue(job, pending, n)
             && InRound(job, cfg, a, b, RowsSeen(job, n, |pending|), c, ws, p, pending, |pending|)
    ensures Rounds(job, cfg, a, b, |job.rows|, c, ws)
    ensures PutBack(job, a, b, c, p.failed, p.Moving?) && Covered(job, a, c, p.failed, [], 0)
    ensures |p.failed| <= |pending| && (p.Moving? ==> |p.failed| < |pending|)
    ensures ApartRows(job, pending) ==> ApartRows(job, p.failed)
  {
    assert pending[|pending|..] == [];
  }

  // ----- All rounds -----

  /** When a round moves nothing, what is closed is the least fixpoint. */
  lemma RoundsEnd(job: Job, cfg: Config, a: Db, b: Db, c: set<int>, ws: seq<Write>, failed: seq<Row>)
    requires Inv(b) && Rounds(job, cfg, a, b, |job.rows|, c, ws)
    requires PutBack(job, a, b, c, failed, false) && Covered(job, a, c, failed, [], 0)
    ensures IsLeastFixpoint(job, a, FinalEdges(job, a), c)
    ensures IdsOf(job, failed) == ToClose(job, a) - c
  {
    forall id | id in ToClose(job, a) && id !in c
      ensures !Unblocked(a, FinalEdges(job, a), c, id)
    {
      StillBlocked(job, a, b, c, failed, id);
    }
    LeftRows(job, a, b, c, failed);
  }

  /** A row left waiting has a blocker that is neither closed to begin with nor closed by now. */
  lemma StillBlocked(job: Job, a: Db, b: Db, c: set<int>, failed: seq<Row>, id: int)
    requires Statuses(job, a, b, |job.rows|, c)
    requires PutBack(job, a, b, c, failed, false) && Covered(job, a, c, failed, [], 0)
    requires id in ToClose(job, a) && id !in c
    ensures !Unblocked(a, FinalEdges(job, a), c, id)
  {
    var k :| 0 <= k < |failed| && IdOf(job, failed[k]) == id && StatusOf(failed[k]) == Closed;
    assert failed[k] in failed;
    assert StillWaiting(job, b, c, failed[k]);
    var p :| OpenBlocker(b, id, p);
    ClosedNow(job, a, b, |job.rows|, c, p);
  }

  /** The rows put back in the last round are exactly the rows still to be closed. */
  lemma LeftRows(job: Job, a: Db, b: Db, c: set<int>, failed: seq<Row>)
    requires PutBack(job, a, b, c, failed, false) && Covered(job, a, c, failed, [], 0)
    ensures IdsOf(job, failed) == ToClose(job, a) - c
  {
    forall id
      ensures id in IdsOf(job, failed) <==> id in ToClose(job, a) - c
    {
      if id in IdsOf(job, failed) {
        var r :| r in failed && IdOf(job, r) == id;
        assert StillWaiting(job, b, c, r);
      }
      if id in ToClose(job, a) - c {
        var k :| 0 <= k < |failed| && IdOf(job, failed[k]) == id;
        assert failed[k] in failed;
      }
    }
  }

  /** Rounds until one makes no progress: terminates, having closed the least fixpoint in dependency order. */
  method AllRounds(store: Store.Inner, job: Job, at: int, ghost a: Db, ghost ws: seq<Write>)
    returns (left: seq<Row>, ghost c: set<int>, ghost ws': seq<Write>)
    requires store.Valid() && Rounds(job, store.cfg, a, store.db, 0, {}, ws)
    modifies store, store.engine
    ensures store.Valid() && Rounds(job, store.cfg, a, store.db, |job.rows|, c, ws')
    ensures IsLeastFixpoint(job, a, FinalEdges(job, a), c)
    ensures IdsOf(job, left) == ToClose(job, a) - c
    ensures DistinctIds(job) ==> |left| == |ToClose(job, a) - c|
    ensures forall r :: r in left ==> r in job.rows
  {
    left, c, ws' := job.rows, {}, ws;
    ghost var n: nat := 0;
    var progressed := true;
    AllCovered(job, a);
    while progressed
      invariant store.Valid() && n <= |job.rows| && Rounds(job, store.cfg, a, store.db, n, c, ws')
      invariant progressed ==> Queue(job, left, n)
      invariant !progressed ==> n == |job.rows| && PutBack(job, a, store.db, c, left, false)
      invariant Covered(job, a, c, left, [], 0) && (DistinctIds(job) ==> ApartRows(job, left))
      decreases |left|, if progressed then 1 else 0
    {
      left, progressed, c, ws' := Round(store, job, left, at, a, n, c, ws');
      n := |job.rows|;
    }
    RoundsEnd(job, store.cfg, a, store.db, c, ws', left);
    if DistinctIds(job) {
      CountApart(job, left);
    }
  }

  lemma {:induction false} CountApart(job: Job, rows: seq<Row>)
    requires ApartRows(job, rows)
    ensures |IdsOf(job, rows)| == |rows|
  {
    if rows == [] {
      assert IdsOf(job, rows) == {};
    } else {
      var last := |rows| - 1;
      assert rows[..last + 1] == rows;
      OneMoreId(job, rows, last);
      CountApart(job, rows[..last]);
      assert forall r :: r in rows[..last] ==> exists i :: 0 <= i < last && rows[i] == r;
    }
  }

  lemma AllCovered(job: Job, a: Db)
    ensures Covered(job, a, {}, job.rows, [], 0)
  {
  }

  // ----- Exceptions -----

  /** Closings made regardless of blockers, after the rounds. */
  ghost predicate Excepting(job: Job, cfg: Config, a: Db, b: Db, c: set<int>, x: set<int>, ws: seq<Write>) {
    && Statuses(job, a, b, |job.rows|, c + x)
    && Ongoing(job, cfg, a, ws, b)
    && ClosedBy(ws) == c && ForcedBy(ws) == x
  }

  lemma ExceptionMade(job: Job, cfg: Config, a: Db, b: Db, c: set<int>, x: set<int>, ws: seq<Write>, w: Write)
    requires Inv(b) && Excepting(job, cfg, a, b, c, x, ws) && w.ForceW? && w.id in ToClose(job, a) && FromFile(job, w)
    ensures var s := CloseUnchecked(b, w.id, w.evidence, IMPORTER, w.at);
            s.Ok? && Excepting(job, cfg, a, s.value, c, x + {w.id}, ws + [w])
  {
    IssueClosed(job, a, b, |job.rows|, c + x, w.id, w.evidence, w.at, c + (x + {w.id}));
    ExceptionLogged(job, cfg, a, b, c, x, ws, w, CloseUnchecked(b, w.id, w.evidence, IMPORTER, w.at).value);
  }

  lemma ExceptionLogged(
    job: Job, cfg: Config, a: Db, b: Db, c: set<int>, x: set<int>, ws: seq<Write>, w: Write, next: Db)
    requires Excepting(job, cfg, a, b, c, x, ws) && w.ForceW? && FromFile(job, w)
    requires Apply(cfg, b, w) == Ok(next) && Statuses(job, a, next, |job.rows|, c + (x + {w.id}))
    ensures Excepting(job, cfg, a, next, c, x + {w.id}, ws + [w])
  {
    Logged(job, cfg, a, b, ws, w, next, |job.rows|, c + (x + {w.id}));
  }

  ghost function IdsOf(job: Job, rows: seq<Row>): set<int> {
    set r | r in rows :: IdOf(job, r)
  }

  lemma OneMoreId(job: Job, rows: seq<Row>, k: nat)
    requires k < |rows|
    ensures IdsOf(job, rows[..k + 1]) == IdsOf(job, rows[..k]) + {IdOf(job, rows[k])}
  {
    assert forall r :: r in rows[..k + 1] <==> r in rows[..k] || r == rows[k];
  }

  method CloseLeft(store: Store.Inner, job: Job, left: seq<Row>, ghost a: Db, ghost c: set<int>, ghost ws: seq<Write>)
    returns (ghost x: set<int>, ghost ws': seq<Write>)
    requires store.Valid() && Rounds(job, store.cfg, a, store.db, |job.rows|, c, ws)
    requires IdsOf(job, left) <= ToClose(job, a) && forall r :: r in left ==> r in job.rows
    modifies store, store.engine
    ensures store.Valid() && Excepting(job, store.cfg, a, store.db, c, x, ws')
    ensures x == IdsOf(job, left)
  {
    x, ws' := {}, ws;
    assert c + {} == c;
    for k := 0 to |left|
      invariant store.Valid() && Excepting(job, store.cfg, a, store.db, c, x, ws')
      invariant x == IdsOf(job, left[..k])
    {
      var r := left[k];
      assert r in left && IdOf(job, r) in IdsOf(job, left);
      OneMoreId(job, left, k);
      ghost var w := ForceW(IdOf(job, r), [r.note], r.closedAt);
      ghost var after := CloseUnchecked(store.db, w.id, w.evidence, IMPORTER, w.at);
      assert r in job.rows && WriteOf(job, r, w);
      ExceptionMade(job, store.cfg, a, store.db, c, x, ws', w);
      var _ := store.CloseUnchecked(IdOf(job, r), [r.note], IMPORTER, r.closedAt);
      assert store.db == after.value;
      x, ws' := x + {w.id}, ws' + [w];
    }
    assert left[..|left|] == left;
  }

  /** With every row to be closed closed, each status is the promised one. */
  lemma AllLanded(job: Job, a: Db, b: Db)
    requires Statuses(job, a, b, |job.rows|, ToClose(job, a))
    ensures Landed(job, a, b)
  {
    forall id | id in RowIds(job)
      ensures b.issues[id].status == Final(job, a, id)
    {
    }
  }
}
