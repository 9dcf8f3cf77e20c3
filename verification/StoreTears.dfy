/**
 An operation appends its rows one line at a time (src/adapter.rs:201-209), so a trail may stop inside a call.
 What the visible state keeps at every single append, exactly where a cut shows, and what repairs it.
 */
module StoreTears {
  import opened Wrappers
  import opened Domain
  import opened StoreSpec
  import opened StoreInvariant
  import Graph

  /** Every outbox row has its event; every event is numbered. */
  ghost predicate LettersOk(db: Db) {
    && db.audit >= 0
    && (forall n :: n in db.outbox ==> AuditRowOk(db, n))
    && forall n :: n in db.events ==> 0 < n <= db.audit
  }

  ghost predicate ParentNear(issues: map<int, Issue>, i: Issue) {
    i.parent.Some? && i.parent.value in issues ==> issues[i.parent.value].project == i.project
  }

  /** Parent links never loop, and a parent that is there is in the same project. */
  ghost predicate ParentsFit(issues: map<int, Issue>) {
    Graph.Acyclic(ParentEdges(issues)) && forall id :: id in issues ==> ParentNear(issues, issues[id])
  }

  /** What holds after every append, half way through a call included. */
  ghost predicate Between(db: Db) {
    RowsOk(db) && DepsOk(db) && FoldersOk(db) && ParentsFit(db.issues) && LettersOk(db)
  }

  /** The two things a cut can break: an event that still lacks its outbox row, ... */
  ghost predicate TwinsComplete(db: Db) {
    forall n :: n in db.events ==> n in db.outbox
  }

  /** ... and an issue whose parent is already gone. */
  ghost predicate ParentsLive(issues: map<int, Issue>) {
    forall id :: id in issues ==> ParentOk(issues, issues[id])
  }

  lemma SoundIffWhole(db: Db)
    ensures Inv(db) <==> Between(db) && TwinsComplete(db) && ParentsLive(db.issues)
  {
    if Inv(db) {
      forall n | n in db.events || n in db.outbox
        ensures AuditRowOk(db, n)
      {
      }
      forall id | id in db.issues
        ensures ParentNear(db.issues, db.issues[id])
      {
        assert ParentOk(db.issues, db.issues[id]);
      }
    }
  }

  // ----- Single appends -----

  lemma SaveStep(db: Db, i: Issue)
    requires Inv(db) && i.id in db.issues && RowOk(i, i.id)
    requires i.project == db.issues[i.id].project && i.parent == db.issues[i.id].parent
    ensures Between(Save(db, i))
  {
    SaveKeeps(db, i);
    SoundIffWhole(Save(db, i));
  }

  lemma CreateStep(db: Db, cfg: Config, spec: NewIssue, minted: int, at: int)
    requires Inv(db) && minted !in db.issues && Create(db, cfg, spec, minted, at).Ok?
    ensures Between(Save(db, FreshRow(spec, spec.id.GetOr(minted), spec.project.value, cfg, at)))
  {
    var i := FreshRow(spec, spec.id.GetOr(minted), spec.project.value, cfg, at);
    InsertKeeps(db, i);
    SoundIffWhole(Save(db, i));
  }

  lemma EdgesStep(db: Db, deps: Graph.Edges)
    requires Inv(db) && Graph.Acyclic(deps)
    requires forall c, p :: (c, p) in deps ==> c in db.issues && p in db.issues
    ensures Inv(db.(deps := deps)) && Between(db.(deps := deps))
  {
    DepWriteKeeps(db, deps);
    SoundIffWhole(db.(deps := deps));
  }

  /** The first half of `log_event`. */
  function EventOnly(db: Db, id: int, at: int, actor: Actor, kind: EventKind): Db {
    db.(audit := db.audit + 1, events := db.events[db.audit + 1 := Event(id, at, actor, kind)])
  }

  lemma LogSteps(db: Db, id: int, at: int, actor: Actor, kind: EventKind)
    requires Between(db)
    ensures Between(EventOnly(db, id, at, actor, kind)) && Between(LogEvent(db, id, at, actor, kind))
  {
    var half, next := EventOnly(db, id, at, actor, kind), LogEvent(db, id, at, actor, kind);
    forall n | n in next.outbox
      ensures AuditRowOk(next, n) && (n in half.outbox ==> AuditRowOk(half, n))
    {
      assert n in db.outbox ==> AuditRowOk(db, n);
    }
  }

  /** Cut between the two halves, one event lacks its twin: the one just written. */
  lemma TearInsideLog(db: Db, id: int, at: int, actor: Actor, kind: EventKind)
    requires Inv(db) && id in db.issues
    ensures var half := EventOnly(db, id, at, actor, kind);
            && Between(half) && ParentsLive(half.issues) && !Inv(half)
            && forall n :: n in half.events ==> (n in half.outbox <==> n != half.audit)
  {
    var half := EventOnly(db, id, at, actor, kind);
    SoundIffWhole(db);
    LogSteps(db, id, at, actor, kind);
    assert half.audit !in db.outbox by {
      assert half.audit in db.outbox ==> AuditRowOk(db, half.audit);
    }
    assert !AuditRowOk(half, half.audit);
  }

  /** Replaying the trail of any prefix of appends keeps whichever of the two held. */
  lemma ReopenStep(db: Db, counter: int)
    requires counter >= db.audit
    ensures Inv(db) ==> Inv(db.(audit := counter))
    ensures Between(db) ==> Between(db.(audit := counter))
  {
    var next := db.(audit := counter);
    if Inv(db) {
      ReopenKeeps(db, counter);
    }
    if !Between(db) {
      return;
    }
    forall n | n in next.outbox
      ensures AuditRowOk(next, n)
    {
      assert AuditRowOk(db, n);
    }
  }

  // ----- Inside a drop -----

  ghost function EdgesAbout(db: Db, mine: set<int>): Graph.Edges {
    set e | e in db.deps && (e.0 in mine || e.1 in mine)
  }

  /** What a drop has removed so far. */
  datatype Cut = Cut(letters: set<int>, events: set<int>, edges: Graph.Edges, issues: set<int>)

  /** The drop of `slug` works in phases, each over before the next begins: outbox, history, edges, issues. */
  ghost predicate IsCut(db: Db, slug: int, c: Cut) {
    var mine := IssuesOf(db, slug);
    && c.letters <= OutboxAbout(db, mine) && c.events <= EventsAbout(db, mine)
    && c.edges <= EdgesAbout(db, mine) && c.issues <= mine
    && (c.events != {} ==> c.letters == OutboxAbout(db, mine))
    && (c.edges != {} ==> c.letters == OutboxAbout(db, mine) && c.events == EventsAbout(db, mine))
    && (c.issues != {} ==>
          c.letters == OutboxAbout(db, mine) && c.events == EventsAbout(db, mine) && c.edges == EdgesAbout(db, mine))
  }

  ghost function After(db: Db, c: Cut): Db {
    db.(outbox := db.outbox - c.letters, events := db.events - c.events, deps := db.deps - c.edges,
    issues := db.issues - c.issues)
  }

  lemma CutLetters(db: Db, slug: int, c: Cut)
    requires Inv(db) && IsCut(db, slug, c)
    ensures LettersOk(After(db, c))
  {
    var m, mine := After(db, c), IssuesOf(db, slug);
    forall n | n in m.outbox
      ensures AuditRowOk(m, n)
    {
      assert AuditRowOk(db, n);
      assert c.events != {} || c.issues != {} ==> n !in OutboxAbout(db, mine);
    }
    forall n | n in m.events
      ensures 0 < n <= m.audit
    {
      assert AuditRowOk(db, n);
    }
  }

  lemma CutIsBetween(db: Db, slug: int, c: Cut)
    requires Inv(db) && IsCut(db, slug, c)
    ensures Between(After(db, c))
  {
    var m, mine := After(db, c), IssuesOf(db, slug);
    CutLetters(db, slug, c);
    Graph.AcyclicMono(m.deps, db.deps);
    assert ParentEdges(m.issues) <= ParentEdges(db.issues);
    Graph.AcyclicMono(ParentEdges(m.issues), ParentEdges(db.issues));
    forall x, p | (x, p) in m.deps
      ensures x in m.issues && p in m.issues
    {
      assert c.issues != {} ==> (x, p) !in EdgesAbout(db, mine);
    }
  }

  /** The first `k` numbers of a list. */
  ghost function Firsts(list: seq<int>, k: nat): set<int>
    requires k <= |list|
  {
    set j | 0 <= j < k :: list[j]
  }

  lemma OneMoreFirst(list: seq<int>, k: nat, whole: set<int>)
    requires k < |list| && forall n :: n in list ==> n in whole
    ensures Firsts(list, k + 1) == Firsts(list, k) + {list[k]}
    ensures Firsts(list, k + 1) <= whole && list[k] in whole
  {
    forall n | n in Firsts(list, k + 1)
      ensures n in whole
    {
      var j :| 0 <= j < k + 1 && list[j] == n;
      assert list[j] in list;
    }
  }

  ghost function LetterPhase(gone: set<int>): Cut {
    Cut(gone, {}, {}, {})
  }

  ghost function HistoryPhase(db: Db, slug: int, gone: set<int>): Cut {
    Cut(OutboxAbout(db, IssuesOf(db, slug)), gone, {}, {})
  }

  ghost function EdgePhase(db: Db, slug: int, gone: Graph.Edges): Cut {
    Cut(OutboxAbout(db, IssuesOf(db, slug)), EventsAbout(db, IssuesOf(db, slug)), gone, {})
  }

  ghost function IssuePhase(db: Db, slug: int, gone: set<int>): Cut {
    Cut(OutboxAbout(db, IssuesOf(db, slug)), EventsAbout(db, IssuesOf(db, slug)), EdgesAbout(db, IssuesOf(db, slug)),
        gone)
  }

  lemma LetterTurn(db: Db, slug: int, list: seq<int>, k: nat)
    requires Inv(db) && k < |list| && forall n :: n in list ==> n in OutboxAbout(db, IssuesOf(db, slug))
    ensures var now, next := After(db, LetterPhase(Firsts(list, k))), After(db, LetterPhase(Firsts(list, k + 1)));
            next == now.(outbox := now.outbox - {list[k]}) && Between(next) && list[k] <= db.audit
  {
    OneMoreFirst(list, k, OutboxAbout(db, IssuesOf(db, slug)));
    assert AuditRowOk(db, list[k]);
    CutIsBetween(db, slug, LetterPhase(Firsts(list, k + 1)));
  }

  lemma HistoryTurn(db: Db, slug: int, list: seq<int>, k: nat)
    requires Inv(db) && k < |list| && forall n :: n in list ==> n in EventsAbout(db, IssuesOf(db, slug))
    ensures var now, next := After(db, HistoryPhase(db, slug, Firsts(list, k))),
                             After(db, HistoryPhase(db, slug, Firsts(list, k + 1)));
            next == now.(events := now.events - {list[k]}) && Between(next) && list[k] <= db.audit
  {
    OneMoreFirst(list, k, EventsAbout(db, IssuesOf(db, slug)));
    assert AuditRowOk(db, list[k]);
    CutIsBetween(db, slug, HistoryPhase(db, slug, Firsts(list, k + 1)));
  }

  lemma EdgeTurn(db: Db, slug: int, gone: Graph.Edges, e: (int, int))
    requires Inv(db) && gone <= EdgesAbout(db, IssuesOf(db, slug)) && e in EdgesAbout(db, IssuesOf(db, slug))
    ensures var now, next := After(db, EdgePhase(db, slug, gone)), After(db, EdgePhase(db, slug, gone + {e}));
            next == now.(deps := now.deps - {e}) && Between(next)
  {
    CutIsBetween(db, slug, EdgePhase(db, slug, gone + {e}));
  }

  lemma IssueTurn(db: Db, slug: int, list: seq<int>, k: nat)
    requires Inv(db) && k < |list| && forall id :: id in list ==> id in IssuesOf(db, slug)
    ensures var now, next := After(db, IssuePhase(db, slug, Firsts(list, k))),
                             After(db, IssuePhase(db, slug, Firsts(list, k + 1)));
            next == now.(issues := now.issues - {list[k]}) && Between(next)
  {
    OneMoreFirst(list, k, IssuesOf(db, slug));
    CutIsBetween(db, slug, IssuePhase(db, slug, Firsts(list, k + 1)));
  }

  /** With the last phase over only the project row is left to remove. */
  lemma DropEnds(db: Db, slug: int)
    requires Inv(db) && slug in db.projects
    ensures var now, next := After(db, IssuePhase(db, slug, IssuesOf(db, slug))), DropProject(db, slug).value;
            next == now.(projects := now.projects - {slug}) && Between(next)
  {
    DropKeeps(db, slug);
    SoundIffWhole(DropProject(db, slug).value);
    assert After(db, IssuePhase(db, slug, IssuesOf(db, slug))).deps == DropProject(db, slug).value.deps;
  }

  lemma CutTwins(db: Db, slug: int, c: Cut)
    requires AuditOk(db) && IsCut(db, slug, c)
    ensures TwinsComplete(After(db, c)) <==> c.letters <= c.events
  {
    var m := After(db, c);
    forall n | n in db.events || n in db.outbox
      ensures AuditRowOk(db, n)
    {
    }
    if TwinsComplete(m) {
      forall n | n in c.letters
        ensures n in c.events
      {
        assert n in db.events && n !in m.outbox;
      }
    }
  }

  /** No child outlives its parent. */
  ghost predicate ParentsLast(db: Db, c: Cut) {
    forall id :: id in db.issues && id !in c.issues && db.issues[id].parent.Some? ==>
                   db.issues[id].parent.value !in c.issues
  }

  lemma CutParents(db: Db, c: Cut)
    requires ParentsOk(db.issues)
    ensures ParentsLive(After(db, c).issues) <==> ParentsLast(db, c)
  {
    var m := After(db, c);
    forall id | id in m.issues
      ensures ParentOk(m.issues, m.issues[id]) <==>
              (db.issues[id].parent.Some? ==> db.issues[id].parent.value !in c.issues)
    {
      assert ParentOk(db.issues, db.issues[id]);
    }
    if ParentsLive(m.issues) {
      forall id | id in db.issues && id !in c.issues && db.issues[id].parent.Some?
        ensures db.issues[id].parent.value !in c.issues
      {
        assert id in m.issues && ParentOk(m.issues, m.issues[id]);
      }
    }
  }

  /**
   A drop cut short is sound exactly when the events of all letters it removed are gone too and no child outlives its
   parent.
   */
  lemma CutIsSoundIff(db: Db, slug: int, c: Cut)
    requires Inv(db) && IsCut(db, slug, c)
    ensures Inv(After(db, c)) <==> c.letters <= c.events && ParentsLast(db, c)
  {
    CutIsBetween(db, slug, c);
    CutTwins(db, slug, c);
    CutParents(db, c);
    SoundIffWhole(After(db, c));
  }

  /** Reopened after any cut and asked again, the drop ends where it would have ended. */
  lemma DropResumes(db: Db, slug: int, c: Cut, counter: int)
    requires Inv(db) && IsCut(db, slug, c) && slug in db.projects
    ensures var again := DropProject(After(db, c).(audit := counter), slug);
            again == Ok(DropProject(db, slug).value.(audit := counter))
  {
    var m, mine := After(db, c).(audit := counter), IssuesOf(db, slug);
    var left := IssuesOf(m, slug);
    assert left == mine - c.issues;
    var whole, again := DropProject(db, slug).value, DropProject(m, slug).value;
    forall n | n in db.events || n in db.outbox
      ensures AuditRowOk(db, n)
    {
    }
    assert again.issues == whole.issues;
    assert again.outbox == whole.outbox;
    assert again.events == whole.events;
    assert again.deps == whole.deps;
  }

  // ----- Creating on a torn store -----

  /** The new row closes no parent loop, and its children left over from a cut are in its project. */
  ghost predicate CreateFits(db: Db, spec: NewIssue, id: int)
    requires spec.project.Some?
  {
    && !(spec.parent.Some? && Graph.Reach(ParentEdges(db.issues), spec.parent.value, id))
    && forall c :: c in db.issues && db.issues[c].parent == Some(id) ==> db.issues[c].project == spec.project.value
  }

  /**
   With every parent live nothing names a fresh id; after a cut something may, and then a `create` of that id has to
   fit.
   */
  lemma CreateOnTornIff(db: Db, cfg: Config, spec: NewIssue, minted: int, at: int)
    requires Between(db) && minted !in db.issues && Create(db, cfg, spec, minted, at).Ok?
    ensures Between(Create(db, cfg, spec, minted, at).value) <==> CreateFits(db, spec, spec.id.GetOr(minted))
  {
    var id := spec.id.GetOr(minted);
    var i := FreshRow(spec, id, spec.project.value, cfg, at);
    InsertOnTornIff(db, i);
    var saved, next := Save(db, i), Create(db, cfg, spec, minted, at).value;
    if Between(saved) {
      LogSteps(saved, id, at, spec.createdBy, Created);
    }
    assert next.issues == saved.issues;
  }

  lemma InsertOnTornIff(db: Db, i: Issue)
    requires Between(db) && i.id !in db.issues && RowOk(i, i.id) && i.project in db.projects && ParentOk(db.issues, i)
    ensures ParentsFit(Save(db, i).issues) <==>
            && !(i.parent.Some? && Graph.Reach(ParentEdges(db.issues), i.parent.value, i.id))
            && forall c :: c in db.issues && db.issues[c].parent == Some(i.id) ==> db.issues[c].project == i.project
    ensures Between(Save(db, i)) <==> ParentsFit(Save(db, i).issues)
  {
    var e, saved := ParentEdges(db.issues), Save(db, i);
    forall n | n in saved.outbox
      ensures AuditRowOk(saved, n)
    {
      assert AuditRowOk(db, n);
    }
    if i.parent.Some? {
      assert ParentEdges(saved.issues) == e + {(i.id, i.parent.value)};
      Graph.AddEdge(e, i.id, i.parent.value);
    } else {
      assert ParentEdges(saved.issues) == e;
    }
    NearOnTornIff(db, i);
  }

  lemma NearOnTornIff(db: Db, i: Issue)
    requires i.id !in db.issues && ParentOk(db.issues, i) && forall id :: id in db.issues ==>
                                                                            ParentNear(db.issues, db.issues[id])
    ensures (forall id :: id in Save(db, i).issues ==> ParentNear(Save(db, i).issues, Save(db, i).issues[id])) <==>
            (forall c :: c in db.issues && db.issues[c].parent == Some(i.id) ==> db.issues[c].project == i.project)
  {
    var next := Save(db, i).issues;
    forall c | c in db.issues
      ensures ParentNear(next, next[c]) <==> (db.issues[c].parent == Some(i.id) ==> db.issues[c].project == i.project)
    {
      assert ParentNear(db.issues, db.issues[c]);
    }
    assert i.parent != Some(i.id);
  }

  /** The family the two witnesses start from: project 0 holds issue 2 under issue 1; project 7 is empty. */
  function Family(): Db {
    var top := Issue(1, 0, Open, 2, false, None, None, None, None, None, 0, 0, None, [],
                     Metadata(None, None, None, None, false), []);
    EMPTY_DB.(issues := map[1 := top, 2 := top.(id := 2, parent := Some(1))], projects := {0, 7})
  }

  /** Issue 1 anew, in a project and under a parent. */
  function Anew(project: int, parent: Option<int>): NewIssue {
    NewIssue(Some(1), Some(project), parent, 2, false, None, System, Metadata(None, None, None, None, false))
  }

  lemma FamilyCut() returns (c: Cut)
    ensures Inv(Family()) && IsCut(Family(), 0, c) && c == Cut({}, {}, {}, {1})
    ensures var m := After(Family(), c); Between(m) && !Inv(m) && m.issues.Keys == {2}
                                         && m.issues[2].parent == Some(1) && m.issues[2].project == 0
  {
    var db := Family();
    c := Cut({}, {}, {}, {1});
    Graph.RankedIsAcyclic(ParentEdges(db.issues), map[1 := 0, 2 := 1]);
    Graph.RankedIsAcyclic({}, map[]);
    assert FolderEdges(db.folders) == {};
    assert IssuesOf(db, 0) == {1, 2};
    CutIsSoundIff(db, 0, c);
    CutIsBetween(db, 0, c);
  }

  /** A drop cut after it removed a parent but not its child: creating the parent again under the child makes a loop. */
  lemma TornDropCanLoop(cfg: Config) returns (c: Cut)
    ensures Inv(Family()) && IsCut(Family(), 0, c)
    ensures var r := Create(After(Family(), c), cfg, Anew(0, Some(2)), 9, 0);
            r.Ok? && !Graph.Acyclic(ParentEdges(r.value.issues))
  {
    c := FamilyCut();
    var next := Create(After(Family(), c), cfg, Anew(0, Some(2)), 9, 0).value;
    assert (1, 2) in ParentEdges(next.issues) && (2, 1) in ParentEdges(next.issues);
    Graph.ReachEdge(ParentEdges(next.issues), 2, 1);
    if Graph.Acyclic(ParentEdges(next.issues)) {
      Graph.NoReturn(ParentEdges(next.issues), 1, 2);
    }
  }

  /** Creating it again in another project leaves the child under a parent of that project. */
  lemma TornDropCanStray(cfg: Config) returns (c: Cut)
    ensures Inv(Family()) && IsCut(Family(), 0, c)
    ensures var r := Create(After(Family(), c), cfg, Anew(7, None), 9, 0);
            && r.Ok? && r.value.issues.Keys == {1, 2} && Graph.Acyclic(ParentEdges(r.value.issues))
            && r.value.issues[2].parent == Some(1) && r.value.issues[1].project != r.value.issues[2].project
  {
    c := FamilyCut();
    var m := After(Family(), c);
    var next := Create(m, cfg, Anew(7, None), 9, 0).value;
    assert ParentEdges(next.issues) == ParentEdges(m.issues);
  }
}
