/**
 The store behind the adapter's lock (src/adapter.rs, `Inner`): every operation reads and appends
 rows through the record engine. `db` is the visible state those rows spell out; each method is
 proved to change it exactly as StoreSpec says and to keep the global invariant. `Write` and `SwapIssue`
 make every append there is, so each one leaves `Between` standing.
 */
module Store {
  import opened Wrappers
  import opened Domain
  import opened StoreSpec
  import opened StoreInvariant
  import opened StoreTears
  import StoreEffects
  import Graph
  import Ordered
  import Records
  import Sorting
  import WorkTime

  datatype Table = IssueT | ProjectT | FolderT | FilingT | DependencyT | OutboxT | EventT | MetaT

  datatype Value =
    | Null | IssueV(issue: Issue) | ProjectV | FolderV(parent: Option<int>) | FilingV(folder: int)
    | DependencyV | OutboxV(row: Outbox) | EventV(event: Event) | MetaV

  type Rows = map<Records.Key, Value>

  // ----- How the visible state is spelled out in rows -----

  /** The row under key `k` of record type `t`, as the visible state determines it. */
  ghost function RowAt(db: Db, t: Table, k: Records.Key): Option<Value> {
    if |k| == 2 then
      if t == DependencyT && (k[0], k[1]) in db.deps then Some(DependencyV) else None
    else if |k| == 1 then
      var id := k[0];
      match t
      case IssueT => if id in db.issues then Some(IssueV(db.issues[id])) else None
      case ProjectT => if id in db.projects then Some(ProjectV) else None
      case FolderT => if id in db.folders then Some(FolderV(db.folders[id])) else None
      case FilingT => if id in db.filed then Some(FilingV(db.filed[id])) else None
      case OutboxT => if id in db.outbox then Some(OutboxV(db.outbox[id])) else None
      case EventT => if id in db.events then Some(EventV(db.events[id])) else None
      case DependencyT => None
      case MetaT => None
    else None
  }

  ghost predicate Matches(rows: Rows, db: Db, t: Table) {
    forall k :: Records.RowOf(rows, k) == RowAt(db, t, k)
  }

  /** `next` differs from `db` by one row written (or removed) in record type `t`. */
  ghost predicate OneRow(db: Db, next: Db, t: Table, key: Records.Key, value: Value, deleted: bool) {
    && (forall u: Table, k :: u != t || k != key ==> RowAt(next, u, k) == RowAt(db, u, k))
    && (t != MetaT ==> RowAt(next, t, key) == if deleted then None else Some(value))
    && db.audit <= next.audit
    && (t == EventT || t == OutboxT ==> |key| == 1 && key[0] <= next.audit)
  }

  /** Every key ever written, tombstones included, is a single number no larger than `bound`. */
  ghost predicate NumberedUpTo(h: seq<Records.Revision<Value>>, bound: int) {
    forall r :: r in h ==> |r.key| == 1 && r.key[0] <= bound
  }

  ghost predicate Spells(log: Records.Log<Table, Value>, db: Db) {
    && (forall t: Table {:trigger Matches(Records.Rows(log.HistoryOf(t)), db, t)} ::
          t != MetaT ==> Matches(Records.Rows(log.HistoryOf(t)), db, t))
    && NumberedUpTo(log.HistoryOf(EventT), db.audit)
    && NumberedUpTo(log.HistoryOf(OutboxT), db.audit)
    && 0 <= db.audit <= log.seqNo
  }

  ghost predicate Untouched(db: Db, next: Db, t: Table) {
    forall k :: RowAt(next, t, k) == RowAt(db, t, k)
  }

  lemma PutMatches(rows: Rows, rows': Rows, db: Db, next: Db, t: Table, key: Records.Key, value: Value, deleted: bool)
    requires t != MetaT && Matches(rows, db, t) && OneRow(db, next, t, key, value, deleted)
    requires rows' == if deleted then rows - {key} else rows[key := value]
    ensures Matches(rows', next, t)
  {
    forall k
      ensures Records.RowOf(rows', k) == RowAt(next, t, k)
    {
      assert Records.RowOf(rows, k) == RowAt(db, t, k);
      assert k != key ==> Records.RowOf(rows', k) == Records.RowOf(rows, k);
    }
  }

  lemma SameMatches(rows: Rows, db: Db, next: Db, t: Table)
    requires Matches(rows, db, t) && Untouched(db, next, t)
    ensures Matches(rows, next, t)
  {
    forall k
      ensures Records.RowOf(rows, k) == RowAt(next, t, k)
    {
      assert Records.RowOf(rows, k) == RowAt(db, t, k);
    }
  }

  lemma NumberedAppend(h: seq<Records.Revision<Value>>, r: Records.Revision<Value>, bound: int, bound': int)
    requires NumberedUpTo(h, bound) && bound <= bound' && |r.key| == 1 && r.key[0] <= bound'
    ensures NumberedUpTo(h + [r], bound')
  {
  }

  lemma SpellsAppend(log: Records.Log<Table, Value>, db: Db, next: Db, t: Table, r: Records.Revision<Value>)
    requires Spells(log, db) && OneRow(db, next, t, r.key, r.data, r.deleted)
    requires log.seqNo < r.number && next.audit <= r.number
    ensures Spells(Records.Apply(log, Records.Line(t, r)), next)
  {
    var after := Records.Apply(log, Records.Line(t, r));
    Records.ApplyFacts(log, Records.Line(t, r));
    forall u: Table | u != MetaT
      ensures Matches(Records.Rows(after.HistoryOf(u)), next, u)
    {
      var rows := Records.Rows(log.HistoryOf(u));
      assert Matches(rows, db, u);
      if u == t {
        PutMatches(rows, Records.Rows(after.HistoryOf(u)), db, next, t, r.key, r.data, r.deleted);
      } else {
        assert Untouched(db, next, u);
        SameMatches(rows, db, next, u);
      }
    }
    if t == EventT || t == OutboxT {
      NumberedAppend(log.HistoryOf(t), r, db.audit, next.audit);
    }
  }

  // ----- The one-row changes operations make -----

  lemma IssueWritten(db: Db, i: Issue)
    ensures OneRow(db, Save(db, i), IssueT, [i.id], IssueV(i), false)
  {
  }

  lemma IssueRemoved(db: Db, id: int)
    ensures OneRow(db, db.(issues := db.issues - {id}), IssueT, [id], Null, true)
  {
  }

  lemma EventWritten(db: Db, n: int, e: Event)
    requires n >= db.audit
    ensures OneRow(db, db.(audit := n, events := db.events[n := e]), EventT, [n], EventV(e), false)
  {
  }

  lemma EventRemoved(db: Db, n: int)
    requires n <= db.audit
    ensures OneRow(db, db.(events := db.events - {n}), EventT, [n], Null, true)
  {
  }

  lemma OutboxWritten(db: Db, n: int, o: Outbox)
    requires n <= db.audit
    ensures OneRow(db, db.(outbox := db.outbox[n := o]), OutboxT, [n], OutboxV(o), false)
  {
  }

  lemma OutboxRemoved(db: Db, n: int)
    requires n <= db.audit
    ensures OneRow(db, db.(outbox := db.outbox - {n}), OutboxT, [n], Null, true)
  {
  }

  lemma ProjectRemoved(db: Db, slug: int)
    ensures OneRow(db, db.(projects := db.projects - {slug}), ProjectT, [slug], Null, true)
  {
  }

  lemma EdgeWritten(db: Db, c: int, p: int)
    ensures OneRow(db, db.(deps := db.deps + {(c, p)}), DependencyT, [c, p], DependencyV, false)
  {
  }

  lemma EdgeRemoved(db: Db, c: int, p: int)
    ensures OneRow(db, db.(deps := db.deps - {(c, p)}), DependencyT, [c, p], Null, true)
  {
  }

  /** Is this an event or outbox row about one of the issues in `mine`? */
  predicate About(row: Option<Value>, mine: set<int>) {
    match row
    case Some(EventV(e)) => e.issueId in mine
    case Some(OutboxV(o)) => o.issueId in mine
    case _ => false
  }

  /** `list` holds the views of the issues in `order`, each once. */
  ghost predicate ViewsOf(db: Db, order: seq<int>, list: seq<Issue>) {
    && (forall i :: i in list ==> i.id in order && i.id in db.issues && i == View(db, i.id))
    && (forall id :: id in order ==> id in db.issues && View(db, id) in list)
    && Sorting.Distinct(list)
  }

  lemma OneMoreView(db: Db, order: seq<int>, k: nat, list: seq<Issue>)
    requires Ordered.Ascending(order) && k < |order| && ViewsOf(db, order[..k], list)
    requires order[k] in db.issues && db.issues[order[k]].id == order[k]
    ensures ViewsOf(db, order[..k + 1], list + [View(db, order[k])])
  {
    assert order[k] !in order[..k];
    assert order[..k + 1] == order[..k] + [order[k]];
  }

  class Inner {
    const engine: Records.Engine<Table, Value>
    const cfg: Config
    /** `seq` in the source: the last audit number handed out. */
    var audit: int
    ghost var db: Db

    ghost predicate Linked()
      reads this, engine
    {
      engine.Valid() && Spells(engine.State(), db)
    }

    /** The rows spell out `db`; an operation may be half way through its writes. */
    ghost predicate Coupled()
      reads this, engine
    {
      Linked() && audit == db.audit && WorkTime.ValidWeek(cfg.week)
    }

    ghost predicate Valid()
      reads this, engine
    {
      Coupled() && Inv(db)
    }

    // ----- Opening -----

    /** A fresh store; the audit counter starts at the engine's counter and the store id is seeded. */
    constructor Open(cfg: Config, durable: bool)
      requires WorkTime.ValidWeek(cfg.week)
      ensures Valid() && fresh(engine) && db == EMPTY_DB && this.cfg == cfg && engine.durable == durable
    {
      this.cfg := cfg;
      var e := new Records.Engine<Table, Value>.Fresh(durable);
      EmptySpells();
      SpellsAppend(e.State(), EMPTY_DB, EMPTY_DB, MetaT, Records.Revision(1, [0], MetaV, false));
      var _ := e.Append(MetaT, [0], MetaV, false);
      engine := e;
      audit := 0;
      db := EMPTY_DB;
    }

    /**
     Reopening replays the trail a store wrote. The rows come back as they were; only the audit
     counter moves, up to the engine's, so no audit number can come round again.
     */
    constructor Reopen(cfg: Config, lines: seq<Records.Line<Table, Value>>, ghost before: Db)
      requires WorkTime.ValidWeek(cfg.week)
      requires Records.Consistent(Records.Replay(lines)) && Spells(Records.Replay(lines), before)
      ensures Coupled() && fresh(engine) && this.cfg == cfg && engine.durable
      ensures db == before.(audit := Records.Replay(lines).seqNo)
      ensures Inv(before) ==> Inv(db)
      ensures Between(before) ==> Between(db)
    {
      this.cfg := cfg;
      var e, counter := Seeded(lines, before);
      ReopenStep(before, counter);
      engine := e;
      audit := counter;
      db := before.(audit := counter);
    }

    // ----- Rows -----

    method Write(t: Table, key: Records.Key, value: Value, deleted: bool, ghost next: Db)
      requires Linked() && OneRow(db, next, t, key, value, deleted) && next.audit <= engine.seqNo + 1
      requires Between(next)
      modifies this`db, engine
      ensures Linked() && db == next
      ensures forall u :: old(engine.State()).HistoryOf(u) <= engine.State().HistoryOf(u)
    {
      ghost var line := Records.Line(t, Records.Revision(engine.seqNo + 1, key, value, deleted));
      ghost var after := Records.Apply(engine.State(), line);
      SpellsAppend(engine.State(), db, next, t, line.revision);
      var _ := engine.Append(t, key, value, deleted);
      assert engine.State() == after;
      db := next;
    }

    method Read(t: Table, key: Records.Key) returns (r: Option<Value>)
      requires Linked() && t != MetaT
      ensures r == RowAt(db, t, key)
    {
      r := engine.Current(t, key);
      assert Matches(engine.Table(t), db, t);
    }

    method Keys(t: Table) returns (keys: seq<Records.Key>)
      requires Linked() && t != MetaT
      ensures forall k :: k in keys <==> RowAt(db, t, k).Some?
      ensures forall i, j :: 0 <= i < j < |keys| ==> keys[i] != keys[j]
    {
      keys := engine.Keys(t);
      assert Matches(engine.Table(t), db, t);
      forall k
        ensures k in keys <==> RowAt(db, t, k).Some?
      {
        assert Records.RowOf(engine.Table(t), k) == RowAt(db, t, k);
      }
    }

    method LoadIssue(id: int) returns (r: Option<Issue>)
      requires Linked()
      ensures r == if id in db.issues then Some(db.issues[id]) else None
    {
      var row := Read(IssueT, [id]);
      r := if row.Some? && row.value.IssueV? then Some(row.value.issue) else None;
    }

    method SaveIssue(i: Issue)
      requires Coupled() && Between(Save(db, i))
      modifies this`db, engine
      ensures Coupled() && db == Save(old(db), i)
    {
      IssueWritten(db, i);
      Write(IssueT, [i.id], IssueV(i), false, Save(db, i));
    }

    /** The audit event and its outbound twin share one number, never used before in either history. */
    method LogEvent(id: int, at: int, actor: Actor, kind: EventKind)
      requires Coupled() && Between(db)
      modifies this, engine
      ensures Coupled() && Between(db) && db == StoreSpec.LogEvent(old(db), id, at, actor, kind)
      ensures id in old(db).issues ==> StoreEffects.OneEntry(old(db), db, id, at, actor, kind)
      ensures forall r ::
                r in old(engine.State()).HistoryOf(EventT) || r in old(engine.State()).HistoryOf(OutboxT) ==>
                  r.key != [audit]
    {
      LogSteps(db, id, at, actor, kind);
      if id in db.issues {
        StoreEffects.LogLaw(db, id, at, actor, kind);
      }
      audit := audit + 1;
      EventWritten(db, audit, Event(id, at, actor, kind));
      Write(EventT, [audit], EventV(Event(id, at, actor, kind)), false,
            db.(audit := audit, events := db.events[audit := Event(id, at, actor, kind)]));
      var row := LoadIssue(id);
      if row.Some? {
        var twin := Outbox(audit, id, row.value.project, at, kind, at, None, 0, None);
        OutboxWritten(db, audit, twin);
        Write(OutboxT, [audit], OutboxV(twin), false, db.(outbox := db.outbox[audit := twin]));
      }
    }

    method SaveThenLog(i: Issue, at: int, actor: Actor, kind: EventKind)
      requires Coupled() && Between(Save(db, i))
      modifies this, engine
      ensures Coupled() && db == SaveAndLog(old(db), i, at, actor, kind)
    {
      SaveIssue(i);
      LogEvent(i.id, at, actor, kind);
    }

    // ----- Issue lifecycle -----

    method Create(spec: NewIssue, minted: int, at: int) returns (r: Result<int, Error>)
      requires Valid() && minted !in db.issues
      modifies this, engine
      ensures Valid()
      ensures var spec' := StoreSpec.Create(old(db), cfg, spec, minted, at);
              match r
              case Ok(id) => spec'.Ok? && db == spec'.value && id == spec.id.GetOr(minted)
              case Err(e) => spec' == Err(e) && db == old(db)
    {
      CreateKeeps(db, cfg, spec, minted, at);
      if spec.project.None? {
        return Err(Bad);
      }
      var project := spec.project.value;
      var known := Read(ProjectT, [project]);
      if known.None? {
        return Err(NoProject(project));
      }
      if spec.parent.Some? {
        var parent := LoadIssue(spec.parent.value);
        if parent.None? {
          return Err(NotFound(spec.parent.value));
        }
        if parent.value.project != project {
          return Err(Bad);
        }
      }
      if spec.id.Some? {
        var taken := LoadIssue(spec.id.value);
        if taken.Some? {
          return Err(Bad);
        }
      }
      var id := spec.id.GetOr(minted);
      CreateStep(db, cfg, spec, minted, at);
      SaveThenLog(FreshRow(spec, id, project, cfg, at), at, spec.createdBy, Created);
      return Ok(id);
    }

    method Update(id: int, patch: Patch, actor: Actor, at: int) returns (r: Result<(), Error>)
      requires Valid()
      modifies this, engine
      ensures Valid()
      ensures var spec := StoreSpec.Update(old(db), cfg, id, patch, actor, at);
              match r
              case Ok(_) => spec.Ok? && db == spec.value
              case Err(e) => spec == Err(e) && db == old(db)
    {
      UpdateKeeps(db, cfg, id, patch, actor, at);
      var row := LoadIssue(id);
      if row.None? {
        return Err(NotFound(id));
      }
      assert RowOk(db.issues[id], id);
      var next := Patched(row.value, cfg, patch, at);
      SaveStep(db, next);
      SaveIssue(next);
      if next.status != row.value.status {
        LogEvent(id, at, actor, StatusChanged);
      }
      LogEvent(id, at, actor, Updated);
      return Ok(());
    }

    // ----- Dependencies -----

    /** The worklist search: true exactly when a chain of dependencies leads from `from` to `target`. */
    method Reachable(from: int, target: int) returns (r: bool)
      requires Coupled()
      ensures r <==> Graph.Reach(db.deps, from, target)
    {
      if from == target {
        Graph.ReachSelf(db.deps, from);
        return true;
      }
      var frontier := [from];
      var seen: set<int> := {};
      ghost var ends := {from} + (set e | e in db.deps :: e.1);
      Graph.ReachSelf(db.deps, from);
      while frontier != []
        invariant forall x :: x in frontier || x in seen ==> Graph.Reach(db.deps, from, x) && x in ends
        invariant from in frontier || from in seen
        invariant target !in frontier && target !in seen
        invariant forall x, y :: x in seen && (x, y) in db.deps ==> y in seen || y in frontier
        decreases ends - seen, |frontier|
      {
        var node := frontier[|frontier| - 1];
        ghost var before := frontier;
        assert node in before;
        frontier := frontier[..|frontier| - 1];
        assert before == frontier + [node];
        if node !in seen {
          var next, found := Successors(node, target);
          if found {
            Graph.ReachEdge(db.deps, node, target);
            Graph.ReachTrans(db.deps, from, node, target);
            return true;
          }
          forall y | y in next
            ensures Graph.Reach(db.deps, from, y) && y in ends
          {
            Graph.ReachEdge(db.deps, node, y);
            Graph.ReachTrans(db.deps, from, node, y);
            assert (node, y) in db.deps;
          }
          seen := seen + {node};
          frontier := frontier + next;
        }
      }
      assert Graph.Closed(db.deps, seen);
      if Graph.Reach(db.deps, from, target) {
        Graph.ClosedReach(db.deps, seen, from, target);
      }
      return false;
    }

    /** One pass over the dependency keys for the parents of `node`, stopping at `target`. */
    method Successors(node: int, target: int) returns (next: seq<int>, found: bool)
      requires Coupled()
      ensures found <==> (node, target) in db.deps
      ensures !found ==> target !in next && forall y :: y in next <==> (node, y) in db.deps
    {
      var keys := Keys(DependencyT);
      next := [];
      for i := 0 to |keys|
        invariant target !in next
        invariant forall j :: 0 <= j < i && |keys[j]| == 2 && keys[j][0] == node ==> keys[j][1] in next
        invariant forall y :: y in next ==> (node, y) in db.deps
      {
        assert keys[i] in keys;
        assert |keys[i]| == 2;
        if keys[i][0] == node {
          if keys[i][1] == target {
            return next, true;
          }
          next := next + [keys[i][1]];
        }
      }
      forall y | (node, y) in db.deps
        ensures y in next
      {
        assert RowAt(db, DependencyT, [node, y]).Some?;
        assert [node, y] in keys;
      }
      return next, false;
    }

    method AddDep(child: int, parent: int, actor: Actor, at: int) returns (r: Result<(), Error>)
      requires Valid()
      modifies this, engine
      ensures Valid()
      ensures var spec := StoreSpec.AddDep(old(db), child, parent, actor, at);
              match r
              case Ok(_) => spec.Ok? && db == spec.value
              case Err(e) => spec == Err(e) && db == old(db)
    {
      AddDepKeeps(db, child, parent, actor, at);
      if child == parent {
        return Err(Cycle);
      }
      var c := LoadIssue(child);
      if c.None? {
        return Err(NotFound(child));
      }
      var p := LoadIssue(parent);
      if p.None? {
        return Err(NotFound(parent));
      }
      var loops := Reachable(parent, child);
      if loops {
        return Err(Cycle);
      }
      var known := Read(DependencyT, [child, parent]);
      if known.None? {
        WriteEdge(child, parent);
        var row := LoadIssue(child);
        IdIsKey(db, child);
        SaveStep(db, row.value.(updatedAt := at));
        SaveThenLog(row.value.(updatedAt := at), at, actor, DependsOn);
      }
      return Ok(());
    }

    method WriteEdge(child: int, parent: int)
      requires Valid() && child in db.issues && parent in db.issues && !Graph.Reach(db.deps, parent, child)
      modifies this`db, engine
      ensures Valid() && db == old(db).(deps := old(db).deps + {(child, parent)})
    {
      EdgeWritten(db, child, parent);
      Graph.AddEdge(db.deps, child, parent);
      EdgesStep(db, db.deps + {(child, parent)});
      Write(DependencyT, [child, parent], DependencyV, false, db.(deps := db.deps + {(child, parent)}));
    }

    method RemoveDep(child: int, parent: int, actor: Actor, at: int)
      requires Valid()
      modifies this, engine
      ensures Valid()
      ensures db == StoreSpec.RemoveDep(old(db), child, parent, actor, at)
    {
      RemoveDepKeeps(db, child, parent, actor, at);
      var known := Read(DependencyT, [child, parent]);
      if known.Some? {
        EdgeRemoved(db, child, parent);
        Graph.AcyclicMono(db.deps - {(child, parent)}, db.deps);
        EdgesStep(db, db.deps - {(child, parent)});
        Write(DependencyT, [child, parent], Null, true, db.(deps := db.deps - {(child, parent)}));
        LogEvent(child, at, actor, UnblockedFrom);
      }
    }

    // ----- Claims -----

    method ComputeHumanTtl(at: int) returns (ttl: int)
      requires WorkTime.ValidWeek(cfg.week)
      ensures ttl == HumanTtl(cfg, at)
    {
      var deadline := WorkTime.ComputeDeadline(cfg.week, at, cfg.policy.humanHours * 60);
      ttl := deadline - at;
    }

    method ComputeClaimTtl(kind: ActorKind, ttlSeconds: Option<int>, at: int) returns (ttl: int)
      requires WorkTime.ValidWeek(cfg.week)
      ensures ttl == ClaimTtl(cfg, kind, ttlSeconds, at)
    {
      match kind {
        case Agent =>
          ttl := Min(ttlSeconds.GetOr(cfg.policy.agentTtl), cfg.policy.maxTtl);
        case Human =>
          ttl := ComputeHumanTtl(at);
          if ttlSeconds.Some? {
            var deadline := WorkTime.ComputeDeadline(cfg.week, at, Max(ttlSeconds.value / 60, 1));
            ttl := deadline - at;
          }
          ttl := Min(ttl, cfg.policy.maxTtl);
      }
    }

    /** `save_issue_cas` against the version just read: under the lock the swap always applies. */
    method SwapIssue(i: Issue, expected: Option<Records.Version>) returns (applied: bool)
      requires Coupled() && i.id in db.issues && Between(Save(db, i))
      requires expected.Some? && engine.Matches(IssueT, [i.id], expected)
      modifies this`db, engine
      ensures applied
      ensures Coupled() && db == Save(old(db), i)
    {
      ghost var line := Records.Line(IssueT, Records.Revision(engine.seqNo + 1, [i.id], IssueV(i), false));
      ghost var after := Records.Apply(engine.State(), line);
      IssueWritten(db, i);
      SpellsAppend(engine.State(), db, Save(db, i), IssueT, line.revision);
      var r := engine.CompareAndSwap(IssueT, [i.id], expected, IssueV(i), false);
      applied := r.Ok? && r.value.applied;
      assert engine.State() == after;
      db := Save(db, i);
    }

    method Claim(id: int, who: int, kind: ActorKind, ttlSeconds: Option<int>, at: int) returns (r: Result<int, Error>)
      requires Valid()
      modifies this, engine
      ensures Valid()
      ensures var spec := StoreSpec.Claim(old(db), cfg, id, who, kind, ttlSeconds, at);
              match r
              case Ok(expires) => spec.Ok? && db == spec.value && expires == at + ClaimTtl(cfg, kind, ttlSeconds, at)
              case Err(e) => spec == Err(e) && db == old(db)
    {
      var ttl := ComputeClaimTtl(kind, ttlSeconds, at);
      r := TakeClaim(id, who, kind, ttl, at);
    }

    method TakeClaim(id: int, who: int, kind: ActorKind, ttl: int, at: int) returns (r: Result<int, Error>)
      requires Valid()
      modifies this, engine
      ensures Valid()
      ensures var spec := ClaimFor(old(db), id, who, kind, ttl, at);
              match r
              case Ok(expires) => spec.Ok? && db == spec.value && expires == at + ttl
              case Err(e) => spec == Err(e) && db == old(db)
    {
      var row := LoadIssue(id);
      if row.None? {
        return Err(NotFound(id));
      }
      var current := row.value;
      VersionOf(id);
      var expected := engine.CurrentVersion(IssueT, [id]);
      if Held(current, at) && current.assignee != Some(who) {
        return Err(AlreadyClaimed(current.assignee.value));
      }
      assert RowOk(db.issues[id], id);
      ClaimKeeps(db, id, who, kind, ttl, at);
      SaveStep(db, WithClaim(current, who, kind, at + ttl, at));
      var applied := SwapIssue(WithClaim(current, who, kind, at + ttl, at), expected);
      LogEvent(id, at, Named(who), ClaimTaken);
      return Ok(at + ttl);
    }

    /** A live issue has been written, so its key has a version. */
    lemma VersionOf(id: int)
      requires Coupled() && id in db.issues
      ensures exists j :: 0 <= j < |engine.State().HistoryOf(IssueT)| && engine.State().HistoryOf(IssueT)[j].key == [id]
    {
      assert Matches(engine.Table(IssueT), db, IssueT);
      assert Records.RowOf(engine.Table(IssueT), [id]) == RowAt(db, IssueT, [id]);
      if forall j :: 0 <= j < |engine.State().HistoryOf(IssueT)| ==> engine.State().HistoryOf(IssueT)[j].key != [id] {
        Records.NeverWritten(engine.State().HistoryOf(IssueT), [id]);
      }
    }

    method ComputeTouchTtl(kind: Option<ActorKind>, at: int) returns (ttl: int)
      requires WorkTime.ValidWeek(cfg.week)
      ensures ttl == TouchTtl(cfg, kind, at)
    {
      ttl := cfg.policy.agentTtl;
      if kind == Some(Human) {
        ttl := ComputeHumanTtl(at);
      }
    }

    method Touch(id: int, who: int, at: int) returns (r: Result<int, Error>)
      requires Valid()
      modifies this, engine
      ensures Valid()
      ensures var spec := StoreSpec.Touch(old(db), cfg, id, who, at);
              match r
              case Ok(expires) => spec.Ok? && db == spec.value
                                  && expires == at + TouchTtl(cfg, old(db).issues[id].actorKind, at)
              case Err(e) => spec == Err(e) && db == old(db)
    {
      var row := LoadIssue(id);
      if row.None? {
        return Err(NotFound(id));
      }
      if row.value.assignee != Some(who) {
        return Err(Bad);
      }
      var ttl := ComputeTouchTtl(row.value.actorKind, at);
      assert RowOk(db.issues[id], id);
      TouchKeeps(db, id, who, ttl, at);
      SaveStep(db, row.value.(expiresAt := Some(at + ttl), updatedAt := at));
      SaveThenLog(row.value.(expiresAt := Some(at + ttl), updatedAt := at), at, Named(who), Heartbeat);
      return Ok(at + ttl);
    }

    method Release(id: int, actor: Actor, at: int) returns (r: Result<(), Error>)
      requires Valid()
      modifies this, engine
      ensures Valid()
      ensures var spec := StoreSpec.Release(old(db), id, actor, at);
              match r
              case Ok(_) => spec.Ok? && db == spec.value
              case Err(e) => spec == Err(e) && db == old(db)
    {
      var row := LoadIssue(id);
      if row.None? {
        return Err(NotFound(id));
      }
      assert RowOk(db.issues[id], id);
      ReleaseKeeps(db, id, actor, at, Released);
      SaveStep(db, WithoutClaim(row.value, at));
      SaveThenLog(WithoutClaim(row.value, at), at, actor, Released);
      return Ok(());
    }

    /** The snapshot a sweep works through: lapsed claims, in ascending order of id. */
    method LapsedIds(at: int) returns (ids: seq<int>)
      requires Valid()
      ensures ids == SweepList(db, at)
    {
      var keys := Keys(IssueT);
      var eligible: set<int> := {};
      for k := 0 to |keys|
        invariant forall id :: id in eligible <==> [id] in keys[..k] && id in LapsedSet(db, at)
      {
        assert keys[k] in keys;
        assert keys[..k + 1] == keys[..k] + [keys[k]];
        var id := keys[k][0];
        assert keys[k] == [id];
        var row := LoadIssue(id);
        if row.Some? && Lapsed(row.value, at) {
          eligible := eligible + {id};
        }
      }
      assert keys[..|keys|] == keys;
      forall id | id in LapsedSet(db, at)
        ensures id in eligible
      {
        assert RowAt(db, IssueT, [id]).Some?;
      }
      assert forall id :: id in eligible <==> id in LapsedSet(db, at);
      assert eligible == LapsedSet(db, at);
      ids := Ordered.Sorted(eligible);
    }

    method SweepIssue(id: int, at: int) returns (human: bool)
      requires Valid() && id in db.issues
      modifies this, engine
      ensures Coupled() && db == SweepOne(old(db), id, at)
      ensures human <==> old(db).issues[id].actorKind == Some(Human)
    {
      assert RowOk(db.issues[id], id);
      SoundIffWhole(db);
      var row := LoadIssue(id);
      human := row.value.actorKind == Some(Human);
      if human {
        LogEvent(id, at, Sweeper, Escalated);
      } else {
        SaveStep(db, WithoutClaim(row.value, at));
        SaveThenLog(WithoutClaim(row.value, at), at, Sweeper, ClaimExpired);
      }
    }

    /** Lapsed agent claims are cleared, lapsed human claims only reported, and no other issue is touched. */
    method Sweep(at: int) returns (requeued: seq<int>, escalated: seq<int>)
      requires Valid()
      modifies this, engine
      ensures Valid()
      ensures db == SweepAll(old(db), SweepList(old(db), at), at)
      ensures requeued == ByHolder(old(db), SweepList(old(db), at), false)
      ensures escalated == ByHolder(old(db), SweepList(old(db), at), true)
      ensures forall id :: id in requeued <==>
                           && id in old(db).issues && StoreEffects.HasLapsed(old(db).issues[id], at)
                           && old(db).issues[id].actorKind != Some(Human)
      ensures forall id :: id in escalated <==>
                           && id in old(db).issues && StoreEffects.HasLapsed(old(db).issues[id], at)
                           && old(db).issues[id].actorKind == Some(Human)
      ensures db.issues.Keys == old(db).issues.Keys
      ensures forall id :: id in old(db).issues ==> StoreEffects.SweptRow(old(db).issues[id], db.issues[id], at)
      ensures forall id :: id in requeued ==> StoreEffects.Reported(old(db), db, id, at, ClaimExpired)
      ensures forall id :: id in escalated ==> StoreEffects.Reported(old(db), db, id, at, Escalated)
    {
      var ids := LapsedIds(at);
      requeued, escalated := [], [];
      ghost var before := db;
      for k := 0 to |ids|
        invariant Coupled() && db == SweepAll(before, ids[..k], at)
        invariant requeued == ByHolder(before, ids[..k], false) && escalated == ByHolder(before, ids[..k], true)
      {
        var id := ids[k];
        SweepTurn(before, at, k);
        SweepKeeps(before, ids[..k], at);
        var human := SweepIssue(id, at);
        if human {
          escalated := escalated + [id];
        } else {
          requeued := requeued + [id];
        }
      }
      assert ids[..|ids|] == ids;
      SweepKeeps(before, ids, at);
      StoreEffects.SweepLaw(before, at);
    }

    // ----- Closing -----

    /** The first open dependency found, if any. */
    method CheckBlockers(id: int) returns (r: Option<int>)
      requires Coupled()
      ensures r.Some? ==> OpenBlocker(db, id, r.value)
      ensures r.None? ==> forall p :: !OpenBlocker(db, id, p)
    {
      var keys := Keys(DependencyT);
      for k := 0 to |keys|
        invariant forall p :: [id, p] in keys[..k] ==> !OpenBlocker(db, id, p)
      {
        assert keys[k] in keys;
        assert keys[..k + 1] == keys[..k] + [keys[k]];
        if keys[k][0] == id {
          var blocker := keys[k][1];
          var row := LoadIssue(blocker);
          if row.Some? && !IsTerminal(row.value.status) {
            return Some(blocker);
          }
        }
      }
      assert keys[..|keys|] == keys;
      forall p
        ensures !OpenBlocker(db, id, p)
      {
        if (id, p) in db.deps {
          assert RowAt(db, DependencyT, [id, p]).Some?;
          assert [id, p] in keys;
        }
      }
      return None;
    }

    method CloseUnchecked(id: int, evidence: seq<int>, actor: Actor, at: int) returns (r: Result<(), Error>)
      requires Valid()
      modifies this, engine
      ensures Valid()
      ensures var spec := StoreSpec.CloseUnchecked(old(db), id, evidence, actor, at);
              match r
              case Ok(_) => spec.Ok? && db == spec.value
              case Err(e) => spec == Err(e) && db == old(db)
    {
      CloseKeeps(db, id, evidence, actor, at);
      var row := LoadIssue(id);
      if row.None? {
        return Err(NotFound(id));
      }
      assert RowOk(db.issues[id], id);
      var merged := row.value.evidence;
      ghost var target := MergeEvidence(merged, evidence);
      for k := 0 to |evidence|
        invariant target == MergeEvidence(merged, evidence[k..])
      {
        assert evidence[k..][0] == evidence[k] && evidence[k..][1..] == evidence[k + 1..];
        if evidence[k] !in merged {
          merged := merged + [evidence[k]];
        }
      }
      SaveStep(db, WithoutClaim(row.value, at).(evidence := merged, status := Closed, closedAt := Some(at)));
      SaveThenLog(WithoutClaim(row.value, at).(evidence := merged, status := Closed, closedAt := Some(at)), at, actor,
                  Finished);
      return Ok(());
    }

    /** Done means delivered: refused without evidence, and while any dependency is open. */
    method Close(id: int, evidence: seq<int>, actor: Actor, at: int) returns (r: Result<(), Error>)
      requires Valid()
      modifies this, engine
      ensures Valid()
      ensures r.Ok? <==> MayClose(old(db), id, evidence)
      ensures r.Ok? ==> Ok(db) == StoreSpec.CloseUnchecked(old(db), id, evidence, actor, at)
      ensures r.Err? ==> db == old(db)
      ensures evidence == [] ==> r == Err(NoEvidence)
      ensures r.Err? && r.error.StillWaits? ==> OpenBlocker(old(db), id, r.error.blocker)
      ensures r.Err? && evidence != [] && id in old(db).issues ==> r.error.StillWaits?
    {
      if evidence == [] {
        return Err(NoEvidence);
      }
      var blocker := CheckBlockers(id);
      if blocker.Some? {
        return Err(StillWaits(blocker.value));
      }
      r := CloseUnchecked(id, evidence, actor, at);
    }

    method Relabel(id: int, changed: bool, actor: Actor, at: int) returns (r: Result<(), Error>)
      requires Valid()
      modifies this, engine
      ensures Valid()
      ensures var spec := StoreSpec.Relabel(old(db), id, changed, actor, at);
              match r
              case Ok(_) => spec.Ok? && db == spec.value
              case Err(e) => spec == Err(e) && db == old(db)
    {
      RelabelKeeps(db, id, changed, actor, at);
      var row := LoadIssue(id);
      if row.None? {
        return Err(NotFound(id));
      }
      if changed {
        IdIsKey(db, id);
        SaveStep(db, row.value);
        SaveThenLog(row.value, at, actor, Labelled);
      }
      return Ok(());
    }

    /** Needs a known replacement; neither evidence nor blockers are asked for. */
    method Supersede(
      id: int, replacement: int, ack: int, changed: bool, actor: Actor, at: int)
      returns (r: Result<(), Error>)
      requires Valid()
      modifies this, engine
      ensures Valid()
      ensures var spec := StoreSpec.Supersede(old(db), id, replacement, ack, changed, actor, at);
              match r
              case Ok(_) => spec.Ok? && db == spec.value
              case Err(e) => spec == Err(e) && db == old(db)
    {
      var known := LoadIssue(replacement);
      if known.None? {
        return Err(NotFound(replacement));
      }
      r := CloseUnchecked(id, [ack], actor, at);
      if r.Ok? {
        r := Relabel(id, changed, actor, at);
      }
    }

    method AddRemoteDep(child: int, actor: Actor, at: int) returns (r: Result<(), Error>)
      requires Valid()
      modifies this, engine
      ensures Valid()
      ensures var spec := StoreSpec.AddRemoteDep(old(db), child, actor, at);
              match r
              case Ok(_) => spec.Ok? && db == spec.value
              case Err(e) => spec == Err(e) && db == old(db)
    {
      RemoteDepKeeps(db, child, actor, at);
      var row := LoadIssue(child);
      if row.None? {
        return Err(NotFound(child));
      }
      IdIsKey(db, child);
      SaveStep(db, row.value.(updatedAt := at));
      SaveThenLog(row.value.(updatedAt := at), at, actor, DependsOnRemote);
      return Ok(());
    }

    // ----- Projects and folders -----

    method EnsureProject(slug: int)
      requires Valid()
      modifies this, engine
      ensures Valid() && db == StoreSpec.EnsureProject(old(db), slug)
    {
      ProjectKeeps(db, slug);
      SoundIffWhole(StoreSpec.EnsureProject(db, slug));
      Write(ProjectT, [slug], ProjectV, false, StoreSpec.EnsureProject(db, slug));
    }

    method ParentOf(slug: int) returns (p: Option<int>)
      requires Linked()
      ensures p == if slug in db.folders then db.folders[slug] else None
    {
      var row := Read(FolderT, [slug]);
      p := if row.Some? && row.value.FolderV? then row.value.parent else None;
    }

    /** The folders at or above `s`. */
    ghost function Above(s: int): set<int>
      reads this
    {
      set x | x in db.folders.Keys + {s} && Graph.Reach(FolderEdges(db.folders), s, x)
    }

    /** Walks the parent chain; acyclic folders make every step go strictly up. */
    method EnsureFolder(slug: int, parent: Option<int>) returns (r: Result<(), Error>)
      requires Valid()
      modifies this, engine
      ensures Valid()
      ensures var spec := StoreSpec.EnsureFolder(old(db), slug, parent);
              match r
              case Ok(_) => spec.Ok? && db == spec.value
              case Err(e) => spec == Err(e) && db == old(db)
    {
      FolderKeeps(db, slug, parent);
      if parent.Some? {
        if parent.value == slug {
          return Err(Bad);
        }
        var known := Read(FolderT, [parent.value]);
        if known.None? {
          return Err(NoFolder(parent.value));
        }
        var loops := IsAncestor(slug, parent.value);
        if loops {
          return Err(Bad);
        }
      }
      SoundIffWhole(db.(folders := db.folders[slug := parent]));
      Write(FolderT, [slug], FolderV(parent), false, db.(folders := db.folders[slug := parent]));
      return Ok(());
    }

    method IsAncestor(slug: int, start: int) returns (r: bool)
      requires Valid() && slug != start && start in db.folders
      ensures r <==> Graph.Reach(FolderEdges(db.folders), start, slug)
    {
      ghost var edges := FolderEdges(db.folders);
      var last := start;
      var node := ParentOf(start);
      Graph.ReachSelf(edges, start);
      while node.Some?
        invariant last in db.folders && last != slug
        invariant node == db.folders[last]
        invariant Graph.Reach(edges, start, last)
        invariant Graph.Reach(edges, start, slug) ==> Graph.Reach(edges, last, slug)
        decreases Above(last)
      {
        var n := node.value;
        Graph.ReachEdge(edges, last, n);
        Graph.ReachTrans(edges, start, last, n);
        if n == slug {
          return true;
        }
        if Graph.Reach(edges, start, slug) {
          var next := Graph.FirstHop(edges, last, slug);
        }
        Graph.NoReturn(edges, last, n);
        AboveShrinks(last, n);
        last := n;
        node := ParentOf(n);
      }
      if Graph.Reach(edges, start, slug) {
        var next := Graph.FirstHop(edges, last, slug);
      }
      return false;
    }

    lemma AboveShrinks(s: int, n: int)
      requires Graph.Acyclic(FolderEdges(db.folders)) && s in db.folders && db.folders[s] == Some(n) && n in db.folders
      ensures Above(n) < Above(s)
    {
      var edges := FolderEdges(db.folders);
      Graph.ReachEdge(edges, s, n);
      Graph.NoReturn(edges, s, n);
      Graph.ReachSelf(edges, s);
      forall x | x in Above(n)
        ensures x in Above(s)
      {
        Graph.ReachTrans(edges, s, n, x);
      }
      assert s in Above(s) && s !in Above(n);
    }

    method SetProjectFolder(project: int, folder: Option<int>) returns (r: Result<(), Error>)
      requires Valid()
      modifies this, engine
      ensures Valid()
      ensures var spec := StoreSpec.SetProjectFolder(old(db), project, folder);
              match r
              case Ok(_) => spec.Ok? && db == spec.value
              case Err(e) => spec == Err(e) && db == old(db)
    {
      FilingKeeps(db, project, folder);
      var known := Read(ProjectT, [project]);
      if known.None? {
        return Err(NoProject(project));
      }
      match folder {
        case Some(f) =>
          var target := Read(FolderT, [f]);
          if target.None? {
            return Err(NoFolder(f));
          }
          SoundIffWhole(db.(filed := db.filed[project := f]));
          Write(FilingT, [project], FilingV(f), false, db.(filed := db.filed[project := f]));
        case None =>
          SoundIffWhole(db.(filed := db.filed - {project}));
          Write(FilingT, [project], Null, true, db.(filed := db.filed - {project}));
      }
      return Ok(());
    }

    // ----- Outbox -----

    method LoadOutbox(n: int) returns (r: Option<Outbox>)
      requires Linked()
      ensures r == if n in db.outbox then Some(db.outbox[n]) else None
    {
      var row := Read(OutboxT, [n]);
      r := if row.Some? && row.value.OutboxV? then Some(row.value.row) else None;
    }

    method MarkDelivered(n: int, at: int)
      requires Valid()
      modifies this, engine
      ensures Valid() && db == StoreSpec.MarkDelivered(old(db), n, at)
    {
      MarksKeep(db, n, at, 0);
      SoundIffWhole(StoreSpec.MarkDelivered(db, n, at));
      var row := LoadOutbox(n);
      if row.None? || row.value.deliveredAt.Some? {
        return;
      }
      assert AuditRowOk(db, n);
      Write(OutboxT, [n],
            OutboxV(row.value.(deliveredAt := Some(at), attempts := row.value.attempts + 1, lastError := None)), false,
            StoreSpec.MarkDelivered(db, n, at));
    }

    method MarkFailed(n: int, nextAttemptAt: int, error: int)
      requires Valid()
      modifies this, engine
      ensures Valid() && db == StoreSpec.MarkFailed(old(db), n, nextAttemptAt, error)
    {
      MarksKeep(db, n, nextAttemptAt, error);
      SoundIffWhole(StoreSpec.MarkFailed(db, n, nextAttemptAt, error));
      var row := LoadOutbox(n);
      if row.None? || row.value.deliveredAt.Some? {
        return;
      }
      assert AuditRowOk(db, n);
      Write(OutboxT, [n],
            OutboxV(row.value.(attempts := row.value.attempts + 1, nextAttemptAt := nextAttemptAt,
                    lastError := Some(error))), false,
            StoreSpec.MarkFailed(db, n, nextAttemptAt, error));
    }

    method PendingNumbers(at: int) returns (pending: set<int>)
      requires Valid()
      ensures forall n :: n in pending <==> n in db.outbox && IsPending(db.outbox[n], at)
    {
      var keys := Keys(OutboxT);
      pending := {};
      for k := 0 to |keys|
        invariant forall n :: n in pending <==> [n] in keys[..k] && n in db.outbox && IsPending(db.outbox[n], at)
      {
        assert keys[k] in keys;
        assert keys[..k + 1] == keys[..k] + [keys[k]];
        var n := keys[k][0];
        assert keys[k] == [n];
        var row := LoadOutbox(n);
        if row.Some? && IsPending(row.value, at) {
          pending := pending + {n};
        }
      }
      assert keys[..|keys|] == keys;
      forall n | n in db.outbox
        ensures [n] in keys
      {
        assert RowAt(db, OutboxT, [n]).Some?;
      }
    }

    /** The due, undelivered rows in ascending order, cut to `limit`. */
    method PendingEvents(at: int, limit: nat) returns (due: seq<int>)
      requires Valid()
      ensures Ordered.Ascending(due) && |due| <= limit
      ensures forall n :: n in due ==>
                            n in db.outbox && db.outbox[n].deliveredAt == None && db.outbox[n].nextAttemptAt <= at
      ensures forall n :: n in db.outbox && db.outbox[n].deliveredAt == None && db.outbox[n].nextAttemptAt <= at ==>
                            n in due || (|due| == limit && forall m :: m in due ==> m < n)
    {
      var pending := PendingNumbers(at);
      var all := Ordered.Sorted(pending);
      due := if |all| <= limit then all else all[..limit];
      forall n | n in pending
        ensures n in due || (|due| == limit && forall m :: m in due ==> m < n)
      {
        var j :| 0 <= j < |all| && all[j] == n;
      }
    }

    // ----- Dropping a project -----

    /** The ids of a project's live issues. */
    method ProjectIssues(slug: int) returns (mine: set<int>)
      requires Coupled()
      ensures mine == IssuesOf(db, slug)
    {
      var keys := Keys(IssueT);
      mine := {};
      for k := 0 to |keys|
        invariant forall id :: id in mine <==> [id] in keys[..k] && id in db.issues && db.issues[id].project == slug
      {
        assert keys[k] in keys;
        assert keys[..k + 1] == keys[..k] + [keys[k]];
        var id := keys[k][0];
        assert keys[k] == [id];
        var row := LoadIssue(id);
        if row.Some? && row.value.project == slug {
          mine := mine + {id};
        }
      }
      assert keys[..|keys|] == keys;
      forall id | id in db.issues
        ensures [id] in keys
      {
        assert RowAt(db, IssueT, [id]).Some?;
      }
      assert forall id :: id in mine <==> id in IssuesOf(db, slug);
    }

    /** The numbers of the event or outbox rows about the issues in `mine`. */
    method NumbersAbout(t: Table, mine: set<int>) returns (numbers: set<int>)
      requires Coupled() && (t == EventT || t == OutboxT)
      ensures t == EventT ==> numbers == EventsAbout(db, mine)
      ensures t == OutboxT ==> numbers == OutboxAbout(db, mine)
    {
      var keys := Keys(t);
      numbers := {};
      for k := 0 to |keys|
        invariant forall n :: n in numbers <==> [n] in keys[..k] && About(RowAt(db, t, [n]), mine)
      {
        assert keys[k] in keys;
        assert keys[..k + 1] == keys[..k] + [keys[k]];
        var n := keys[k][0];
        assert keys[k] == [n];
        var row := Read(t, [n]);
        if About(row, mine) {
          numbers := numbers + {n};
        }
      }
      assert keys[..|keys|] == keys;
      assert forall n :: About(RowAt(db, t, [n]), mine) ==> [n] in keys;
    }

    method DropOutbox(numbers: set<int>, ghost start: Db, ghost slug: int)
      requires Coupled() && Inv(start) && numbers == OutboxAbout(start, IssuesOf(start, slug))
      requires db == After(start, LetterPhase({}))
      modifies this`db, engine
      ensures Coupled() && db == After(start, LetterPhase(numbers))
    {
      var list := Ordered.Sorted(numbers);
      for k := 0 to |list|
        invariant Coupled() && db == After(start, LetterPhase(Firsts(list, k)))
      {
        LetterTurn(start, slug, list, k);
        OutboxRemoved(db, list[k]);
        Write(OutboxT, [list[k]], Null, true, After(start, LetterPhase(Firsts(list, k + 1))));
      }
      assert Firsts(list, |list|) == numbers;
    }

    method DropEvents(numbers: set<int>, ghost start: Db, ghost slug: int)
      requires Coupled() && Inv(start) && numbers == EventsAbout(start, IssuesOf(start, slug))
      requires db == After(start, HistoryPhase(start, slug, {}))
      modifies this`db, engine
      ensures Coupled() && db == After(start, HistoryPhase(start, slug, numbers))
    {
      var list := Ordered.Sorted(numbers);
      for k := 0 to |list|
        invariant Coupled() && db == After(start, HistoryPhase(start, slug, Firsts(list, k)))
      {
        HistoryTurn(start, slug, list, k);
        EventRemoved(db, list[k]);
        Write(EventT, [list[k]], Null, true, After(start, HistoryPhase(start, slug, Firsts(list, k + 1))));
      }
      assert Firsts(list, |list|) == numbers;
    }

    method DropEdges(mine: set<int>, ghost start: Db, ghost slug: int)
      requires Coupled() && Inv(start) && mine == IssuesOf(start, slug)
      requires db == After(start, EdgePhase(start, slug, {}))
      modifies this`db, engine
      ensures Coupled() && db == After(start, EdgePhase(start, slug, EdgesAbout(start, mine)))
    {
      var keys := Keys(DependencyT);
      ghost var gone: Graph.Edges := {};
      for k := 0 to |keys|
        invariant Coupled() && db == After(start, EdgePhase(start, slug, gone))
        invariant forall e :: e in gone <==> e in EdgesAbout(start, mine) && [e.0, e.1] in keys[..k]
      {
        assert keys[k] in keys && keys[k] !in keys[..k];
        assert keys[..k + 1] == keys[..k] + [keys[k]];
        var c, p := keys[k][0], keys[k][1];
        assert keys[k] == [c, p];
        if c in mine || p in mine {
          EdgeTurn(start, slug, gone, (c, p));
          EdgeRemoved(db, c, p);
          gone := gone + {(c, p)};
          Write(DependencyT, [c, p], Null, true, After(start, EdgePhase(start, slug, gone)));
        }
      }
      assert keys[..|keys|] == keys;
      forall e | e in start.deps
        ensures [e.0, e.1] in keys
      {
        assert RowAt(old(db), DependencyT, [e.0, e.1]).Some?;
      }
      assert gone == EdgesAbout(start, mine);
    }

    method DropIssues(mine: set<int>, ghost start: Db, ghost slug: int)
      requires Coupled() && Inv(start) && mine == IssuesOf(start, slug)
      requires db == After(start, IssuePhase(start, slug, {}))
      modifies this`db, engine
      ensures Coupled() && db == After(start, IssuePhase(start, slug, mine))
    {
      var ids := Ordered.Sorted(mine);
      for k := 0 to |ids|
        invariant Coupled() && db == After(start, IssuePhase(start, slug, Firsts(ids, k)))
      {
        IssueTurn(start, slug, ids, k);
        IssueRemoved(db, ids[k]);
        Write(IssueT, [ids[k]], Null, true, After(start, IssuePhase(start, slug, Firsts(ids, k + 1))));
      }
      assert Firsts(ids, |ids|) == mine;
    }

    /** Reports how many issues went with the project. */
    method DropProject(slug: int) returns (r: Result<nat, Error>)
      requires Valid()
      modifies this, engine
      ensures Valid()
      ensures var spec := StoreSpec.DropProject(old(db), slug);
              match r
              case Ok(n) => spec.Ok? && db == spec.value && n == |IssuesOf(old(db), slug)|
              case Err(e) => spec == Err(e) && db == old(db)
    {
      DropKeeps(db, slug);
      var known := Read(ProjectT, [slug]);
      if known.None? {
        return Err(NoProject(slug));
      }
      var mine := ProjectIssues(slug);
      var letters := NumbersAbout(OutboxT, mine);
      ghost var start := db;
      DropOutbox(letters, start, slug);
      var happenings := NumbersAbout(EventT, mine);
      DropEvents(happenings, start, slug);
      DropEdges(mine, start, slug);
      DropIssues(mine, start, slug);
      DropEnds(start, slug);
      ProjectRemoved(db, slug);
      Write(ProjectT, [slug], Null, true, db.(projects := db.projects - {slug}));
      return Ok(|mine|);
    }

    // ----- Reading -----

    method Get(id: int) returns (r: Option<Issue>)
      requires Coupled()
      ensures r == if id in db.issues then Some(View(db, id)) else None
    {
      var row := LoadIssue(id);
      if row.None? {
        return None;
      }
      var parents := ParentsOf(id);
      r := Some(row.value.(dependencies := AsDeps(Ordered.Sorted(parents))));
    }

    method ParentsOf(id: int) returns (parents: set<int>)
      requires Coupled()
      ensures parents == Parents(db, id)
    {
      var keys := Keys(DependencyT);
      parents := {};
      for k := 0 to |keys|
        invariant forall p :: p in parents <==> [id, p] in keys[..k]
      {
        assert keys[k] in keys;
        assert keys[..k + 1] == keys[..k] + [keys[k]];
        assert keys[k] == [keys[k][0], keys[k][1]];
        if keys[k][0] == id {
          parents := parents + {keys[k][1]};
        }
      }
      assert keys[..|keys|] == keys;
      forall p
        ensures p in parents <==> (id, p) in db.deps
      {
        assert RowAt(db, DependencyT, [id, p]).Some? <==> (id, p) in db.deps;
      }
    }

    /** Reads the issues in `ids`, listed by priority, age and id. */
    method Listing(ids: set<int>) returns (list: seq<Issue>)
      requires Valid() && forall id :: id in ids ==> id in db.issues
      ensures IsListing(db, ids, list)
    {
      var order := Ordered.Sorted(ids);
      list := ReadAll(order);
      Sorting.SortOrders(ByAge(), list);
      Sorting.SortKeepsDistinct(ByAge(), list);
      list := Sorting.Sort(ByAge(), list);
    }

    method ReadAll(order: seq<int>) returns (list: seq<Issue>)
      requires Valid() && Ordered.Ascending(order) && forall id :: id in order ==> id in db.issues
      ensures ViewsOf(db, order, list)
    {
      list := [];
      for k := 0 to |order|
        invariant ViewsOf(db, order[..k], list)
      {
        assert order[k] in order;
        assert RowOk(db.issues[order[k]], order[k]);
        OneMoreView(db, order, k, list);
        var i := Get(order[k]);
        list := list + [i.value];
      }
      assert order[..|order|] == order;
    }

    /** `list`: all issues or the ones not closed, of one project or of all, or a single one. */
    method List(project: Option<int>, all: bool, onlyId: Option<int>) returns (list: seq<Issue>)
      requires Valid()
      ensures IsListing(db, WantedSet(db, project, all, onlyId), list)
    {
      var keys := Keys(IssueT);
      var ids: set<int> := {};
      for k := 0 to |keys|
        invariant forall id :: id in ids <==>
                               [id] in keys[..k] && id in db.issues && Wanted(db.issues[id], project, all, onlyId)
      {
        assert keys[k] in keys;
        assert keys[..k + 1] == keys[..k] + [keys[k]];
        var id := keys[k][0];
        assert keys[k] == [id];
        var row := LoadIssue(id);
        if row.Some? && Wanted(row.value, project, all, onlyId) {
          ids := ids + {id};
        }
      }
      assert keys[..|keys|] == keys;
      forall id | id in db.issues
        ensures [id] in keys
      {
        assert RowAt(db, IssueT, [id]).Some?;
      }
      assert forall id :: id in ids <==> id in WantedSet(db, project, all, onlyId);
      list := Listing(ids);
    }

    // ----- Readiness -----

    /** `ready`: what may be picked up now, best first. */
    method Ready(project: Option<int>, at: int) returns (ready: seq<Issue>)
      requires Valid()
      ensures IsListing(db, ReadySet(db, project, at), ready)
    {
      var ids := ReadyIds(project, at);
      assert forall id :: id in ids <==> id in ReadySet(db, project, at);
      ready := Listing(ids);
    }

    method ReadyIds(project: Option<int>, at: int) returns (ready: set<int>)
      requires Valid()
      ensures forall id :: id in ready <==>
                           IsReady(db, id, at) && (project.None? || db.issues[id].project == project.value)
    {
      var keys := Keys(IssueT);
      ready := {};
      for k := 0 to |keys|
        invariant forall id :: id in ready <==>
                               [id] in keys[..k] && IsReady(db, id, at) && (project.None? || db.issues[id].project == project.value)
      {
        assert keys[k] in keys;
        assert keys[..k + 1] == keys[..k] + [keys[k]];
        var id := keys[k][0];
        assert keys[k] == [id];
        var row := LoadIssue(id);
        var offered := IssueIsReady(row.value, id, at);
        if offered && (project.None? || row.value.project == project.value) {
          ready := ready + {id};
        }
      }
      assert keys[..|keys|] == keys;
      forall id | id in db.issues
        ensures [id] in keys
      {
        assert RowAt(db, IssueT, [id]).Some?;
      }
    }

    method IssueIsReady(i: Issue, id: int, at: int) returns (r: bool)
      requires Valid() && id in db.issues && db.issues[id] == i
      ensures r <==> IsReady(db, id, at)
    {
      if i.status != Status.Open || (i.availableAt.Some? && i.availableAt.value > at) || Held(i, at) {
        return false;
      }
      var keys := Keys(DependencyT);
      for k := 0 to |keys|
        invariant forall p :: [id, p] in keys[..k] ==> p in db.issues && IsTerminal(db.issues[p].status)
      {
        assert keys[k] in keys;
        assert keys[..k + 1] == keys[..k] + [keys[k]];
        if keys[k][0] == id {
          var parent := LoadIssue(keys[k][1]);
          if parent.None? || !IsTerminal(parent.value.status) {
            assert (id, keys[k][1]) in db.deps;
            return false;
          }
        }
      }
      assert keys[..|keys|] == keys;
      forall p | (id, p) in db.deps
        ensures [id, p] in keys
      {
        assert RowAt(db, DependencyT, [id, p]).Some?;
      }
      return true;
    }
  }

  lemma EmptySpells()
    ensures Spells(Records.EmptyLog(), EMPTY_DB) && Inv(EMPTY_DB)
  {
    var log := Records.EmptyLog<Table, Value>();
    forall t: Table | t != MetaT
      ensures Matches(Records.Rows(log.HistoryOf(t)), EMPTY_DB, t)
    {
    }
    EmptyStoreIsSound();
  }

  /** Seeding the store id and raising the audit counter to the engine's changes no row. */
  lemma SeedSpells(log: Records.Log<Table, Value>, before: Db)
    requires Spells(log, before)
    ensures Spells(
              Records.Apply(log, Records.Line(MetaT, Records.Revision(log.seqNo + 1, [0], MetaV, false))),
              before.(audit := log.seqNo))
  {
    SpellsAppend(log, before, before.(audit := log.seqNo), MetaT, Records.Revision(log.seqNo + 1, [0], MetaV, false));
  }

  /** An engine rebuilt from a trail, the store id seeded; `counter` is where it stood before that. */
  method Seeded(
    lines: seq<Records.Line<Table, Value>>, ghost before: Db)
    returns (e: Records.Engine<Table, Value>, counter: int)
    requires Records.Consistent(Records.Replay(lines)) && Spells(Records.Replay(lines), before)
    ensures fresh(e) && e.Valid() && e.durable && counter == Records.Replay(lines).seqNo && before.audit <= counter
    ensures Spells(e.State(), before.(audit := counter))
  {
    e := new Records.Engine<Table, Value>.Load(lines);
    counter := e.seqNo;
    ghost var after := Records.Apply(e.State(), Records.Line(MetaT, Records.Revision(counter + 1, [0], MetaV, false)));
    SeedSpells(e.State(), before);
    var _ := e.Append(MetaT, [0], MetaV, false);
    assert e.State() == after;
  }
}
