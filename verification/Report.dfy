/** The views of src/report.rs over the issue hierarchy, and its own readiness rule. */
module Report {
  import opened Wrappers
  import opened Domain
  import opened StoreSpec
  import opened StoreInvariant
  import opened PlanTopo
  import PlanStore
  import Graph
  import Ordered
  import Sorting

  // ----- Readiness -----

  predicate Blocks(d: Option<int>, statuses: map<int, Status>) {
    d.Some? && d.value in statuses && statuses[d.value] != Closed
  }

  predicate ReportReady(i: Issue, statuses: map<int, Status>, now: int) {
    && !i.isGoal
    && i.status == Open
    && !(i.availableAt.Some? && i.availableAt.value > now)
    && !(i.assignee.Some? && (i.expiresAt.None? || i.expiresAt.value > now))
    && forall d :: d in i.dependencies ==> !Blocks(d, statuses)
  }

  /** On sound states the report's rule accepts exactly the non-goal part of the store's `ready`. */
  lemma ReadyRulesAgree(db: Db, id: int, statuses: map<int, Status>, now: int)
    requires Inv(db) && id in db.issues && PlanStore.StatusesAre(db, statuses)
    ensures ReportReady(View(db, id), statuses, now) <==> IsReady(db, id, now) && !db.issues[id].isGoal
  {
    var i := View(db, id);
    assert RowOk(db.issues[id], id);
    DependenciesAgree(db, id, statuses);
  }

  lemma DependenciesAgree(db: Db, id: int, statuses: map<int, Status>)
    requires DepsOk(db) && id in db.issues && PlanStore.StatusesAre(db, statuses)
    ensures (forall d :: d in View(db, id).dependencies ==> !Blocks(d, statuses)) <==>
            (forall p :: (id, p) in db.deps ==> p in db.issues && IsTerminal(db.issues[p].status))
  {
    var deps := View(db, id).dependencies;
    if forall d :: d in deps ==> !Blocks(d, statuses) {
      forall p | (id, p) in db.deps
        ensures p in db.issues && IsTerminal(db.issues[p].status)
      {
        assert p in DepIds(deps);
        assert !Blocks(Some(p), statuses);
      }
    }
    if forall p :: (id, p) in db.deps ==> p in db.issues && IsTerminal(db.issues[p].status) {
      forall d | d in deps
        ensures !Blocks(d, statuses)
      {
        assert d.Some? ==> d.value in DepIds(deps);
      }
    }
  }

  /**
   Whatever the rows look like, the report never accepts more than the store, and rejects a non-goal the
   store would offer exactly when it carries a claim without an expiry.
   */
  lemma RulesPartExactly(db: Db, id: int, statuses: map<int, Status>, now: int)
    requires DepsOk(db) && id in db.issues && PlanStore.StatusesAre(db, statuses)
    ensures ReportReady(View(db, id), statuses, now) ==> IsReady(db, id, now)
    ensures var i := db.issues[id];
            IsReady(db, id, now) && !i.isGoal ==>
              (!ReportReady(View(db, id), statuses, now) <==> i.assignee.Some? && i.expiresAt.None?)
  {
    DependenciesAgree(db, id, statuses);
  }

  /** Such a state, which the store's invariant rules out: one open issue, assigned for no set time. */
  lemma RulesCanPart() returns (db: Db, statuses: map<int, Status>)
    ensures DepsOk(db) && PlanStore.StatusesAre(db, statuses) && 1 in db.issues && !db.issues[1].isGoal
    ensures IsReady(db, 1, 0) && !ReportReady(View(db, 1), statuses, 0) && !Inv(db)
  {
    var i := Issue(1, 0, Open, 2, false, None, Some(7), None, None, None, 0, 0, None, [],
                   Metadata(None, None, None, None, false), []);
    db := EMPTY_DB.(issues := map[1 := i], projects := {0});
    statuses := map[1 := Open];
    EmptyStoreIsSound();
    assert !RowOk(db.issues[1], 1);
    RulesPartExactly(db, 1, statuses, 0);
  }

  // ----- The hierarchy -----

  ghost predicate IsChild(issues: seq<Issue>, c: int, p: int) {
    exists i :: i in issues && i.id == c && i.parent == Some(p)
  }

  /** `(child, parent)` for every issue that names a parent, listed or not. */
  ghost function Up(issues: seq<Issue>): (e: Graph.Edges)
    ensures forall c, p :: (c, p) in e <==> IsChild(issues, c, p)
  {
    set i | i in issues && i.parent.Some? :: (i.id, i.parent.value)
  }

  /** `x` is `root` or sits somewhere under it. */
  ghost predicate Under(issues: seq<Issue>, x: int, root: int) {
    Graph.Reach(Up(issues), x, root)
  }

  /** `children[p]` lists the issues directly under `p`, each once. */
  ghost predicate Grouped(issues: seq<Issue>, n: nat, children: map<int, seq<Issue>>)
    requires n <= |issues|
  {
    && (forall p :: p in children ==> Sorting.Distinct(children[p]))
    && (forall p, i :: p in children && i in children[p] <==> i in issues[..n] && i.parent == Some(p))
  }

  function FiledIssue(children: map<int, seq<Issue>>, i: Issue): map<int, seq<Issue>> {
    if i.parent.None? then children
    else children[i.parent.value := (if i.parent.value in children then children[i.parent.value] else []) + [i]]
  }

  lemma GroupStep(issues: seq<Issue>, n: nat, children: map<int, seq<Issue>>)
    requires n < |issues| && UniqueIds(issues) && Grouped(issues, n, children)
    ensures Grouped(issues, n + 1, FiledIssue(children, issues[n]))
  {
    var i := issues[n];
    assert issues[..n + 1] == issues[..n] + [i];
    assert forall j :: 0 <= j < n ==> issues[j].id != i.id;
    assert i !in issues[..n];
  }

  method GroupByParent(issues: seq<Issue>) returns (children: map<int, seq<Issue>>)
    requires UniqueIds(issues)
    ensures Grouped(issues, |issues|, children)
  {
    children := map[];
    for k := 0 to |issues|
      invariant Grouped(issues, k, children)
    {
      GroupStep(issues, k, children);
      children := FiledIssue(children, issues[k]);
    }
  }

  lemma ChildIsUp(issues: seq<Issue>, children: map<int, seq<Issue>>, c: int, p: int)
    requires Grouped(issues, |issues|, children)
    ensures (c, p) in Up(issues) <==> p in children && exists i :: i in children[p] && i.id == c
  {
    assert issues[..|issues|] == issues;
    if (c, p) in Up(issues) {
      var i :| i in issues && i.id == c && i.parent == Some(p);
      assert i in children[p];
    }
  }

  // ----- descendant_ids -----

  predicate Lists(children: map<int, seq<int>>, p: int, x: int) {
    p in children && x in children[p]
  }

  /** `children[p]` lists the ids of the first `n` issues that name `p` as their parent. */
  ghost predicate IdsGrouped(issues: seq<Issue>, n: nat, children: map<int, seq<int>>)
    requires n <= |issues|
  {
    forall p, x :: Lists(children, p, x) <==> IsChild(issues[..n], x, p)
  }

  /** Files issue `i` under its parent, if it has one. */
  function FiledId(children: map<int, seq<int>>, i: Issue): map<int, seq<int>> {
    if i.parent.None? then children
    else children[i.parent.value := (if i.parent.value in children then children[i.parent.value] else []) + [i.id]]
  }

  lemma OneMoreChild(issues: seq<Issue>, n: nat, x: int, p: int)
    requires n < |issues|
    ensures IsChild(issues[..n + 1], x, p) <==>
            IsChild(issues[..n], x, p) || (issues[n].parent == Some(p) && issues[n].id == x)
  {
    var i := issues[n];
    assert issues[..n + 1] == issues[..n] + [i];
    assert i in issues[..n + 1];
    if w :| w in issues[..n] && w.id == x && w.parent == Some(p) {
      assert w in issues[..n + 1];
    }
    if w :| w in issues[..n + 1] && w.id == x && w.parent == Some(p) {
      assert w == i || w in issues[..n];
    }
  }

  lemma IdsGroupStep(issues: seq<Issue>, n: nat, children: map<int, seq<int>>)
    requires n < |issues| && IdsGrouped(issues, n, children)
    ensures IdsGrouped(issues, n + 1, FiledId(children, issues[n]))
  {
    var i, next := issues[n], FiledId(children, issues[n]);
    forall p, x
      ensures Lists(next, p, x) <==> IsChild(issues[..n + 1], x, p)
    {
      OneMoreChild(issues, n, x, p);
      assert Lists(next, p, x) <==> Lists(children, p, x) || (i.parent == Some(p) && i.id == x);
    }
  }

  /** Any listing will do, repeated ids included. */
  method ChildIds(issues: seq<Issue>) returns (children: map<int, seq<int>>)
    ensures forall p, x :: Lists(children, p, x) <==> IsChild(issues, x, p)
  {
    children := map[];
    for k := 0 to |issues|
      invariant IdsGrouped(issues, k, children)
    {
      IdsGroupStep(issues, k, children);
      children := FiledId(children, issues[k]);
    }
    assert issues[..|issues|] == issues;
  }

  lemma {:induction false} PathBack(e: Graph.Edges, s: set<int>, p: seq<int>, k: nat)
    requires Graph.IsPath(e, p) && k < |p| && p[|p| - 1] in s
    requires forall x, y :: y in s && (x, y) in e ==> x in s
    ensures p[k] in s
    decreases |p| - k
  {
    if k < |p| - 1 {
      PathBack(e, s, p, k + 1);
      assert Graph.Hop(e, p, k);
      var x, y := p[k], p[k + 1];
      assert (x, y) in e;
    }
  }

  /** The worklist finds exactly the root and everything under it, on any listing and any parent links at all. */
  method DescendantIds(issues: seq<Issue>, root: int) returns (seen: set<int>)
    ensures forall x :: x in seen <==> Under(issues, x, root)
  {
    var children := ChildIds(issues);
    ghost var e, all := Up(issues), {root} + (set i | i in issues :: i.id);
    seen := {};
    var stack := [root];
    Graph.ReachSelf(e, root);
    while stack != []
      invariant forall x :: x in seen || x in stack ==> Under(issues, x, root) && x in all
      invariant root in seen || root in stack
      invariant forall x, y :: y in seen && (x, y) in e ==> x in seen || x in stack
      decreases all - seen, |stack|
    {
      var id := stack[|stack| - 1];
      ghost var before := stack;
      stack := stack[..|stack| - 1];
      assert before == stack + [id];
      if id in seen {
        continue;
      }
      var kids := if id in children then children[id] else [];
      assert forall x :: x in kids <==> Lists(children, id, x);
      KidsAreUnder(issues, id, kids, root);
      seen := seen + {id};
      stack := stack + kids;
    }
    forall x | Under(issues, x, root)
      ensures x in seen
    {
      var p :| Graph.PathFromTo(e, p, x, root);
      PathBack(e, seen, p, 0);
    }
  }

  lemma KidsAreUnder(issues: seq<Issue>, id: int, kids: seq<int>, root: int)
    requires Under(issues, id, root) && forall x :: x in kids <==> IsChild(issues, x, id)
    ensures forall x :: x in kids <==> (x, id) in Up(issues)
    ensures forall x :: x in kids ==> Under(issues, x, root) && exists i :: i in issues && i.id == x
  {
    forall x | x in kids
      ensures Under(issues, x, root)
    {
      Graph.ReachEdge(Up(issues), x, id);
      Graph.ReachTrans(Up(issues), x, id, root);
    }
  }

  // ----- tree_lines -----

  /** A printed line, reduced to the issue it shows and its indentation. */
  datatype Line = Line(id: int, depth: nat)

  /** Siblings come by priority, then id. */
  function Siblings(): (Issue, Issue) -> bool {
    (a: Issue, b: Issue) => a.priority < b.priority || (a.priority == b.priority && a.id < b.id)
  }

  ghost predicate Shows(lines: seq<Line>, x: int) {
    exists k :: 0 <= k < |lines| && lines[k].id == x
  }

  /** Line `k` hangs under an earlier line, one level up, and everything in between is indented deeper. */
  ghost predicate HangsUnder(issues: seq<Issue>, lines: seq<Line>, k: nat, j: nat)
    requires j < k < |lines|
  {
    && (lines[k].id, lines[j].id) in Up(issues)
    && lines[k].depth == lines[j].depth + 1
    && forall m :: j < m < k ==> lines[m].depth > lines[j].depth
  }

  ghost predicate Hangs(issues: seq<Issue>, lines: seq<Line>, k: nat)
    requires k < |lines|
  {
    exists j: nat :: j < k && HangsUnder(issues, lines, k, j)
  }

  /** Of two issues under one parent, the one listed first is not the later sibling. */
  ghost predicate SiblingsInOrder(issues: seq<Issue>, lines: seq<Line>) {
    forall k, l, i, j ::
      && 0 <= k < l < |lines|
      && i in issues && j in issues && AreSiblings(i, j)
      && i.id == lines[k].id && j.id == lines[l].id ==>
        !Siblings()(j, i)
  }

  predicate AreSiblings(i: Issue, j: Issue) {
    i.parent.Some? && i.parent == j.parent
  }

  /** Each issue under `id` appears exactly once, below its parent, at its level, siblings in order. */
  ghost predicate IsTree(issues: seq<Issue>, id: int, depth: nat, lines: seq<Line>) {
    && lines != [] && lines[0] == Line(id, depth)
    && (forall x :: Shows(lines, x) <==> Under(issues, x, id))
    && (forall k, l :: 0 <= k < l < |lines| ==> lines[k].id != lines[l].id)
    && (forall k :: 0 < k < |lines| ==> lines[k].depth > depth)
    && (forall k: nat :: 0 < k < |lines| ==> Hangs(issues, lines, k))
    && SiblingsInOrder(issues, lines)
  }

  /** The first `n` of `kids` printed under `id`. */
  ghost predicate IsForest(issues: seq<Issue>, id: int, depth: nat, kids: seq<Issue>, n: nat, lines: seq<Line>)
    requires n <= |kids|
  {
    && lines != [] && lines[0] == Line(id, depth)
    && (forall x :: Shows(lines, x) <==> x == id || UnderOneOf(issues, kids, n, x))
    && (forall k, l :: 0 <= k < l < |lines| ==> lines[k].id != lines[l].id)
    && (forall k :: 0 < k < |lines| ==> lines[k].depth > depth)
    && (forall k: nat :: 0 < k < |lines| ==> Hangs(issues, lines, k))
    && SiblingsInOrder(issues, lines)
  }

  ghost predicate UnderOneOf(issues: seq<Issue>, kids: seq<Issue>, n: nat, x: int)
    requires n <= |kids|
  {
    exists j :: 0 <= j < n && Under(issues, x, kids[j].id)
  }

  /** Nothing sits under two different children of one issue, nor is an issue under its own child. */
  lemma SubtreesApart(issues: seq<Issue>, id: int, a: int, b: int, x: int)
    requires UniqueIds(issues) && Graph.Acyclic(Up(issues))
    requires (a, id) in Up(issues) && Under(issues, x, a)
    ensures x != id
    ensures a != b && (b, id) in Up(issues) ==> !Under(issues, x, b)
  {
    var e := Up(issues);
    Graph.NoReturn(e, a, id);
    if a != b && (b, id) in e && Under(issues, x, b) {
      UpIsFunctional(issues);
      var p :| Graph.PathFromTo(e, p, x, a);
      Graph.OneChain(e, p, a, b);
      if Graph.Reach(e, a, b) {
        OnlyThroughParent(issues, a, id, b);
      } else {
        OnlyThroughParent(issues, b, id, a);
      }
    }
  }

  lemma UpIsFunctional(issues: seq<Issue>)
    requires UniqueIds(issues)
    ensures Graph.Functional(Up(issues))
  {
  }

  /** Going up from `a` passes through its parent, so it never meets a sibling. */
  lemma OnlyThroughParent(issues: seq<Issue>, a: int, id: int, b: int)
    requires UniqueIds(issues) && Graph.Acyclic(Up(issues)) && a != b
    requires (a, id) in Up(issues) && (b, id) in Up(issues)
    ensures !Graph.Reach(Up(issues), a, b)
  {
    var e := Up(issues);
    if Graph.Reach(e, a, b) {
      var next := Graph.FirstHop(e, a, b);
      UpIsFunctional(issues);
      assert next == id;
      Graph.NoReturn(e, b, id);
    }
  }

  lemma ShowsAppend(a: seq<Line>, b: seq<Line>)
    ensures forall x :: Shows(a + b, x) <==> Shows(a, x) || Shows(b, x)
  {
    forall x
      ensures Shows(a + b, x) <==> Shows(a, x) || Shows(b, x)
    {
      if k :| 0 <= k < |a| && a[k].id == x {
        assert (a + b)[k] == a[k];
      }
      if k :| 0 <= k < |b| && b[k].id == x {
        assert (a + b)[|a| + k] == b[k];
      }
    }
  }

  lemma HangsKept(issues: seq<Issue>, a: seq<Line>, b: seq<Line>, k: nat)
    requires k < |a| && Hangs(issues, a, k)
    ensures Hangs(issues, a + b, k)
  {
    var j: nat :| j < k && HangsUnder(issues, a, k, j);
    assert HangsUnder(issues, a + b, k, j);
  }

  lemma HangsShifted(issues: seq<Issue>, a: seq<Line>, b: seq<Line>, k: nat)
    requires k < |b| && Hangs(issues, b, k)
    ensures Hangs(issues, a + b, |a| + k)
  {
    var j: nat :| j < k && HangsUnder(issues, b, k, j);
    assert HangsUnder(issues, a + b, |a| + k, |a| + j);
  }

  /** All children of `id`, each once, in sibling order. */
  ghost predicate AreKids(issues: seq<Issue>, id: int, kids: seq<Issue>) {
    && (forall j :: 0 <= j < |kids| ==> kids[j] in issues && (kids[j].id, id) in Up(issues))
    && (forall j, l :: 0 <= j < l < |kids| ==> kids[j].id != kids[l].id)
    && (forall x :: (x, id) in Up(issues) ==> exists j :: 0 <= j < |kids| && kids[j].id == x)
    && Sorting.InOrder(Siblings(), kids)
  }

  /** Appending the next child's lines. */
  lemma ForestStep(issues: seq<Issue>, id: int, depth: nat, kids: seq<Issue>, n: nat, lines: seq<Line>, more: seq<Line>)
    requires UniqueIds(issues) && Graph.Acyclic(Up(issues)) && n < |kids|
    requires AreKids(issues, id, kids)
    requires IsForest(issues, id, depth, kids, n, lines) && IsTree(issues, kids[n].id, depth + 1, more)
    ensures IsForest(issues, id, depth, kids, n + 1, lines + more)
  {
    var all := lines + more;
    ForestShows(issues, id, depth, kids, n, lines, more);
    ForestHangs(issues, id, depth, kids, n, lines, more);
    ForestSiblings(issues, id, depth, kids, n, lines, more);
    forall k, l | 0 <= k < l < |all|
      ensures all[k].id != all[l].id
    {
      if k < |lines| <= l {
        LinesApart(issues, id, depth, kids, n, lines, more, k, l - |lines|);
      }
    }
  }

  lemma ForestShows(
    issues: seq<Issue>, id: int, depth: nat, kids: seq<Issue>, n: nat, lines: seq<Line>, more: seq<Line>)
    requires n < |kids|
    requires IsForest(issues, id, depth, kids, n, lines) && IsTree(issues, kids[n].id, depth + 1, more)
    ensures forall x :: Shows(lines + more, x) <==> x == id || UnderOneOf(issues, kids, n + 1, x)
  {
    ShowsAppend(lines, more);
    forall x
      ensures Shows(lines + more, x) <==> x == id || UnderOneOf(issues, kids, n + 1, x)
    {
      assert UnderOneOf(issues, kids, n + 1, x) <==> UnderOneOf(issues, kids, n, x) || Under(issues, x, kids[n].id);
    }
  }

  lemma ForestHangs(
    issues: seq<Issue>, id: int, depth: nat, kids: seq<Issue>, n: nat, lines: seq<Line>, more: seq<Line>)
    requires n < |kids| && AreKids(issues, id, kids)
    requires IsForest(issues, id, depth, kids, n, lines) && IsTree(issues, kids[n].id, depth + 1, more)
    ensures forall k: nat :: 0 < k < |lines + more| ==> Hangs(issues, lines + more, k)
  {
    var all := lines + more;
    forall k: nat | 0 < k < |all|
      ensures Hangs(issues, all, k)
    {
      if k < |lines| {
        HangsKept(issues, lines, more, k);
      } else if k > |lines| {
        HangsShifted(issues, lines, more, k - |lines|);
      } else {
        assert HangsUnder(issues, all, k, 0);
      }
    }
  }

  lemma ForestSiblings(
    issues: seq<Issue>, id: int, depth: nat, kids: seq<Issue>, n: nat, lines: seq<Line>, more: seq<Line>)
    requires UniqueIds(issues) && Graph.Acyclic(Up(issues)) && n < |kids|
    requires AreKids(issues, id, kids)
    requires IsForest(issues, id, depth, kids, n, lines) && IsTree(issues, kids[n].id, depth + 1, more)
    ensures SiblingsInOrder(issues, lines + more)
  {
    var all := lines + more;
    forall k, l, i, j | 0 <= k < l < |all| && i in issues && j in issues && AreSiblings(i, j) && i.id == all[k].id
                        && j.id == all[l].id
      ensures !Siblings()(j, i)
    {
      if k < |lines| <= l {
        SiblingsAcross(issues, id, depth, kids, n, lines, more, k, l - |lines|, i, j);
      } else if l < |lines| {
        assert all[k] == lines[k] && all[l] == lines[l];
      } else {
        assert all[k] == more[k - |lines|] && all[l] == more[l - |lines|];
      }
    }
  }

  /** Siblings on either side of a seam are children of `id`, and those come in order. */
  lemma SiblingsAcross(
    issues: seq<Issue>, id: int, depth: nat, kids: seq<Issue>, n: nat, lines: seq<Line>, more: seq<Line>, k: nat,
    l: nat, i: Issue, j: Issue)
    requires UniqueIds(issues) && Graph.Acyclic(Up(issues)) && n < |kids| && k < |lines| && l < |more|
    requires AreKids(issues, id, kids)
    requires IsForest(issues, id, depth, kids, n, lines) && IsTree(issues, kids[n].id, depth + 1, more)
    requires i in issues && j in issues && AreSiblings(i, j) && i.id == lines[k].id && j.id == more[l].id
    ensures !Siblings()(j, i)
  {
    var e, kid, parent := Up(issues), kids[n], i.parent.value;
    assert (i.id, parent) in e && (j.id, parent) in e;
    assert Shows(lines, i.id) && Shows(more, j.id);
    UpIsFunctional(issues);
    if j.id == kid.id {
      assert parent == id;
      KidIsItself(issues, id, kids, n, i);
    } else {
      var next := Graph.FirstHop(e, j.id, kid.id);
      Graph.ReachEdge(e, i.id, parent);
      Graph.ReachTrans(e, i.id, parent, kid.id);
      assert Shows(more, i.id);
      var m :| 0 <= m < |more| && more[m].id == i.id;
      LinesApart(issues, id, depth, kids, n, lines, more, k, m);
    }
  }

  /** A child of `id` under one of the first `n` children is one of them, so it comes before child `n`. */
  lemma KidIsItself(issues: seq<Issue>, id: int, kids: seq<Issue>, n: nat, i: Issue)
    requires UniqueIds(issues) && Graph.Acyclic(Up(issues)) && AreKids(issues, id, kids) && n < |kids|
    requires i in issues && (i.id, id) in Up(issues) && (i.id == id || UnderOneOf(issues, kids, n, i.id))
    ensures !Siblings()(kids[n], i)
  {
    var e := Up(issues);
    Graph.ReachSelf(e, i.id);
    Graph.NoReturn(e, i.id, id);
    var j :| 0 <= j < n && Under(issues, i.id, kids[j].id);
    if i.id != kids[j].id {
      SubtreesApart(issues, id, i.id, kids[j].id, i.id);
    }
    assert i == kids[j];
  }

  lemma LinesApart(
    issues: seq<Issue>, id: int, depth: nat, kids: seq<Issue>, n: nat, lines: seq<Line>, more: seq<Line>, k: nat,
    l: nat)
    requires UniqueIds(issues) && Graph.Acyclic(Up(issues)) && n < |kids| && k < |lines| && l < |more|
    requires AreKids(issues, id, kids)
    requires IsForest(issues, id, depth, kids, n, lines) && IsTree(issues, kids[n].id, depth + 1, more)
    ensures lines[k].id != more[l].id
  {
    var x := more[l].id;
    assert Shows(more, x) && Shows(lines, lines[k].id);
    SubtreesApart(issues, id, kids[n].id, kids[n].id, x);
    if UnderOneOf(issues, kids, n, x) {
      var j :| 0 <= j < n && Under(issues, x, kids[j].id);
      SubtreesApart(issues, id, kids[n].id, kids[j].id, x);
    }
  }

  /** The issues under `id`: what the recursion has left to print. */
  ghost function Scope(issues: seq<Issue>, id: int): set<int> {
    set x | x in {id} + (set i | i in issues :: i.id) && Under(issues, x, id)
  }

  lemma ScopeShrinks(issues: seq<Issue>, kid: int, id: int)
    requires Graph.Acyclic(Up(issues)) && (kid, id) in Up(issues)
    ensures Scope(issues, kid) < Scope(issues, id)
  {
    var e := Up(issues);
    Graph.ReachEdge(e, kid, id);
    Graph.NoReturn(e, kid, id);
    Graph.ReachSelf(e, id);
    forall x | x in Scope(issues, kid)
      ensures x in Scope(issues, id)
    {
      Graph.ReachTrans(e, x, kid, id);
    }
    assert id in Scope(issues, id) && id !in Scope(issues, kid);
  }

  /** The children lists of a printing, each sorted. */
  ghost predicate Arranged(issues: seq<Issue>, children: map<int, seq<Issue>>) {
    && Grouped(issues, |issues|, children)
    && forall p :: p in children ==> Sorting.InOrder(Siblings(), children[p])
  }

  method SortSiblings(issues: seq<Issue>, children: map<int, seq<Issue>>) returns (sorted: map<int, seq<Issue>>)
    requires Grouped(issues, |issues|, children)
    ensures Arranged(issues, sorted)
  {
    var parents := Ordered.Sorted(children.Keys);
    sorted := children;
    for k := 0 to |parents|
      invariant Grouped(issues, |issues|, sorted) && sorted.Keys == children.Keys
      invariant forall j :: 0 <= j < k ==> parents[j] in sorted && Sorting.InOrder(Siblings(), sorted[parents[j]])
    {
      var p := parents[k];
      assert p in parents;
      SortOne(issues, sorted, p);
      sorted := sorted[p := Sorting.Sort(Siblings(), sorted[p])];
    }
    forall p | p in sorted
      ensures Sorting.InOrder(Siblings(), sorted[p])
    {
      assert p in parents;
    }
  }

  lemma SortOne(issues: seq<Issue>, children: map<int, seq<Issue>>, p: int)
    requires Grouped(issues, |issues|, children) && p in children
    ensures Grouped(issues, |issues|, children[p := Sorting.Sort(Siblings(), children[p])])
    ensures Sorting.InOrder(Siblings(), Sorting.Sort(Siblings(), children[p]))
  {
    Sorting.SortOrders(Siblings(), children[p]);
    Sorting.SortKeepsDistinct(Siblings(), children[p]);
  }

  lemma KidsOf(issues: seq<Issue>, children: map<int, seq<Issue>>, id: int)
    requires UniqueIds(issues) && Arranged(issues, children)
    ensures AreKids(issues, id, if id in children then children[id] else [])
  {
    var kids := if id in children then children[id] else [];
    assert issues[..|issues|] == issues;
    forall j | 0 <= j < |kids|
      ensures kids[j] in issues && (kids[j].id, id) in Up(issues)
    {
      assert kids[j] in children[id];
    }
    forall j, l | 0 <= j < l < |kids|
      ensures kids[j].id != kids[l].id
    {
      assert kids[j] in issues && kids[l] in issues;
    }
    forall x | (x, id) in Up(issues)
      ensures exists j :: 0 <= j < |kids| && kids[j].id == x
    {
      ChildIsUp(issues, children, x, id);
    }
  }

  /** Everything under `id` but `id` itself is under one of its children. */
  lemma WholeForest(issues: seq<Issue>, id: int, depth: nat, kids: seq<Issue>, lines: seq<Line>)
    requires IsForest(issues, id, depth, kids, |kids|, lines)
    requires AreKids(issues, id, kids)
    ensures IsTree(issues, id, depth, lines)
  {
    var e := Up(issues);
    forall x
      ensures Under(issues, x, id) <==> x == id || UnderOneOf(issues, kids, |kids|, x)
    {
      Graph.ReachSelf(e, id);
      if j :| 0 <= j < |kids| && Under(issues, x, kids[j].id) {
        Graph.ReachEdge(e, kids[j].id, id);
        Graph.ReachTrans(e, x, kids[j].id, id);
      }
      if Under(issues, x, id) && x != id {
        var last := Graph.LastHop(e, x, id);
        var j :| 0 <= j < |kids| && kids[j].id == last;
      }
    }
  }

  /** Depth first: the issue, then each child's lines in order. */
  method Walk(issue: Issue, depth: nat, children: map<int, seq<Issue>>, out: seq<Line>, ghost issues: seq<Issue>)
    returns (out': seq<Line>, ghost lines: seq<Line>)
    requires UniqueIds(issues) && Graph.Acyclic(Up(issues)) && Arranged(issues, children)
    ensures out' == out + lines && IsTree(issues, issue.id, depth, lines)
    ensures IsTree(issues, issue.id, depth, out'[|out|..])
    decreases Scope(issues, issue.id)
  {
    out', lines := out + [Line(issue.id, depth)], [Line(issue.id, depth)];
    var kids := if issue.id in children then children[issue.id] else [];
    KidsOf(issues, children, issue.id);
    ForestStart(issues, issue.id, depth, kids);
    for n := 0 to |kids|
      invariant out' == out + lines && IsForest(issues, issue.id, depth, kids, n, lines)
    {
      ScopeShrinks(issues, kids[n].id, issue.id);
      ghost var more;
      out', more := Walk(kids[n], depth + 1, children, out', issues);
      ForestStep(issues, issue.id, depth, kids, n, lines, more);
      Regroup(out, lines, more);
      lines := lines + more;
    }
    WholeForest(issues, issue.id, depth, kids, lines);
    assert out'[|out|..] == lines;
  }

  lemma Regroup(a: seq<Line>, b: seq<Line>, c: seq<Line>)
    ensures a + b + c == a + (b + c)
  {
  }

  lemma ForestStart(issues: seq<Issue>, id: int, depth: nat, kids: seq<Issue>)
    ensures IsForest(issues, id, depth, kids, 0, [Line(id, depth)])
  {
    assert [Line(id, depth)][0].id == id;
  }

  /** The printed tree of a known root; nothing for an unknown one. */
  method TreeLines(issues: seq<Issue>, root: int) returns (lines: seq<Line>)
    requires UniqueIds(issues) && Graph.Acyclic(Up(issues))
    ensures (exists i :: i in issues && i.id == root) ==> IsTree(issues, root, 0, lines)
    ensures (forall i :: i in issues ==> i.id != root) ==> lines == []
    ensures MostUrgentFirst(issues, lines)
  {
    var grouped := GroupByParent(issues);
    var children := SortSiblings(issues, grouped);
    for k := 0 to |issues|
      invariant forall j :: 0 <= j < k ==> issues[j].id != root
    {
      if issues[k].id == root {
        ghost var all;
        lines, all := Walk(issues[k], 0, children, [], issues);
        assert lines == all;
        SiblingsByUrgency(issues, lines);
        return;
      }
    }
    return [];
  }

  /**
   Of two issues under one parent the more urgent is printed first, and of two as urgent the one with the smaller id.
   */
  ghost predicate MostUrgentFirst(issues: seq<Issue>, lines: seq<Line>) {
    forall k, l, i, j ::
      && 0 <= k < l < |lines|
      && i in issues && j in issues && AreSiblings(i, j)
      && i.id == lines[k].id && j.id == lines[l].id ==>
        i.priority < j.priority || (i.priority == j.priority && i.id <= j.id)
  }

  lemma SiblingsByUrgency(issues: seq<Issue>, lines: seq<Line>)
    requires SiblingsInOrder(issues, lines)
    ensures MostUrgentFirst(issues, lines)
  {
    forall k, l, i, j | 0 <= k < l < |lines| && i in issues && j in issues && AreSiblings(i, j)
                        && i.id == lines[k].id && j.id == lines[l].id
      ensures i.priority < j.priority || (i.priority == j.priority && i.id <= j.id)
    {
      assert !Siblings()(j, i);
    }
  }

  // ----- On the store's own listings -----

  /** A listing of a sound store is a forest, so the printing ends. */
  lemma ListingIsForest(db: Db, ids: set<int>, list: seq<Issue>)
    requires Inv(db) && IsListing(db, ids, list)
    ensures UniqueIds(list) && Graph.Acyclic(Up(list))
  {
    PlanStore.ListingIsUnique(db, ids, list);
    forall c, p | (c, p) in Up(list)
      ensures (c, p) in ParentEdges(db.issues)
    {
      var i :| i in list && i.id == c && i.parent == Some(p);
      assert i == View(db, c);
    }
    Graph.AcyclicMono(Up(list), ParentEdges(db.issues));
  }

  /** On a full listing, everything above an issue is live and in its project. */
  lemma TreesAreProjectLocal(db: Db, list: seq<Issue>, x: int, root: int)
    requires Inv(db) && IsListing(db, WantedSet(db, None, true, None), list)
    requires x in db.issues && Under(list, x, root)
    ensures root in db.issues && db.issues[root].project == db.issues[x].project
  {
    var peers := set y | y in db.issues && db.issues[y].project == db.issues[x].project;
    forall c, p | c in peers && (c, p) in Up(list)
      ensures p in peers
    {
      ParentIsLocal(db, list, c, p);
    }
    Graph.ClosedReach(Up(list), peers, x, root);
  }

  lemma ParentIsLocal(db: Db, list: seq<Issue>, c: int, q: int)
    requires Inv(db) && IsListing(db, WantedSet(db, None, true, None), list) && (c, q) in Up(list)
    ensures c in db.issues && q in db.issues && db.issues[q].project == db.issues[c].project
  {
    var i :| i in list && i.id == c && i.parent == Some(q);
    assert i == View(db, c);
    assert ParentOk(db.issues, db.issues[c]);
  }

  /** The printing shows exactly the issues `DescendantIds` finds, each once. */
  lemma TreeMatchesDescendants(issues: seq<Issue>, root: int, lines: seq<Line>, seen: set<int>)
    requires IsTree(issues, root, 0, lines) && forall x :: x in seen <==> Under(issues, x, root)
    ensures forall x :: x in seen <==> Shows(lines, x)
    ensures |lines| == |seen|
  {
    LinesCount(lines, seen);
  }

  lemma {:induction false} LinesCount(lines: seq<Line>, seen: set<int>)
    requires forall k, l :: 0 <= k < l < |lines| ==> lines[k].id != lines[l].id
    requires forall x :: x in seen <==> Shows(lines, x)
    ensures |lines| == |seen|
  {
    if lines == [] {
      Ordered.EmptyOrNot(seen);
    } else {
      var x := lines[0].id;
      assert Shows(lines, x);
      ShowsAppend([lines[0]], lines[1..]);
      assert lines == [lines[0]] + lines[1..];
      LinesCount(lines[1..], seen - {x});
    }
  }
}
