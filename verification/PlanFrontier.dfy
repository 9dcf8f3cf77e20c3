/** `ready` (src/plan.rs): the parallel frontier an executor may start, one node per conflict group. */
module PlanFrontier {
  import opened Wrappers
  import opened Domain
  import opened PlanTopo
  import opened Sorting
  import Graph

  /** A loaded plan; `statusOf` also covers issues outside it. */
  datatype Plan = Plan(nodes: seq<Issue>, statusOf: map<int, Status>)

  datatype Reason = NotOpen | Claimed | Grace | WaitsOnDeps | GroupBusy | GroupTaken

  datatype BlockedNode = BlockedNode(index: nat, reason: Reason)

  /** Nodes are named by their index in the plan. `busy` maps a conflict group to a node running in it. */
  datatype ReadyView = ReadyView(ready: seq<nat>, blocked: seq<BlockedNode>, busy: map<int, int>)

  function StatusIn(g: Plan, id: int): Status {
    if id in g.statusOf then g.statusOf[id] else Open
  }

  predicate DepsClosed(g: Plan, i: Issue) {
    forall d :: d in DepIds(i.dependencies) ==> StatusIn(g, d) == Closed
  }

  /** Why a node may not start yet, groups aside. */
  function Obstacle(g: Plan, i: Issue, now: int): Option<Reason> {
    if i.status != Open then Some(NotOpen)
    else if Held(i, now) then Some(Claimed)
    else if i.availableAt.Some? && i.availableAt.value > now then Some(Grace)
    else if !DepsClosed(g, i) then Some(WaitsOnDeps)
    else None
  }

  predicate Eligible(g: Plan, i: nat, now: int) {
    i < |g.nodes| && Obstacle(g, g.nodes[i], now) == None
  }

  /**
   Nothing but its group can keep the node back: open, on no running lease, past its gate, nothing it waits for open.
   */
  ghost predicate Startable(g: Plan, n: Issue, now: int) {
    && n.status == Open
    && !(n.assignee.Some? && n.expiresAt.Some? && now < n.expiresAt.value)
    && (n.availableAt.Some? ==> n.availableAt.value <= now)
    && !WaitsOn(g, n)
  }

  /** Some dependency is not known to be closed; one the store does not list counts as open. */
  ghost predicate WaitsOn(g: Plan, n: Issue) {
    exists d :: d in DepIds(n.dependencies) && (d in g.statusOf ==> g.statusOf[d] != Closed)
  }

  lemma EligibleIsStartable(g: Plan, i: nat, now: int)
    ensures Eligible(g, i, now) <==> i < |g.nodes| && Startable(g, g.nodes[i], now)
  {
    if i < |g.nodes| {
      var n := g.nodes[i];
      assert WaitsOn(g, n) <==> !DepsClosed(g, n);
    }
  }

  /** Some node of the group is in progress. */
  ghost predicate SomeRuns(g: Plan, group: int) {
    exists i :: 0 <= i < |g.nodes| && g.nodes[i].status == InProgress && g.nodes[i].metadata.group == Some(group)
  }

  lemma BusyIsSomeRuns(g: Plan, group: int)
    ensures BusyGroup(g, group) <==> SomeRuns(g, group)
  {
    if i :| 0 <= i < |g.nodes| && g.nodes[i].status == InProgress && g.nodes[i].metadata.group == Some(group) {
      assert Runs(g.nodes[i], group);
    }
  }

  /** Of the nodes of a free group that could start, this one comes first. */
  ghost predicate FirstOfGroup(g: Plan, i: nat, now: int)
    requires i < |g.nodes|
  {
    && Startable(g, g.nodes[i], now)
    && var group := g.nodes[i].metadata.group;
    && (group.Some? ==> !SomeRuns(g, group.value))
    && (group.Some? ==>
          forall j :: 0 <= j < |g.nodes| && j != i && g.nodes[j].metadata.group == group
                      && Startable(g, g.nodes[j], now) ==>
                        Sooner(g.nodes[i], g.nodes[j]))
  }

  lemma OfferedIsFirst(g: Plan, i: nat, now: int)
    ensures Offered(g, i, now) <==> i < |g.nodes| && FirstOfGroup(g, i, now)
  {
    forall j: nat
      ensures Eligible(g, j, now) <==> j < |g.nodes| && Startable(g, g.nodes[j], now)
    {
      EligibleIsStartable(g, j, now);
    }
    if i < |g.nodes| {
      forall j: nat | j < |g.nodes|
        ensures Before(g, i, j) <==> Sooner(g.nodes[i], g.nodes[j])
      {
        KeyOrdersBySooner(g.nodes[i], g.nodes[j]);
      }
      if GroupOf(g, i).Some? {
        BusyIsSomeRuns(g, GroupOf(g, i).value);
      }
    }
  }

  lemma EligibleMeans(g: Plan, i: nat, now: int)
    requires i < |g.nodes|
    ensures var n := g.nodes[i];
            Eligible(g, i, now) <==>
            n.status == Open && !Held(n, now) && !(n.availableAt.Some? && n.availableAt.value > now) && DepsClosed(g, n)
  {
  }

  predicate Runs(i: Issue, group: int) {
    i.status == InProgress && i.metadata.group == Some(group)
  }

  ghost predicate BusyGroup(g: Plan, group: int) {
    exists i :: 0 <= i < |g.nodes| && Runs(g.nodes[i], group)
  }

  function GroupOf(g: Plan, i: nat): Option<int> {
    if i < |g.nodes| then g.nodes[i].metadata.group else None
  }

  ghost predicate SameGroup(g: Plan, i: nat, j: nat) {
    GroupOf(g, i).Some? && GroupOf(g, i) == GroupOf(g, j)
  }

  predicate Before(g: Plan, i: nat, j: nat) {
    i < |g.nodes| && j < |g.nodes| && KeyLess(PlanKey(g.nodes[i]), PlanKey(g.nodes[j]))
  }

  /** Best of its group among the eligible nodes, in a group nothing is running in. */
  ghost predicate Offered(g: Plan, i: nat, now: int) {
    && Eligible(g, i, now)
    && (GroupOf(g, i).Some? ==> !BusyGroup(g, GroupOf(g, i).value))
    && forall j: nat :: j != i && Eligible(g, j, now) && SameGroup(g, i, j) ==> Before(g, i, j)
  }

  lemma OneOfGroup(g: Plan, now: int, i: nat, j: nat)
    requires i != j && SameGroup(g, i, j)
    ensures !(Offered(g, i, now) && Offered(g, j, now))
  {
    assert SameGroup(g, j, i);
  }

  ghost predicate IsFrontier(g: Plan, now: int, f: set<nat>) {
    forall i: nat :: i in f <==> Offered(g, i, now)
  }

  // ----- Key order -----

  function ByKey(g: Plan): (nat, nat) -> bool {
    (i: nat, j: nat) => Before(g, i, j)
  }

  ghost predicate InPlanRange(g: Plan, s: seq<nat>) {
    forall k :: 0 <= k < |s| ==> s[k] < |g.nodes|
  }

  ghost predicate InKeyOrder(g: Plan, s: seq<nat>) {
    InOrder(ByKey(g), s)
  }

  lemma SortByKey(g: Plan, s: seq<nat>)
    requires Distinct(s)
    ensures InKeyOrder(g, Sort(ByKey(g), s)) && Distinct(Sort(ByKey(g), s))
  {
    SortOrders(ByKey(g), s);
    SortKeepsDistinct(ByKey(g), s);
  }

  // ----- The frontier -----

  /** Node `i` is the last one running in the group. */
  ghost predicate LastRunning(g: Plan, k: nat, group: int, i: nat)
    requires k <= |g.nodes|
  {
    i < k && Runs(g.nodes[i], group) && forall j :: i < j < k ==> !Runs(g.nodes[j], group)
  }

  /** Groups with a running node, each mapped to the id of the last one. */
  method BusyGroups(g: Plan) returns (busy: map<int, int>)
    ensures forall group :: group in busy <==> BusyGroup(g, group)
    ensures forall group :: group in busy ==>
                              exists i: nat :: LastRunning(g, |g.nodes|, group, i) && g.nodes[i].id == busy[group]
  {
    busy := map[];
    for k := 0 to |g.nodes|
      invariant forall group :: group in busy <==> exists i :: 0 <= i < k && Runs(g.nodes[i], group)
      invariant forall group :: group in busy ==>
                                  exists i: nat :: LastRunning(g, k, group, i) && g.nodes[i].id == busy[group]
    {
      var i := g.nodes[k];
      if i.status == InProgress && i.metadata.group.Some? {
        assert Runs(i, i.metadata.group.value);
        busy := busy[i.metadata.group.value := i.id];
      }
    }
  }

  /** `blocked` lists the nodes of `order` that have an obstacle, with it. */
  ghost predicate Obstructed(g: Plan, order: seq<nat>, blocked: seq<BlockedNode>, now: int) {
    forall i: nat, r :: BlockedNode(i, r) in blocked <==>
                        i in order && i < |g.nodes| && Obstacle(g, g.nodes[i], now) == Some(r)
  }

  /** Node `x` comes before node `y` in the order. */
  ghost predicate Ahead(order: seq<nat>, x: nat, y: nat) {
    exists i, j :: 0 <= i < j < |order| && order[i] == x && order[j] == y
  }

  /** `blocked` lists its nodes as the order does. */
  ghost predicate FollowsOrder(order: seq<nat>, blocked: seq<BlockedNode>) {
    forall k, l :: 0 <= k < l < |blocked| ==> Ahead(order, blocked[k].index, blocked[l].index)
  }

  lemma OneMoreBlocked(order: seq<nat>, k: nat, blocked: seq<BlockedNode>, b: BlockedNode)
    requires k < |order| && FollowsOrder(order[..k], blocked) && b.index == order[k]
    requires forall c :: c in blocked ==> c.index in order[..k]
    ensures FollowsOrder(order[..k + 1], blocked) && FollowsOrder(order[..k + 1], blocked + [b])
  {
    var longer := order[..k + 1];
    assert longer == order[..k] + [order[k]];
    forall m, l | 0 <= m < l < |blocked|
      ensures Ahead(longer, blocked[m].index, blocked[l].index)
    {
      assert Ahead(order[..k], blocked[m].index, blocked[l].index);
      var i, j :| 0 <= i < j < k && order[..k][i] == blocked[m].index && order[..k][j] == blocked[l].index;
      assert longer[i] == blocked[m].index && longer[j] == blocked[l].index;
    }
    forall m | 0 <= m < |blocked|
      ensures Ahead(longer, blocked[m].index, b.index)
    {
      assert blocked[m] in blocked;
      var i :| 0 <= i < k && order[..k][i] == blocked[m].index;
      assert longer[i] == blocked[m].index && longer[k] == b.index;
    }
  }

  lemma BlockedAreListed(g: Plan, order: seq<nat>, blocked: seq<BlockedNode>, now: int)
    requires Obstructed(g, order, blocked, now)
    ensures forall c :: c in blocked ==> c.index in order
  {
    forall c | c in blocked
      ensures c.index in order
    {
      assert BlockedNode(c.index, c.reason) in blocked;
    }
  }

  /** Walks the plan in dependency order, setting aside what cannot start. */
  method Triage(g: Plan, order: seq<nat>, now: int) returns (eligible: seq<nat>, blocked: seq<BlockedNode>)
    requires InPlanRange(g, order) && Distinct(order)
    ensures Distinct(eligible) && InPlanRange(g, eligible)
    ensures forall i :: i in eligible <==> i in order && Eligible(g, i, now)
    ensures Obstructed(g, order, blocked, now) && FollowsOrder(order, blocked)
    ensures |eligible| + |blocked| == |order|
  {
    eligible, blocked := [], [];
    for k := 0 to |order|
      invariant Distinct(eligible) && InPlanRange(g, eligible) && forall i :: i in eligible <==>
                                                                              i in order[..k] && Eligible(g, i, now)
      invariant Obstructed(g, order[..k], blocked, now) && FollowsOrder(order[..k], blocked)
      invariant |eligible| + |blocked| == k
    {
      var i := order[k];
      assert i !in order[..k];
      assert order[..k + 1] == order[..k] + [i];
      var obstacle := Obstacle(g, g.nodes[i], now);
      BlockedAreListed(g, order[..k], blocked, now);
      OneMoreBlocked(order, k, blocked, BlockedNode(i, obstacle.GetOr(NotOpen)));
      if obstacle.Some? {
        blocked := blocked + [BlockedNode(i, obstacle.value)];
      } else {
        eligible := eligible + [i];
      }
    }
    assert order[..|order|] == order;
  }

  /** Why the candidate at position `j` has to wait for its group, if it does. */
  ghost function GroupObstacle(g: Plan, s: seq<nat>, j: nat): Option<Reason>
    requires j < |s|
  {
    var group := GroupOf(g, s[j]);
    if group.None? then None
    else if BusyGroup(g, group.value) then Some(GroupBusy)
    else if exists l :: 0 <= l < j && SameGroup(g, s[j], s[l]) then Some(GroupTaken)
    else None
  }

  ghost predicate Seen(g: Plan, s: seq<nat>, k: nat, group: int)
    requires k <= |s|
  {
    exists l :: 0 <= l < k && GroupOf(g, s[l]) == Some(group)
  }

  /** `chosen` holds the free groups that a candidate before position `k` has taken. */
  ghost predicate ChosenAre(g: Plan, s: seq<nat>, k: nat, chosen: set<int>)
    requires k <= |s|
  {
    forall group :: group in chosen <==> !BusyGroup(g, group) && Seen(g, s, k, group)
  }

  method Consider(
    g: Plan, s: seq<nat>, k: nat, busy: map<int, int>, chosen: set<int>)
    returns (o: Option<Reason>, chosen': set<int>)
    requires k < |s| && ChosenAre(g, s, k, chosen)
    requires forall group :: group in busy <==> BusyGroup(g, group)
    ensures o == GroupObstacle(g, s, k) && ChosenAre(g, s, k + 1, chosen')
  {
    chosen' := chosen;
    var group := GroupOf(g, s[k]);
    forall x
      ensures Seen(g, s, k + 1, x) <==> Seen(g, s, k, x) || group == Some(x)
    {
    }
    if group.None? {
      return None, chosen';
    }
    if group.value in busy {
      return Some(GroupBusy), chosen';
    }
    assert Seen(g, s, k, group.value) <==> exists l :: 0 <= l < k && SameGroup(g, s[k], s[l]);
    if group.value in chosen {
      return Some(GroupTaken), chosen';
    }
    chosen' := chosen + {group.value};
    return None, chosen';
  }

  /** Position `j` was decided as its group says: listed as ready, or as waiting with that reason alone. */
  ghost predicate Decided(g: Plan, s: seq<nat>, j: nat, ready: seq<nat>, waiting: seq<BlockedNode>)
    requires j < |s|
  {
    var o := GroupObstacle(g, s, j);
    && (s[j] in ready <==> o == None)
    && forall r :: BlockedNode(s[j], r) in waiting <==> o == Some(r)
  }

  ghost predicate DecidedTo(g: Plan, s: seq<nat>, k: nat, ready: seq<nat>, waiting: seq<BlockedNode>)
    requires k <= |s|
  {
    && Distinct(ready) && InKeyOrder(g, ready)
    && (forall x :: x in ready ==> x in s[..k])
    && (forall b :: b in waiting ==> b.index in s[..k])
    && (forall j :: 0 <= j < k ==> Decided(g, s, j, ready, waiting))
    && |ready| + |waiting| == k
  }

  lemma DecideReady(g: Plan, s: seq<nat>, k: nat, ready: seq<nat>, waiting: seq<BlockedNode>)
    requires Distinct(s) && InKeyOrder(g, s) && k < |s|
    requires DecidedTo(g, s, k, ready, waiting) && GroupObstacle(g, s, k) == None
    ensures DecidedTo(g, s, k + 1, ready + [s[k]], waiting)
  {
    var next := ready + [s[k]];
    assert s[k] !in s[..k] && s[..k + 1] == s[..k] + [s[k]];
    forall i | 0 <= i < |ready|
      ensures !Before(g, s[k], ready[i]) && ready[i] != s[k]
    {
      assert ready[i] in ready;
      assert !ByKey(g)(s[k], ready[i]);
    }
    forall j | 0 <= j < k + 1
      ensures Decided(g, s, j, next, waiting)
    {
      if j < k {
        assert Decided(g, s, j, ready, waiting);
      } else {
        assert forall r :: BlockedNode(s[k], r).index !in s[..k];
      }
    }
  }

  lemma DecideWaiting(g: Plan, s: seq<nat>, k: nat, ready: seq<nat>, waiting: seq<BlockedNode>, reason: Reason)
    requires Distinct(s) && k < |s|
    requires DecidedTo(g, s, k, ready, waiting) && GroupObstacle(g, s, k) == Some(reason)
    ensures DecidedTo(g, s, k + 1, ready, waiting + [BlockedNode(s[k], reason)])
  {
    var next := waiting + [BlockedNode(s[k], reason)];
    assert s[k] !in s[..k] && s[..k + 1] == s[..k] + [s[k]];
    forall j | 0 <= j < k + 1
      ensures Decided(g, s, j, ready, next)
    {
      if j < k {
        assert Decided(g, s, j, ready, waiting);
        assert s[j] != s[k];
      } else {
        assert forall r :: BlockedNode(s[k], r).index !in s[..k];
      }
    }
  }

  /** At most one candidate per group, in key order; the others wait for the group. */
  method Choose(g: Plan, s: seq<nat>, busy: map<int, int>) returns (ready: seq<nat>, waiting: seq<BlockedNode>)
    requires Distinct(s) && InKeyOrder(g, s)
    requires forall group :: group in busy <==> BusyGroup(g, group)
    ensures DecidedTo(g, s, |s|, ready, waiting)
  {
    var chosen: set<int> := {};
    ready, waiting := [], [];
    for k := 0 to |s|
      invariant ChosenAre(g, s, k, chosen)
      invariant DecidedTo(g, s, k, ready, waiting)
    {
      var o;
      o, chosen := Consider(g, s, k, busy, chosen);
      match o {
        case Some(reason) =>
          DecideWaiting(g, s, k, ready, waiting, reason);
          waiting := waiting + [BlockedNode(s[k], reason)];
        case None =>
          DecideReady(g, s, k, ready, waiting);
          ready := ready + [s[k]];
      }
    }
  }

  /** With distinct ids the key order is strict, so the first of a group is the best of it. */
  lemma FirstIsBest(g: Plan, s: seq<nat>, j: nat, now: int)
    requires UniqueIds(g.nodes) && InKeyOrder(g, s) && Distinct(s)
    requires InPlanRange(g, s) && forall i :: i in s <==> Eligible(g, i, now)
    requires j < |s|
    ensures GroupObstacle(g, s, j) == None <==> Offered(g, s[j], now)
  {
    assert s[j] in s;
    if GroupObstacle(g, s, j) == None {
      forall i: nat | i != s[j] && Eligible(g, i, now) && SameGroup(g, s[j], i)
        ensures Before(g, s[j], i)
      {
        var l :| 0 <= l < |s| && s[l] == i;
        assert l > j;
        assert g.nodes[s[j]].id != g.nodes[i].id;
      }
    } else if l :| 0 <= l < j && SameGroup(g, s[j], s[l]) {
      assert s[l] in s && s[l] != s[j];
      assert !Before(g, s[j], s[l]);
    }
  }

  /** What triage and choice promise, in the terms of the view they make up. */
  lemma ViewIsRight(
    g: Plan, now: int, order: seq<nat>, eligible: seq<nat>, blocked: seq<BlockedNode>, sorted: seq<nat>,
    ready: seq<nat>, waiting: seq<BlockedNode>)
    requires forall i: nat :: i < |g.nodes| <==> i in order
    requires forall i :: i in eligible <==> i in order && Eligible(g, i, now)
    requires InPlanRange(g, order)
    requires Obstructed(g, order, blocked, now)
    requires forall i :: i in sorted <==> i in eligible
    requires DecidedTo(g, sorted, |sorted|, ready, waiting)
    ensures forall i: nat :: i < |g.nodes| ==> (i in ready <==> !exists b :: b in blocked + waiting && b.index == i)
    ensures forall b :: b in blocked + waiting ==> ReasonHolds(g, ready, b, now)
  {
    forall b | b in blocked + waiting
      ensures ReasonHolds(g, ready, b, now)
    {
      if b in blocked {
        assert BlockedNode(b.index, b.reason) in blocked;
        ObstacleHolds(g, ready, b, now);
      } else {
        assert b.index in sorted[..|sorted|];
        var j :| 0 <= j < |sorted| && sorted[j] == b.index;
        assert Decided(g, sorted, j, ready, waiting);
        assert BlockedNode(sorted[j], b.reason) in waiting;
        WaitingHolds(g, now, sorted, ready, waiting, j, b);
      }
    }
    forall i: nat | i < |g.nodes|
      ensures i in ready <==> !exists b :: b in blocked + waiting && b.index == i
    {
      if i in sorted {
        var j :| 0 <= j < |sorted| && sorted[j] == i;
        assert Decided(g, sorted, j, ready, waiting);
        if o :| GroupObstacle(g, sorted, j) == Some(o) {
          assert BlockedNode(i, o) in waiting;
          assert BlockedNode(i, o) in blocked + waiting;
        }
        forall b | b in blocked + waiting && b.index == i
          ensures GroupObstacle(g, sorted, j) == Some(b.reason)
        {
          assert BlockedNode(i, b.reason) == b;
          assert b in waiting;
        }
      } else {
        assert BlockedNode(i, Obstacle(g, g.nodes[i], now).value) in blocked + waiting;
      }
    }
  }

  ghost predicate ListedOnce(g: Plan, view: ReadyView) {
    && Distinct(view.ready)
    && |view.ready| + |view.blocked| == |g.nodes|
    && forall i: nat :: i < |g.nodes| ==> (i in view.ready <==> !exists b :: b in view.blocked && b.index == i)
  }

  ghost predicate OnLease(i: Issue, now: int) {
    i.assignee.Some? && i.expiresAt.Some? && now < i.expiresAt.value
  }

  /** The reason given is the first that keeps the node from starting: its own obstacle, or else its group. */
  ghost predicate ReasonHolds(g: Plan, ready: seq<nat>, b: BlockedNode, now: int) {
    && b.index < |g.nodes|
    && var i := g.nodes[b.index];
    match b.reason
    case NotOpen => i.status != Open
    case Claimed => i.status == Open && OnLease(i, now)
    case Grace => i.status == Open && !OnLease(i, now) && i.availableAt.Some? && i.availableAt.value > now
    case WaitsOnDeps =>
      && i.status == Open && !OnLease(i, now) && (i.availableAt.Some? ==> i.availableAt.value <= now) && WaitsOn(g, i)
    case GroupBusy => Startable(g, i, now) && i.metadata.group.Some? && SomeRuns(g, i.metadata.group.value)
    case GroupTaken =>
      && Startable(g, i, now) && i.metadata.group.Some? && !SomeRuns(g, i.metadata.group.value)
      && exists r :: r in ready && r < |g.nodes| && g.nodes[r].metadata.group == i.metadata.group
  }

  lemma ObstacleHolds(g: Plan, ready: seq<nat>, b: BlockedNode, now: int)
    requires b.index < |g.nodes| && Obstacle(g, g.nodes[b.index], now) == Some(b.reason)
    ensures ReasonHolds(g, ready, b, now)
  {
    assert WaitsOn(g, g.nodes[b.index]) <==> !DepsClosed(g, g.nodes[b.index]);
  }

  /** A candidate whose group is taken comes after one that took it. */
  lemma {:induction false} TakenBy(g: Plan, s: seq<nat>, j: nat) returns (l: nat)
    requires j < |s| && GroupObstacle(g, s, j) == Some(GroupTaken)
    ensures l < j && SameGroup(g, s[j], s[l]) && GroupObstacle(g, s, l) == None
  {
    l :| 0 <= l < j && SameGroup(g, s[j], s[l]);
    if GroupObstacle(g, s, l) != None {
      l := TakenBy(g, s, l);
    }
  }

  lemma WaitingHolds(
    g: Plan, now: int, s: seq<nat>, ready: seq<nat>, waiting: seq<BlockedNode>, j: nat, b: BlockedNode)
    requires j < |s| && s[j] == b.index && DecidedTo(g, s, |s|, ready, waiting) && Eligible(g, b.index, now)
    requires GroupObstacle(g, s, j) == Some(b.reason)
    ensures ReasonHolds(g, ready, b, now)
  {
    EligibleIsStartable(g, b.index, now);
    BusyIsSomeRuns(g, GroupOf(g, b.index).value);
    if b.reason == GroupTaken {
      var l := TakenBy(g, s, j);
      assert Decided(g, s, l, ready, waiting);
    }
  }

  lemma OrderCovers(adj: Adj, order: seq<nat>)
    requires IsTopoOrder(adj, order)
    ensures Distinct(order) && (forall i: nat :: i < |adj| <==> i in order)
  {
    OrderIsPermutation(adj, order);
    assert forall i: nat :: i in order <==> i in Elems(order);
  }

  /**
   Fails exactly on a cyclic plan. Otherwise every node is listed once, ready nodes the sooner first, and
   (ids being distinct) the ready nodes are exactly the first startable node of every free group.
   */
  method Ready(g: Plan, now: int) returns (r: Option<ReadyView>)
    ensures r.Some? <==> Graph.Acyclic(EdgesOf(Adjacency(g.nodes)))
    ensures r.Some? ==> ListedOnce(g, r.value) && InKeyOrder(g, r.value.ready) && SoonerFirst(g, r.value.ready)
    ensures r.Some? ==> forall b :: b in r.value.blocked ==> ReasonHolds(g, r.value.ready, b, now)
    ensures r.Some? && UniqueIds(g.nodes) ==> IsFrontier(g, now, Elems(r.value.ready))
    ensures r.Some? && UniqueIds(g.nodes) ==>
              forall i: nat :: i in r.value.ready <==> i < |g.nodes| && FirstOfGroup(g, i, now)
    ensures r.Some? ==> forall group :: group in r.value.busy <==> SomeRuns(g, group)
    ensures r.Some? ==> forall group :: group in r.value.busy ==>
                                          exists i: nat :: LastRunning(g, |g.nodes|, group, i)
                                                           && g.nodes[i].id == r.value.busy[group]
  {
    var adj := Adjacency(g.nodes);
    var order := Topo(adj);
    if order.None? {
      return None;
    }
    OrderCovers(adj, order.value);
    forall k | 0 <= k < |order.value|
      ensures order.value[k] < |g.nodes|
    {
      assert order.value[k] in order.value;
    }
    var busy := BusyGroups(g);
    var eligible, blocked := Triage(g, order.value, now);
    var sorted := Sort(ByKey(g), eligible);
    SortByKey(g, eligible);
    forall k | 0 <= k < |sorted|
      ensures sorted[k] < |g.nodes|
    {
      assert sorted[k] in sorted;
    }
    var ready, waiting := Choose(g, sorted, busy);
    ViewIsRight(g, now, order.value, eligible, blocked, sorted, ready, waiting);
    ReadySoonerFirst(g, ready);
    if UniqueIds(g.nodes) {
      FrontierOf(g, now, sorted, ready, waiting);
      FirstsAre(g, now, ready);
    }
    forall group
      ensures group in busy <==> SomeRuns(g, group)
    {
      BusyIsSomeRuns(g, group);
    }
    r := Some(ReadyView(ready, blocked + waiting, busy));
  }

  /** No node is listed before one that comes sooner. */
  ghost predicate SoonerFirst(g: Plan, s: seq<nat>) {
    forall k, l :: 0 <= k < l < |s| && s[k] < |g.nodes| && s[l] < |g.nodes| ==> !Sooner(g.nodes[s[l]], g.nodes[s[k]])
  }

  lemma ReadySoonerFirst(g: Plan, ready: seq<nat>)
    requires InKeyOrder(g, ready)
    ensures SoonerFirst(g, ready)
  {
    forall k, l | 0 <= k < l < |ready| && ready[k] < |g.nodes| && ready[l] < |g.nodes|
      ensures !Sooner(g.nodes[ready[l]], g.nodes[ready[k]])
    {
      assert !ByKey(g)(ready[l], ready[k]);
      KeyOrdersBySooner(g.nodes[ready[l]], g.nodes[ready[k]]);
    }
  }

  lemma FirstsAre(g: Plan, now: int, ready: seq<nat>)
    requires IsFrontier(g, now, Elems(ready))
    ensures forall i: nat :: i in ready <==> i < |g.nodes| && FirstOfGroup(g, i, now)
  {
    forall i: nat
      ensures i in ready <==> i < |g.nodes| && FirstOfGroup(g, i, now)
    {
      assert i in ready <==> i in Elems(ready);
      OfferedIsFirst(g, i, now);
    }
  }

  lemma FrontierOf(g: Plan, now: int, sorted: seq<nat>, ready: seq<nat>, waiting: seq<BlockedNode>)
    requires UniqueIds(g.nodes) && InKeyOrder(g, sorted) && Distinct(sorted)
    requires InPlanRange(g, sorted) && forall i :: i in sorted <==> Eligible(g, i, now)
    requires DecidedTo(g, sorted, |sorted|, ready, waiting)
    ensures IsFrontier(g, now, Elems(ready))
  {
    forall i: nat
      ensures i in Elems(ready) <==> Offered(g, i, now)
    {
      if i in sorted {
        var j :| 0 <= j < |sorted| && sorted[j] == i;
        assert Decided(g, sorted, j, ready, waiting);
        FirstIsBest(g, sorted, j, now);
      } else {
        assert i !in sorted[..|sorted|];
      }
    }
  }
}
