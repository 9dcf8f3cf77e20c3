/**
 What an executor gets out of the frontier: when conflict groups stay exclusive from one look at a plan to
 the next, and that closing whole frontiers finishes the plan in dependency order.
 */
module PlanRuns {
  import opened Domain
  import opened PlanTopo
  import opened PlanFrontier
  import Graph
  import Ordered

  // ----- Exclusion -----

  ghost predicate Running(g: Plan, i: nat) {
    i < |g.nodes| && g.nodes[i].status == InProgress
  }

  /** No two nodes of one group are in progress. */
  ghost predicate Exclusive(g: Plan) {
    forall i: nat, j: nat :: i < j && Running(g, i) && Running(g, j) ==> !SameGroup(g, i, j)
  }

  /** Node `j` of the next plan was node `i`, in progress in this plan before or started now. */
  ghost predicate CameFrom(g: Plan, next: Plan, started: set<nat>, j: nat, i: nat)
    requires j < |next.nodes|
  {
    i < |g.nodes| && g.nodes[i].id == next.nodes[j].id && (Running(g, i) || i in started)
  }

  /** What was started was on offer in the frontier at `now`. */
  ghost predicate FromFrontier(g: Plan, now: int, started: set<nat>) {
    forall i :: i in started ==> Offered(g, i, now)
  }

  /** The node ran on, or was started, in the group it had. */
  ghost predicate KeptGroup(g: Plan, next: Plan, started: set<nat>, j: nat)
    requires j < |next.nodes|
  {
    exists i: nat :: CameFrom(g, next, started, j, i) && GroupOf(g, i) == GroupOf(next, j)
  }

  ghost predicate AloneInGroup(g: Plan, j: nat) {
    forall k: nat :: k != j && Running(g, k) ==> !SameGroup(g, j, k)
  }

  /** Every other running node, one that changed groups or came in from outside the plan, runs alone in its group. */
  ghost predicate NewcomersHaveRoom(g: Plan, next: Plan, started: set<nat>) {
    forall j: nat :: Running(next, j) && !KeptGroup(g, next, started, j) ==> AloneInGroup(next, j)
  }

  lemma RunningIsBusy(g: Plan, i: nat)
    ensures Running(g, i) && GroupOf(g, i).Some? ==> BusyGroup(g, GroupOf(g, i).value)
  {
    if Running(g, i) && GroupOf(g, i).Some? {
      assert Runs(g.nodes[i], GroupOf(g, i).value);
    }
  }

  /** Two nodes that ran on or started, each in the group it had, are in different groups. */
  lemma KeptAreApart(g: Plan, next: Plan, now: int, started: set<nat>, i: nat, j: nat)
    requires Exclusive(g) && UniqueIds(next.nodes) && FromFrontier(g, now, started) && i != j
    requires Running(next, i) && Running(next, j) && KeptGroup(g, next, started, i) && KeptGroup(g, next, started, j)
    ensures !SameGroup(next, i, j)
  {
    var a: nat :| CameFrom(g, next, started, i, a) && GroupOf(g, a) == GroupOf(next, i);
    var b: nat :| CameFrom(g, next, started, j, b) && GroupOf(g, b) == GroupOf(next, j);
    var x, y := next.nodes[i].id, next.nodes[j].id;
    assert x != y;
    if SameGroup(next, i, j) {
      assert SameGroup(g, a, b) && SameGroup(g, b, a);
      RunningIsBusy(g, a);
      RunningIsBusy(g, b);
    }
  }

  /**
   Whatever happens to the plan between two looks at it, nodes joining, leaving, changing status and group:
   it stays exclusive exactly if every running node that was not let in by a frontier found its group free.
   */
  lemma DispatchKeepsExclusionIff(g: Plan, next: Plan, now: int, started: set<nat>)
    requires Exclusive(g) && UniqueIds(next.nodes) && FromFrontier(g, now, started)
    ensures Exclusive(next) <==> NewcomersHaveRoom(g, next, started)
  {
    if NewcomersHaveRoom(g, next, started) {
      forall i: nat, j: nat | i < j && Running(next, i) && Running(next, j)
        ensures !SameGroup(next, i, j)
      {
        if KeptGroup(g, next, started, i) && KeptGroup(g, next, started, j) {
          KeptAreApart(g, next, now, started, i, j);
        } else {
          assert AloneInGroup(next, i) || AloneInGroup(next, j);
          assert SameGroup(next, i, j) ==> SameGroup(next, j, i);
        }
      }
    }
    if Exclusive(next) {
      forall j: nat, k: nat | k != j && Running(next, j) && Running(next, k)
        ensures !SameGroup(next, j, k)
      {
        assert SameGroup(next, j, k) ==> SameGroup(next, k, j);
      }
    }
  }

  // ----- Progress -----

  /** Everything left to do is open, unclaimed, available now, and waits for plan nodes or closed issues. */
  ghost predicate Quiet(g: Plan, now: int) {
    && AllApart(g)
    && Graph.Acyclic(EdgesOf(Adjacency(g.nodes)))
    && forall i: nat {:trigger QuietAt(g, i, now)} :: i < |g.nodes| ==> QuietAt(g, i, now)
  }

  ghost predicate Apart(g: Plan, i: nat, j: nat) {
    i < j < |g.nodes| ==> g.nodes[i].id != g.nodes[j].id
  }

  /** Ids are distinct. */
  ghost predicate AllApart(g: Plan) {
    forall i: nat, j: nat {:trigger Apart(g, i, j)} :: Apart(g, i, j)
  }

  lemma ApartMeansUnique(g: Plan)
    ensures AllApart(g) <==> UniqueIds(g.nodes)
  {
    if AllApart(g) {
      forall i: nat, j: nat | i < j < |g.nodes|
        ensures g.nodes[i].id != g.nodes[j].id
      {
        assert Apart(g, i, j);
      }
    }
  }

  ghost predicate QuietAt(g: Plan, i: nat, now: int)
    requires i < |g.nodes|
  {
    && Idle(g.nodes[i], now)
    && StatusIn(g, g.nodes[i].id) == g.nodes[i].status
    && forall d :: d in DepIds(g.nodes[i].dependencies) ==> Has(g, d) || StatusIn(g, d) == Closed
  }

  ghost predicate Has(g: Plan, id: int) {
    exists i: nat :: i < |g.nodes| && g.nodes[i].id == id
  }

  ghost predicate Idle(i: Issue, now: int) {
    && (i.status == Open || i.status == Closed)
    && !Held(i, now)
    && (i.availableAt.Some? ==> i.availableAt.value <= now)
  }

  ghost function Undone(g: Plan): set<nat> {
    set i: nat | i < |g.nodes| && g.nodes[i].status != Closed
  }

  /** An undone node that is not eligible waits for an undone node of the plan. */
  lemma WaitsForUndone(g: Plan, now: int, i: nat) returns (p: nat)
    requires Quiet(g, now) && i in Undone(g) && !Eligible(g, i, now)
    ensures p in Undone(g) && (i as int, p as int) in EdgesOf(Adjacency(g.nodes))
  {
    assert QuietAt(g, i, now);
    var d :| d in DepIds(g.nodes[i].dependencies) && StatusIn(g, d) != Closed;
    p :| p < |g.nodes| && g.nodes[p].id == d;
    assert QuietAt(g, p, now);
    ApartMeansUnique(g);
    DepIsEdge(g, i, p);
  }

  lemma DepIsEdge(g: Plan, i: nat, p: nat)
    requires UniqueIds(g.nodes) && i < |g.nodes| && p < |g.nodes| && g.nodes[p].id in DepIds(g.nodes[i].dependencies)
    ensures (i as int, p as int) in EdgesOf(Adjacency(g.nodes))
  {
    var adj := Adjacency(g.nodes);
    assert Index(g.nodes)[g.nodes[p].id] == p;
    assert p in adj[i];
    var k :| 0 <= k < |adj[i]| && adj[i][k] == p;
  }

  /** Some open node has all of its dependencies closed. */
  lemma SomethingIsEligible(g: Plan, now: int) returns (i: nat)
    requires Quiet(g, now) && Undone(g) != {}
    ensures Eligible(g, i, now)
  {
    var start :| start in Undone(g);
    if forall j :: j in Undone(g) ==> !Eligible(g, j, now) {
      var e := EdgesOf(Adjacency(g.nodes));
      var rest: set<int> := set x: nat | x in Undone(g) :: x;
      forall x | x in rest
        ensures Graph.HasNext(e, rest, x)
      {
        var p := WaitsForUndone(g, now, x);
      }
      Graph.StuckHasCycle(e, rest, start);
    } else {
      i :| i in Undone(g) && Eligible(g, i, now);
    }
  }

  /** The best-ordered eligible node of a group exists. */
  lemma {:induction false} BestOfGroup(g: Plan, now: int, i: nat, rivals: set<nat>) returns (best: nat)
    requires UniqueIds(g.nodes) && Eligible(g, i, now)
    requires forall j: nat :: Eligible(g, j, now) && SameGroup(g, i, j) && j != i && !Before(g, i, j) ==> j in rivals
    ensures Eligible(g, best, now) && (best == i || SameGroup(g, i, best))
    ensures forall j: nat :: j != best && Eligible(g, j, now) && SameGroup(g, best, j) ==> Before(g, best, j)
    decreases rivals
  {
    if j: nat :| Eligible(g, j, now) && SameGroup(g, i, j) && j != i && !Before(g, i, j) {
      assert g.nodes[i].id != g.nodes[j].id;
      assert Before(g, j, i);
      best := BestOfGroup(g, now, j, rivals - {j});
    } else {
      best := i;
    }
  }

  lemma NothingRuns(g: Plan, now: int)
    requires Quiet(g, now)
    ensures forall group :: !BusyGroup(g, group)
  {
    forall k: nat | k < |g.nodes|
      ensures g.nodes[k].status != InProgress
    {
      assert QuietAt(g, k, now);
    }
  }

  /** While anything is left, the frontier offers something. */
  lemma FrontierIsNotEmpty(g: Plan, now: int, f: set<nat>)
    requires Quiet(g, now) && IsFrontier(g, now, f) && Undone(g) != {}
    ensures f != {}
  {
    ApartMeansUnique(g);
    var i := SomethingIsEligible(g, now);
    var best := BestOfGroup(g, now, i, Below(|g.nodes|));
    NothingRuns(g, now);
    assert Offered(g, best, now);
    assert best in f;
  }

  function CloseOne(g: Plan, i: nat): Plan
    requires i < |g.nodes|
  {
    Plan(g.nodes[i := g.nodes[i].(status := Closed)], g.statusOf[g.nodes[i].id := Closed])
  }

  /** The executor finishes the whole frontier, one node after another. */
  function CloseAll(g: Plan, done: seq<nat>): (r: Plan)
    requires InPlanRange(g, done)
    ensures |r.nodes| == |g.nodes|
  {
    if done == [] then g
    else
      var last := |done| - 1;
      CloseOne(CloseAll(g, done[..last]), done[last])
  }

  ghost predicate Closes(g: Plan, done: seq<nat>, id: int)
    requires InPlanRange(g, done)
  {
    exists i: nat :: i in done && g.nodes[i].id == id
  }

  lemma {:induction false} CloseAllCloses(g: Plan, done: seq<nat>)
    requires InPlanRange(g, done)
    ensures var r := CloseAll(g, done);
            && (forall i: nat :: i < |g.nodes| ==>
                                   r.nodes[i] == if i in done then g.nodes[i].(status := Closed) else g.nodes[i])
            && (forall d :: StatusIn(r, d) == if Closes(g, done, d) then Closed else StatusIn(g, d))
  {
    if done != [] {
      var last := |done| - 1;
      CloseAllCloses(g, done[..last]);
      assert done == done[..last] + [done[last]];
      var r := CloseAll(g, done);
      forall d
        ensures StatusIn(r, d) == if Closes(g, done, d) then Closed else StatusIn(g, d)
      {
        assert StatusIn(CloseAll(g, done[..last]), d) == if Closes(g, done[..last], d) then Closed else StatusIn(g, d);
        if i: nat :| i in done && g.nodes[i].id == d {
          assert i == done[last] || i in done[..last];
        }
      }
    }
  }

  lemma {:induction false} SameIndex(a: seq<Issue>, b: seq<Issue>)
    requires |a| == |b| && forall i :: 0 <= i < |a| ==> a[i].id == b[i].id
    ensures Index(a) == Index(b)
  {
    if a != [] {
      SameIndex(a[..|a| - 1], b[..|b| - 1]);
    }
  }

  lemma CloseAllQuietAt(g: Plan, now: int, done: seq<nat>, later: int, i: nat)
    requires UniqueIds(g.nodes) && InPlanRange(g, done) && now <= later
    requires i < |g.nodes| && QuietAt(g, i, now)
    ensures QuietAt(CloseAll(g, done), i, later)
    ensures CloseAll(g, done).nodes[i] == if i in done then g.nodes[i].(status := Closed) else g.nodes[i]
  {
    var r := CloseAll(g, done);
    CloseAllCloses(g, done);
    forall d
      ensures Has(r, d) <==> Has(g, d)
    {
      assert forall k: nat :: k < |g.nodes| ==> g.nodes[k].id == r.nodes[k].id;
    }
    assert Closes(g, done, g.nodes[i].id) <==> i in done;
  }

  /** Closing nodes changes no id and no dependency. */
  lemma SameGraph(g: Plan, done: seq<nat>)
    requires InPlanRange(g, done)
    ensures AllApart(CloseAll(g, done)) <==> AllApart(g)
    ensures EdgesOf(Adjacency(CloseAll(g, done).nodes)) == EdgesOf(Adjacency(g.nodes))
  {
    var r := CloseAll(g, done);
    CloseAllCloses(g, done);
    SameIndex(g.nodes, r.nodes);
    assert Adjacency(r.nodes) == Adjacency(g.nodes);
    forall i: nat, j: nat
      ensures Apart(r, i, j) <==> Apart(g, i, j)
    {
    }
  }

  /** Closing a frontier leaves a quiet plan, at any later time, with strictly less to do. */
  lemma CloseAllKeepsQuiet(g: Plan, now: int, done: seq<nat>, later: int)
    requires Quiet(g, now) && InPlanRange(g, done) && now <= later
    requires forall i :: i in done ==> Offered(g, i, now)
    ensures Quiet(CloseAll(g, done), later)
    ensures Undone(CloseAll(g, done)) == Undone(g) - Elems(done)
  {
    var r := CloseAll(g, done);
    SameGraph(g, done);
    ApartMeansUnique(g);
    forall i: nat | i < |r.nodes|
      ensures QuietAt(r, i, later)
      ensures i in Undone(r) <==> i in Undone(g) && i !in Elems(done)
    {
      CloseAllQuietAt(g, now, done, later, i);
    }
  }

  /** One round: the frontier at `now` in the order `Ready` lists it, closed one by one. */
  ghost predicate Round(g: Plan, next: Plan, now: int, done: seq<nat>) {
    InPlanRange(g, done) && IsFrontier(g, now, Elems(done)) && next == CloseAll(g, done)
  }

  ghost predicate IsRounds(run: seq<Plan>, times: seq<int>, dones: seq<seq<nat>>) {
    && |times| == |dones| && |run| == |times| + 1
    && (forall k, l :: 0 <= k <= l < |times| ==> times[k] <= times[l])
    && forall k :: 0 <= k < |times| ==> RoundAt(run, times, dones, k)
  }

  ghost predicate RoundAt(run: seq<Plan>, times: seq<int>, dones: seq<seq<nat>>, k: nat)
    requires k < |times| && |times| == |dones| && |run| == |times| + 1
  {
    Round(run[k], run[k + 1], times[k], dones[k])
  }

  lemma RoundShrinks(g: Plan, next: Plan, now: int, done: seq<nat>, later: int)
    requires Quiet(g, now) && Round(g, next, now, done) && now <= later
    ensures Quiet(next, later) && Undone(next) <= Undone(g)
    ensures Undone(g) != {} ==> |Undone(next)| < |Undone(g)|
  {
    forall i | i in done
      ensures Offered(g, i, now)
    {
      assert i in Elems(done);
    }
    CloseAllKeepsQuiet(g, now, done, later);
    if Undone(g) != {} {
      var i := OneIsClosed(g, now, done);
      Ordered.SubsetSize(Undone(next), Undone(g) - {i});
    }
  }

  lemma OneIsClosed(g: Plan, now: int, done: seq<nat>) returns (i: nat)
    requires Quiet(g, now) && IsFrontier(g, now, Elems(done)) && Undone(g) != {}
    ensures i in Elems(done) && i in Undone(g)
  {
    FrontierIsNotEmpty(g, now, Elems(done));
    i :| i in Elems(done);
    assert Offered(g, i, now);
  }

  function Minus(n: nat, k: nat): nat {
    if n > k then n - k else 0
  }

  /** Before round `k` the plan is quiet and at least `k` of its `n` undone nodes are closed. */
  ghost predicate OnTrack(run: seq<Plan>, times: seq<int>, n: nat, k: nat) {
    && k < |run|
    && (k < |times| ==> Quiet(run[k], times[k]))
    && |Undone(run[k])| <= Minus(n, k)
  }

  lemma NextIsOnTrack(run: seq<Plan>, times: seq<int>, dones: seq<seq<nat>>, n: nat, onTrack: nat -> bool, k: nat)
    requires forall j: nat :: onTrack(j) == OnTrack(run, times, n, j)
    requires IsRounds(run, times, dones) && k < |times| && onTrack(k)
    ensures onTrack(k + 1)
  {
    assert RoundAt(run, times, dones, k);
    var later := if k + 1 < |times| then times[k + 1] else times[k];
    RoundShrinks(run[k], run[k + 1], times[k], dones[k], later);
    Ordered.SubsetSize(Undone(run[k + 1]), Undone(run[k]));
  }

  lemma {:induction false} Induct(p: nat -> bool, n: nat)
    requires p(0) && forall k: nat :: k < n && p(k) ==> p(k + 1)
    ensures p(n)
  {
    if n > 0 {
      Induct(p, n - 1);
    }
  }

  /** As many rounds as there are nodes close the whole plan, and no node before its dependencies. */
  lemma PlanFinishes(run: seq<Plan>, times: seq<int>, dones: seq<seq<nat>>)
    requires IsRounds(run, times, dones) && times != [] && Quiet(run[0], times[0])
    requires |times| >= |run[0].nodes|
    ensures Undone(run[|times|]) == {}
    ensures forall k, i :: 0 <= k < |times| && i in dones[k] ==> ClosedInTurn(run[k], i)
  {
    RoundsShrink(run, times, dones);
    Ordered.SubsetSize(Undone(run[0]), Below(|run[0].nodes|));
    forall k, i | 0 <= k < |times| && i in dones[k]
      ensures ClosedInTurn(run[k], i)
    {
      assert RoundAt(run, times, dones, k);
      OfferedInTurn(run[k], times[k], dones[k], i);
    }
  }

  lemma RoundsShrink(run: seq<Plan>, times: seq<int>, dones: seq<seq<nat>>)
    requires IsRounds(run, times, dones) && times != [] && Quiet(run[0], times[0])
    ensures |Undone(run[|times|])| <= Minus(|Undone(run[0])|, |times|)
  {
    var n := |Undone(run[0])|;
    var onTrack := (k: nat) => OnTrack(run, times, n, k);
    forall k: nat | k < |times| && onTrack(k)
      ensures onTrack(k + 1)
    {
      NextIsOnTrack(run, times, dones, n, onTrack, k);
    }
    Induct(onTrack, |times|);
  }

  lemma OfferedInTurn(g: Plan, now: int, done: seq<nat>, i: nat)
    requires IsFrontier(g, now, Elems(done)) && i in done
    ensures ClosedInTurn(g, i)
  {
    assert i in Elems(done);
    assert Offered(g, i, now);
  }

  /** The node was open and everything it names as a dependency was closed. */
  ghost predicate ClosedInTurn(g: Plan, i: nat) {
    i < |g.nodes| && g.nodes[i].status == Open && DepsClosed(g, g.nodes[i])
  }
}
