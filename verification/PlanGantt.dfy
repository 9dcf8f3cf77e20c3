/** `gantt` (src/plan.rs): both passes, the critical chain and the concurrency figures. */
module PlanGantt {
  import opened Wrappers
  import opened Domain
  import opened PlanTopo
  import opened PlanSchedule
  import PlanPeak
  import Graph

  /** One card of the chart; times are seconds since the epoch. */
  datatype GanttNode = GanttNode(
    id: int, key: int, status: Status, group: Option<int>, estimate: int, fromMetadata: bool,
    slack: int, critical: bool, startAt: int, finishAt: int)

  datatype Gantt = Gantt(
    nodes: seq<GanttNode>,
    timeline: Timeline,
    criticalPath: seq<int>,
    criticalPathMinutes: int,
    currentConcurrency: nat,
    peakConcurrency: int)

  // ----- Forward pass -----

  /** The schedule recurrence holds for the nodes in `done`. */
  ghost predicate Placed(g: Adj, d: seq<int>, start: seq<int>, finish: seq<int>, done: set<nat>)
    requires Durations(g, d)
  {
    && |start| == |finish| == |g|
    && (forall i :: i in done ==> i < |g| && start[i] >= 0 && finish[i] == start[i] + d[i])
    && (forall i, p :: i in done && p in g[i] ==> p in done && finish[p] <= start[i])
    && forall i {:trigger Tight(g, start, finish, i)} :: i in done ==> Tight(g, start, finish, i)
  }

  lemma PlaceOne(
    g: Adj, d: seq<int>, start: seq<int>, finish: seq<int>, done: set<nat>, i: nat, s: int, start': seq<int>,
    finish': seq<int>)
    requires Durations(g, d) && Placed(g, d, start, finish, done) && Available(g, done, i)
    requires s >= 0 && forall p :: p in g[i] ==> finish[p] <= s
    requires s == 0 || exists p :: p in g[i] && finish[p] == s
    requires start' == start[i := s] && finish' == finish[i := s + d[i]]
    ensures Placed(g, d, start', finish', done + {i})
  {
    assert forall j :: j in done ==> start'[j] == start[j] && finish'[j] == finish[j];
    forall j | j in done
      ensures Tight(g, start', finish', j)
    {
      assert Tight(g, start, finish, j);
    }
    forall p | p in g[i]
      ensures p in done && finish'[p] == finish[p]
    {
    }
    assert Tight(g, start', finish', i);
  }

  lemma PlacedAll(g: Adj, d: seq<int>, order: seq<nat>, start: seq<int>, finish: seq<int>)
    requires Durations(g, d) && IsTopoOrder(g, order) && Placed(g, d, start, finish, Elems(order))
    ensures Scheduled(g, d, start, finish)
  {
    OrderIsPermutation(g, order);
    assert forall i :: 0 <= i < |start| ==> i in Elems(order);
  }

  /** The maximum finish over a node's dependencies, or minute 0. */
  method LatestDep(deps: seq<nat>, finish: seq<int>) returns (s: int)
    requires forall p :: p in deps ==> p < |finish|
    ensures s >= 0 && forall p :: p in deps ==> finish[p] <= s
    ensures s == 0 || exists p :: p in deps && finish[p] == s
  {
    s := 0;
    for k := 0 to |deps|
      invariant s >= 0
      invariant forall l :: 0 <= l < k ==> deps[l] in deps && finish[deps[l]] <= s
      invariant s == 0 || exists p :: p in deps && finish[p] == s
    {
      assert deps[k] in deps;
      s := Max(s, finish[deps[k]]);
    }
  }

  method Record(start: array<int>, finish: array<int>, i: nat, s: int, f: int)
    requires i < start.Length == finish.Length && start != finish
    modifies start, finish
    ensures start[..] == old(start[..])[i := s] && finish[..] == old(finish[..])[i := f]
  {
    start[i] := s;
    finish[i] := f;
  }

  method PlaceNode(g: Adj, d: seq<int>, i: nat, start: array<int>, finish: array<int>, ghost done: set<nat>)
    requires Durations(g, d) && start != finish && Placed(g, d, start[..], finish[..], done)
    requires Available(g, done, i)
    modifies start, finish
    ensures Placed(g, d, start[..], finish[..], done + {i})
  {
    var s := LatestDep(g[i], finish[..]);
    ghost var start0, finish0 := start[..], finish[..];
    Record(start, finish, i, s, s + d[i]);
    PlaceOne(g, d, start0, finish0, done, i, s, start[..], finish[..]);
  }

  method ForwardPass(g: Adj, d: seq<int>, order: seq<nat>) returns (start: array<int>, finish: array<int>)
    requires Durations(g, d) && IsTopoOrder(g, order)
    ensures fresh(start) && fresh(finish) && Scheduled(g, d, start[..], finish[..])
  {
    start, finish := new int[|g|](_ => 0), new int[|g|](_ => 0);
    for k := 0 to |order|
      invariant fresh(start) && fresh(finish) && start != finish
      invariant Placed(g, d, start[..], finish[..], Elems(order[..k]))
    {
      PlaceNode(g, d, order[k], start, finish, Elems(order[..k]));
      assert Elems(order[..k + 1]) == Elems(order[..k]) + {order[k]};
    }
    assert order[..|order|] == order;
    PlacedAll(g, d, order, start[..], finish[..]);
  }

  /** `finish.iter().max().unwrap_or(0)`. */
  method LastFinish(finish: seq<int>) returns (total: int)
    ensures IsMakespan(finish, total)
  {
    total := if finish == [] then 0 else finish[0];
    for i := 0 to |finish|
      invariant forall j :: 0 <= j < i ==> finish[j] <= total
      invariant finish == [] ==> total == 0
      invariant finish != [] ==> exists j :: 0 <= j < |finish| && finish[j] == total
    {
      total := Max(total, finish[i]);
    }
  }

  // ----- Backward pass -----

  ghost predicate PressedBy(g: Adj, d: seq<int>, total: int, latest: seq<int>, done: set<nat>, p: nat)
    requires |d| == |g| == |latest| && p < |g|
  {
    latest[p] == total || exists c :: c in done && c < |g| && p in g[c] && latest[p] == latest[c] - d[c]
  }

  /** What is known once the dependents in `done` have pressed on their dependencies. */
  ghost predicate Pressing(g: Adj, d: seq<int>, total: int, latest: seq<int>, done: set<nat>)
    requires Durations(g, d)
  {
    && |latest| == |g|
    && (forall i :: 0 <= i < |g| ==> latest[i] <= total)
    && (forall c, p :: c in done && c < |g| && p in g[c] ==> latest[p] <= latest[c] - d[c])
    && forall p :: 0 <= p < |g| ==> PressedBy(g, d, total, latest, done, p)
  }

  method PressNode(g: Adj, d: seq<int>, total: int, i: nat, latest: array<int>, ghost done: set<nat>)
    requires Durations(g, d) && Pressing(g, d, total, latest[..], done)
    requires i < |g| && i !in g[i] && forall p :: p in g[i] ==> p !in done
    modifies latest
    ensures Pressing(g, d, total, latest[..], done + {i})
  {
    ghost var latest0 := latest[..];
    var latestStart := latest[i] - d[i];
    for k := 0 to |g[i]|
      invariant forall j :: 0 <= j < |g| ==>
                              latest[j] == latest0[j] || (j in g[i] && latest[j] == latestStart < latest0[j])
      invariant forall l :: 0 <= l < k ==> latest[g[i][l]] <= latestStart
    {
      var p := g[i][k];
      assert p in g[i];
      latest[p] := Min(latest[p], latestStart);
    }
    forall p: nat | p < |g|
      ensures PressedBy(g, d, total, latest[..], done + {i}, p)
    {
      assert PressedBy(g, d, total, latest0, done, p);
    }
  }

  lemma PressedAll(g: Adj, d: seq<int>, order: seq<nat>, total: int, latest: seq<int>)
    requires Durations(g, d) && IsTopoOrder(g, order) && Pressing(g, d, total, latest, Elems(order))
    ensures LatestFinish(g, d, total, latest)
  {
    OrderIsPermutation(g, order);
    assert forall i :: 0 <= i < |latest| ==> i in Elems(order);
    forall p: nat | p < |g|
      ensures Pressed(g, d, total, latest, p)
    {
      assert PressedBy(g, d, total, latest, Elems(order), p);
    }
  }

  lemma DepsComeFirst(g: Adj, order: seq<nat>, k: nat)
    requires IsTopoOrder(g, order) && k < |order|
    ensures order[k] < |g| && forall p :: p in g[order[k]] ==> p !in order[k..]
    ensures Elems(order[k..]) == Elems(order[k + 1..]) + {order[k]}
  {
    OrderIsPermutation(g, order);
    forall p | p in g[order[k]]
      ensures p !in order[k..]
    {
      assert p in order[..k];
    }
    RestElems(order, k);
  }

  lemma RestElems(order: seq<nat>, k: nat)
    requires k < |order|
    ensures Elems(order[k..]) == Elems(order[k + 1..]) + {order[k]}
  {
    assert order[k..] == [order[k]] + order[k + 1..];
  }

  method BackwardPass(g: Adj, d: seq<int>, order: seq<nat>, total: int) returns (latest: array<int>)
    requires Durations(g, d) && IsTopoOrder(g, order)
    ensures fresh(latest) && LatestFinish(g, d, total, latest[..])
  {
    latest := new int[|g|](_ => total);
    for k := |order| downto 0
      invariant fresh(latest) && Pressing(g, d, total, latest[..], Elems(order[k..]))
    {
      DepsComeFirst(g, order, k);
      assert order[k] in order[k..];
      PressNode(g, d, total, order[k], latest, Elems(order[k + 1..]));
    }
    assert order[0..] == order;
    PressedAll(g, d, order, total, latest[..]);
  }

  // ----- The critical chain -----

  ghost predicate ZeroSlack(slack: seq<int>, i: nat) {
    i < |slack| && slack[i] == 0
  }

  /** `filter(slack == 0).max_by_key(finish)`: the last of the latest-finishing candidates. */
  ghost predicate IsBest(cands: seq<nat>, slack: seq<int>, finish: seq<int>, k: nat) {
    && |slack| == |finish|
    && k < |cands|
    && ZeroSlack(slack, cands[k])
    && forall j :: 0 <= j < |cands| && ZeroSlack(slack, cands[j]) ==>
                     finish[cands[j]] <= finish[cands[k]] && (j > k ==> finish[cands[j]] < finish[cands[k]])
  }

  method LatestZeroSlack(cands: seq<nat>, slack: seq<int>, finish: seq<int>) returns (r: Option<nat>)
    requires |slack| == |finish| && forall j :: 0 <= j < |cands| ==> cands[j] < |slack|
    ensures r.None? ==> forall c :: c in cands ==> !ZeroSlack(slack, c)
    ensures r.Some? ==> exists k: nat :: IsBest(cands, slack, finish, k) && r.value == cands[k]
  {
    r := None;
    ghost var at := 0;
    for j := 0 to |cands|
      invariant r.None? ==> forall l :: 0 <= l < j ==> !ZeroSlack(slack, cands[l])
      invariant r.Some? ==> at < j && IsBest(cands[..j], slack, finish, at) && r.value == cands[at]
    {
      var c := cands[j];
      if slack[c] == 0 && (r.None? || finish[r.value] <= finish[c]) {
        r, at := Some(c), j;
      }
    }
    if r.Some? {
      assert cands[..|cands|] == cands;
    }
  }

  /** A chain of zero-slack nodes in which each starts the minute the one before it finishes. */
  ghost predicate GapFree(g: Adj, start: seq<int>, finish: seq<int>, slack: seq<int>, chain: seq<nat>) {
    && |start| == |finish| == |slack| == |g|
    && IsChain(g, chain)
    && (forall k :: 0 <= k < |chain| ==> slack[chain[k]] == 0)
    && forall k :: 0 <= k < |chain| - 1 ==> Meets(start, finish, chain, k)
  }

  ghost predicate Meets(start: seq<int>, finish: seq<int>, chain: seq<nat>, k: nat) {
    k + 1 < |chain| && chain[k] < |finish| && chain[k + 1] < |start| && finish[chain[k]] == start[chain[k + 1]]
  }

  /** A gap-free chain from minute 0 to the makespan. */
  ghost predicate SpansPlan(g: Adj, start: seq<int>, finish: seq<int>, slack: seq<int>, total: int, chain: seq<nat>) {
    && GapFree(g, start, finish, slack, chain)
    && start[chain[0]] == 0
    && finish[chain[|chain| - 1]] == total
  }

  lemma {:induction false} GapFreeWeight(
    g: Adj, d: seq<int>, start: seq<int>, finish: seq<int>, slack: seq<int>, chain: seq<nat>)
    requires Durations(g, d) && Scheduled(g, d, start, finish) && GapFree(g, start, finish, slack, chain)
    ensures Weight(d, chain) == finish[chain[|chain| - 1]] - start[chain[0]]
  {
    if |chain| > 1 {
      var rest := chain[1..|chain|];
      SubChain(g, chain, 1, |chain|);
      assert rest == chain[1..];
      forall k | 0 <= k < |rest| - 1
        ensures Meets(start, finish, rest, k)
      {
        assert Meets(start, finish, chain, k + 1);
      }
      GapFreeWeight(g, d, start, finish, slack, rest);
      assert Meets(start, finish, chain, 0);
    } else {
      assert chain[1..] == [];
    }
  }

  ghost predicate SlackOf(slack: seq<int>, finish: seq<int>, latest: seq<int>) {
    && |slack| == |finish| == |latest|
    && forall i :: 0 <= i < |slack| ==> slack[i] == latest[i] - finish[i] && slack[i] >= 0
  }

  /** `(latest_finish[i] - finish[i]).max(0)`; the clamp never acts. */
  method Slacks(
    g: Adj, ghost d: seq<int>, ghost order: seq<nat>, ghost start: seq<int>, finish: seq<int>, ghost total: int,
    latest: seq<int>)
    returns (slack: seq<int>)
    requires Timed(g, d, start, finish, total, latest) && IsTopoOrder(g, order)
    ensures SlackOf(slack, finish, latest)
  {
    slack := [];
    for i := 0 to |finish|
      invariant |slack| == i && forall j :: 0 <= j < i ==> slack[j] == latest[j] - finish[j] && slack[j] >= 0
    {
      SlackNonNegative(g, d, order, start, finish, total, latest, i);
      slack := slack + [Max(latest[i] - finish[i], 0)];
    }
  }

  /** A zero-slack node that starts late has a zero-slack dependency finishing right then, and none later. */
  lemma CriticalParent(
    g: Adj, d: seq<int>, start: seq<int>, finish: seq<int>, total: int, latest: seq<int>, slack: seq<int>, c: nat)
    requires Timed(g, d, start, finish, total, latest) && SlackOf(slack, finish, latest)
    requires c < |g| && slack[c] == 0
    ensures start[c] > 0 ==> exists p :: p in g[c] && slack[p] == 0 && finish[p] == start[c]
    ensures forall p :: p in g[c] ==> 0 < finish[p] <= start[c]
  {
    assert Tight(g, start, finish, c);
    if start[c] > 0 {
      var p :| p in g[c] && finish[p] == start[c];
      assert latest[p] <= latest[c] - d[c];
    }
  }

  lemma GrowChain(g: Adj, start: seq<int>, finish: seq<int>, slack: seq<int>, p: nat, chain: seq<nat>)
    requires GapFree(g, start, finish, slack, chain)
    requires p in g[chain[0]] && slack[p] == 0 && finish[p] == start[chain[0]]
    ensures GapFree(g, start, finish, slack, [p] + chain)
  {
    var longer := [p] + chain;
    JoinChains(g, [p], chain);
    forall k | 0 <= k < |longer| - 1
      ensures Meets(start, finish, longer, k)
    {
      if k > 0 {
        assert Meets(start, finish, chain, k - 1);
      }
    }
  }

  /** The loop's choice of parent is the zero-slack dependency that finishes as the node starts. */
  lemma BestParent(
    g: Adj, d: seq<int>, start: seq<int>, finish: seq<int>, total: int, latest: seq<int>, slack: seq<int>, c: nat,
    best: Option<nat>)
    requires Timed(g, d, start, finish, total, latest) && SlackOf(slack, finish, latest)
    requires c < |g| && slack[c] == 0
    requires best.None? ==> forall p :: p in g[c] ==> !ZeroSlack(slack, p)
    requires best.Some? ==> exists k: nat :: IsBest(g[c], slack, finish, k) && best.value == g[c][k]
    ensures best.None? ==> start[c] == 0
    ensures best.Some? ==> best.value in g[c] && slack[best.value] == 0 && finish[best.value] == start[c]
  {
    CriticalParent(g, d, start, finish, total, latest, slack, c);
    if start[c] > 0 {
      var p :| p in g[c] && slack[p] == 0 && finish[p] == start[c];
      var j :| 0 <= j < |g[c]| && g[c][j] == p;
      assert ZeroSlack(slack, g[c][j]);
    }
  }

  /** Walks back from the last zero-slack finisher along the latest-finishing zero-slack dependency. */
  method CriticalChain(
    g: Adj, ghost d: seq<int>, start: seq<int>, finish: seq<int>, ghost total: int, ghost latest: seq<int>,
    slack: seq<int>)
    returns (chain: seq<nat>)
    requires Timed(g, d, start, finish, total, latest) && SlackOf(slack, finish, latest)
    ensures g == [] ==> chain == []
    ensures g != [] ==> SpansPlan(g, start, finish, slack, total, chain)
  {
    var everyone := seq(|g|, i => i);
    var best := LatestZeroSlack(everyone, slack, finish);
    SomethingIsCritical(g, d, start, finish, total, latest, slack, everyone);
    if best.None? {
      return [];
    }
    LastIsCritical(g, d, start, finish, total, latest, slack, everyone, best.value);
    chain := ChainBack(g, d, start, finish, total, latest, slack, best.value);
  }

  /** Walks back from a critical node that ends the plan, each time to the critical dependency that finishes last. */
  method ChainBack(
    g: Adj, ghost d: seq<int>, start: seq<int>, finish: seq<int>, ghost total: int, ghost latest: seq<int>,
    slack: seq<int>, last: nat)
    returns (chain: seq<nat>)
    requires Timed(g, d, start, finish, total, latest) && SlackOf(slack, finish, latest)
    requires last < |g| && slack[last] == 0 && finish[last] == total
    ensures SpansPlan(g, start, finish, slack, total, chain)
  {
    var cursor := last;
    chain := [cursor];
    while true
      invariant GapFree(g, start, finish, slack, chain) && chain[0] == cursor
      invariant finish[chain[|chain| - 1]] == total
      decreases start[cursor]
    {
      var parent := LatestZeroSlack(g[cursor], slack, finish);
      BestParent(g, d, start, finish, total, latest, slack, cursor, parent);
      if parent.None? {
        break;
      }
      GrowChain(g, start, finish, slack, parent.value, chain);
      chain := [parent.value] + chain;
      cursor := parent.value;
    }
  }

  lemma SomethingIsCritical(
    g: Adj, d: seq<int>, start: seq<int>, finish: seq<int>, total: int, latest: seq<int>, slack: seq<int>,
    everyone: seq<nat>)
    requires Timed(g, d, start, finish, total, latest) && SlackOf(slack, finish, latest)
    requires |everyone| == |g| && forall i :: 0 <= i < |g| ==> everyone[i] == i
    ensures g != [] ==> exists i :: i in everyone && ZeroSlack(slack, i)
  {
    if g != [] {
      var last :| 0 <= last < |g| && finish[last] == total;
      assert everyone[last] in everyone && ZeroSlack(slack, last);
    }
  }

  lemma LastIsCritical(
    g: Adj, d: seq<int>, start: seq<int>, finish: seq<int>, total: int, latest: seq<int>, slack: seq<int>,
    everyone: seq<nat>, c: nat)
    requires Timed(g, d, start, finish, total, latest) && SlackOf(slack, finish, latest)
    requires |everyone| == |g| && forall i :: 0 <= i < |g| ==> everyone[i] == i
    requires exists k: nat :: IsBest(everyone, slack, finish, k) && c == everyone[k]
    ensures c < |g| && slack[c] == 0 && finish[c] == total
  {
    var last :| 0 <= last < |g| && finish[last] == total;
    assert ZeroSlack(slack, everyone[last]);
  }

  // ----- The whole chart -----

  predicate IsRunning(i: Issue, now: int) {
    i.status == InProgress && (i.assignee.None? || Held(i, now))
  }

  /** In progress, and either nobody's or on a lease that still runs. */
  ghost function RunningNow(nodes: seq<Issue>, now: int): (running: set<int>)
    ensures forall i :: i in running <==>
                        && 0 <= i < |nodes| && nodes[i].status == InProgress
                        && (nodes[i].assignee.Some? ==> nodes[i].expiresAt.Some? && now < nodes[i].expiresAt.value)
  {
    set i | 0 <= i < |nodes| && IsRunning(nodes[i], now)
  }

  method CountRunning(nodes: seq<Issue>, now: int) returns (c: nat)
    ensures c == |RunningNow(nodes, now)|
  {
    c := 0;
    ghost var seen: set<int> := {};
    for i := 0 to |nodes|
      invariant seen == set j | 0 <= j < i && IsRunning(nodes[j], now)
      invariant c == |seen|
    {
      if IsRunning(nodes[i], now) {
        c := c + 1;
        seen := seen + {i};
      }
    }
    assert seen == RunningNow(nodes, now);
  }

  function DurationsOf(nodes: seq<Issue>, default: int): (d: seq<int>)
    ensures |d| == |nodes| && forall i :: 0 <= i < |d| ==> d[i] == EstimateOf(nodes[i], default)
  {
    seq(|nodes|, i requires 0 <= i < |nodes| => EstimateOf(nodes[i], default))
  }

  ghost predicate NamesChain(nodes: seq<Issue>, chain: seq<nat>, ids: seq<int>) {
    && |ids| == |chain|
    && forall k :: 0 <= k < |chain| ==> chain[k] < |nodes| && ids[k] == nodes[chain[k]].id
  }

  /** `critical_path_minutes`: the durations of the critical ids, looked up through the index. */
  method SumMinutes(nodes: seq<Issue>, d: seq<int>, chain: seq<nat>, ids: seq<int>) returns (minutes: int)
    requires |d| == |nodes| && NamesChain(nodes, chain, ids)
    ensures UniqueIds(nodes) ==> minutes == Weight(d, chain)
  {
    var index := Index(nodes);
    minutes := 0;
    assert chain[..0] == [];
    for k := 0 to |ids|
      invariant UniqueIds(nodes) ==> minutes == Weight(d, chain[..k])
    {
      var i := index[ids[k]];
      minutes := minutes + d[i];
      assert chain[..k + 1] == chain[..k] + [chain[k]];
      WeightConcat(d, chain[..k], [chain[k]]);
      assert Weight(d, [chain[k]]) == d[chain[k]];
      assert UniqueIds(nodes) ==> i == chain[k];
    }
    assert chain[..|chain|] == chain;
  }

  datatype Timeline = Timeline(
    start: seq<int>, finish: seq<int>, latest: seq<int>, total: int, slack: seq<int>, chain: seq<nat>)

  /** The passes agree, every slack is exact, and the critical chain spans the plan without a gap. */
  ghost predicate IsTimeline(g: Adj, d: seq<int>, t: Timeline) {
    && Timed(g, d, t.start, t.finish, t.total, t.latest)
    && SlackOf(t.slack, t.finish, t.latest)
    && (g == [] ==> t.chain == [])
    && (g != [] ==> SpansPlan(g, t.start, t.finish, t.slack, t.total, t.chain))
  }

  method RunPasses(g: Adj, d: seq<int>, order: seq<nat>) returns (t: Timeline)
    requires Durations(g, d) && IsTopoOrder(g, order)
    ensures IsTimeline(g, d, t)
    ensures Weight(d, t.chain) == t.total
  {
    var startBuf, finishBuf := ForwardPass(g, d, order);
    var start, finish := startBuf[..], finishBuf[..];
    var total := LastFinish(finish);
    var latestBuf := BackwardPass(g, d, order, total);
    var latest := latestBuf[..];
    var slack := Slacks(g, d, order, start, finish, total, latest);
    var chain := CriticalChain(g, d, start, finish, total, latest, slack);
    t := Timeline(start, finish, latest, total, slack, chain);
    if g != [] {
      GapFreeWeight(g, d, start, finish, slack, chain);
    }
  }

  /** `peak` intervals share some instant, and no instant has more. */
  ghost predicate IsPeak(start: seq<int>, finish: seq<int>, peak: int)
    requires |start| == |finish|
  {
    && (forall t :: PlanPeak.Overlap(start, finish, |start|, t) <= peak)
    && exists t :: PlanPeak.Overlap(start, finish, |start|, t) == peak
  }

  /** The longest chains run through the node. */
  ghost predicate OnLongestChain(g: Adj, d: seq<int>, total: int, i: nat)
    requires |d| == |g|
  {
    exists c :: IsChain(g, c) && i in c && Weight(d, c) == total
  }

  /** A node is marked critical exactly if some chain through it is as long as the whole plan. */
  lemma CriticalIffOnLongestChain(g: Adj, d: seq<int>, order: seq<nat>, t: Timeline, i: nat)
    requires IsTimeline(g, d, t) && IsTopoOrder(g, order) && i < |g|
    ensures t.slack[i] == 0 <==> OnLongestChain(g, d, t.total, i)
  {
    SlackIsExact(g, d, t.start, t.finish, t.total, t.latest, i);
  }

  /** The card says when the node runs, at 60 seconds a minute from `now`, how long, and whether delay costs. */
  ghost predicate IsCard(nodes: seq<Issue>, default: int, now: int, t: Timeline, i: nat, c: GanttNode)
    requires i < |nodes| && IsTimeline(Adjacency(nodes), DurationsOf(nodes, default), t)
  {
    var n, g, d := nodes[i], Adjacency(nodes), DurationsOf(nodes, default);
    && c.id == n.id && c.key == n.metadata.key.GetOr(n.id) && c.status == n.status && c.group == n.metadata.group
    && c.estimate == d[i] && (c.fromMetadata <==> n.metadata.estimate.Some? && n.metadata.estimate.value > 0)
    && c.startAt == now + t.start[i] * 60 && c.finishAt == c.startAt + c.estimate * 60
    && c.slack == t.slack[i] && (c.critical <==> OnLongestChain(g, d, t.total, i))
  }

  ghost predicate AreCards(nodes: seq<Issue>, default: int, now: int, t: Timeline, cards: seq<GanttNode>)
    requires IsTimeline(Adjacency(nodes), DurationsOf(nodes, default), t)
  {
    |cards| == |nodes| && forall i: nat :: i < |nodes| ==> IsCard(nodes, default, now, t, i, cards[i])
  }

  function CardOf(n: Issue, estimate: int, start: int, finish: int, slack: int, now: int): GanttNode {
    GanttNode(
      n.id, n.metadata.key.GetOr(n.id), n.status, n.metadata.group, estimate,
      n.metadata.estimate.Some?
      && n.metadata.estimate.value > 0, slack, slack == 0, now + start * 60, now + finish * 60)
  }

  lemma CardIsRight(nodes: seq<Issue>, default: int, now: int, order: seq<nat>, t: Timeline, i: nat)
    requires IsTimeline(Adjacency(nodes), DurationsOf(nodes, default), t) && IsTopoOrder(Adjacency(nodes), order)
             && i < |nodes|
    ensures IsCard(nodes, default, now, t, i,
                   CardOf(nodes[i], DurationsOf(nodes, default)[i], t.start[i], t.finish[i], t.slack[i], now))
  {
    CriticalIffOnLongestChain(Adjacency(nodes), DurationsOf(nodes, default), order, t, i);
    assert Tight(Adjacency(nodes), t.start, t.finish, i);
  }

  method Cards(
    nodes: seq<Issue>, default: int, now: int, t: Timeline, ghost order: seq<nat>)
    returns (cards: seq<GanttNode>)
    requires IsTimeline(Adjacency(nodes), DurationsOf(nodes, default), t) && IsTopoOrder(Adjacency(nodes), order)
    ensures AreCards(nodes, default, now, t, cards)
  {
    cards := CardsOf(nodes, DurationsOf(nodes, default), t, now);
    forall i: nat | i < |nodes|
      ensures IsCard(nodes, default, now, t, i, cards[i])
    {
      CardIsRight(nodes, default, now, order, t, i);
    }
  }

  method CardsOf(nodes: seq<Issue>, d: seq<int>, t: Timeline, now: int) returns (cards: seq<GanttNode>)
    requires |nodes| == |d| == |t.start| == |t.finish| == |t.slack|
    ensures |cards| == |nodes|
    ensures forall i :: 0 <= i < |nodes| ==>
                          cards[i] == CardOf(nodes[i], d[i], t.start[i], t.finish[i], t.slack[i], now)
  {
    cards := [];
    for i := 0 to |nodes|
      invariant |cards| == i
      invariant forall j :: 0 <= j < i ==> cards[j] == CardOf(nodes[j], d[j], t.start[j], t.finish[j], t.slack[j], now)
    {
      cards := cards + [CardOf(nodes[i], d[i], t.start[i], t.finish[i], t.slack[i], now)];
    }
  }

  ghost predicate IsChart(nodes: seq<Issue>, default: int, now: int, c: Gantt) {
    var t := c.timeline;
    && IsTimeline(Adjacency(nodes), DurationsOf(nodes, default), t)
    && AreCards(nodes, default, now, t, c.nodes)
    && NamesChain(nodes, t.chain, c.criticalPath)
    && (UniqueIds(nodes) ==> c.criticalPathMinutes == t.total)
    && IsPeak(t.start, t.finish, c.peakConcurrency)
    && c.currentConcurrency == |RunningNow(nodes, now)|
  }

  /**
   Fails exactly on a cyclic plan. Otherwise the schedule is the least feasible one, every slack is
   exact, the cards mark exactly the nodes on a longest chain, the critical chain spans the plan without a gap,
       and the peak is attained and never exceeded.
   */
  method Chart(nodes: seq<Issue>, default: int, now: int) returns (r: Option<Gantt>)
    ensures r.Some? <==> Graph.Acyclic(EdgesOf(Adjacency(nodes)))
    ensures r.Some? ==> IsChart(nodes, default, now, r.value)
  {
    var order := Topo(Adjacency(nodes));
    if order.None? {
      return None;
    }
    var chart := ChartInOrder(nodes, default, now, order.value);
    r := Some(chart);
  }

  method ChartInOrder(nodes: seq<Issue>, default: int, now: int, order: seq<nat>) returns (c: Gantt)
    requires IsTopoOrder(Adjacency(nodes), order)
    ensures IsChart(nodes, default, now, c)
  {
    var d := DurationsOf(nodes, default);
    var t := RunPasses(Adjacency(nodes), d, order);
    var cards := Cards(nodes, default, now, t, order);
    c := Describe(nodes, default, now, t, cards);
  }

  lemma ChainInRange(nodes: seq<Issue>, default: int, t: Timeline)
    requires IsTimeline(Adjacency(nodes), DurationsOf(nodes, default), t)
    ensures forall k :: 0 <= k < |t.chain| ==> t.chain[k] < |nodes|
  {
  }

  method IdsAlong(nodes: seq<Issue>, chain: seq<nat>) returns (ids: seq<int>)
    requires forall k :: 0 <= k < |chain| ==> chain[k] < |nodes|
    ensures NamesChain(nodes, chain, ids)
  {
    ids := seq(|chain|, k requires 0 <= k < |chain| && chain[k] < |nodes| => nodes[chain[k]].id);
  }

  method Describe(nodes: seq<Issue>, default: int, now: int, t: Timeline, cards: seq<GanttNode>) returns (c: Gantt)
    requires IsTimeline(Adjacency(nodes), DurationsOf(nodes, default), t) && AreCards(nodes, default, now, t, cards)
    requires Weight(DurationsOf(nodes, default), t.chain) == t.total
    ensures IsChart(nodes, default, now, c)
  {
    var d := DurationsOf(nodes, default);
    ChainInRange(nodes, default, t);
    var ids := IdsAlong(nodes, t.chain);
    var minutes := SumMinutes(nodes, d, t.chain, ids);
    var peak := PlanPeak.Peak(t.start, t.finish);
    var running := CountRunning(nodes, now);
    c := Gantt(cards, t, ids, minutes, running, peak);
  }
}
