/**
 What the two passes of `gantt` (src/plan.rs) compute: the earliest-start schedule, the latest
 finishes, and how both measure chains of dependencies. Minutes are unbounded integers.
 */
module PlanSchedule {
  import opened Wrappers
  import opened Domain
  import opened PlanTopo

  /** `estimate_of_with_default`: a usable estimate, or the default raised to one minute. */
  function EstimateOf(i: Issue, default: int): (minutes: int)
    ensures minutes >= 1
    ensures i.metadata.estimate.Some? && i.metadata.estimate.value > 0 ==> minutes == i.metadata.estimate.value
    ensures !(i.metadata.estimate.Some? && i.metadata.estimate.value > 0) ==>
              minutes >= default && (minutes == default || minutes == 1)
  {
    match i.metadata.estimate
    case Some(m) => if m > 0 then m else Max(default, 1)
    case None => Max(default, 1)
  }

  ghost predicate Durations(g: Adj, d: seq<int>) {
    |d| == |g| && forall i :: 0 <= i < |d| ==> d[i] >= 1
  }

  // ----- Schedules and chains -----

  /** A start time for every node that waits for all of its dependencies to finish. */
  ghost predicate Feasible(g: Adj, d: seq<int>, s: seq<int>)
    requires Durations(g, d)
  {
    && |s| == |g|
    && (forall i :: 0 <= i < |s| ==> s[i] >= 0)
    && forall i, p :: 0 <= i < |s| && p in g[i] ==> s[p] + d[p] <= s[i]
  }

  /** A node that starts after minute 0 starts exactly when some dependency finishes. */
  ghost predicate Tight(g: Adj, start: seq<int>, finish: seq<int>, i: nat)
    requires i < |g| == |start| == |finish|
  {
    start[i] == 0 || exists p :: p in g[i] && finish[p] == start[i]
  }

  ghost predicate Scheduled(g: Adj, d: seq<int>, start: seq<int>, finish: seq<int>)
    requires Durations(g, d)
  {
    && Feasible(g, d, start)
    && |finish| == |g|
    && (forall i :: 0 <= i < |g| ==> finish[i] == start[i] + d[i])
    && forall i :: 0 <= i < |g| ==> Tight(g, start, finish, i)
  }

  /** The forward pass is the pointwise least feasible schedule. */
  lemma {:induction false} LeastSchedule(
    g: Adj, d: seq<int>, order: seq<nat>, start: seq<int>, finish: seq<int>, s: seq<int>, k: nat)
    requires Durations(g, d) && IsTopoOrder(g, order)
    requires Scheduled(g, d, start, finish) && Feasible(g, d, s)
    requires k < |order|
    ensures start[order[k]] <= s[order[k]]
    decreases k
  {
    OrderIsPermutation(g, order);
    var i := order[k];
    assert Tight(g, start, finish, i);
    if start[i] > 0 {
      var p :| p in g[i] && finish[p] == start[i];
      var j :| 0 <= j < k && order[j] == p;
      LeastSchedule(g, d, order, start, finish, s, j);
    }
  }

  lemma ForwardPassIsLeast(g: Adj, d: seq<int>, start: seq<int>, finish: seq<int>, s: seq<int>)
    requires Durations(g, d) && (exists order :: IsTopoOrder(g, order))
    requires Scheduled(g, d, start, finish) && Feasible(g, d, s)
    ensures forall i :: 0 <= i < |g| ==> start[i] <= s[i]
  {
    var order :| IsTopoOrder(g, order);
    OrderIsPermutation(g, order);
    forall i: nat | i < |g|
      ensures start[i] <= s[i]
    {
      assert i in Elems(order);
      LeastSchedule(g, d, order, start, finish, s, Position(order, i));
    }
  }

  ghost predicate Waits(g: Adj, c: seq<nat>, k: nat)
    requires k + 1 < |c| && forall j :: 0 <= j < |c| ==> c[j] < |g|
  {
    c[k] in g[c[k + 1]]
  }

  /** A chain of nodes, each waited for by the next one. */
  ghost predicate IsChain(g: Adj, c: seq<nat>) {
    && |c| > 0
    && (forall j :: 0 <= j < |c| ==> c[j] < |g|)
    && forall k :: 0 <= k < |c| - 1 ==> Waits(g, c, k)
  }

  ghost function Weight(d: seq<int>, c: seq<nat>): int
    requires forall j :: 0 <= j < |c| ==> c[j] < |d|
  {
    if c == [] then 0 else d[c[0]] + Weight(d, c[1..])
  }

  lemma {:induction false} WeightConcat(d: seq<int>, a: seq<nat>, b: seq<nat>)
    requires forall j :: 0 <= j < |a| ==> a[j] < |d|
    requires forall j :: 0 <= j < |b| ==> b[j] < |d|
    ensures Weight(d, a + b) == Weight(d, a) + Weight(d, b)
  {
    if a == [] {
      assert a + b == b;
    } else {
      assert (a + b)[1..] == a[1..] + b;
      WeightConcat(d, a[1..], b);
    }
  }

  lemma SubChain(g: Adj, c: seq<nat>, i: nat, j: nat)
    requires IsChain(g, c) && i < j <= |c|
    ensures IsChain(g, c[i..j])
  {
    forall k | 0 <= k < j - i - 1
      ensures Waits(g, c[i..j], k)
    {
      assert Waits(g, c, i + k);
    }
  }

  lemma JoinChains(g: Adj, a: seq<nat>, b: seq<nat>)
    requires IsChain(g, a) && IsChain(g, b) && a[|a| - 1] in g[b[0]]
    ensures IsChain(g, a + b)
  {
    var c := a + b;
    forall k | 0 <= k < |c| - 1
      ensures Waits(g, c, k)
    {
      if k < |a| - 1 {
        assert Waits(g, a, k);
      } else if k >= |a| {
        assert Waits(g, b, k - |a|);
      }
    }
  }

  lemma ChainDistinct(g: Adj, order: seq<nat>, c: seq<nat>)
    requires IsTopoOrder(g, order) && IsChain(g, c)
    ensures forall i, j :: 0 <= i < j < |c| ==> c[i] != c[j]
  {
    OrderIsPermutation(g, order);
    forall i, j | 0 <= i < j < |c|
      ensures c[i] != c[j]
    {
      ChainAscends(g, order, c, i, j);
    }
  }

  lemma {:induction false} ChainAscends(g: Adj, order: seq<nat>, c: seq<nat>, i: nat, j: nat)
    requires IsTopoOrder(g, order) && IsChain(g, c) && i < j < |c|
    ensures c[i] in order && c[j] in order && Position(order, c[i]) < Position(order, c[j])
  {
    assert Waits(g, c, j - 1);
    DependencyComesFirst(g, order, c[j], c[j - 1]);
    if i < j - 1 {
      ChainAscends(g, order, c, i, j - 1);
    }
  }

  lemma DependencyComesFirst(g: Adj, order: seq<nat>, i: nat, p: nat)
    requires IsTopoOrder(g, order) && i < |g| && p in g[i]
    ensures i in order && p in order && Position(order, p) < Position(order, i)
  {
    OrderIsPermutation(g, order);
    assert i in Elems(order);
    var at := Position(order, i);
    assert p in g[order[at]];
    var k :| 0 <= k < at && order[k] == p;
    assert k == Position(order, p);
  }

  // ----- The forward pass measures chains into a node -----

  lemma {:induction false} ChainFits(g: Adj, d: seq<int>, start: seq<int>, finish: seq<int>, c: seq<nat>)
    requires Durations(g, d) && Scheduled(g, d, start, finish) && IsChain(g, c)
    ensures Weight(d, c) <= finish[c[|c| - 1]]
  {
    var last := |c| - 1;
    assert c == c[..last] + [c[last]];
    WeightConcat(d, c[..last], [c[last]]);
    if last > 0 {
      SubChain(g, c, 0, last);
      ChainFits(g, d, start, finish, c[0..last]);
      assert c[0..last] == c[..last];
      assert Waits(g, c, last - 1);
    }
  }

  lemma {:induction false} LongestInto(
    g: Adj, d: seq<int>, order: seq<nat>, start: seq<int>, finish: seq<int>, k: nat)
    returns (c: seq<nat>)
    requires Durations(g, d) && IsTopoOrder(g, order) && Scheduled(g, d, start, finish) && k < |order|
    ensures IsChain(g, c) && c[|c| - 1] == order[k] && Weight(d, c) == finish[order[k]]
    decreases k
  {
    OrderIsPermutation(g, order);
    var i := order[k];
    assert Tight(g, start, finish, i);
    if start[i] == 0 {
      c := [i];
    } else {
      var j := TightDependency(g, order, start, finish, k);
      var a := LongestInto(g, d, order, start, finish, j);
      ExtendChain(g, d, a, i);
      c := a + [i];
    }
  }

  /** The dependency a late starter waits for, by its place in the order. */
  lemma TightDependency(g: Adj, order: seq<nat>, start: seq<int>, finish: seq<int>, k: nat) returns (j: nat)
    requires |start| == |finish| == |g| && WellFormed(g) && IsTopoOrder(g, order) && k < |order| && order[k] < |g|
    requires Tight(g, start, finish, order[k]) && start[order[k]] != 0
    ensures j < k && order[j] in g[order[k]] && order[j] < |g| && finish[order[j]] == start[order[k]]
  {
    OrderIsPermutation(g, order);
    var p :| p in g[order[k]] && finish[p] == start[order[k]];
    assert p in order[..k];
    j :| 0 <= j < k && order[j] == p;
  }

  /** A chain goes on to a node that depends on its last one, and weighs that much more. */
  lemma ExtendChain(g: Adj, d: seq<int>, a: seq<nat>, i: nat)
    requires Durations(g, d) && IsChain(g, a) && i < |g| && a[|a| - 1] in g[i]
    ensures IsChain(g, a + [i]) && Weight(d, a + [i]) == Weight(d, a) + d[i]
  {
    JoinChains(g, a, [i]);
    WeightConcat(d, a, [i]);
  }

  // ----- The backward pass measures chains out of a node -----

  ghost predicate Pressed(g: Adj, d: seq<int>, total: int, latest: seq<int>, p: nat)
    requires |d| == |g| == |latest| && p < |g|
  {
    latest[p] == total || exists c :: 0 <= c < |g| && p in g[c] && latest[p] == latest[c] - d[c]
  }

  /** Each node may finish as late as its tightest dependent allows. */
  ghost predicate LatestFinish(g: Adj, d: seq<int>, total: int, latest: seq<int>)
    requires Durations(g, d)
  {
    && |latest| == |g|
    && (forall i :: 0 <= i < |g| ==> latest[i] <= total)
    && (forall c, p :: 0 <= c < |g| && p in g[c] ==> latest[p] <= latest[c] - d[c])
    && forall p :: 0 <= p < |g| ==> Pressed(g, d, total, latest, p)
  }

  lemma {:induction false} TailFits(g: Adj, d: seq<int>, total: int, latest: seq<int>, c: seq<nat>)
    requires Durations(g, d) && LatestFinish(g, d, total, latest) && IsChain(g, c)
    ensures latest[c[0]] + Weight(d, c[1..]) <= total
  {
    if |c| > 1 {
      SubChain(g, c, 1, |c|);
      assert c[1..|c|] == c[1..];
      TailFits(g, d, total, latest, c[1..]);
      assert Waits(g, c, 0);
    }
  }

  lemma {:induction false} LongestOutOf(
    g: Adj, d: seq<int>, order: seq<nat>, total: int, latest: seq<int>, k: nat)
    returns (c: seq<nat>)
    requires Durations(g, d) && IsTopoOrder(g, order) && LatestFinish(g, d, total, latest) && k < |order|
    ensures IsChain(g, c) && c[0] == order[k] && latest[order[k]] + Weight(d, c[1..]) == total
    decreases |order| - k
  {
    OrderIsPermutation(g, order);
    var i := order[k];
    assert Pressed(g, d, total, latest, i);
    if latest[i] == total {
      c := [i];
    } else {
      var child: nat :| child < |g| && i in g[child] && latest[i] == latest[child] - d[child];
      assert child in Elems(order);
      var j := Position(order, child);
      assert i in order[..j];
      var b := LongestOutOf(g, d, order, total, latest, j);
      c := [i] + b;
      JoinChains(g, [i], b);
      assert c[1..] == b;
    }
  }

  // ----- Slack is exact -----

  ghost predicate IsMakespan(finish: seq<int>, total: int) {
    && (forall i :: 0 <= i < |finish| ==> finish[i] <= total)
    && (finish == [] ==> total == 0)
    && (finish != [] ==> exists i :: 0 <= i < |finish| && finish[i] == total)
  }

  /** Everything the two passes promise each other. */
  ghost predicate Timed(g: Adj, d: seq<int>, start: seq<int>, finish: seq<int>, total: int, latest: seq<int>) {
    && Durations(g, d)
    && Scheduled(g, d, start, finish)
    && IsMakespan(finish, total)
    && LatestFinish(g, d, total, latest)
  }

  lemma ThroughNode(
    g: Adj, d: seq<int>, start: seq<int>, finish: seq<int>, total: int, latest: seq<int>, c: seq<nat>, k: nat)
    requires Timed(g, d, start, finish, total, latest) && IsChain(g, c) && k < |c|
    ensures Weight(d, c) <= total - (latest[c[k]] - finish[c[k]])
  {
    SubChain(g, c, 0, k + 1);
    SubChain(g, c, k, |c|);
    ChainFits(g, d, start, finish, c[0..k + 1]);
    TailFits(g, d, total, latest, c[k..|c|]);
    assert c[k..|c|][1..] == c[k + 1..];
    assert c == c[0..k + 1] + c[k + 1..];
    WeightConcat(d, c[0..k + 1], c[k + 1..]);
  }

  lemma LongestThrough(
    g: Adj, d: seq<int>, order: seq<nat>, start: seq<int>, finish: seq<int>, total: int, latest: seq<int>, i: nat)
    returns (c: seq<nat>)
    requires Timed(g, d, start, finish, total, latest) && IsTopoOrder(g, order) && i < |g|
    ensures IsChain(g, c) && i in c && Weight(d, c) == total - (latest[i] - finish[i])
  {
    OrderIsPermutation(g, order);
    assert i in Elems(order);
    var k := Position(order, i);
    var a := LongestInto(g, d, order, start, finish, k);
    var b := LongestOutOf(g, d, order, total, latest, k);
    c := a + b[1..];
    WeightConcat(d, a, b[1..]);
    if |b| > 1 {
      SubChain(g, b, 1, |b|);
      assert b[1..|b|] == b[1..];
      assert Waits(g, b, 0);
      JoinChains(g, a, b[1..]);
    } else {
      assert c == a;
    }
    assert c[|a| - 1] == i;
  }

  /** The `.max(0)` on slack never acts. */
  lemma SlackNonNegative(
    g: Adj, d: seq<int>, order: seq<nat>, start: seq<int>, finish: seq<int>, total: int, latest: seq<int>, i: nat)
    requires Timed(g, d, start, finish, total, latest) && IsTopoOrder(g, order) && i < |g|
    ensures finish[i] <= latest[i]
  {
    var c := LongestThrough(g, d, order, start, finish, total, latest, i);
    ChainFits(g, d, start, finish, c);
  }

  /** Slack is the makespan minus the heaviest chain through the node. */
  lemma SlackIsExact(g: Adj, d: seq<int>, start: seq<int>, finish: seq<int>, total: int, latest: seq<int>, i: nat)
    requires Timed(g, d, start, finish, total, latest) && (exists order :: IsTopoOrder(g, order)) && i < |g|
    ensures forall c :: IsChain(g, c) && i in c ==> Weight(d, c) <= total - (latest[i] - finish[i])
    ensures exists c :: IsChain(g, c) && i in c && Weight(d, c) == total - (latest[i] - finish[i])
  {
    var order :| IsTopoOrder(g, order);
    var longest := LongestThrough(g, d, order, start, finish, total, latest, i);
    forall c | IsChain(g, c) && i in c
      ensures Weight(d, c) <= total - (latest[i] - finish[i])
    {
      var k :| 0 <= k < |c| && c[k] == i;
      ThroughNode(g, d, start, finish, total, latest, c, k);
    }
  }

  lemma {:induction false} WeightBump(d: seq<int>, i: nat, x: nat, c: seq<nat>)
    requires i < |d| && forall j :: 0 <= j < |c| ==> c[j] < |d|
    requires forall j, k :: 0 <= j < k < |c| ==> c[j] != c[k]
    ensures Weight(d[i := d[i] + x], c) == Weight(d, c) + if i in c then x else 0
  {
    if c != [] {
      WeightBump(d, i, x, c[1..]);
      assert c == [c[0]] + c[1..];
    }
  }

  lemma {:induction false} AttainedByChain(
    g: Adj, d: seq<int>, order: seq<nat>, start: seq<int>, finish: seq<int>, total: int)
    returns (c: seq<nat>)
    requires Durations(g, d) && IsTopoOrder(g, order) && Scheduled(g, d, start, finish) && IsMakespan(finish, total)
             && |g| > 0
    ensures IsChain(g, c) && Weight(d, c) == total
  {
    var j: nat :| j < |g| && finish[j] == total;
    OrderIsPermutation(g, order);
    assert j in Elems(order);
    c := LongestInto(g, d, order, start, finish, Position(order, j));
  }

  /** Delaying node `i` by `x` moves the recomputed makespan by exactly what its slack does not absorb. */
  lemma SlackAbsorbsDelay(
    g: Adj, d: seq<int>, start: seq<int>, finish: seq<int>, total: int, latest: seq<int>,
    i: nat, x: nat, start': seq<int>, finish': seq<int>, total': int)
    requires Timed(g, d, start, finish, total, latest) && (exists order :: IsTopoOrder(g, order)) && i < |g|
    requires Durations(g, d[i := d[i] + x])
    requires Scheduled(g, d[i := d[i] + x], start', finish') && IsMakespan(finish', total')
    ensures total' == Max(total, total - (latest[i] - finish[i]) + x)
  {
    var order :| IsTopoOrder(g, order);
    var d' := d[i := d[i] + x];
    var worst := AttainedByChain(g, d', order, start', finish', total');
    ChainDistinct(g, order, worst);
    WeightBump(d, i, x, worst);
    ChainFits(g, d, start, finish, worst);
    if k :| 0 <= k < |worst| && worst[k] == i {
      ThroughNode(g, d, start, finish, total, latest, worst, k);
    }
    var old' := AttainedByChain(g, d, order, start, finish, total);
    ChainDistinct(g, order, old');
    WeightBump(d, i, x, old');
    ChainFits(g, d', start', finish', old');
    var through := LongestThrough(g, d, order, start, finish, total, latest, i);
    ChainDistinct(g, order, through);
    WeightBump(d, i, x, through);
    ChainFits(g, d', start', finish', through);
  }
}
