/** Plan specs and their structural validation (src/plan.rs, `validate`). */
module PlanSpec {
  import opened Wrappers
  import Graph

  /** A string that is empty once trimmed. */
  predicate Blank(s: int) {
    s < 0
  }

  datatype NodeSpec = NodeSpec(
    key: int, title: int, project: Option<int>, group: Option<int>, risk: string,
    estimate: Option<int>, deps: seq<int>, priority: Option<int>)

  datatype ResolvedPlan = ResolvedPlan(name: int, project: int, nodes: seq<NodeSpec>)

  datatype Problem =
    | EmptyPlan | EmptyProject | NoNodes
    | EmptyKey(title: int) | DuplicateKey(key: int) | EmptyTitle(key: int) | BadRisk(key: int) | BadEstimate(key: int)
    | SelfDep(key: int) | UnknownDep(key: int, dep: int)
    | CycleAt(key: int)

  predicate ValidRisk(risk: string) {
    risk == "" || risk == "low" || risk == "medium" || risk == "high" || risk == "critical"
  }

  // ----- What each problem means -----

  ghost predicate KeyedBefore(nodes: seq<NodeSpec>, k: nat, key: int)
    requires k <= |nodes|
  {
    exists j :: 0 <= j < k && nodes[j].key == key
  }

  /** A fault of node `k` on its own, or of its key against the nodes before it. */
  ghost predicate NodeFault(nodes: seq<NodeSpec>, k: nat, p: Problem)
    requires k < |nodes|
  {
    var n := nodes[k];
    match p
    case EmptyKey(title) => title == n.title && Blank(n.key)
    case DuplicateKey(key) => key == n.key && !Blank(key) && KeyedBefore(nodes, k, key)
    case EmptyTitle(key) => key == n.key && Blank(n.title)
    case BadRisk(key) => key == n.key && n.risk !in {"", "low", "medium", "high", "critical"}
    case BadEstimate(key) => key == n.key && n.estimate.Some? && n.estimate.value <= 0
    case _ => false
  }

  ghost predicate Known(nodes: seq<NodeSpec>, key: int) {
    !Blank(key) && KeyedBefore(nodes, |nodes|, key)
  }

  ghost predicate DepFault(nodes: seq<NodeSpec>, k: nat, p: Problem)
    requires k < |nodes|
  {
    match p
    case SelfDep(key) => key == nodes[k].key && key in nodes[k].deps
    case UnknownDep(key, dep) => key == nodes[k].key && dep in nodes[k].deps && dep != key && !Known(nodes, dep)
    case _ => false
  }

  ghost predicate HeaderFault(plan: ResolvedPlan, p: Problem) {
    match p
    case EmptyPlan => Blank(plan.name)
    case EmptyProject => Blank(plan.project)
    case NoNodes => plan.nodes == []
    case _ => false
  }

  /** Every fault but cycles. */
  ghost predicate Fault(plan: ResolvedPlan, p: Problem) {
    || HeaderFault(plan, p)
    || (exists k :: 0 <= k < |plan.nodes| && NodeFault(plan.nodes, k, p))
    || (exists k :: 0 <= k < |plan.nodes| && DepFault(plan.nodes, k, p))
  }

  // ----- The key graph -----

  /** On a repeated key the last node wins. */
  function ByKey(nodes: seq<NodeSpec>): (m: map<int, NodeSpec>)
    ensures forall key :: key in m <==> exists j :: 0 <= j < |nodes| && nodes[j].key == key
    ensures forall key :: key in m ==> m[key] in nodes && m[key].key == key
  {
    if nodes == [] then map[]
    else
      var last := nodes[|nodes| - 1];
      ByKey(nodes[..|nodes| - 1])[last.key := last]
  }

  /** `(key, dep)` for every dependency of a key on a key. */
  ghost function KeyEdges(byKey: map<int, NodeSpec>): (e: Graph.Edges)
    ensures forall x, y :: (x, y) in e <==> x in byKey && y in byKey[x].deps && y in byKey
  {
    set x, y | x in byKey && y in byKey[x].deps && y in byKey :: (x, y)
  }

  // ----- Checks on single nodes -----

  method NodeFaults(nodes: seq<NodeSpec>, k: nat, keys: set<int>) returns (found: seq<Problem>, keys': set<int>)
    requires k < |nodes| && forall key :: key in keys <==> !Blank(key) && KeyedBefore(nodes, k, key)
    ensures forall p :: p in found <==> NodeFault(nodes, k, p)
    ensures forall key :: key in keys' <==> !Blank(key) && KeyedBefore(nodes, k + 1, key)
  {
    var n := nodes[k];
    found, keys' := [], keys;
    if Blank(n.key) {
      found := found + [EmptyKey(n.title)];
    } else if n.key in keys {
      found := found + [DuplicateKey(n.key)];
    } else {
      keys' := keys + {n.key};
    }
    if Blank(n.title) {
      found := found + [EmptyTitle(n.key)];
    }
    if !ValidRisk(n.risk) {
      found := found + [BadRisk(n.key)];
    }
    if n.estimate.Some? && n.estimate.value <= 0 {
      found := found + [BadEstimate(n.key)];
    }
    forall key
      ensures KeyedBefore(nodes, k + 1, key) <==> KeyedBefore(nodes, k, key) || key == n.key
    {
    }
  }

  method CheckNodes(nodes: seq<NodeSpec>) returns (problems: seq<Problem>, keys: set<int>)
    ensures forall p :: p in problems <==> exists k :: 0 <= k < |nodes| && NodeFault(nodes, k, p)
    ensures forall key :: key in keys <==> Known(nodes, key)
  {
    problems, keys := [], {};
    for k := 0 to |nodes|
      invariant forall p :: p in problems <==> exists j :: 0 <= j < k && NodeFault(nodes, j, p)
      invariant forall key :: key in keys <==> !Blank(key) && KeyedBefore(nodes, k, key)
    {
      var found;
      found, keys := NodeFaults(nodes, k, keys);
      problems := problems + found;
    }
  }

  method DepFaults(nodes: seq<NodeSpec>, k: nat, keys: set<int>) returns (found: seq<Problem>)
    requires k < |nodes| && forall key :: key in keys <==> Known(nodes, key)
    ensures forall p :: p in found <==> DepFault(nodes, k, p)
  {
    var n := nodes[k];
    found := [];
    for i := 0 to |n.deps|
      invariant forall p :: p in found <==> exists j :: 0 <= j < i
                                                        && p == DepProblem(n.key, n.deps[j],
                                                                           n.deps[j] in keys).GetOr(EmptyPlan)
                                                        && DepProblem(n.key, n.deps[j], n.deps[j] in keys).Some?
    {
      var p := DepProblem(n.key, n.deps[i], n.deps[i] in keys);
      if p.Some? {
        found := found + [p.value];
      }
    }
    forall p
      ensures p in found <==> DepFault(nodes, k, p)
    {
      if DepFault(nodes, k, p) {
        var d := if p.SelfDep? then p.key else p.dep;
        var j :| 0 <= j < |n.deps| && n.deps[j] == d;
        assert DepProblem(n.key, n.deps[j], n.deps[j] in keys) == Some(p);
      }
    }
  }

  function DepProblem(key: int, dep: int, known: bool): Option<Problem> {
    if dep == key then Some(SelfDep(key)) else if !known then Some(UnknownDep(key, dep)) else None
  }

  method CheckDeps(nodes: seq<NodeSpec>, keys: set<int>) returns (problems: seq<Problem>)
    requires forall key :: key in keys <==> Known(nodes, key)
    ensures forall p :: p in problems <==> exists k :: 0 <= k < |nodes| && DepFault(nodes, k, p)
  {
    problems := [];
    for k := 0 to |nodes|
      invariant forall p :: p in problems <==> exists j :: 0 <= j < k && DepFault(nodes, j, p)
    {
      var found := DepFaults(nodes, k, keys);
      problems := problems + found;
    }
  }

  // ----- The colouring search for cycles -----

  datatype Color = Grey | Black

  type Colors = map<int, Color>

  ghost predicate Is(color: Colors, x: int, c: Color) {
    x in color && color[x] == c
  }

  /** A chain of at least one dependency leads from `x` to `y`. */
  ghost predicate Above(e: Graph.Edges, x: int, y: int) {
    exists z :: (x, z) in e && Graph.Reach(e, z, y)
  }

  /**
   `done` lists the black keys in the order they turned black; it is in dependency order until a cycle is reported.
   */
  ghost predicate Search(byKey: map<int, NodeSpec>, color: Colors, done: seq<int>, problems: seq<Problem>) {
    var e := KeyEdges(byKey);
    && color.Keys <= byKey.Keys
    && (forall x :: x in done <==> Is(color, x, Black))
    && (problems == [] ==> Graph.Finished(e, done))
    && (forall p :: p in problems ==> p.CycleAt? && Above(e, p.key, p.key))
  }

  /** What a visit may change: white keys turn black, and problems are added. */
  ghost predicate Onward(before: Colors, problems: seq<Problem>, after: Colors, problems': seq<Problem>) {
    && before.Keys <= after.Keys
    && (forall x :: Is(after, x, Grey) <==> Is(before, x, Grey))
    && (forall x :: Is(before, x, Black) ==> Is(after, x, Black))
    && (problems != [] ==> problems' != [])
  }

  /** A key above itself lies on a cycle. */
  lemma AboveItself(e: Graph.Edges, x: int)
    requires Above(e, x, x)
    ensures !Graph.Acyclic(e)
  {
    var z :| (x, z) in e && Graph.Reach(e, z, x);
    if Graph.Acyclic(e) {
      Graph.NoReturn(e, x, z);
    }
  }

  lemma AboveStep(e: Graph.Edges, x: int, y: int, z: int)
    requires (x == y || Above(e, x, y)) && (y, z) in e
    ensures Above(e, x, z)
  {
    Graph.ReachSelf(e, z);
    if x != y {
      var w :| (x, w) in e && Graph.Reach(e, w, y);
      Graph.ReachEdge(e, y, z);
      Graph.ReachTrans(e, w, y, z);
    }
  }

  /** `visit`: every grey key is on the way down to `key`, so meeting one again is a cycle through it. */
  method Visit(key: int, byKey: map<int, NodeSpec>, color: Colors, problems: seq<Problem>, ghost done: seq<int>)
    returns (color': Colors, problems': seq<Problem>, ghost done': seq<int>)
    requires key in byKey && Search(byKey, color, done, problems)
    requires forall x :: Is(color, x, Grey) ==> Above(KeyEdges(byKey), x, key)
    ensures Search(byKey, color', done', problems') && Onward(color, problems, color', problems')
    ensures if Is(color, key, Grey) then problems' == problems + [CycleAt(key)] else Is(color', key, Black)
    decreases byKey.Keys - color.Keys
  {
    ghost var e := KeyEdges(byKey);
    color', problems', done' := color, problems, done;
    if key in color {
      if color[key] == Grey {
        problems' := problems + [CycleAt(key)];
        assert Is(color, key, Grey);
      }
      return;
    }
    color' := color'[key := Grey];
    ghost var entered := color';
    var deps := byKey[key].deps;
    for j := 0 to |deps|
      invariant Search(byKey, color', done', problems') && Onward(entered, problems, color', problems')
      invariant problems' == [] ==> forall i :: 0 <= i < j && deps[i] in byKey ==> deps[i] in done'
    {
      var dep := deps[j];
      if dep in byKey {
        assert (key, dep) in e;
        forall x | Is(color', x, Grey)
          ensures Above(e, x, dep)
        {
          AboveStep(e, x, key, dep);
        }
        assert key in byKey.Keys - color.Keys && key in color';
        color', problems', done' := Visit(dep, byKey, color', problems', done');
      }
    }
    if problems' == [] {
      FinishedStep(e, done', key);
    }
    assert forall x :: Is(color', x, Grey) <==> x == key || Is(color, x, Grey);
    color', done' := color'[key := Black], done' + [key];
  }

  lemma FinishedStep(e: Graph.Edges, done: seq<int>, key: int)
    requires Graph.Finished(e, done) && forall y :: (key, y) in e ==> y in done
    ensures Graph.Finished(e, done + [key])
  {
    var next := done + [key];
    forall k, y | 0 <= k < |next| && (next[k], y) in e
      ensures y in next[..k]
    {
      if k < |done| {
        assert next[k] == done[k] && next[..k] == done[..k];
      } else {
        assert next[..k] == done;
      }
    }
  }

  method CheckCycles(nodes: seq<NodeSpec>) returns (problems: seq<Problem>)
    ensures forall p :: p in problems ==> p.CycleAt? && Above(KeyEdges(ByKey(nodes)), p.key, p.key)
    ensures problems == [] <==> Graph.Acyclic(KeyEdges(ByKey(nodes)))
  {
    var byKey := ByKey(nodes);
    var color: Colors := map[];
    ghost var done: seq<int> := [];
    problems := [];
    for k := 0 to |nodes|
      invariant Search(byKey, color, done, problems)
      invariant forall x :: !Is(color, x, Grey)
      invariant problems == [] ==> forall j :: 0 <= j < k ==> nodes[j].key in done
    {
      assert nodes[k].key in byKey;
      color, problems, done := Visit(nodes[k].key, byKey, color, problems, done);
    }
    if problems == [] {
      Graph.FinishedIsAcyclic(KeyEdges(byKey), done);
    } else {
      assert problems[0] in problems;
      AboveItself(KeyEdges(byKey), problems[0].key);
    }
  }

  // ----- Validation -----

  /** A plan `validate` lets through. */
  ghost predicate Sound(plan: ResolvedPlan) {
    && (forall p :: !Fault(plan, p))
    && Graph.Acyclic(KeyEdges(ByKey(plan.nodes)))
  }

  /** Every problem is reported, not just the first; a cycle exactly when there is one, at a key that lies on one. */
  method Validate(plan: ResolvedPlan) returns (problems: seq<Problem>)
    ensures forall p: Problem :: !p.CycleAt? ==> (p in problems <==> Fault(plan, p))
    ensures forall p :: p in problems && p.CycleAt? ==> Above(KeyEdges(ByKey(plan.nodes)), p.key, p.key)
    ensures (exists p :: p in problems && p.CycleAt?) <==> !Graph.Acyclic(KeyEdges(ByKey(plan.nodes)))
    ensures problems == [] <==> Sound(plan)
  {
    var header := CheckHeader(plan);
    var ofNodes, keys := CheckNodes(plan.nodes);
    var ofDeps := CheckDeps(plan.nodes, keys);
    var cycles := CheckCycles(plan.nodes);
    Assembled(plan, header, ofNodes, ofDeps, cycles);
    problems := header + ofNodes + ofDeps + cycles;
    if cycles != [] {
      assert cycles[0] in cycles;
      assert cycles[0] in problems;
    }
  }

  method CheckHeader(plan: ResolvedPlan) returns (problems: seq<Problem>)
    ensures forall p :: p in problems <==> HeaderFault(plan, p)
  {
    problems := [];
    if Blank(plan.name) {
      problems := problems + [EmptyPlan];
    }
    if Blank(plan.project) {
      problems := problems + [EmptyProject];
    }
    if plan.nodes == [] {
      problems := problems + [NoNodes];
    }
  }

  /** The faults and the cycles together are the report. */
  lemma Assembled(
    plan: ResolvedPlan, header: seq<Problem>, ofNodes: seq<Problem>, ofDeps: seq<Problem>, cycles: seq<Problem>)
    requires forall p :: p in header <==> HeaderFault(plan, p)
    requires forall p :: p in ofNodes <==> exists k :: 0 <= k < |plan.nodes| && NodeFault(plan.nodes, k, p)
    requires forall p :: p in ofDeps <==> exists k :: 0 <= k < |plan.nodes| && DepFault(plan.nodes, k, p)
    requires forall p :: p in cycles ==> p.CycleAt?
    ensures var problems := header + ofNodes + ofDeps + cycles;
            && (forall p: Problem :: !p.CycleAt? ==> (p in problems <==> Fault(plan, p)))
            && (forall p :: p in problems && p.CycleAt? ==> p in cycles)
            && (forall p :: p in cycles ==> p in problems)
            && (problems == [] <==> cycles == [] && forall p :: !Fault(plan, p))
  {
    var problems := header + ofNodes + ofDeps + cycles;
    forall p: Problem
      ensures p in problems <==> Fault(plan, p) || p in cycles
    {
      assert p in problems <==> p in header || p in ofNodes || p in ofDeps || p in cycles;
    }
    if problems != [] {
      assert problems[0] in problems;
    }
  }

  /** What soundness means for the parts of a plan. */
  lemma SoundParts(plan: ResolvedPlan)
    requires Sound(plan)
    ensures plan.nodes != []
    ensures forall i, j :: 0 <= i < j < |plan.nodes| ==> plan.nodes[i].key != plan.nodes[j].key
    ensures forall i, d :: 0 <= i < |plan.nodes| && d in plan.nodes[i].deps ==>
                             d in ByKey(plan.nodes) && d != plan.nodes[i].key
  {
    assert HeaderFault(plan, NoNodes) ==> Fault(plan, NoNodes);
    forall i: nat, j: nat | i < j < |plan.nodes|
      ensures plan.nodes[i].key != plan.nodes[j].key
    {
      SoundKeys(plan, i, j);
    }
    forall i: nat, d | i < |plan.nodes| && d in plan.nodes[i].deps
      ensures d in ByKey(plan.nodes) && d != plan.nodes[i].key
    {
      SoundDep(plan, i, d);
    }
  }

  lemma SoundKeys(plan: ResolvedPlan, i: nat, j: nat)
    requires Sound(plan) && i < j < |plan.nodes|
    ensures plan.nodes[i].key != plan.nodes[j].key
  {
    var n := plan.nodes[j];
    if plan.nodes[i].key == n.key {
      var p := if Blank(n.key) then EmptyKey(n.title) else DuplicateKey(n.key);
      assert KeyedBefore(plan.nodes, j, n.key);
      assert NodeFault(plan.nodes, j, p);
      assert Fault(plan, p);
    }
  }

  lemma SoundDep(plan: ResolvedPlan, i: nat, d: int)
    requires Sound(plan) && i < |plan.nodes| && d in plan.nodes[i].deps
    ensures d in ByKey(plan.nodes) && d != plan.nodes[i].key
  {
    var key := plan.nodes[i].key;
    assert DepFault(plan.nodes, i, SelfDep(d)) ==> Fault(plan, SelfDep(d));
    assert DepFault(plan.nodes, i, UnknownDep(key, d)) ==> Fault(plan, UnknownDep(key, d));
    assert Known(plan.nodes, d) ==> d in ByKey(plan.nodes);
  }
}
