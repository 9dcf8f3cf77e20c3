/**
 Finite directed graphs over integer nodes. An edge `(child, parent)` says that `child` waits for
 (or sits under) `parent`; the dependency table, the folder tree, the issue hierarchy and the index
 graph of a plan are all read as such edge sets.
 */
module Graph {
  type Edges = set<(int, int)>

  ghost predicate Hop(e: Edges, p: seq<int>, k: int)
    requires 0 <= k < |p| - 1
  {
    (p[k], p[k + 1]) in e
  }

  ghost predicate IsPath(e: Edges, p: seq<int>) {
    |p| > 0 && forall k :: 0 <= k < |p| - 1 ==> Hop(e, p, k)
  }

  ghost predicate PathFromTo(e: Edges, p: seq<int>, a: int, b: int) {
    IsPath(e, p) && p[0] == a && p[|p| - 1] == b
  }

  /** `b` is `a` or is reachable from `a`. */
  ghost predicate Reach(e: Edges, a: int, b: int) {
    exists p :: PathFromTo(e, p, a, b)
  }

  ghost predicate IsCycle(e: Edges, p: seq<int>) {
    IsPath(e, p) && |p| >= 2 && p[0] == p[|p| - 1]
  }

  ghost predicate Acyclic(e: Edges) {
    forall p :: !IsCycle(e, p)
  }

  /** Every successor of a member of `s` is a member of `s`. */
  ghost predicate Closed(e: Edges, s: set<int>) {
    forall x, y :: x in s && (x, y) in e ==> y in s
  }

  lemma ReachSelf(e: Edges, a: int)
    ensures Reach(e, a, a)
  {
    assert PathFromTo(e, [a], a, a);
  }

  lemma ReachEdge(e: Edges, a: int, b: int)
    requires (a, b) in e
    ensures Reach(e, a, b)
  {
    assert Hop(e, [a, b], 0);
    assert PathFromTo(e, [a, b], a, b);
  }

  lemma JoinPaths(e: Edges, p: seq<int>, q: seq<int>)
    requires IsPath(e, p) && IsPath(e, q) && p[|p| - 1] == q[0]
    ensures PathFromTo(e, p + q[1..], p[0], q[|q| - 1])
  {
    var r := p + q[1..];
    forall k | 0 <= k < |r| - 1
      ensures Hop(e, r, k)
    {
      if k < |p| - 1 {
        assert Hop(e, p, k);
      } else {
        assert Hop(e, q, k - (|p| - 1));
      }
    }
  }

  lemma SubPath(e: Edges, p: seq<int>, i: int, j: int)
    requires IsPath(e, p) && 0 <= i < j <= |p|
    ensures PathFromTo(e, p[i..j], p[i], p[j - 1])
  {
    forall k | 0 <= k < j - i - 1
      ensures Hop(e, p[i..j], k)
    {
      assert Hop(e, p, i + k);
    }
  }

  lemma ReachTrans(e: Edges, a: int, b: int, c: int)
    requires Reach(e, a, b) && Reach(e, b, c)
    ensures Reach(e, a, c)
  {
    var p :| PathFromTo(e, p, a, b);
    var q :| PathFromTo(e, q, b, c);
    JoinPaths(e, p, q);
  }

  lemma ReachMono(e: Edges, f: Edges, a: int, b: int)
    requires e <= f && Reach(e, a, b)
    ensures Reach(f, a, b)
  {
    var p :| PathFromTo(e, p, a, b);
    forall k | 0 <= k < |p| - 1
      ensures Hop(f, p, k)
    {
      assert Hop(e, p, k);
    }
    assert PathFromTo(f, p, a, b);
  }

  lemma AcyclicMono(e: Edges, f: Edges)
    requires e <= f && Acyclic(f)
    ensures Acyclic(e)
  {
    forall p | IsCycle(e, p)
      ensures false
    {
      forall k | 0 <= k < |p| - 1
        ensures Hop(f, p, k)
      {
        assert Hop(e, p, k);
      }
      assert IsCycle(f, p);
    }
  }

  /** A path that starts inside a closed set stays inside it. */
  lemma {:induction false} ClosedPath(e: Edges, s: set<int>, p: seq<int>, k: nat)
    requires Closed(e, s) && IsPath(e, p) && p[0] in s && k < |p|
    ensures p[k] in s
  {
    if k > 0 {
      ClosedPath(e, s, p, k - 1);
      assert Hop(e, p, k - 1);
      var x, y := p[k - 1], p[k];
      assert (x, y) in e;
    }
  }

  lemma ClosedReach(e: Edges, s: set<int>, a: int, b: int)
    requires Closed(e, s) && a in s && Reach(e, a, b)
    ensures b in s
  {
    var p :| PathFromTo(e, p, a, b);
    ClosedPath(e, s, p, |p| - 1);
  }

  /** A non-trivial path out of `a` begins with an edge. */
  lemma FirstHop(e: Edges, a: int, b: int) returns (next: int)
    requires Reach(e, a, b) && a != b
    ensures (a, next) in e && Reach(e, next, b)
  {
    var p :| PathFromTo(e, p, a, b);
    assert Hop(e, p, 0);
    next := p[1];
    SubPath(e, p, 1, |p|);
  }

  /** A non-trivial path into `b` ends with an edge. */
  lemma LastHop(e: Edges, a: int, b: int) returns (prev: int)
    requires Reach(e, a, b) && a != b
    ensures (prev, b) in e && Reach(e, a, prev)
  {
    var p :| PathFromTo(e, p, a, b);
    prev := p[|p| - 2];
    assert Hop(e, p, |p| - 2);
    SubPath(e, p, 0, |p| - 1);
  }

  /** In an acyclic graph an edge cannot be closed by a path back. */
  lemma NoReturn(e: Edges, a: int, b: int)
    requires Acyclic(e) && (a, b) in e
    ensures !Reach(e, b, a)
  {
    if Reach(e, b, a) {
      var p :| PathFromTo(e, p, b, a);
      assert Hop(e, [a, b], 0);
      JoinPaths(e, [a, b], p);
      assert IsCycle(e, [a, b] + p[1..]);
    }
  }

  // ----- Ranks -----

  lemma {:induction false} RankFalls(e: Edges, rank: map<int, int>, p: seq<int>, k: nat)
    requires forall x, y :: (x, y) in e ==> x in rank && y in rank && rank[y] < rank[x]
    requires IsPath(e, p) && 0 < k < |p|
    ensures p[0] in rank && p[k] in rank && rank[p[k]] < rank[p[0]]
  {
    assert Hop(e, p, k - 1);
    var x, y := p[k - 1], p[k];
    assert (x, y) in e;
    if k > 1 {
      RankFalls(e, rank, p, k - 1);
    }
  }

  /** A strictly decreasing rank along edges witnesses acyclicity. */
  lemma RankedIsAcyclic(e: Edges, rank: map<int, int>)
    requires forall x, y :: (x, y) in e ==> x in rank && y in rank && rank[y] < rank[x]
    ensures Acyclic(e)
  {
    forall p | IsCycle(e, p)
      ensures false
    {
      RankFalls(e, rank, p, |p| - 1);
    }
  }

  function FirstIndex(s: seq<int>, x: int): (k: nat)
    requires x in s
    ensures k < |s| && s[k] == x && forall j :: 0 <= j < k ==> s[j] != x
  {
    if s[0] == x then 0
    else
      var k := FirstIndex(s[1..], x);
      k + 1
  }

  /** Every successor of a listed node is listed before it. */
  ghost predicate Finished(e: Edges, s: seq<int>) {
    forall k, y :: 0 <= k < |s| && (s[k], y) in e ==> y in s[..k]
  }

  lemma FinishedIsAcyclic(e: Edges, s: seq<int>)
    requires Finished(e, s) && forall x, y :: (x, y) in e ==> x in s
    ensures Acyclic(e)
  {
    var rank: map<int, int> := map x: int | x in s :: FirstIndex(s, x);
    forall x, y | (x, y) in e
      ensures x in rank && y in rank && rank[y] < rank[x]
    {
      assert s[rank[x]] == x;
      assert y in s[..rank[x]];
      var k :| 0 <= k < rank[x] && s[k] == y;
      assert FirstIndex(s, y) <= k;
    }
    RankedIsAcyclic(e, rank);
  }

  /** A graph that maps edge by edge into an acyclic one is acyclic. */
  lemma MappedIsAcyclic(e: Edges, f: Edges, h: int -> int)
    requires Acyclic(f) && forall x, y :: (x, y) in e ==> (h(x), h(y)) in f
    ensures Acyclic(e)
  {
    forall p | IsCycle(e, p)
      ensures false
    {
      var q := seq(|p|, k requires 0 <= k < |p| => h(p[k]));
      forall k | 0 <= k < |q| - 1
        ensures Hop(f, q, k)
      {
        assert Hop(e, p, k);
        var x, y := p[k], p[k + 1];
        assert (x, y) in e;
      }
      assert IsCycle(f, q);
    }
  }

  /** A path from inside `s` uses only edges that leave `s`. */
  lemma HopsStay(e: Edges, part: Edges, s: set<int>, p: seq<int>)
    requires IsPath(e, p) && p[0] in s
    requires forall x, y :: x in s && (x, y) in e ==> (x, y) in part && y in s
    ensures IsPath(part, p)
  {
    forall k | 0 <= k < |p| - 1
      ensures Hop(part, p, k)
    {
      ClosedPath(e, s, p, k);
      assert Hop(e, p, k);
      var x, y := p[k], p[k + 1];
      assert (x, y) in e;
    }
  }

  /** Two acyclic graphs on separate nodes make an acyclic graph. */
  lemma ApartIsAcyclic(e: Edges, f: Edges, s: set<int>)
    requires Acyclic(e) && Acyclic(f)
    requires forall x, y :: (x, y) in e ==> x !in s && y !in s
    requires forall x, y :: (x, y) in f ==> x in s && y in s
    ensures Acyclic(e + f)
  {
    forall p | IsCycle(e + f, p)
      ensures false
    {
      assert Hop(e + f, p, 0);
      var a, b := p[0], p[1];
      assert (a, b) in e + f;
      if a in s {
        HopsStay(e + f, f, s, p);
        assert IsCycle(f, p);
      } else {
        var side := {a} + (set d | d in e :: d.1);
        forall x, y | x in side && (x, y) in e + f
          ensures (x, y) in e && y in side
        {
          var q := (x, y);
          if x != a {
            var d :| d in e && d.1 == x;
            var from := d.0;
            assert (from, x) in e;
          } else {
            assert a !in s;
          }
          assert x !in s;
          assert q in e || (q in f && x in s);
        }
        HopsStay(e + f, e, side, p);
        assert IsCycle(e, p);
      }
    }
  }

  // ----- Adding one edge -----

  /** Cut a path to `c` before its first use of an edge leaving `c`. */
  lemma {:induction false} CutAtSource(e: Edges, c: int, q: int, p: seq<int>)
    requires IsPath(e + {(c, q)}, p) && p[|p| - 1] == c
    ensures Reach(e, p[0], c)
    decreases |p|
  {
    if p[0] == c {
      ReachSelf(e, c);
    } else {
      assert Hop(e + {(c, q)}, p, 0);
      SubPath(e + {(c, q)}, p, 1, |p|);
      CutAtSource(e, c, q, p[1..|p|]);
      ReachEdge(e, p[0], p[1]);
      ReachTrans(e, p[0], p[1], c);
    }
  }

  /** The test `add_dep` makes is exact: the new edge closes a cycle iff its head reaches its tail. */
  lemma AddEdge(e: Edges, c: int, q: int)
    requires Acyclic(e)
    ensures Acyclic(e + {(c, q)}) <==> !Reach(e, q, c)
  {
    var f := e + {(c, q)};
    if Reach(e, q, c) {
      ReachMono(e, f, q, c);
      if Acyclic(f) {
        NoReturn(f, c, q);
      }
    } else {
      forall p | IsCycle(f, p)
        ensures false
      {
        var k := FirstUse(e, c, q, p);
        SubPath(f, p, 0, k + 1);
        SubPath(f, p, k + 1, |p|);
        var back, fore := p[k + 1..|p|], p[0..k + 1];
        JoinPaths(f, back, fore);
        CutAtSource(e, c, q, back + fore[1..]);
      }
    }
  }

  lemma FirstUse(e: Edges, c: int, q: int, p: seq<int>) returns (k: nat)
    requires Acyclic(e) && IsCycle(e + {(c, q)}, p)
    ensures k < |p| - 1 && p[k] == c && p[k + 1] == q
  {
    if forall k :: 0 <= k < |p| - 1 ==> Hop(e, p, k) {
      assert IsCycle(e, p);
    } else {
      k :| 0 <= k < |p| - 1 && !Hop(e, p, k);
      assert Hop(e + {(c, q)}, p, k);
    }
  }

  // ----- A finite set in which every node has a successor contains a cycle -----

  ghost predicate HasNext(e: Edges, s: set<int>, x: int) {
    exists y :: y in s && (x, y) in e
  }

  lemma {:induction false} LongPath(e: Edges, s: set<int>, start: int, n: nat) returns (p: seq<int>)
    requires start in s && forall x :: x in s ==> HasNext(e, s, x)
    ensures IsPath(e, p) && |p| == n + 1 && forall k :: 0 <= k < |p| ==> p[k] in s
  {
    if n == 0 {
      p := [start];
    } else {
      var q := LongPath(e, s, start, n - 1);
      assert HasNext(e, s, q[|q| - 1]);
      var y :| y in s && (q[|q| - 1], y) in e;
      p := q + [y];
      forall k | 0 <= k < |p| - 1
        ensures Hop(e, p, k)
      {
        if k < |q| - 1 {
          assert Hop(e, q, k);
        }
      }
    }
  }

  lemma {:induction false} Pigeonhole(s: set<int>, p: seq<int>) returns (i: nat, j: nat)
    requires |p| > |s| && forall k :: 0 <= k < |p| ==> p[k] in s
    ensures i < j < |p| && p[i] == p[j]
  {
    var last := |p| - 1;
    if k :| 0 <= k < last && p[k] == p[last] {
      i, j := k, last;
    } else {
      i, j := Pigeonhole(s - {p[last]}, p[..last]);
    }
  }

  lemma StuckHasCycle(e: Edges, s: set<int>, start: int)
    requires start in s && forall x :: x in s ==> HasNext(e, s, x)
    ensures !Acyclic(e)
  {
    var p := LongPath(e, s, start, |s|);
    var i, j := Pigeonhole(s, p);
    SubPath(e, p, i, j + 1);
    assert IsCycle(e, p[i..j + 1]);
  }

  // ----- Paths in functional graphs -----

  ghost predicate Functional(e: Edges) {
    forall x, y, z :: (x, y) in e && (x, z) in e ==> y == z
  }

  /** Two targets of one node in a functional graph lie on one chain. */
  lemma {:induction false} OneChain(e: Edges, p: seq<int>, b: int, c: int)
    requires Functional(e) && |p| > 0 && PathFromTo(e, p, p[0], b) && Reach(e, p[0], c)
    ensures Reach(e, b, c) || Reach(e, c, b)
    decreases |p|
  {
    if |p| > 1 && p[0] != c {
      var next := FirstHop(e, p[0], c);
      assert Hop(e, p, 0);
      SubPath(e, p, 1, |p|);
      OneChain(e, p[1..|p|], b, c);
    }
  }
}
