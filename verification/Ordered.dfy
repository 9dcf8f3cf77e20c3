/** Ascending enumeration of finite integer sets, standing in for ordered maps and `sort`. */
module Ordered {
  lemma EmptyOrNot(s: set<int>)
    ensures s == {} || exists x :: x in s
  {
    if forall x :: x !in s {
    }
  }

  lemma {:induction false} SubsetSize<T>(a: set<T>, b: set<T>)
    requires a <= b
    ensures |a| <= |b|
  {
    if x :| x in a {
      SubsetSize(a - {x}, b - {x});
    }
  }

  lemma LeastExists(s: set<int>) returns (m: int)
    requires s != {}
    ensures m in s && forall x :: x in s ==> m <= x
  {
    EmptyOrNot(s);
    var first :| first in s;
    m := first;
    if x :| x in s && x < first {
      assert x in s - {first};
      m := LeastExists(s - {first});
      forall y | y in s
        ensures m <= y
      {
        assert y == first || y in s - {first};
      }
    }
  }

  function Least(s: set<int>): (m: int)
    requires s != {}
    ensures m in s && forall x :: x in s ==> m <= x
  {
    assert exists m :: m in s && forall x :: x in s ==> m <= x by {
      var least := LeastExists(s);
    }
    var m :| m in s && forall x :: x in s ==> m <= x;
    m
  }

  ghost predicate Ascending(q: seq<int>) {
    forall i, j :: 0 <= i < j < |q| ==> q[i] < q[j]
  }

  function Sorted(s: set<int>): (q: seq<int>)
    ensures Ascending(q) && forall x :: x in q <==> x in s
  {
    if s == {} then []
    else
      var m := Least(s);
      var rest := Sorted(s - {m});
      assert forall i :: 0 <= i < |rest| ==> rest[i] in s - {m};
      assert forall x :: x in s ==> x == m || x in s - {m};
      [m] + rest
  }

  /** Two ascending lists of the same numbers are equal. */
  lemma {:induction false} AscendingIsUnique(p: seq<int>, q: seq<int>)
    requires Ascending(p) && Ascending(q) && forall x :: x in p <==> x in q
    ensures p == q
  {
    if p == [] {
      assert forall i :: 0 <= i < |q| ==> q[i] !in q;
    } else {
      assert p[0] in q && (q != [] ==> q[0] in p);
      assert p[0] == q[0];
      forall x
        ensures x in p[1..] <==> x in q[1..]
      {
        assert x in p[1..] <==> x in p && x != p[0];
        assert x in q[1..] <==> x in q && x != q[0];
      }
      AscendingIsUnique(p[1..], q[1..]);
    }
  }
}
