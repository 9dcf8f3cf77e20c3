/** Stable insertion sort by a strict order, standing in for `sort_by_key`. */
module Sorting {
  ghost predicate StrictOrder<T(!new)>(less: (T, T) -> bool) {
    && (forall a :: !less(a, a))
    && forall a, b, c :: less(a, b) && less(b, c) ==> less(a, c)
  }

  ghost predicate InOrder<T(!new)>(less: (T, T) -> bool, s: seq<T>) {
    forall i, j :: 0 <= i < j < |s| ==> !less(s[j], s[i])
  }

  ghost predicate Distinct<T(!new)>(s: seq<T>) {
    forall i, j :: 0 <= i < j < |s| ==> s[i] != s[j]
  }

  function Insert<T(!new)>(less: (T, T) -> bool, x: T, s: seq<T>): (r: seq<T>)
    ensures |r| == |s| + 1
    ensures forall y :: y in r <==> y == x || y in s
  {
    if s == [] then [x]
    else if less(x, s[0]) then [x] + s
    else [s[0]] + Insert(less, x, s[1..])
  }

  /** Each element goes in behind the ones already placed that are not greater. */
  function Sort<T(!new)>(less: (T, T) -> bool, s: seq<T>): (r: seq<T>)
    ensures |r| == |s|
    ensures forall y :: y in r <==> y in s
  {
    if s == [] then []
    else Insert(less, s[|s| - 1], Sort(less, s[..|s| - 1]))
  }

  lemma {:induction false} InsertKeepsOrder<T(!new)>(less: (T, T) -> bool, x: T, s: seq<T>)
    requires StrictOrder(less) && InOrder(less, s)
    ensures InOrder(less, Insert(less, x, s))
  {
    if s != [] && !less(x, s[0]) {
      InsertKeepsOrder(less, x, s[1..]);
      var rest := Insert(less, x, s[1..]);
      forall j | 0 <= j < |rest|
        ensures !less(rest[j], s[0])
      {
        assert rest[j] in rest;
      }
    }
  }

  lemma {:induction false} SortOrders<T(!new)>(less: (T, T) -> bool, s: seq<T>)
    requires StrictOrder(less)
    ensures InOrder(less, Sort(less, s))
  {
    if s != [] {
      SortOrders(less, s[..|s| - 1]);
      InsertKeepsOrder(less, s[|s| - 1], Sort(less, s[..|s| - 1]));
    }
  }

  lemma {:induction false} InsertKeepsAll<T(!new)>(less: (T, T) -> bool, x: T, s: seq<T>)
    ensures multiset(Insert(less, x, s)) == multiset(s) + multiset{x}
  {
    if s != [] && !less(x, s[0]) {
      InsertKeepsAll(less, x, s[1..]);
      assert s == [s[0]] + s[1..];
    }
  }

  /** Nothing is lost, added or repeated. */
  lemma {:induction false} SortKeepsAll<T(!new)>(less: (T, T) -> bool, s: seq<T>)
    ensures multiset(Sort(less, s)) == multiset(s)
  {
    if s != [] {
      SortKeepsAll(less, s[..|s| - 1]);
      InsertKeepsAll(less, s[|s| - 1], Sort(less, s[..|s| - 1]));
      assert s == s[..|s| - 1] + [s[|s| - 1]];
    }
  }

  lemma {:induction false} InsertKeepsDistinct<T(!new)>(less: (T, T) -> bool, x: T, s: seq<T>)
    requires Distinct(s) && x !in s
    ensures Distinct(Insert(less, x, s))
  {
    if s != [] && !less(x, s[0]) {
      InsertKeepsDistinct(less, x, s[1..]);
      var rest := Insert(less, x, s[1..]);
      forall j | 0 <= j < |rest|
        ensures rest[j] != s[0]
      {
        assert rest[j] in rest;
      }
    }
  }

  lemma {:induction false} SortKeepsDistinct<T(!new)>(less: (T, T) -> bool, s: seq<T>)
    requires Distinct(s)
    ensures Distinct(Sort(less, s))
  {
    if s != [] {
      var last := |s| - 1;
      SortKeepsDistinct(less, s[..last]);
      InsertKeepsDistinct(less, s[last], Sort(less, s[..last]));
    }
  }

  /** `x` stands somewhere before `y`. */
  ghost predicate Precedes<T(!new)>(s: seq<T>, x: T, y: T) {
    exists i, j :: 0 <= i < j < |s| && s[i] == x && s[j] == y
  }

  lemma PrecedesTail<T(!new)>(s: seq<T>, x: T, y: T)
    requires s != []
    ensures Precedes(s, x, y) <==> (x == s[0] && y in s[1..]) || Precedes(s[1..], x, y)
  {
    var t := s[1..];
    assert forall k :: 0 <= k < |t| ==> t[k] == s[k + 1];
    if x == s[0] && y in t {
      var j :| 0 <= j < |t| && t[j] == y;
      assert s[j + 1] == y;
    }
    if i, j :| 0 <= i < j < |t| && t[i] == x && t[j] == y {
      assert s[i + 1] == x && s[j + 1] == y;
    }
    if i, j :| 0 <= i < j < |s| && s[i] == x && s[j] == y {
      assert t[j - 1] == y && (i > 0 ==> t[i - 1] == x);
    }
  }

  /** Not being less is transitive: what sorting by a key gives. */
  ghost predicate WeakOrder<T(!new)>(less: (T, T) -> bool) {
    StrictOrder(less) && forall a, b, c :: !less(a, b) && !less(b, c) ==> !less(a, c)
  }

  /** Inserting moves nothing past anything. */
  lemma {:induction false} InsertKeepsBefore<T(!new)>(less: (T, T) -> bool, x: T, s: seq<T>, a: T, b: T)
    requires Precedes(s, a, b)
    ensures Precedes(Insert(less, x, s), a, b)
  {
    var r := Insert(less, x, s);
    PrecedesTail(s, a, b);
    PrecedesTail(r, a, b);
    if less(x, s[0]) {
      assert r[1..] == s;
    } else if Precedes(s[1..], a, b) {
      InsertKeepsBefore(less, x, s[1..], a, b);
    }
  }

  /** The new element goes behind everything that is not greater. */
  lemma {:induction false} InsertGoesBehind<T(!new)>(less: (T, T) -> bool, x: T, s: seq<T>, a: T)
    requires WeakOrder(less) && InOrder(less, s) && a in s && !less(x, a)
    ensures Precedes(Insert(less, x, s), a, x)
  {
    var r := Insert(less, x, s);
    var k :| 0 <= k < |s| && s[k] == a;
    PrecedesTail(r, a, x);
    assert k > 0 ==> !less(a, s[0]) && a == s[1..][k - 1];
    assert !less(x, s[0]);
    if k > 0 {
      InsertGoesBehind(less, x, s[1..], a);
    }
  }

  /** The sort is stable: an element stays ahead of a later one that is not less. */
  lemma {:induction false} SortIsStable<T(!new)>(less: (T, T) -> bool, s: seq<T>, a: T, b: T)
    requires WeakOrder(less) && Precedes(s, a, b) && !less(b, a)
    ensures Precedes(Sort(less, s), a, b)
  {
    var last := |s| - 1;
    var init := Sort(less, s[..last]);
    SortOrders(less, s[..last]);
    var i, j :| 0 <= i < j < |s| && s[i] == a && s[j] == b;
    assert s[..last][i] == a;
    if j < last {
      assert s[..last][j] == b;
      SortIsStable(less, s[..last], a, b);
      InsertKeepsBefore(less, s[last], init, a, b);
    } else {
      InsertGoesBehind(less, b, init, a);
    }
  }
}
