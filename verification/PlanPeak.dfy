/** The event sweep of `gantt` (src/plan.rs) that counts overlapping scheduled intervals. */
module PlanPeak {
  import opened Sorting

  datatype Event = Event(t: int, delta: int)

  /** `sort_by_key(|(t, delta)| (*t, *delta))`: at equal times ends come before starts. */
  function ByTime(): (Event, Event) -> bool {
    (a: Event, b: Event) => a.t < b.t || (a.t == b.t && a.delta < b.delta)
  }

  ghost predicate Sorted(s: seq<Event>) {
    InOrder(ByTime(), s)
  }

  ghost function Sum(s: seq<Event>): int {
    if s == [] then 0 else s[0].delta + Sum(s[1..])
  }

  /** The sum of the changes that have happened by time `t`. */
  ghost function Net(s: seq<Event>, t: int): int {
    if s == [] then 0 else (if s[0].t <= t then s[0].delta else 0) + Net(s[1..], t)
  }

  /** The intervals `[start, finish)` among the first `n` that contain `t`. */
  ghost function Active(start: seq<int>, finish: seq<int>, n: nat, t: int): set<nat>
    requires n <= |start| == |finish|
  {
    set i: nat | i < n && start[i] <= t < finish[i]
  }

  ghost function Overlap(start: seq<int>, finish: seq<int>, n: nat, t: int): nat
    requires n <= |start| == |finish|
  {
    |Active(start, finish, n, t)|
  }

  lemma OverlapStep(start: seq<int>, finish: seq<int>, n: nat, t: int)
    requires n < |start| == |finish|
    ensures Overlap(start, finish, n + 1, t) ==
            Overlap(start, finish, n, t) + if start[n] <= t < finish[n] then 1 else 0
  {
    assert Active(start, finish, n + 1, t) ==
           Active(start, finish, n, t) + if start[n] <= t < finish[n] then {n} else {};
  }

  lemma {:induction false} NetAppend(a: seq<Event>, b: seq<Event>, t: int)
    ensures Net(a + b, t) == Net(a, t) + Net(b, t)
    ensures Sum(a + b) == Sum(a) + Sum(b)
  {
    if a == [] {
      assert a + b == b;
    } else {
      assert (a + b)[1..] == a[1..] + b;
      NetAppend(a[1..], b, t);
    }
  }

  lemma {:induction false} NetInsert(e: Event, s: seq<Event>, t: int)
    ensures Net(Insert(ByTime(), e, s), t) == Net([e] + s, t)
  {
    if s != [] && !ByTime()(e, s[0]) {
      NetInsert(e, s[1..], t);
      assert Insert(ByTime(), e, s)[1..] == Insert(ByTime(), e, s[1..]);
      assert ([e] + s)[1..] == s && ([e] + s[1..])[1..] == s[1..];
    }
  }

  lemma {:induction false} NetSort(s: seq<Event>, t: int)
    ensures Net(Sort(ByTime(), s), t) == Net(s, t)
  {
    if s != [] {
      var init, last := s[..|s| - 1], [s[|s| - 1]];
      NetSort(init, t);
      NetInsert(last[0], Sort(ByTime(), init), t);
      NetAppend(last, Sort(ByTime(), init), t);
      NetAppend(init, last, t);
      assert s == init + last;
    }
  }

  /** A prefix of a sorted sweep that stops at time `t` sums to the changes up to `t`. */
  lemma {:induction false} PrefixAt(s: seq<Event>, t: int) returns (k: nat)
    requires Sorted(s)
    ensures k <= |s| && Net(s, t) == Sum(s[..k])
  {
    if s == [] || s[0].t > t {
      k := 0;
      NothingYet(s, t);
    } else {
      var j := PrefixAt(s[1..], t);
      k := j + 1;
      assert s[..k] == [s[0]] + s[1..][..j];
    }
  }

  lemma {:induction false} NothingYet(s: seq<Event>, t: int)
    requires forall i :: 0 <= i < |s| ==> s[i].t > t
    ensures Net(s, t) == 0
  {
    if s != [] {
      NothingYet(s[1..], t);
    }
  }

  lemma {:induction false} AllHappened(s: seq<Event>, t: int)
    requires forall i :: 0 <= i < |s| ==> s[i].t <= t
    ensures Net(s, t) == Sum(s)
  {
    if s != [] {
      AllHappened(s[1..], t);
    }
  }

  lemma {:induction false} OnlyStartsLeft(s: seq<Event>, t: int)
    requires forall i :: 0 <= i < |s| && s[i].t <= t ==> s[i].delta >= 1
    ensures Net(s, t) >= 0
  {
    if s != [] {
      OnlyStartsLeft(s[1..], t);
    }
  }

  /** Whatever a prefix of the sweep sums to is reached at some instant. */
  lemma {:induction false} PrefixIsReached(s: seq<Event>, k: nat) returns (t: int)
    requires Sorted(s) && k <= |s|
    requires forall i :: 0 <= i < |s| ==> s[i].delta == 1 || s[i].delta == -1
    requires forall t :: Net(s, t) >= 0
    ensures Sum(s[..k]) <= Net(s, t)
  {
    if k == 0 {
      t := 0;
    } else {
      assert s[..k] == s[..k - 1] + [s[k - 1]];
      NetAppend(s[..k - 1], [s[k - 1]], 0);
      if s[k - 1].delta == -1 {
        t := PrefixIsReached(s, k - 1);
      } else {
        t := s[k - 1].t;
        assert s == s[..k] + s[k..];
        NetAppend(s[..k], s[k..], t);
        AllHappened(s[..k], t);
        OnlyStartsLeft(s[k..], t);
      }
    }
  }

  /** Pushes a start and an end for every interval. */
  method Events(start: seq<int>, finish: seq<int>) returns (events: seq<Event>)
    requires |start| == |finish| && forall i :: 0 <= i < |start| ==> start[i] <= finish[i]
    ensures forall i :: 0 <= i < |events| ==> events[i].delta == 1 || events[i].delta == -1
    ensures forall t :: Net(events, t) == Overlap(start, finish, |start|, t)
  {
    events := [];
    for i := 0 to |start|
      invariant forall i :: 0 <= i < |events| ==> events[i].delta == 1 || events[i].delta == -1
      invariant forall t :: Net(events, t) == Overlap(start, finish, i, t)
    {
      var pair := [Event(start[i], 1), Event(finish[i], -1)];
      forall t
        ensures Net(events + pair, t) == Overlap(start, finish, i + 1, t)
      {
        NetAppend(events, pair, t);
        OverlapStep(start, finish, i, t);
        assert pair[1..] == [Event(finish[i], -1)];
        assert Net(pair[1..], t) == if finish[i] <= t then -1 else 0;
      }
      events := events + pair;
    }
  }

  /** The running count and its maximum over every prefix of the sweep. */
  method Sweep(events: seq<Event>) returns (peak: int)
    ensures forall j :: 0 <= j <= |events| ==> Sum(events[..j]) <= peak
    ensures exists j :: 0 <= j <= |events| && Sum(events[..j]) == peak
  {
    var running := 0;
    peak := 0;
    assert Sum(events[..0]) == 0;
    for k := 0 to |events|
      invariant running == Sum(events[..k])
      invariant forall j :: 0 <= j <= k ==> Sum(events[..j]) <= peak
      invariant exists j :: 0 <= j <= k && Sum(events[..j]) == peak
    {
      assert events[..k + 1] == events[..k] + [events[k]];
      NetAppend(events[..k], [events[k]], 0);
      running := running + events[k].delta;
      peak := if peak < running then running else peak;
    }
  }

  /** The peak of the sweep is the largest number of intervals that share an instant. */
  method Peak(start: seq<int>, finish: seq<int>) returns (peak: int)
    requires |start| == |finish| && forall i :: 0 <= i < |start| ==> start[i] <= finish[i]
    ensures forall t :: Overlap(start, finish, |start|, t) <= peak
    ensures exists t :: Overlap(start, finish, |start|, t) == peak
  {
    var raw := Events(start, finish);
    var events := Sort(ByTime(), raw);
    SortOrders(ByTime(), raw);
    forall i | 0 <= i < |events|
      ensures events[i].delta == 1 || events[i].delta == -1
    {
      assert events[i] in events;
    }
    forall t
      ensures Net(events, t) == Overlap(start, finish, |start|, t)
    {
      NetSort(raw, t);
    }
    peak := Sweep(events);
    forall t
      ensures Overlap(start, finish, |start|, t) <= peak
    {
      var k := PrefixAt(events, t);
    }
    ghost var j :| 0 <= j <= |events| && Sum(events[..j]) == peak;
    ghost var at := PrefixIsReached(events, j);
    assert Overlap(start, finish, |start|, at) == peak;
  }
}
