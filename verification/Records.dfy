/**
 The append-only record engine (src/records.rs): a log of revisions per record type, a live-key
 index beside it, and an optional durable trail that is replayed on open. Record types `N` and
 row values `V` are parameters; keys are sequences of components.
 */
module Records {
  import opened Wrappers
  import Sorting

  type Key = seq<int>

  datatype Revision<+V> = Revision(number: int, key: Key, data: V, deleted: bool)

  /** One line of the durable trail: a revision with the record type it belongs to. */
  datatype Line<+N, +V> = Line(name: N, revision: Revision<V>)

  // ----- Key order -----

  /** Keys are ordered component by component, a prefix before what extends it. */
  predicate KeyBefore(a: Key, b: Key) {
    b != [] && (a == [] || a[0] < b[0] || (a[0] == b[0] && KeyBefore(a[1..], b[1..])))
  }

  function KeyOrder(): (Key, Key) -> bool {
    (a: Key, b: Key) => KeyBefore(a, b)
  }

  lemma {:induction false} KeyBeforeTrans(a: Key, b: Key, c: Key)
    requires KeyBefore(a, b) && KeyBefore(b, c)
    ensures KeyBefore(a, c)
  {
    if a != [] && a[0] == b[0] == c[0] {
      KeyBeforeTrans(a[1..], b[1..], c[1..]);
    }
  }

  lemma {:induction false} NotBeforeItself(a: Key)
    ensures !KeyBefore(a, a)
  {
    if a != [] {
      NotBeforeItself(a[1..]);
    }
  }

  /** Of two different keys one comes first, so a listing in key order is unique. */
  lemma {:induction false} KeyOrderIsTotal(a: Key, b: Key)
    requires a != b
    ensures KeyBefore(a, b) || KeyBefore(b, a)
  {
    if a != [] && b != [] && a[0] == b[0] {
      assert a == [a[0]] + a[1..] && b == [b[0]] + b[1..];
      KeyOrderIsTotal(a[1..], b[1..]);
    }
  }

  /** The first component in which two keys differ decides; a key comes before every longer one that begins with it. */
  lemma {:induction false} KeyOrderLaw(a: Key, b: Key, k: nat)
    requires k <= |a| && k <= |b| && a[..k] == b[..k]
    ensures k == |a| < |b| ==> KeyBefore(a, b) && !KeyBefore(b, a)
    ensures k < |a| && k < |b| && a[k] < b[k] ==> KeyBefore(a, b) && !KeyBefore(b, a)
  {
    if k > 0 {
      assert a[0] == a[..k][0] == b[..k][0] == b[0];
      assert a[1..][..k - 1] == a[..k][1..] == b[..k][1..] == b[1..][..k - 1];
      KeyOrderLaw(a[1..], b[1..], k - 1);
    }
  }

  lemma KeyOrderIsStrict()
    ensures Sorting.StrictOrder(KeyOrder())
  {
    forall a: Key
      ensures !KeyOrder()(a, a)
    {
      NotBeforeItself(a);
    }
    forall a: Key, b: Key, c: Key | KeyOrder()(a, b) && KeyOrder()(b, c)
      ensures KeyOrder()(a, c)
    {
      KeyBeforeTrans(a, b, c);
    }
  }

  // ----- Meaning of a history -----

  /** The rows a history leaves behind: each key's latest revision, unless that is a tombstone. */
  ghost function Rows<V>(h: seq<Revision<V>>): map<Key, V> {
    if h == [] then map[]
    else
      var before, r := Rows(h[..|h| - 1]), h[|h| - 1];
      if r.deleted then before - {r.key} else before[r.key := r.data]
  }

  ghost predicate IsLatest<V>(h: seq<Revision<V>>, key: Key, k: int) {
    && 0 <= k < |h|
    && h[k].key == key
    && forall j :: k < j < |h| ==> h[j].key != key
  }

  /** A key is a row exactly when its latest revision is not a tombstone, and holds that revision's data. */
  lemma {:induction false} LatestDecides<V>(h: seq<Revision<V>>, key: Key, k: int)
    requires IsLatest(h, key, k)
    ensures key in Rows(h) <==> !h[k].deleted
    ensures key in Rows(h) ==> Rows(h)[key] == h[k].data
  {
    var last := |h| - 1;
    if k < last {
      assert h[..last][k] == h[k];
      LatestDecides(h[..last], key, k);
    }
  }

  lemma {:induction false} NeverWritten<V>(h: seq<Revision<V>>, key: Key)
    requires forall j :: 0 <= j < |h| ==> h[j].key != key
    ensures key !in Rows(h)
  {
    if h != [] {
      NeverWritten(h[..|h| - 1], key);
    }
  }

  lemma RowsAppend<V>(h: seq<Revision<V>>, r: Revision<V>)
    ensures Rows(h + [r]) == if r.deleted then Rows(h) - {r.key} else Rows(h)[r.key := r.data]
  {
    assert (h + [r])[..|h|] == h;
  }

  // ----- The engine's state as a value -----

  datatype Log<N, V> = Log(history: map<N, seq<Revision<V>>>, live: map<N, set<Key>>, seqNo: int) {
    ghost function HistoryOf(n: N): seq<Revision<V>> {
      if n in history then history[n] else []
    }

    ghost function LiveOf(n: N): set<Key> {
      if n in live then live[n] else {}
    }
  }

  ghost function EmptyLog<N, V>(): Log<N, V> {
    Log(map[], map[], 0)
  }

  /** What one revision does to the log, whether it is being written or replayed. */
  ghost function Apply<N, V>(log: Log<N, V>, line: Line<N, V>): Log<N, V> {
    var r := line.revision;
    Log(
      log.history[line.name := log.HistoryOf(line.name) + [r]],
      log.live[line.name := if r.deleted then log.LiveOf(line.name) - {r.key} else log.LiveOf(line.name) + {r.key}],
      if log.seqNo < r.number then r.number else log.seqNo)
  }

  ghost function Replay<N, V>(trail: seq<Line<N, V>>): Log<N, V> {
    if trail == [] then EmptyLog() else Apply(Replay(trail[..|trail| - 1]), trail[|trail| - 1])
  }

  /** The live index of a record type lists exactly its rows, and its sequence numbers only grow. */
  ghost predicate TableOk<V>(h: seq<Revision<V>>, live: set<Key>, seqNo: int) {
    && live == Rows(h).Keys
    && (forall i :: 0 <= i < |h| ==> 0 < h[i].number <= seqNo)
    && forall i, j :: 0 <= i < j < |h| ==> h[i].number < h[j].number
  }

  ghost predicate Indexed<N, V>(log: Log<N, V>, n: N) {
    TableOk(log.HistoryOf(n), log.LiveOf(n), log.seqNo)
  }

  ghost predicate Consistent<N(!new), V>(log: Log<N, V>) {
    log.seqNo >= 0 && forall n :: Indexed(log, n)
  }

  lemma TableOkAppend<V>(h: seq<Revision<V>>, live: set<Key>, seqNo: int, r: Revision<V>)
    requires TableOk(h, live, seqNo) && r.number > seqNo >= 0
    ensures TableOk(h + [r], if r.deleted then live - {r.key} else live + {r.key}, r.number)
    ensures TableOk(h, live, r.number)
  {
    RowsAppend(h, r);
  }

  lemma ApplyConsistent<N(!new), V>(log: Log<N, V>, line: Line<N, V>)
    requires Consistent(log) && line.revision.number > log.seqNo
    ensures Consistent(Apply(log, line))
  {
    var next := Apply(log, line);
    forall n
      ensures Indexed(next, n)
    {
      assert Indexed(log, n);
      assert n != line.name ==> next.HistoryOf(n) == log.HistoryOf(n) && next.LiveOf(n) == log.LiveOf(n);
      TableOkAppend(log.HistoryOf(n), log.LiveOf(n), log.seqNo, line.revision);
    }
  }

  /** One revision touches one record type, and there only at the end. */
  lemma ApplyFacts<N(!new), V>(log: Log<N, V>, line: Line<N, V>)
    ensures var name, r := line.name, line.revision;
            Rows(Apply(log, line).HistoryOf(name)) ==
            if r.deleted then Rows(log.HistoryOf(name)) - {r.key} else Rows(log.HistoryOf(name))[r.key := r.data]
    ensures forall n :: n != line.name ==> Apply(log, line).HistoryOf(n) == log.HistoryOf(n)
    ensures forall n :: log.HistoryOf(n) <= Apply(log, line).HistoryOf(n)
  {
    RowsAppend(log.HistoryOf(line.name), line.revision);
  }

  lemma ReplayAppend<N, V>(trail: seq<Line<N, V>>, line: Line<N, V>)
    ensures Replay(trail + [line]) == Apply(Replay(trail), line)
  {
    assert (trail + [line])[..|trail|] == trail;
  }

  // ----- Whole runs -----

  /** A write as a caller issues it: the engine picks the sequence number. */
  datatype Write<+N, +V> = Write(name: N, key: Key, data: V, deleted: bool)

  /** The trail a durable engine has written after a run of appends and applied swaps. */
  ghost function TrailOf<N, V>(writes: seq<Write<N, V>>): seq<Line<N, V>> {
    if writes == [] then []
    else
      var before, w := TrailOf(writes[..|writes| - 1]), writes[|writes| - 1];
      before + [Line(w.name, Revision(Replay(before).seqNo + 1, w.key, w.data, w.deleted))]
  }

  /** After any run, replaying the trail gives a consistent log whose counter is the number of writes. */
  lemma {:induction false} EveryRunReplays<N(!new), V>(writes: seq<Write<N, V>>)
    ensures Consistent(Replay(TrailOf(writes)))
    ensures Replay(TrailOf(writes)).seqNo == |writes|
    ensures |TrailOf(writes)| == |writes|
  {
    if writes != [] {
      var before, w := TrailOf(writes[..|writes| - 1]), writes[|writes| - 1];
      EveryRunReplays(writes[..|writes| - 1]);
      var line := Line(w.name, Revision(Replay(before).seqNo + 1, w.key, w.data, w.deleted));
      ReplayAppend(before, line);
      ApplyConsistent(Replay(before), line);
    }
  }

  /** A longer run only extends every history. */
  lemma RunsExtend<N(!new), V>(writes: seq<Write<N, V>>, n: N)
    requires writes != []
    ensures Replay(TrailOf(writes[..|writes| - 1])).HistoryOf(n) <= Replay(TrailOf(writes)).HistoryOf(n)
  {
    var before := TrailOf(writes[..|writes| - 1]);
    assert TrailOf(writes)[..|before|] == before;
  }

  // ----- The engine -----

  datatype Origin = Memory | Foreign

  datatype Version = Version(revision: int, origin: Origin)

  datatype CasResult<+V> = CasResult(applied: bool, version: Option<Version>, data: Option<V>, deleted: bool)

  ghost function RowOf<V>(rows: map<Key, V>, key: Key): Option<V> {
    if key in rows then Some(rows[key]) else None
  }

  class Engine<N(==, !new), V(!new)> {
    var history: map<N, seq<Revision<V>>>
    var live: map<N, set<Key>>
    var seqNo: int
    const durable: bool
    var trail: seq<Line<N, V>>

    ghost function State(): Log<N, V>
      reads this
    {
      Log(history, live, seqNo)
    }

    /** The rows of one record type. */
    ghost function Table(n: N): map<Key, V>
      reads this
    {
      Rows(State().HistoryOf(n))
    }

    ghost predicate Valid()
      reads this
    {
      && Consistent(State())
      && (durable ==> State() == Replay(trail))
    }

    constructor Fresh(durable: bool)
      ensures Valid() && State() == EmptyLog() && trail == [] && this.durable == durable
    {
      history, live, seqNo := map[], map[], 0;
      this.durable := durable;
      trail := [];
    }

    /** Rebuilds an engine from a trail, line by line. */
    constructor Load(lines: seq<Line<N, V>>)
      ensures durable && trail == lines && State() == Replay(lines)
      ensures Consistent(Replay(lines)) ==> Valid()
    {
      history, live, seqNo := map[], map[], 0;
      durable := true;
      trail := lines;
      new;
      for i := 0 to |lines|
        invariant State() == Replay(lines[..i]) && trail == lines
      {
        var name, r := lines[i].name, lines[i].revision;
        seqNo := if seqNo < r.number then r.number else seqNo;
        history := history[name := (if name in history then history[name] else []) + [r]];
        var keys := if name in live then live[name] else {};
        live := live[name := if r.deleted then keys - {r.key} else keys + {r.key}];
        assert lines[..i + 1] == lines[..i] + [lines[i]];
        ReplayAppend(lines[..i], lines[i]);
      }
      assert lines[..|lines|] == lines;
    }

    /** Pushes a revision onto its history and keeps the live index beside it. */
    method Push(name: N, r: Revision<V>)
      requires r.number > seqNo
      modifies this`history, this`live, this`seqNo
      ensures State() == Apply(old(State()), Line(name, r))
    {
      seqNo := r.number;
      history := history[name := (if name in history then history[name] else []) + [r]];
      if r.deleted {
        live := live[name := (if name in live then live[name] else {}) - {r.key}];
      } else {
        live := live[name := (if name in live then live[name] else {}) + {r.key}];
      }
    }

    method Append(name: N, key: Key, data: V, deleted: bool) returns (number: int)
      requires Valid()
      modifies this
      ensures Valid()
      ensures number == old(seqNo) + 1 == seqNo
      ensures State() == Apply(old(State()), Line(name, Revision(number, key, data, deleted)))
      ensures trail == if durable then old(trail) + [Line(name, Revision(number, key, data, deleted))] else old(trail)
      ensures Table(name) == if deleted then old(Table(name)) - {key} else old(Table(name))[key := data]
      ensures forall n :: n != name ==> Table(n) == old(Table(n))
      ensures forall n :: old(State()).HistoryOf(n) <= State().HistoryOf(n)
    {
      number := seqNo + 1;
      var r := Revision(number, key, data, deleted);
      ghost var before, line := State(), Line(name, r);
      ApplyConsistent(before, line);
      ApplyFacts(before, line);
      ReplayAppend(trail, line);
      Push(name, r);
      if durable {
        trail := trail + [Line(name, r)];
      }
    }

    /** Scans back for the latest revision of `key`. */
    method Latest(name: N, key: Key) returns (r: Option<Revision<V>>)
      requires Valid()
      ensures r.None? ==> forall j :: 0 <= j < |State().HistoryOf(name)| ==> State().HistoryOf(name)[j].key != key
      ensures r.None? ==> key !in Table(name)
      ensures r.Some? ==> exists k :: IsLatest(State().HistoryOf(name), key, k) && r.value == State().HistoryOf(name)[k]
      ensures r.Some? ==> RowOf(Table(name), key) == if r.value.deleted then None else Some(r.value.data)
    {
      if name !in history {
        return None;
      }
      var h := history[name];
      for k := |h| downto 0
        invariant forall j :: k <= j < |h| ==> h[j].key != key
      {
        if h[k].key == key {
          LatestDecides(h, key, k);
          assert IsLatest(State().HistoryOf(name), key, k);
          return Some(h[k]);
        }
      }
      NeverWritten(h, key);
      return None;
    }

    method Current(name: N, key: Key) returns (r: Option<V>)
      requires Valid()
      ensures r == RowOf(Table(name), key)
    {
      var latest := Latest(name, key);
      r := if latest.Some? && !latest.value.deleted then Some(latest.value.data) else None;
    }

    /** The live keys, each once, in key order. */
    method Keys(name: N) returns (keys: seq<Key>)
      requires Valid()
      ensures forall k :: k in keys <==> k in Table(name)
      ensures Sorting.Distinct(keys) && Sorting.InOrder(KeyOrder(), keys)
    {
      assert Indexed(State(), name);
      var left: set<Key> := if name in live then live[name] else {};
      keys := [];
      while left != {}
        invariant forall k :: k in Table(name) <==> k in keys || k in left
        invariant forall i, j :: 0 <= i < j < |keys| ==> keys[i] != keys[j]
        invariant forall k :: k in keys ==> k !in left
        decreases |left|
      {
        var k :| k in left;
        left := left - {k};
        keys := keys + [k];
      }
      KeyOrderIsStrict();
      Sorting.SortOrders(KeyOrder(), keys);
      Sorting.SortKeepsDistinct(KeyOrder(), keys);
      keys := Sorting.Sort(KeyOrder(), keys);
    }

    method CurrentVersion(name: N, key: Key) returns (v: Option<Version>)
      requires Valid()
      ensures v.None? ==> forall j :: 0 <= j < |State().HistoryOf(name)| ==> State().HistoryOf(name)[j].key != key
      ensures v.Some? ==> exists k :: IsLatest(State().HistoryOf(name), key, k) &&
                                      v.value == Version(State().HistoryOf(name)[k].number, Memory)
    {
      var latest := Latest(name, key);
      v := if latest.Some? then Some(Version(latest.value.number, Memory)) else None;
    }

    /** May a conditional write that expects `expected` go ahead? */
    ghost predicate Matches(name: N, key: Key, expected: Option<Version>)
      reads this
    {
      var h := State().HistoryOf(name);
      match expected
      case None => key !in Table(name)
      case Some(v) => exists k :: IsLatest(h, key, k) && v == Version(h[k].number, Memory)
    }

    /** The version and tombstone flag of the key's latest revision. */
    ghost predicate Reports(name: N, key: Key, r: CasResult<V>)
      reads this
    {
      var h := State().HistoryOf(name);
      exists k :: IsLatest(h, key, k) && r.version == Some(Version(h[k].number, Memory)) && r.deleted == h[k].deleted
    }

    /**
     Conditional write. It is an error to expect a version of a key never written; otherwise the
     write happens exactly when the expectation matches, and a refusal changes nothing and reports
     the row, its version and its tombstone flag as they stand.
     */
    method CompareAndSwap(name: N, key: Key, expected: Option<Version>, data: V, deleted: bool)
      returns (r: Result<CasResult<V>, ()>)
      requires Valid()
      modifies this
      ensures Valid()
      ensures r.Err? <==>
              expected.Some? && forall j :: 0 <= j < |old(State()).HistoryOf(name)| ==>
                                              old(State()).HistoryOf(name)[j].key != key
      ensures r.Ok? ==> (r.value.applied <==> old(Matches(name, key, expected)))
      ensures r.Ok? && r.value.applied ==>
                && State() == Apply(old(State()), Line(name, Revision(old(seqNo) + 1, key, data, deleted)))
                && Table(name) == (if deleted then old(Table(name)) - {key} else old(Table(name))[key := data])
                && (forall n :: n != name ==> Table(n) == old(Table(n)))
                && r.value.version == Some(Version(seqNo, Memory))
      ensures !(r.Ok? && r.value.applied) ==> State() == old(State()) && trail == old(trail)
      ensures r.Ok? && !r.value.applied ==> r.value.data == RowOf(Table(name), key) && Reports(name, key, r.value)
      ensures forall n :: old(State()).HistoryOf(n) <= State().HistoryOf(n)
    {
      var latest := Latest(name, key);
      var matches := false;
      match (expected, latest) {
        case (None, None) =>
          matches := true;
        case (None, Some(rev)) =>
          matches := rev.deleted;
        case (Some(v), None) =>
          return Err(());
        case (Some(v), Some(rev)) =>
          matches := rev.number == v.revision && v.origin == Memory;
      }
      if !matches {
        var rev := latest.value;
        return Ok(CasResult(false, Some(Version(rev.number, Memory)), if rev.deleted then None else Some(rev.data),
                            rev.deleted));
      }
      var number := Append(name, key, data, deleted);
      return Ok(CasResult(true, Some(Version(number, Memory)), if deleted then None else Some(data), deleted));
    }
  }
}
