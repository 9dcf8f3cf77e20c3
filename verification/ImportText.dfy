/** The two string rules of the importer (src/jsonl.rs): prefix rewriting and the status table. */
module ImportText {
  import opened Wrappers
  import opened Domain

  predicate NoDash(s: string) {
    forall k :: 0 <= k < |s| ==> s[k] != '-'
  }

  /** The tail of `id` behind "`from`-", when it has that prefix and the tail has no dash of its own. */
  function Tail(id: string, from: string): Option<string> {
    if |from| < |id| && id[..|from|] == from && id[|from|] == '-'
       && NoDash(id[|from| + 1..]) then Some(id[|from| + 1..]) else None
  }

  function Rewrite(id: string, from: string, to: string): string {
    match Tail(id, from)
    case Some(tail) => to + "-" + tail
    case None => id
  }

  lemma TailSplits(id: string, from: string)
    requires Tail(id, from).Some?
    ensures id == from + "-" + Tail(id, from).value && NoDash(Tail(id, from).value)
    ensures id[|from|] == '-' && forall j :: |from| < j < |id| ==> id[j] != '-'
  {
    assert forall j :: |from| < j < |id| ==> id[j] == id[|from| + 1..][j - |from| - 1];
  }

  /** A dash-free tail is found behind exactly one prefix: the last dash decides. */
  lemma TailIsUnique(id: string, p: string, q: string)
    requires Tail(id, p).Some? && Tail(id, q).Some?
    ensures p == q
  {
    TailSplits(id, p);
    TailSplits(id, q);
    assert |p| == |q|;
  }

  lemma TailOfJoined(to: string, tail: string)
    requires NoDash(tail)
    ensures Tail(to + "-" + tail, to) == Some(tail)
  {
    var id := to + "-" + tail;
    assert id[..|to|] == to && id[|to| + 1..] == tail;
  }

  /** Exactly an old prefix before a dash-free tail is replaced; every other id stays as it is. */
  lemma RewriteLaw(id: string, from: string, to: string)
    ensures forall tail: string :: '-' !in tail && id == from + "-" + tail ==> Rewrite(id, from, to) == to + "-" + tail
    ensures (forall tail: string :: '-' in tail || id != from + "-" + tail) ==> Rewrite(id, from, to) == id
  {
    forall tail: string | '-' !in tail && id == from + "-" + tail
      ensures Rewrite(id, from, to) == to + "-" + tail
    {
      TailOfJoined(from, tail);
    }
    if Tail(id, from).Some? {
      TailSplits(id, from);
      assert '-' !in Tail(id, from).value;
    }
  }

  /** Importing an export twice under one rewrite finds the ids of the first time. */
  lemma RewriteIsIdempotent(id: string, from: string, to: string)
    ensures Rewrite(Rewrite(id, from, to), from, to) == Rewrite(id, from, to)
  {
    if Tail(id, from).Some? {
      var tail := Tail(id, from).value;
      var next := to + "-" + tail;
      TailSplits(id, from);
      TailOfJoined(to, tail);
      if Tail(next, from).Some? {
        TailIsUnique(next, from, to);
      }
    }
  }

  /**
   A rewrite makes two ids collide exactly when one carries the old prefix and the other the new one, with one tail.
   */
  lemma RewriteCollides(a: string, b: string, from: string, to: string)
    requires a != b
    ensures Rewrite(a, from, to) == Rewrite(b, from, to) <==>
            (from != to && (Renamed(a, b, from, to) || Renamed(b, a, from, to)))
  {
    if Tail(a, from).Some? {
      TailSplits(a, from);
      TailOfJoined(to, Tail(a, from).value);
      TailOfJoined(from, Tail(a, from).value);
    }
    if Tail(b, from).Some? {
      TailSplits(b, from);
      TailOfJoined(to, Tail(b, from).value);
      TailOfJoined(from, Tail(b, from).value);
    }
    if Tail(a, from).Some? && Tail(a, to).Some? {
      TailIsUnique(a, from, to);
    }
    if Tail(b, from).Some? && Tail(b, to).Some? {
      TailIsUnique(b, from, to);
    }
  }

  /** `a` has the old prefix and `b` is what it is rewritten to. */
  predicate Renamed(a: string, b: string, from: string, to: string) {
    Tail(a, from).Some? && b == to + "-" + Tail(a, from).value
  }

  // ----- Statuses -----

  function NormalizeStatus(raw: string): Option<Status> {
    if raw == "open" || raw == "backlog" then Some(Open)
    else if raw == "in_progress" || raw == "started" then Some(InProgress)
    else if raw == "review" || raw == "inreview" || raw == "in_review" then Some(Review)
    else if raw == "blocked" then Some(Blocked)
    else if raw == "deferred" then Some(Deferred)
    else if raw == "closed" || raw == "done" || raw == "resolved" then Some(Closed)
    else None
  }

  /** Every name an export may use, and the one status it stands for; any other is refused. */
  lemma StatusTable(raw: string)
    ensures NormalizeStatus(raw) == Some(Open) <==> raw in {"open", "backlog"}
    ensures NormalizeStatus(raw) == Some(InProgress) <==> raw in {"in_progress", "started"}
    ensures NormalizeStatus(raw) == Some(Review) <==> raw in {"review", "inreview", "in_review"}
    ensures NormalizeStatus(raw) == Some(Blocked) <==> raw == "blocked"
    ensures NormalizeStatus(raw) == Some(Deferred) <==> raw == "deferred"
    ensures NormalizeStatus(raw) == Some(Closed) <==> raw in {"closed", "done", "resolved"}
  {
  }

  /** The tracker's own name of a status. */
  function StatusName(s: Status): string {
    match s
    case Open => "open"
    case InProgress => "in_progress"
    case Review => "review"
    case Blocked => "blocked"
    case Deferred => "deferred"
    case Closed => "closed"
  }

  /** No status the tracker itself writes is reinterpreted. */
  lemma OwnStatusesSurvive(s: Status)
    ensures NormalizeStatus(StatusName(s)) == Some(s)
  {
  }
}
