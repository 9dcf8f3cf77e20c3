/**
 `with_reconnect` and `PostgresStore::transaction` (src/postgres_store.rs) as a step relation over
 any number of threads. Each event is one stretch between two points where another thread can run:
 taking the mutex, leaving it, finishing a dial, or finishing `op`.
 */
module Reconnect {
  import opened Wrappers

  type Thread = nat
  /** Connections are numbered in the order they were dialled. */
  type Conn = nat

  /** Where a call is. A `Back` state has retaken the mutex after a dial and not yet looked at its result. */
  datatype Pc =
    | Idle
    | Entering
    | Inside
    | Dialing(second: bool)
    | Dialed(second: bool, dialed: Option<Conn>)
    | Back(second: bool, dialed: Option<Conn>)
    | Running(second: bool, client: Conn)

  /** A thread's current call, or its last one while `Idle`: how often it ran `op` and attempted COMMIT. */
  datatype Call = Call(pc: Pc, transactional: bool, ops: nat, commits: nat)

  /** `free` is the guarded `SlotState.client`; `dead` are the handles that were dropped. */
  datatype State = State(
    slot: Option<Conn>,
    reconnecting: bool,
    lock: Option<Thread>,
    calls: map<Thread, Call>,
    dialedSoFar: nat,
    dead: set<Conn>)

  /** How one run of `op` ends: whether COMMIT was attempted, and whether an error means the connection is gone. */
  datatype Outcome = Outcome(ok: bool, commitAttempted: bool, disconnected: bool)

  predicate ValidOutcome(transactional: bool, o: Outcome) {
    && (o.ok ==> !o.disconnected && (transactional ==> o.commitAttempted))
    && (!transactional ==> !o.commitAttempted)
  }

  /** For a transaction only failures before COMMIT are retried. */
  predicate Retryable(o: Outcome) {
    !o.ok && o.disconnected && !o.commitAttempted
  }

  datatype Event =
    | Begin(t: Thread, transactional: bool)
    | Lock(t: Thread)
    | Decide(t: Thread)
    | DialEnds(t: Thread, success: bool)
    | DialPanics(t: Thread)
    | Relock(t: Thread)
    | Resume(t: Thread)
    | OpEnds(t: Thread, outcome: Outcome)
    | OpPanics(t: Thread, commitAttempted: bool)

  predicate Enabled(s: State, e: Event) {
    && e.t in s.calls
    && var pc := s.calls[e.t].pc;
    match e
    case Begin(_, _) => pc == Idle
    case Lock(_) => pc == Entering && s.lock == None
    case Decide(_) => pc == Inside
    case DialEnds(_, _) => pc.Dialing?
    case DialPanics(_) => pc.Dialing?
    case Relock(_) => pc.Dialed? && s.lock == None
    case Resume(_) => pc.Back?
    case OpEnds(t, o) => pc.Running? && ValidOutcome(s.calls[t].transactional, o)
    case OpPanics(t, attempted) => pc.Running? && (attempted ==> s.calls[t].transactional)
  }

  function Goto(s: State, t: Thread, pc: Pc): State
    requires t in s.calls
  {
    s.(calls := s.calls[t := s.calls[t].(pc := pc)])
  }

  function Ran(s: State, t: Thread, o: Outcome): State
    requires t in s.calls
  {
    var c := s.calls[t];
    s.(calls := s.calls[t := c.(ops := c.ops + 1, commits := c.commits + if o.commitAttempted then 1 else 0)])
  }

  function Next(s: State, e: Event): State
    requires Enabled(s, e)
  {
    var t := e.t;
    match e
    case Begin(_, transactional) =>
      s.(calls := s.calls[t := Call(Entering, transactional, 0, 0)])
    case Lock(_) =>
      Goto(s, t, Inside).(lock := Some(t))
    case Decide(_) =>
      if s.reconnecting then Goto(s, t, Idle).(lock := None)
      else if s.slot.Some? then Goto(s, t, Running(false, s.slot.value)).(slot := None)
      else Goto(s, t, Dialing(false)).(reconnecting := true, lock := None)
    case DialEnds(_, success) =>
      var second := s.calls[t].pc.second;
      if success then Goto(s, t, Dialed(second, Some(s.dialedSoFar))).(dialedSoFar := s.dialedSoFar + 1)
      else Goto(s, t, Dialed(second, None))
    case DialPanics(_) =>
      // the call unwinds without the mutex, so nothing clears the flag it raised
      Goto(s, t, Idle)
    case Relock(_) =>
      Goto(s, t, Back(s.calls[t].pc.second, s.calls[t].pc.dialed)).(lock := Some(t))
    case Resume(_) =>
      var pc := s.calls[t].pc;
      if pc.dialed.Some? then Goto(s, t, Running(pc.second, pc.dialed.value)).(reconnecting := false)
      else Goto(s, t, Idle).(reconnecting := false, lock := None)
    case OpEnds(_, o) =>
      var pc, ran := s.calls[t].pc, Ran(s, t, o);
      if !Retryable(o) then Goto(ran, t, Idle).(slot := Some(pc.client), lock := None)
      else if pc.second then Goto(ran, t, Idle).(dead := s.dead + {pc.client}, lock := None)
      else Goto(ran, t, Dialing(true)).(dead := s.dead + {pc.client}, reconnecting := true, lock := None)
    case OpPanics(_, attempted) =>
      Goto(Ran(s, t, Outcome(false, attempted, false)), t, Idle).(dead := s.dead + {s.calls[t].pc.client}, lock := None)
  }

  /** The slot starts empty, or with the connection dialled at start-up. */
  predicate IsInit(s: State) {
    && !s.reconnecting && s.lock == None && s.dead == {}
    && ((s.slot == None && s.dialedSoFar == 0) || (s.slot == Some(0) && s.dialedSoFar == 1))
    && forall t :: t in s.calls ==> s.calls[t] == Call(Idle, false, 0, 0)
  }

  ghost predicate IsRun(states: seq<State>, events: seq<Event>) {
    && |states| == |events| + 1
    && IsInit(states[0])
    && forall k :: 0 <= k < |events| ==> Enabled(states[k], events[k]) && states[k + 1] == Next(states[k], events[k])
  }

  // ----- The invariant -----

  predicate HoldsLock(pc: Pc) {
    pc.Inside? || pc.Back? || pc.Running?
  }

  /** Between setting `reconnecting` and clearing it. */
  predicate OwnsFlag(pc: Pc) {
    pc.Dialing? || pc.Dialed? || pc.Back?
  }

  function ClientOf(pc: Pc): Option<Conn> {
    match pc
    case Running(_, c) => Some(c)
    case Dialed(_, r) => r
    case Back(_, r) => r
    case _ => None
  }

  /** Has the connection, or is replacing it. */
  predicate Busy(pc: Pc) {
    OwnsFlag(pc) || pc.Running?
  }

  predicate SecondTry(pc: Pc) {
    match pc
    case Dialing(second) => second
    case Dialed(second, _) => second
    case Back(second, _) => second
    case Running(second, _) => second
    case _ => false
  }

  /** No retry follows an attempted COMMIT, and a call runs `op` at most once per try. */
  predicate WithinBudget(c: Call) {
    && c.ops <= 2
    && c.commits <= 1
    && (c.pc != Idle ==> c.ops == (if SecondTry(c.pc) then 1 else 0) && c.commits == 0)
  }

  predicate IsDialing(s: State, t: Thread) {
    t in s.calls && s.calls[t].pc.Dialing?
  }

  predicate IsReplacing(s: State, t: Thread) {
    t in s.calls && OwnsFlag(s.calls[t].pc)
  }

  predicate IsRunning(s: State, t: Thread) {
    t in s.calls && s.calls[t].pc.Running?
  }

  predicate IsBusy(s: State, t: Thread) {
    t in s.calls && Busy(s.calls[t].pc)
  }

  ghost predicate LockIsHeldBy(s: State) {
    && (forall t :: t in s.calls ==> (s.lock == Some(t) <==> HoldsLock(s.calls[t].pc)))
    && (s.lock.Some? ==> s.lock.value in s.calls)
  }

  /** The flag is up because a thread is replacing the connection, or because a dial has panicked. */
  ghost predicate FlagIsOwned(s: State, panicked: bool) {
    s.reconnecting <==> panicked || exists t: Thread :: IsReplacing(s, t)
  }

  /** Once a dial has panicked the slot stays empty and nobody gets past the flag. */
  ghost predicate Wedged(s: State) {
    s.reconnecting && s.slot == None && forall t :: t in s.calls ==> !Busy(s.calls[t].pc)
  }

  /** At most one thread has or is replacing the connection, and then the slot is empty. */
  ghost predicate OneBusy(s: State) {
    && (forall t, u :: t in s.calls && u in s.calls && Busy(s.calls[t].pc) && Busy(s.calls[u].pc) ==> t == u)
    && (s.slot.Some? ==> forall t :: t in s.calls ==> !Busy(s.calls[t].pc))
  }

  ghost predicate Budgets(s: State) {
    forall t :: t in s.calls ==> WithinBudget(s.calls[t])
  }

  /** Every handle exists, and none is both dropped and in use. */
  ghost predicate Handles(s: State) {
    && (s.slot.Some? ==> s.slot.value < s.dialedSoFar && s.slot.value !in s.dead)
    && (forall t :: t in s.calls && ClientOf(s.calls[t].pc).Some? ==>
                      ClientOf(s.calls[t].pc).value < s.dialedSoFar && ClientOf(s.calls[t].pc).value !in s.dead)
    && forall c :: c in s.dead ==> c < s.dialedSoFar
  }

  /** `panicked`: whether some dial has panicked so far. */
  ghost predicate Inv(s: State, panicked: bool) {
    && LockIsHeldBy(s) && FlagIsOwned(s, panicked) && OneBusy(s) && Budgets(s) && Handles(s)
    && (panicked ==> Wedged(s))
  }

  lemma LockKept(s: State, e: Event)
    requires LockIsHeldBy(s) && Enabled(s, e)
    ensures LockIsHeldBy(Next(s, e))
  {
  }

  /** Only the thread that moved has changed. */
  ghost predicate OthersStay(s: State, n: State, t: Thread) {
    t in s.calls && n.calls.Keys == s.calls.Keys && forall u :: u in s.calls && u != t ==> n.calls[u] == s.calls[u]
  }

  lemma OnlyOneMoves(s: State, e: Event)
    requires Enabled(s, e)
    ensures OthersStay(s, Next(s, e), e.t)
  {
  }

  /**
   Whoever comes out replacing the connection has put the flag up; whoever stops has put it down, unless by a panic.
   */
  lemma FlagMoves(s: State, e: Event)
    requires Enabled(s, e)
    ensures var n := Next(s, e);
            && (IsReplacing(n, e.t) && !IsReplacing(s, e.t) ==> n.reconnecting)
            && (IsReplacing(n, e.t) && IsReplacing(s, e.t) ==> n.reconnecting == s.reconnecting)
            && (IsReplacing(s, e.t) && !IsReplacing(n, e.t) ==> (n.reconnecting <==> e.DialPanics? && s.reconnecting))
            && (!IsReplacing(s, e.t) && !IsReplacing(n, e.t) ==> n.reconnecting == s.reconnecting)
            && (e.DialPanics? ==> IsReplacing(s, e.t) && !IsReplacing(n, e.t))
  {
  }

  lemma FlagKept(s: State, e: Event, panicked: bool)
    requires FlagIsOwned(s, panicked) && OneBusy(s) && (panicked ==> Wedged(s)) && Enabled(s, e)
    ensures FlagIsOwned(Next(s, e), panicked || e.DialPanics?)
  {
    OnlyOneMoves(s, e);
    FlagMoves(s, e);
    FlagAfter(s, Next(s, e), e.t, panicked, e.DialPanics?);
  }

  lemma FlagAfter(s: State, n: State, t: Thread, panicked: bool, panics: bool)
    requires FlagIsOwned(s, panicked) && OneBusy(s) && (panicked ==> Wedged(s)) && OthersStay(s, n, t)
    requires IsReplacing(n, t) && !IsReplacing(s, t) ==> n.reconnecting
    requires IsReplacing(n, t) && IsReplacing(s, t) ==> n.reconnecting == s.reconnecting
    requires IsReplacing(s, t) && !IsReplacing(n, t) ==> (n.reconnecting <==> panics && s.reconnecting)
    requires !IsReplacing(s, t) && !IsReplacing(n, t) ==> n.reconnecting == s.reconnecting
    requires panics ==> IsReplacing(s, t) && !IsReplacing(n, t)
    ensures FlagIsOwned(n, panicked || panics)
  {
    assert forall u: Thread :: u != t ==> (IsReplacing(n, u) <==> IsReplacing(s, u));
    assert forall u: Thread :: IsReplacing(s, u) ==> IsBusy(s, u);
    if IsReplacing(s, t) {
      assert forall u: Thread :: IsReplacing(s, u) ==> u == t;
    }
  }

  /** A dial that panics leaves the store wedged, and nothing gets it out again. */
  lemma WedgedKept(s: State, e: Event, panicked: bool)
    requires FlagIsOwned(s, panicked) && OneBusy(s) && (panicked ==> Wedged(s)) && Enabled(s, e)
    ensures panicked || e.DialPanics? ==> Wedged(Next(s, e))
  {
    var n := Next(s, e);
    assert forall u :: u in s.calls && u != e.t ==> n.calls[u] == s.calls[u];
    if e.DialPanics? {
      assert IsReplacing(s, e.t);
      assert forall u :: u in s.calls && u != e.t ==> !Busy(s.calls[u].pc);
    }
  }

  /** A thread that comes out busy, or leaves a client in the slot, was the only one that could. */
  lemma OthersAreNotBusy(s: State, e: Event, panicked: bool)
    requires LockIsHeldBy(s) && FlagIsOwned(s, panicked) && OneBusy(s) && (panicked ==> Wedged(s)) && Enabled(s, e)
    ensures var n := Next(s, e);
            && (Busy(n.calls[e.t].pc) || n.slot.Some? ==> forall u :: u in s.calls && u != e.t ==> !Busy(s.calls[u].pc))
            && (n.slot.Some? ==> !Busy(n.calls[e.t].pc))
  {
    assert HoldsLock(s.calls[e.t].pc) ==> forall u :: u in s.calls && s.calls[u].pc.Running? ==> u == e.t;
    forall u | u in s.calls && !s.reconnecting
      ensures !OwnsFlag(s.calls[u].pc)
    {
      assert !IsReplacing(s, u);
    }
  }

  lemma OneBusyKept(s: State, e: Event, panicked: bool)
    requires LockIsHeldBy(s) && FlagIsOwned(s, panicked) && OneBusy(s) && (panicked ==> Wedged(s)) && Enabled(s, e)
    ensures OneBusy(Next(s, e))
  {
    OthersAreNotBusy(s, e, panicked);
    OnlyOneMoves(s, e);
    BusyAfter(s, Next(s, e), e.t);
  }

  lemma BusyAfter(s: State, n: State, t: Thread)
    requires OneBusy(s) && OthersStay(s, n, t)
    requires Busy(n.calls[t].pc) || n.slot.Some? ==> forall u :: u in s.calls && u != t ==> !Busy(s.calls[u].pc)
    requires n.slot.Some? ==> !Busy(n.calls[t].pc)
    ensures OneBusy(n)
  {
  }

  lemma BudgetsKept(s: State, e: Event)
    requires Budgets(s) && Enabled(s, e)
    ensures Budgets(Next(s, e))
  {
    OnlyOneMoves(s, e);
    BudgetMoves(s, e);
    assert Next(s, e).calls.Keys == s.calls.Keys;
  }

  lemma BudgetMoves(s: State, e: Event)
    requires Enabled(s, e) && WithinBudget(s.calls[e.t])
    ensures e.t in Next(s, e).calls && WithinBudget(Next(s, e).calls[e.t])
  {
  }

  /** What the thread that moved may do to handles: use a known one, dial a new one, drop its own. */
  ghost predicate HandleStep(s: State, n: State, t: Thread)
    requires t in s.calls && t in n.calls
  {
    var before, now := ClientOf(s.calls[t].pc), ClientOf(n.calls[t].pc);
    && s.dialedSoFar <= n.dialedSoFar
    && (now.Some? ==> now == before || now == s.slot
                      || (now.value == s.dialedSoFar && n.dialedSoFar == s.dialedSoFar + 1))
    && (now.Some? ==> now.value !in n.dead - s.dead)
    && (n.slot.Some? ==> (n.slot == s.slot || (n.slot == before && n.slot != now)) && n.slot.value !in n.dead - s.dead)
    && s.dead <= n.dead && forall c :: c in n.dead - s.dead ==> before == Some(c)
  }

  lemma HandleMoves(s: State, e: Event)
    requires Handles(s) && Enabled(s, e) && (s.slot.Some? ==> ClientOf(s.calls[e.t].pc) == None)
    ensures HandleStep(s, Next(s, e), e.t)
  {
  }

  lemma HandlesKept(s: State, e: Event)
    requires OneBusy(s) && Handles(s) && DistinctClients(s) && Enabled(s, e)
    ensures Handles(Next(s, e))
  {
    OnlyOneMoves(s, e);
    HandleMoves(s, e);
    HandlesAfter(s, Next(s, e), e.t);
  }

  lemma HandlesAfter(s: State, n: State, t: Thread)
    requires OneBusy(s) && Handles(s) && DistinctClients(s) && OthersStay(s, n, t) && HandleStep(s, n, t)
    ensures Handles(n)
  {
    forall c | c in n.dead
      ensures c < n.dialedSoFar
    {
      assert c !in s.dead ==> ClientOf(s.calls[t].pc) == Some(c);
    }
  }

  ghost predicate DistinctClients(s: State) {
    forall t, u :: t in s.calls && u in s.calls && ClientOf(s.calls[t].pc).Some? && ClientOf(s.calls[u].pc).Some? ==>
                     t == u
  }

  lemma NextKeepsInv(s: State, e: Event, panicked: bool)
    requires Inv(s, panicked) && Enabled(s, e)
    ensures Inv(Next(s, e), panicked || e.DialPanics?)
  {
    assert forall t :: t in s.calls && ClientOf(s.calls[t].pc).Some? ==> Busy(s.calls[t].pc);
    LockKept(s, e);
    FlagKept(s, e, panicked);
    WedgedKept(s, e, panicked);
    OneBusyKept(s, e, panicked);
    BudgetsKept(s, e);
    HandlesKept(s, e);
  }

  /** One of the first `k` events is a dial that panicked. */
  ghost predicate DialPanicked(events: seq<Event>, k: nat)
    requires k <= |events|
  {
    exists j :: 0 <= j < k && events[j].DialPanics?
  }

  lemma {:induction false} RunKeepsInv(states: seq<State>, events: seq<Event>, k: nat)
    requires IsRun(states, events) && k < |states|
    ensures Inv(states[k], DialPanicked(events, k))
  {
    if k > 0 {
      RunKeepsInv(states, events, k - 1);
      RunStep(states, events, k - 1);
      NextKeepsInv(states[k - 1], events[k - 1], DialPanicked(events, k - 1));
      OneMorePanic(events, k - 1);
    }
  }

  lemma RunStep(states: seq<State>, events: seq<Event>, k: nat)
    requires IsRun(states, events) && k < |events|
    ensures Enabled(states[k], events[k]) && states[k + 1] == Next(states[k], events[k])
  {
  }

  lemma OneMorePanic(events: seq<Event>, k: nat)
    requires k < |events|
    ensures DialPanicked(events, k + 1) <==> DialPanicked(events, k) || events[k].DialPanics?
  {
  }

  // ----- What every run guarantees -----

  ghost predicate AllIdle(s: State) {
    forall t :: t in s.calls ==> s.calls[t].pc == Idle
  }

  /** In every reachable state of any number of callers. */
  lemma Safety(states: seq<State>, events: seq<Event>, k: nat)
    requires IsRun(states, events) && k < |states|
    // the flag is up iff a thread is replacing the connection or a dial has panicked, and never more than one thread is
    ensures states[k].reconnecting <==> DialPanicked(events, k) || exists t: Thread :: IsReplacing(states[k], t)
    ensures forall t: Thread, u: Thread :: IsReplacing(states[k], t) && IsReplacing(states[k], u) ==> t == u
    // no dial happens under the lock
    ensures forall t: Thread :: IsDialing(states[k], t) ==> states[k].lock != Some(t)
    // operations never overlap, nor run while the connection is being replaced
    ensures forall t: Thread, u: Thread :: IsRunning(states[k], t) && IsBusy(states[k], u) ==> t == u
    // at most two runs of op and one COMMIT attempt a call
    ensures forall t :: t in states[k].calls ==> states[k].calls[t].ops <= 2 && states[k].calls[t].commits <= 1
    // no call leaves the lock behind, and the flag is left behind exactly by a dial that panicked
    ensures AllIdle(states[k]) ==> states[k].lock == None && (states[k].reconnecting <==> DialPanicked(events, k))
  {
    RunKeepsInv(states, events, k);
  }

  /**
   After a dial has panicked the flag is up for good: the slot is empty, nobody ever dials or runs `op`
   again, and every caller leaves at once, having run nothing.
   */
  lemma PanicWedgesTheStore(states: seq<State>, events: seq<Event>, j: nat, k: nat, u: Thread)
    requires IsRun(states, events) && j < k < |states| && events[j].DialPanics?
    ensures Wedged(states[k])
    ensures forall t :: t in states[k].calls && states[k].calls[t].pc != Idle ==> states[k].calls[t].ops == 0
    ensures u in states[k].calls && states[k].calls[u].pc == Inside ==>
              var left := Next(states[k], Decide(u));
              left.calls[u].pc == Idle && left.calls[u].ops == 0 && Wedged(left)
  {
    RunKeepsInv(states, events, k);
    assert DialPanicked(events, k);
    if u in states[k].calls && states[k].calls[u].pc == Inside {
      WedgedKept(states[k], Decide(u), true);
    }
  }

  function OneCaller(pc: Pc): map<Thread, Call> {
    map[0 := Call(pc, false, 0, 0)]
  }

  /** A single call is enough: its first dial panics, and all threads are idle with the flag up. */
  lemma OnePanicIsEnough() returns (states: seq<State>, events: seq<Event>)
    ensures IsRun(states, events) && |events| == 4
    ensures AllIdle(states[4]) && states[4].reconnecting && states[4].lock == None && states[4].slot == None
  {
    events := [Begin(0, false), Lock(0), Decide(0), DialPanics(0)];
    states := [
      State(None, false, None, OneCaller(Idle), 0, {}),
      State(None, false, None, OneCaller(Entering), 0, {}),
      State(None, false, Some(0), OneCaller(Inside), 0, {}),
      State(None, true, None, OneCaller(Dialing(false)), 0, {}),
      State(None, true, None, OneCaller(Idle), 0, {})];
    forall k | 0 <= k < |events|
      ensures Enabled(states[k], events[k]) && states[k + 1] == Next(states[k], events[k])
    {
      assert k == 0 || k == 1 || k == 2 || k == 3;
    }
  }

  // ----- Lost connections are replaced -----

  /**
   Nothing about how a run may end is ruled out but what cannot be: an operation that succeeds has kept its connection
   and, in a transaction, sent its COMMIT, and outside a transaction there is no COMMIT to send.
   */
  lemma OutcomesLaw(s: State, t: Thread, o: Outcome)
    requires t in s.calls && s.calls[t].pc.Running?
    ensures Enabled(s, OpEnds(t, o)) <==>
            && !(o.ok && o.disconnected) && !(o.ok && s.calls[t].transactional && !o.commitAttempted)
            && !(o.commitAttempted && !s.calls[t].transactional)
    ensures Enabled(s, OpPanics(t, o.commitAttempted)) <==> !(o.commitAttempted && !s.calls[t].transactional)
  {
  }

  /** The run of `op` failed because the connection went away before any COMMIT was sent. */
  ghost predicate LostBeforeCommit(o: Outcome) {
    !o.ok && o.disconnected && !o.commitAttempted
  }

  /**
   A connection lost before COMMIT is dropped at once: the first time the call goes on to dial a new one, with the
   flag up and the mutex free, the second time it gives up. After any other outcome the client goes back into the slot.
   */
  lemma LostConnectionIsReplaced(states: seq<State>, events: seq<Event>, k: nat, t: Thread, o: Outcome)
    requires IsRun(states, events) && k < |events| && events[k] == OpEnds(t, o)
    ensures t in states[k].calls && states[k].calls[t].pc.Running? && t in states[k + 1].calls
    ensures var pc, now, next := states[k].calls[t].pc, states[k + 1].calls[t].pc, states[k + 1];
            && (LostBeforeCommit(o) ==> pc.client in next.dead && next.slot == None && next.lock == None)
            && (LostBeforeCommit(o) && !pc.second ==> now == Dialing(true) && next.reconnecting)
            && (LostBeforeCommit(o) && pc.second ==> now == Idle && !next.reconnecting)
            && (!LostBeforeCommit(o) ==> now == Idle && next.slot == Some(pc.client) && next.lock == None)
            && (!LostBeforeCommit(o) ==> next.dead == states[k].dead && !next.reconnecting)
            && next.calls[t].ops == states[k].calls[t].ops + 1
  {
    RunKeepsInv(states, events, k);
    assert Enabled(states[k], events[k]);
    assert IsRunning(states[k], t) && IsBusy(states[k], t);
    assert !(exists u: Thread :: IsReplacing(states[k], u));
  }

  /** A handle reported lost before COMMIT is never in the slot or in anyone's hands again. */
  lemma LostHandleNeverServes(states: seq<State>, events: seq<Event>, k: nat, j: nat, t: Thread, o: Outcome)
    requires IsRun(states, events) && k < j < |states| && events[k] == OpEnds(t, o) && LostBeforeCommit(o)
    ensures t in states[k].calls && states[k].calls[t].pc.Running?
    ensures var lost := states[k].calls[t].pc.client;
            && states[j].slot != Some(lost)
            && forall u :: u in states[j].calls ==>
                             && ClientOf(states[j].calls[u].pc) != Some(lost)
                             && (states[j].calls[u].pc.Running? ==> states[j].calls[u].pc.client != lost)
  {
    LostConnectionIsReplaced(states, events, k, t, o);
    DeadHandlesStayOut(states, events, k + 1, j, states[k].calls[t].pc.client);
  }

  /**
   A caller that gets in leaves if a replacement is under way, takes the stored client, or else dials with the mutex
   free.
   */
  lemma DecideOutcome(s: State, t: Thread)
    requires Enabled(s, Decide(t))
    ensures var n := Next(s, Decide(t));
            && (s.reconnecting ==> n.calls[t].pc == Idle && n.lock == None && n.slot == s.slot && n.reconnecting)
            && (!s.reconnecting && s.slot.Some? ==>
                  n.calls[t].pc == Running(false, s.slot.value) && n.slot == None && n.lock == s.lock
                  && !n.reconnecting)
            && (!s.reconnecting && s.slot.None? ==>
                  n.calls[t].pc == Dialing(false) && n.lock == None && n.reconnecting && n.slot == None)
  {
  }

  /**
   A dial that succeeds brings a handle nobody has seen; back under the mutex its owner puts the flag down and runs
   with it.
   */
  lemma DialOutcome(s: State, t: Thread)
    requires t in s.calls
    ensures s.calls[t].pc.Dialing? ==>
              var n := Next(s, DialEnds(t, true));
              && n.calls[t].pc == Dialed(s.calls[t].pc.second, Some(s.dialedSoFar))
              && n.dialedSoFar == s.dialedSoFar + 1
              && Next(s, DialEnds(t, false)).calls[t].pc == Dialed(s.calls[t].pc.second, None)
    ensures s.calls[t].pc.Back? ==>
              var pc, n := s.calls[t].pc, Next(s, Resume(t));
              && !n.reconnecting && n.slot == s.slot
              && (pc.dialed.Some? ==> n.calls[t].pc == Running(pc.second, pc.dialed.value) && n.lock == s.lock)
              && (pc.dialed.None? ==> n.calls[t].pc == Idle && n.lock == None)
  {
  }

  /** So when the first run loses its connection and the dial works, `op` is run a second time, on a new handle. */
  lemma LostOperationIsRunAgain(s: State, t: Thread, o: Outcome) returns (lost: State, dialed: State, back: State, again: State)
    requires Enabled(s, OpEnds(t, o)) && LostBeforeCommit(o) && !s.calls[t].pc.second && Handles(s)
    ensures lost == Next(s, OpEnds(t, o)) && Enabled(lost, DialEnds(t, true))
    ensures dialed == Next(lost, DialEnds(t, true)) && Enabled(dialed, Relock(t))
    ensures back == Next(dialed, Relock(t)) && Enabled(back, Resume(t))
    ensures again == Next(back, Resume(t)) && t in again.calls
    ensures again.calls[t].pc == Running(true, s.dialedSoFar) && s.dialedSoFar != s.calls[t].pc.client
    ensures !again.reconnecting && again.lock == Some(t)
  {
    lost := Next(s, OpEnds(t, o));
    dialed := Next(lost, DialEnds(t, true));
    back := Next(dialed, Relock(t));
    again := Next(back, Resume(t));
  }

  /** A stored client is only ever taken out, never overwritten, and only an empty slot is filled. */
  lemma StoredClientIsNeverOverwritten(states: seq<State>, events: seq<Event>, k: nat)
    requires IsRun(states, events) && k < |events|
    ensures states[k].slot.Some? ==> states[k + 1].slot == states[k].slot || states[k + 1].slot == None
  {
    RunKeepsInv(states, events, k);
    assert Enabled(states[k], events[k]);
  }

  lemma {:induction false} DeadOnlyGrows(states: seq<State>, events: seq<Event>, i: nat, j: nat)
    requires IsRun(states, events) && i <= j < |states|
    ensures states[i].dead <= states[j].dead
    decreases j
  {
    if i < j {
      DeadOnlyGrows(states, events, i, j - 1);
      assert Enabled(states[j - 1], events[j - 1]);
    }
  }

  /** A handle known to be dead is never stored or used again. */
  lemma DeadHandlesStayOut(states: seq<State>, events: seq<Event>, i: nat, j: nat, c: Conn)
    requires IsRun(states, events) && i <= j < |states| && c in states[i].dead
    ensures states[j].slot != Some(c)
    ensures forall t :: t in states[j].calls ==> ClientOf(states[j].calls[t].pc) != Some(c)
  {
    DeadOnlyGrows(states, events, i, j);
    RunKeepsInv(states, events, j);
  }

  /**
   A stalled dial wedges nobody: while one is under way the mutex is free or about to be freed without
   dialling or running `op`, and a caller that gets it leaves at once with the slot as it was.
   */
  lemma CallersFailFast(states: seq<State>, events: seq<Event>, k: nat, u: Thread)
    requires IsRun(states, events) && k < |states|
    requires u in states[k].calls && states[k].calls[u].pc == Entering
    requires exists t: Thread :: IsDialing(states[k], t)
    ensures forall h :: states[k].lock == Some(h) ==> h in states[k].calls && states[k].calls[h].pc == Inside
    ensures states[k].lock == None ==>
              && Enabled(states[k], Lock(u))
              && var locked := Next(states[k], Lock(u));
              && Enabled(locked, Decide(u))
              && var left := Next(locked, Decide(u));
              && left.calls[u].pc == Idle && left.calls[u].ops == 0
              && left.slot == states[k].slot && left.lock == None && left.reconnecting
  {
    RunKeepsInv(states, events, k);
    var t: Thread :| IsDialing(states[k], t);
    assert IsReplacing(states[k], t) && Busy(states[k].calls[t].pc);
  }

  /** When nobody is busy and the slot is empty, the next caller to get in dials, unless a dial has panicked. */
  lemma EmptySlotIsRedialedIff(states: seq<State>, events: seq<Event>, k: nat, u: Thread)
    requires IsRun(states, events) && k < |states|
    requires u in states[k].calls && states[k].calls[u].pc == Inside && states[k].slot == None
    requires forall t :: t in states[k].calls ==> !Busy(states[k].calls[t].pc)
    ensures Enabled(states[k], Decide(u))
    ensures Next(states[k], Decide(u)).calls[u].pc == (if DialPanicked(events, k) then Idle else Dialing(false))
  {
    RunKeepsInv(states, events, k);
  }

  /** An ambiguous COMMIT failure returns at once, and puts the handle back in the slot. */
  lemma AmbiguousCommitIsNotRetried(states: seq<State>, events: seq<Event>, k: nat, t: Thread, o: Outcome)
    requires IsRun(states, events) && k < |states|
    requires Enabled(states[k], OpEnds(t, o)) && o.commitAttempted && o.disconnected
    ensures var after := Next(states[k], OpEnds(t, o));
            && after.calls[t].pc == Idle && after.calls[t].commits == 1
            && after.slot == Some(states[k].calls[t].pc.client)
  {
    RunKeepsInv(states, events, k);
  }
}
