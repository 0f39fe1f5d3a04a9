/** A monitor: a lock and a condition variable whose waiters each bring a
    semaphore of their own.  A run is any interleaving of the threads' steps. */
module Monitors {
  import opened Helpers

  type Tid = nat

  /** Where a thread is: out of the monitor, holding its lock, holding it in the
      loop of a broadcast, holding it with its waiter queued, past the release and
      waiting for its semaphore, or past that and in need of the lock again. */
  datatype Pc = Outside | Holding | Broadcasting | Queued | Asleep | Roused

  /** `value` is each waiting thread's semaphore; `signals` and `passed` count the
      signals that found a waiter and the waits that got past their semaphore. */
  datatype State = State(holder: Option<Tid>, pcs: map<Tid, Pc>, waiters: seq<Tid>, value: map<Tid, nat>,
                         signals: nat, passed: nat)

  datatype Event =
    | Acquire(t: Tid)
    | Release(t: Tid)
    | Enqueue(t: Tid)
    | LetGo(t: Tid)
    | Pass(t: Tid)
    | Reacquire(t: Tid)
    | Signal(t: Tid)
    | Broadcast(t: Tid)
    | EndBroadcast(t: Tid)

  function PcOf(st: State, t: Tid): Pc { if t in st.pcs then st.pcs[t] else Outside }

  function Move(st: State, t: Tid, pc: Pc): State { st.(pcs := st.pcs[t := pc]) }

  function ValueOf(st: State, t: Tid): nat { if t in st.value then st.value[t] else 0 }

  predicate Enabled(st: State, e: Event) {
    match e
    case Acquire(t) => st.holder.None? && PcOf(st, t) == Outside
    case Release(t) => PcOf(st, t) == Holding
    case Enqueue(t) => PcOf(st, t) == Holding
    case LetGo(t) => PcOf(st, t) == Queued
    case Pass(t) => PcOf(st, t) == Asleep && ValueOf(st, t) > 0
    case Reacquire(t) => st.holder.None? && PcOf(st, t) == Roused
    case Signal(t) => PcOf(st, t) == Holding || (PcOf(st, t) == Broadcasting && st.waiters != [])
    case Broadcast(t) => PcOf(st, t) == Holding
    case EndBroadcast(t) => PcOf(st, t) == Broadcasting && st.waiters == []
  }

  /** `cond_signal`, by itself or in the loop of `cond_broadcast`: the first waiter's semaphore goes up. */
  function SignalOne(st: State): State {
    if st.waiters == [] then st
    else
      var w := st.waiters[0];
      st.(waiters := st.waiters[1..], value := st.value[w := ValueOf(st, w) + 1], signals := st.signals + 1)
  }

  function Step(st: State, e: Event): State
    requires Enabled(st, e)
  {
    match e
    case Acquire(t) => Move(st, t, Holding).(holder := Some(t))
    case Release(t) => Move(st, t, Outside).(holder := None)
    case Enqueue(t) => Move(st, t, Queued).(waiters := st.waiters + [t], value := st.value[t := 0])
    case LetGo(t) => Move(st, t, Asleep).(holder := None)
    case Pass(t) => Move(st, t, Roused).(value := st.value[t := ValueOf(st, t) - 1], passed := st.passed + 1)
    case Reacquire(t) => Move(st, t, Holding).(holder := Some(t))
    case Signal(t) => SignalOne(st)
    case Broadcast(t) => Move(st, t, Broadcasting)
    case EndBroadcast(t) => Move(st, t, Holding)
  }

  // ----- the invariant -----

  ghost predicate Inside(st: State, t: Tid) { PcOf(st, t) == Holding || PcOf(st, t) == Broadcasting }

  /** The holder, and nobody else, is inside with the lock. */
  ghost predicate Locked(st: State) {
    forall t: Tid :: Inside(st, t) || PcOf(st, t) == Queued <==> st.holder == Some(t)
  }

  /** Those on the list have not been signalled; those off it who sleep have, once. */
  ghost predicate Waiting(st: State) {
    && Distinct(st.waiters)
    && (forall t | t in st.waiters :: PcOf(st, t) in {Queued, Asleep} && ValueOf(st, t) == 0)
    && (forall t | PcOf(st, t) == Queued :: t in st.waiters)
    && (forall t | PcOf(st, t) == Asleep && t !in st.waiters :: ValueOf(st, t) == 1)
  }

  /** Signalled and not yet past its semaphore. */
  ghost function Due(st: State): set<Tid> {
    set t | t in st.pcs && PcOf(st, t) == Asleep && t !in st.waiters
  }

  ghost predicate Accounted(st: State) { st.signals == st.passed + |Due(st)| }

  ghost predicate Inv(st: State) { Locked(st) && Waiting(st) && Accounted(st) }

  ghost predicate Idle(st: State) {
    && st.holder == None && st.waiters == [] && st.signals == st.passed == 0
    && forall t: Tid :: PcOf(st, t) == Outside
  }

  lemma IdleKeeps(st: State)
    requires Idle(st)
    ensures Inv(st)
  {
    assert Due(st) == {};
  }

  /** The signaller holds the lock, so every waiter has let go of it. */
  lemma WaitersAsleep(st: State, t: Tid, w: Tid)
    requires Locked(st) && Waiting(st) && Inside(st, t) && w in st.waiters
    ensures PcOf(st, w) == Asleep && ValueOf(st, w) == 0
  {
    assert st.holder == Some(t);
    assert PcOf(st, w) == Queued ==> st.holder == Some(w);
  }

  lemma SignalOneWaiting(st: State, t: Tid)
    requires Locked(st) && Waiting(st) && Inside(st, t) && st.waiters != []
    ensures Locked(SignalOne(st)) && Waiting(SignalOne(st))
  {
    TailMembers(st.waiters);
    WaitersAsleep(st, t, st.waiters[0]);
    var n := SignalOne(st);
    assert forall x: Tid :: PcOf(n, x) == PcOf(st, x);
  }

  lemma SignalOneDue(st: State, t: Tid)
    requires Locked(st) && Waiting(st) && Inside(st, t) && st.waiters != []
    ensures Due(SignalOne(st)) == Due(st) + {st.waiters[0]} && st.waiters[0] !in Due(st)
  {
    TailMembers(st.waiters);
    WaitersAsleep(st, t, st.waiters[0]);
  }

  lemma SignalOneKeeps(st: State, t: Tid)
    requires Inv(st) && Inside(st, t)
    ensures Inv(SignalOne(st)) && SignalOne(st).pcs == st.pcs
  {
    hide Locked, Waiting, Due;
    if st.waiters != [] {
      SignalOneWaiting(st, t);
      SignalOneDue(st, t);
    }
  }

  lemma EnqueueKeeps(st: State, t: Tid)
    requires Inv(st) && PcOf(st, t) == Holding
    ensures Inv(Step(st, Enqueue(t)))
  {
    var n := Step(st, Enqueue(t));
    assert t !in st.waiters;
    assert Due(n) == Due(st);
  }

  lemma PassWaiting(st: State, t: Tid)
    requires Locked(st) && Waiting(st) && Enabled(st, Pass(t))
    ensures Locked(Step(st, Pass(t))) && Waiting(Step(st, Pass(t))) && t !in st.waiters && t in st.pcs
  {
    var n := Step(st, Pass(t));
    assert forall x: Tid | x != t :: PcOf(n, x) == PcOf(st, x) && ValueOf(n, x) == ValueOf(st, x);
    assert PcOf(n, t) == Roused;
  }

  lemma PassKeeps(st: State, t: Tid)
    requires Inv(st) && Enabled(st, Pass(t))
    ensures Inv(Step(st, Pass(t)))
  {
    hide Locked, Waiting, Due;
    PassWaiting(st, t);
    PassDue(st, t);
  }

  lemma PassDue(st: State, t: Tid)
    requires Enabled(st, Pass(t)) && t !in st.waiters && t in st.pcs
    ensures Due(st) == Due(Step(st, Pass(t))) + {t} && t !in Due(Step(st, Pass(t)))
  {
  }

  ghost predicate Moves(e: Event) { !e.Enqueue? && !e.Pass? && !e.Signal? }

  lemma MoveLocked(st: State, e: Event)
    requires Locked(st) && Enabled(st, e) && Moves(e)
    ensures Locked(Step(st, e))
  {
    var n := Step(st, e);
    assert forall x | x != e.t :: PcOf(n, x) == PcOf(st, x);
  }

  lemma MoveWaiting(st: State, e: Event)
    requires Waiting(st) && Enabled(st, e) && Moves(e)
    ensures Waiting(Step(st, e)) && Due(Step(st, e)) == Due(st)
  {
    var n := Step(st, e);
    assert forall x | x != e.t :: PcOf(n, x) == PcOf(st, x);
  }

  lemma MoveKeeps(st: State, e: Event)
    requires Inv(st) && Enabled(st, e) && Moves(e)
    ensures Inv(Step(st, e))
  {
    hide Locked, Waiting, Due;
    MoveLocked(st, e);
    MoveWaiting(st, e);
  }

  lemma StepKeeps(st: State, e: Event)
    requires Inv(st) && Enabled(st, e)
    ensures Inv(Step(st, e))
  {
    hide Inv, Locked, Waiting, Accounted;
    match e {
      case Enqueue(t) => EnqueueKeeps(st, t);
      case Pass(t) => PassKeeps(st, t);
      case Signal(t) => SignalOneKeeps(st, t);
      case _ => MoveKeeps(st, e);
    }
  }

  ghost predicate Reaches(st: State, es: seq<Event>, n: State)
    decreases |es|
  {
    if es == [] then n == st else Enabled(st, es[0]) && Reaches(Step(st, es[0]), es[1..], n)
  }

  lemma {:induction false} RunsAreSafe(st: State, es: seq<Event>, n: State)
    requires Inv(st) && Reaches(st, es, n)
    ensures Inv(n)
    decreases |es|
  {
    hide Inv, Step, Enabled;
    if es != [] {
      StepKeeps(st, es[0]);
      RunsAreSafe(Step(st, es[0]), es[1..], n);
    }
  }

  /** A sleeping thread gets past its semaphore exactly when it has been signalled: no
      signal is lost between the release of the lock and the wait, and none comes from
      nowhere. */
  lemma WakesExactlyWhenSignalled(st: State, t: Tid)
    requires Inv(st) && PcOf(st, t) == Asleep
    ensures Enabled(st, Pass(t)) <==> t !in st.waiters
  {
  }

  /** A waiter keeps its place, and moves up by one with each signal. */
  lemma StepKeepsTurn(st: State, e: Event, k: nat)
    requires Inv(st) && Enabled(st, e) && k < |st.waiters|
    ensures var n := Step(st, e);
            if !e.Signal? then k < |n.waiters| && n.waiters[k] == st.waiters[k]
            else if k == 0 then st.waiters[0] !in n.waiters && ValueOf(n, st.waiters[0]) == 1
            else k - 1 < |n.waiters| && n.waiters[k - 1] == st.waiters[k]
  {
    hide Accounted, Locked;
    if e.Signal? { TailMembers(st.waiters); }
  }

  ghost function SignalCount(es: seq<Event>): nat {
    if es == [] then 0 else (if es[0].Signal? then 1 else 0) + SignalCount(es[1..])
  }

  lemma {:induction false} RunKeepsTurn(st: State, es: seq<Event>, n: State, k: nat)
    requires Inv(st) && Reaches(st, es, n) && k < |st.waiters| && SignalCount(es) <= k
    ensures k - SignalCount(es) < |n.waiters| && n.waiters[k - SignalCount(es)] == st.waiters[k]
    decreases |es|
  {
    hide Inv, Step, Enabled;
    if es != [] {
      StepKeeps(st, es[0]);
      StepKeepsTurn(st, es[0], k);
      RunKeepsTurn(Step(st, es[0]), es[1..], n, if es[0].Signal? then k - 1 else k);
    }
  }

  /** In every interleaving, waiter `k` is woken by the (k+1)-th signal and not before. */
  lemma SignalledInTurn(st: State, es: seq<Event>, n: State, t: Tid, k: nat)
    requires Inv(st) && Reaches(st, es, n) && k < |st.waiters| && SignalCount(es) == k && Enabled(n, Signal(t))
    ensures st.waiters[k] in n.waiters
    ensures var m := Step(n, Signal(t)); st.waiters[k] !in m.waiters && ValueOf(m, st.waiters[k]) == 1
  {
    hide Inv, Step, Enabled, Reaches, SignalCount;
    RunsAreSafe(st, es, n);
    RunKeepsTurn(st, es, n, k);
    StepKeepsTurn(n, Signal(t), 0);
  }

  // ----- a broadcast, with the steps of other threads between its signals -----

  /** Signalled, and either due to pass its semaphore or past it. */
  ghost predicate Woken(st: State, w: Tid) {
    PcOf(st, w) == Roused || (PcOf(st, w) == Asleep && Enabled(st, Pass(w)))
  }

  /** While a thread broadcasts nobody joins the waiters, nobody who is woken gets
      on, and each signal takes the front waiter. */
  lemma StepInBroadcast(st: State, e: Event, t: Tid)
    requires Inv(st) && PcOf(st, t) == Broadcasting && Enabled(st, e) && e != EndBroadcast(t)
    ensures var n := Step(st, e);
            && PcOf(n, t) == Broadcasting
            && (e.Signal? ==> st.waiters != [] && n.waiters == st.waiters[1..] && Woken(n, st.waiters[0]))
            && (!e.Signal? ==> n.waiters == st.waiters)
            && forall w | Woken(st, w) :: Woken(n, w)
  {
    hide Accounted, Waiting;
    assert st.holder == Some(t);
    assert Inside(st, e.t) ==> e.t == t;
    if e.Signal? && st.waiters != [] { WaitersAsleep(st, t, st.waiters[0]); }
  }

  /** In every interleaving: the waiters a broadcast leaves are those there when it
      started less the signalled ones; it can end exactly when it has signalled
      each of them, and by then all of them are woken. */
  lemma {:induction false} BroadcastWakesAll(st: State, es: seq<Event>, n: State, t: Tid)
    requires Inv(st) && PcOf(st, t) == Broadcasting && Reaches(st, es, n) && EndBroadcast(t) !in es
    ensures PcOf(n, t) == Broadcasting && SignalCount(es) <= |st.waiters| && n.waiters == st.waiters[SignalCount(es)..]
    ensures Enabled(n, EndBroadcast(t)) <==> SignalCount(es) == |st.waiters|
    ensures forall k | 0 <= k < SignalCount(es) :: Woken(n, st.waiters[k])
    ensures forall w | Woken(st, w) :: Woken(n, w)
    decreases |es|
  {
    hide Inv, Step, Woken;
    if es != [] {
      assert es == [es[0]] + es[1..];
      StepKeeps(st, es[0]);
      StepInBroadcast(st, es[0], t);
      var m := Step(st, es[0]);
      BroadcastWakesAll(m, es[1..], n, t);
      if es[0].Signal? {
        forall k | 0 <= k < SignalCount(es) ensures Woken(n, st.waiters[k]) {
          assert k > 0 ==> st.waiters[k] == m.waiters[k - 1];
        }
      }
    }
  }

  /** From a monitor nobody uses, in every run: at most one thread is inside, and
      the signals that found a waiter are the waits past their semaphore and those
      about to be. */
  lemma OneInside(st: State, es: seq<Event>, n: State, t: Tid, u: Tid)
    requires Idle(st) && Reaches(st, es, n)
    ensures Inside(n, t) && Inside(n, u) ==> t == u
    ensures n.signals == n.passed + |Due(n)|
  {
    hide Reaches, Due, Waiting;
    IdleKeeps(st);
    RunsAreSafe(st, es, n);
  }
}
