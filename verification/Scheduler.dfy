/** Threads, the round-robin scheduler, semaphores and locks on one processor.
    Every region that runs with interrupts off is one step of the thread that
    is running; a timer or device interrupt is a step at a point where
    interrupts are on.  A run is any sequence of enabled steps. */
module Scheduler {
  import opened Helpers

  type Tid = nat
  type SemaId = nat

  datatype Status = RUNNING | READY | BLOCKED | DYING

  /** Where a thread is with respect to `sema_down`: inside its loop on a
      semaphore, or anywhere else. */
  datatype Where = Outside | InDown(sema: SemaId)

  datatype Thread = Thread(status: Status, at: Where)

  /** A semaphore, with its history: the value it was initialised to and the
      numbers of completed ups and downs. */
  datatype Sema = Sema(value: nat, waiters: seq<Tid>, start: nat, ups: nat, downs: nat)

  /** A thread that has decremented a lock's semaphore has yet to record itself
      as holder, is the holder, or has cleared the holder and has yet to
      increment the semaphore. */
  datatype Phase = Acquired | Held | Releasing

  datatype Lock = Lock(holder: Option<Tid>, inside: map<Tid, Phase>)

  datatype State = State(
    threads: map<Tid, Thread>,
    ready: seq<Tid>,
    current: Tid,
    idle: Tid,
    initial: Tid,
    nextTid: Tid,
    semas: map<SemaId, Sema>,
    locks: map<SemaId, Lock>)   // the lock whose semaphore is the key

  datatype Event =
    | SemaInit(s: SemaId, value: nat)
    | LockInit(s: SemaId)
    | Down(s: SemaId)
    | TryDown(s: SemaId)
    | Up(s: SemaId)
    | SetHolder(s: SemaId)
    | ClearHolder(s: SemaId)
    | Yield
    | IdleBlock
    | Create
    | Exit

  // ----- thread.c -----

  function SetStatus(st: State, t: Tid, status: Status): State
    requires t in st.threads
  {
    st.(threads := st.threads[t := st.threads[t].(status := status)])
  }

  /** Make a blocked thread ready, at the back of the run queue. */
  function Unblock(st: State, t: Tid): State
    requires t in st.threads
  {
    SetStatus(st, t, READY).(ready := st.ready + [t])
  }

  function NextThreadToRun(st: State): Tid {
    if st.ready == [] then st.idle else st.ready[0]
  }

  /** Switch to the next thread; a dying predecessor is destroyed, unless it is
      the initial thread, whose page was not allocated. */
  function Schedule(st: State): State
    requires st.current in st.threads && NextThreadToRun(st) in st.threads
  {
    var next := NextThreadToRun(st);
    var prev := st.current;
    var running := SetStatus(st, next, RUNNING).(
      ready := if st.ready == [] then [] else st.ready[1..], current := next);
    if st.threads[prev].status == DYING && prev != st.initial && prev != next
    then running.(threads := running.threads - {prev})
    else running
  }

  function YieldStep(st: State): State
    requires st.current in st.threads
  {
    SetStatus(st, st.current, READY).(
      ready := if st.current != st.idle then st.ready + [st.current] else st.ready)
  }

  /** A new thread starts blocked and is then made ready. */
  function Created(st: State): State {
    var t := st.nextTid;
    Unblock(st.(threads := st.threads[t := Thread(BLOCKED, Outside)], nextTid := t + 1), t)
  }

  // ----- synch.c -----

  /** One turn of the loop in `sema_down`, up to the point where the thread
      gives up the processor. */
  function DownStep(st: State, s: SemaId): State
    requires s in st.semas && st.current in st.threads
  {
    var sema := st.semas[s];
    if sema.value == 0 then
      st.(semas := st.semas[s := sema.(waiters := sema.waiters + [st.current])],
          threads := st.threads[st.current := Thread(BLOCKED, InDown(s))])
    else Entered(
      st.(semas := st.semas[s := sema.(value := sema.value - 1, downs := sema.downs + 1)],
          threads := st.threads[st.current := st.threads[st.current].(at := Outside)]), s)
  }

  /** A successful down on a lock's semaphore puts the thread inside the lock. */
  function Entered(st: State, s: SemaId): State {
    if s in st.locks
    then st.(locks := st.locks[s := st.locks[s].(inside := st.locks[s].inside[st.current := Acquired])])
    else st
  }

  function TryDownStep(st: State, s: SemaId): State
    requires s in st.semas && st.current in st.threads
  {
    if st.semas[s].value == 0 then st else DownStep(st, s)
  }

  function UpStep(st: State, s: SemaId): State
    requires s in st.semas
    requires forall t | t in st.semas[s].waiters :: t in st.threads
  {
    var sema := st.semas[s];
    var woken := if sema.waiters == [] then st else Unblock(st, sema.waiters[0]);
    var left := if s in st.locks
                then woken.(locks := st.locks[s := st.locks[s].(inside := st.locks[s].inside - {st.current})])
                else woken;
    left.(semas := st.semas[s := sema.(value := sema.value + 1, ups := sema.ups + 1,
      waiters := if sema.waiters == [] then [] else sema.waiters[1..])])
  }

  // ----- steps -----

  /** A thread back from `thread_block` re-tests the semaphore before anything
      else can happen.  Only the lock's own thread leaves it; the idle thread
      never waits or exits. */
  predicate Enabled(st: State, e: Event) {
    && st.current in st.threads
    && var me := st.threads[st.current];
    && (me.at.InDown? ==> e == Down(me.at.sema))
    && match e
       case SemaInit(s, _) => s !in st.semas
       case LockInit(s) => s !in st.semas
       case Down(s) => s in st.semas && st.current != st.idle && !LockHeldByMe(st, s)
       case TryDown(s) => s in st.semas && !LockHeldByMe(st, s)
       case Up(s) => s in st.semas && (s in st.locks ==> PhaseIs(st, s, Releasing))
       case SetHolder(s) => PhaseIs(st, s, Acquired)
       case ClearHolder(s) => PhaseIs(st, s, Held)
       case Yield => true
       case IdleBlock => st.current == st.idle
       case Create => true
       case Exit => st.current != st.idle
  }

  predicate LockHeldByMe(st: State, s: SemaId) {
    s in st.locks && st.locks[s].holder == Some(st.current)
  }

  predicate PhaseIs(st: State, s: SemaId, p: Phase) {
    && s in st.locks
    && st.current in st.locks[s].inside && st.locks[s].inside[st.current] == p
  }

  function Step(st: State, e: Event): State
    requires Inv(st) && Enabled(st, e)
  {
    match e
    case SemaInit(s, v) => st.(semas := st.semas[s := Sema(v, [], v, 0, 0)])
    case LockInit(s) => st.(semas := st.semas[s := Sema(1, [], 1, 0, 0)], locks := st.locks[s := Lock(None, map[])])
    case Down(s) =>
      var next := DownStep(st, s);
      if st.semas[s].value == 0 then Schedule(next) else next
    case TryDown(s) => TryDownStep(st, s)
    case Up(s) => UpStep(st, s)
    case SetHolder(s) =>
      var l := st.locks[s];
      st.(locks := st.locks[s := Lock(Some(st.current), l.inside[st.current := Held])])
    case ClearHolder(s) =>
      var l := st.locks[s];
      st.(locks := st.locks[s := Lock(None, l.inside[st.current := Releasing])])
    case Yield => Schedule(YieldStep(st))
    case IdleBlock => Schedule(SetStatus(st, st.current, BLOCKED))
    case Create => Created(st)
    case Exit => Schedule(SetStatus(st, st.current, DYING))
  }

  // ----- the invariant -----

  /** Exactly one thread is running: the current one. */
  ghost predicate OneRunning(st: State) {
    && st.current in st.threads
    && forall t | t in st.threads :: st.threads[t].status == RUNNING <==> t == st.current
  }

  ghost predicate NoneRunning(st: State) {
    && st.current in st.threads
    && forall t | t in st.threads :: st.threads[t].status != RUNNING
  }

  /** The run queue holds exactly the ready threads but the idle one, once each. */
  ghost predicate ReadyList(st: State) {
    && Distinct(st.ready)
    && forall t :: t in st.ready <==> t in st.threads && st.threads[t].status == READY && t != st.idle
  }

  /** Every wait list holds, once each, blocked threads that are inside
      `sema_down` on that semaphore. */
  ghost predicate WaitLists(st: State) {
    forall s | s in st.semas ::
      && Distinct(st.semas[s].waiters)
      && forall t | t in st.semas[s].waiters :: t in st.threads && st.threads[t] == Thread(BLOCKED, InDown(s))
  }

  /** Every blocked thread but the idle one is on a wait list. */
  ghost predicate BlockedWait(st: State) {
    forall t | t in st.threads && st.threads[t].status == BLOCKED && t != st.idle ::
      && st.threads[t].at.InDown? && st.threads[t].at.sema in st.semas
      && t in st.semas[st.threads[t].at.sema].waiters
  }

  /** The idle thread stays, thread identifiers are old, and threads inside
      `sema_down` are so on a semaphore that exists. */
  ghost predicate Residents(st: State) {
    && st.idle in st.threads && st.threads[st.idle].at.Outside? && st.threads[st.idle].status != DYING
    && (forall t | t in st.threads :: t < st.nextTid)
    && (forall t | t in st.threads && st.threads[t].at.InDown? :: st.threads[t].at.sema in st.semas)
  }

  /** No dying thread is left except, possibly, the initial one and `t0`. */
  ghost predicate DeadExcept(st: State, t0: Tid) {
    forall t | t in st.threads && st.threads[t].status == DYING ::
      (t == st.initial || t == t0) && st.threads[t].at.Outside?
  }

  ghost predicate NoDead(st: State) {
    forall t | t in st.threads && st.threads[t].status == DYING :: t == st.initial && st.threads[t].at.Outside?
  }

  /** The threads woken by `s` that have not yet re-tested it. */
  ghost function Woken(st: State, s: SemaId): set<Tid>
    requires s in st.semas
  {
    set t | t in st.threads && st.threads[t].at == InDown(s) && t !in st.semas[s].waiters
  }

  /** No wakeup is lost: a value that waiters could use is spoken for by woken
      threads. */
  ghost predicate NoLostWakeup(st: State) {
    forall s | s in st.semas && st.semas[s].waiters != [] :: st.semas[s].value <= |Woken(st, s)|
  }

  /** Completed downs plus value equals initial value plus ups. */
  ghost predicate Conserved(st: State) {
    forall s | s in st.semas ::
      st.semas[s].downs + st.semas[s].value == st.semas[s].start + st.semas[s].ups
  }

  /** At most one thread is inside a lock, none while its semaphore is up, and
      the recorded holder is the one that is inside and has recorded itself. */
  ghost predicate MutualExclusion(st: State) {
    forall s | s in st.locks ::
      && s in st.semas
      && st.semas[s].value + |st.locks[s].inside| == 1
      && forall t :: st.locks[s].holder == Some(t) <==>
                     t in st.locks[s].inside && st.locks[s].inside[t] == Held
  }

  ghost predicate Lists(st: State) {
    && ReadyList(st) && WaitLists(st) && BlockedWait(st) && Residents(st)
  }

  ghost predicate Inv(st: State) {
    && OneRunning(st) && Lists(st) && NoDead(st) && NoLostWakeup(st) && Conserved(st) && MutualExclusion(st)
  }

  // ----- scheduling keeps the lists -----

  ghost predicate BetweenThreads(st: State) {
    NoneRunning(st) && Lists(st) && DeadExcept(st, st.current)
  }

  ghost predicate Destroyed(st: State, next: Tid, t: Tid)
    requires st.current in st.threads
  {
    t == st.current && st.threads[t].status == DYING && t != st.initial && t != next
  }

  /** A switch, thread by thread. */
  ghost predicate Switched(st: State, n: State, next: Tid)
    requires st.current in st.threads
  {
    && next in st.threads && n.current == next
    && n.ready == (if st.ready == [] then [] else st.ready[1..])
    && n.idle == st.idle && n.initial == st.initial && n.nextTid == st.nextTid
    && n.semas == st.semas && n.locks == st.locks
    && (forall t :: t in n.threads <==> t in st.threads && !Destroyed(st, next, t))
    && (forall t | t in n.threads ::
          n.threads[t] == if t == next then st.threads[t].(status := RUNNING) else st.threads[t])
  }

  lemma ScheduleSwitches(st: State)
    requires st.current in st.threads && NextThreadToRun(st) in st.threads
    ensures Switched(st, Schedule(st), NextThreadToRun(st))
  {
  }

  lemma NextExists(st: State)
    requires ReadyList(st) && Residents(st)
    ensures NextThreadToRun(st) in st.threads && st.threads[NextThreadToRun(st)].status != DYING
    ensures st.ready != [] ==> st.threads[st.ready[0]].status == READY && st.ready[0] != st.idle
  {
    if st.ready != [] { assert st.ready[0] in st.ready; }
  }

  lemma SwitchReady(st: State, n: State, next: Tid)
    requires st.current in st.threads && Switched(st, n, next) && next == NextThreadToRun(st)
    requires ReadyList(st) && Residents(st) && DeadExcept(st, st.current) && NoneRunning(st)
    ensures OneRunning(n) && ReadyList(n) && Residents(n) && NoDead(n)
  {
    NextExists(st);
    if st.ready != [] { TailMembers(st.ready); }
  }

  lemma SwitchWaits(st: State, n: State, next: Tid)
    requires st.current in st.threads && Switched(st, n, next) && st.threads[next].status != DYING
    requires st.threads[next].status == BLOCKED ==> next == st.idle && st.threads[next].at.Outside?
    requires WaitLists(st) && BlockedWait(st) && DeadExcept(st, st.current)
    ensures WaitLists(n) && BlockedWait(n)
    ensures forall s | s in st.semas :: Woken(n, s) == Woken(st, s)
  {
  }

  lemma ScheduleKeeps(st: State)
    requires BetweenThreads(st)
    ensures NextThreadToRun(st) in st.threads
    ensures var n := Schedule(st);
            && OneRunning(n) && Lists(n) && NoDead(n)
            && n.semas == st.semas && n.locks == st.locks
            && forall s | s in st.semas :: Woken(n, s) == Woken(st, s)
  {
    hide ReadyList, WaitLists, BlockedWait, DeadExcept, NoDead, OneRunning, Schedule, Woken;
    NextExists(st);
    var next, n := NextThreadToRun(st), Schedule(st);
    ScheduleSwitches(st);
    SwitchReady(st, n, next);
    assert st.threads[next].status == BLOCKED ==> next == st.idle;
    SwitchWaits(st, n, next);
  }

  // ----- every step keeps the invariant -----

  /** The part of the invariant that a switch cannot touch. */
  ghost predicate Counts(st: State) {
    NoLostWakeup(st) && Conserved(st) && MutualExclusion(st)
  }

  lemma SwitchKeeps(st: State)
    requires BetweenThreads(st) && Counts(st)
    ensures NextThreadToRun(st) in st.threads && Inv(Schedule(st))
  {
    hide OneRunning, Lists, NoDead, Schedule, Woken;
    ScheduleKeeps(st);
  }

  /** Counts depend on the threads only through who is inside `sema_down`. */
  lemma SameCounts(st: State, n: State)
    requires Counts(st) && n.semas == st.semas && n.locks == st.locks
    requires forall t :: (t in n.threads && n.threads[t].at.InDown?) <==> (t in st.threads && st.threads[t].at.InDown?)
    requires forall t | t in n.threads && t in st.threads :: n.threads[t].at == st.threads[t].at
    ensures Counts(n)
  {
    forall s | s in st.semas ensures Woken(n, s) == Woken(st, s) {}
  }

  /** Changing one thread that is not blocked keeps the wait lists. */
  lemma ChangeOne(st: State, n: State, t: Tid)
    requires WaitLists(st) && BlockedWait(st)
    requires n.semas == st.semas && n.idle == st.idle
    requires t in n.threads && n.threads == st.threads[t := n.threads[t]]
    requires t in st.threads ==> st.threads[t].status != BLOCKED
    requires n.threads[t].status == BLOCKED ==> t == st.idle
    ensures WaitLists(n) && BlockedWait(n)
  {
  }

  /** The current thread stops running and goes nowhere, or to the run queue. */
  ghost predicate Stopped(st: State, n: State, status: Status)
    requires st.current in st.threads
  {
    && n.threads == st.threads[st.current := st.threads[st.current].(status := status)]
    && n.ready == (if status == READY && st.current != st.idle then st.ready + [st.current] else st.ready)
    && n.current == st.current && n.idle == st.idle && n.initial == st.initial && n.nextTid == st.nextTid
    && n.semas == st.semas && n.locks == st.locks
  }

  lemma StopReady(st: State, n: State, status: Status)
    requires OneRunning(st) && ReadyList(st) && Stopped(st, n, status) && status != RUNNING
    ensures NoneRunning(n) && ReadyList(n)
  {
    if status == READY && st.current != st.idle { AppendMembers(st.ready, st.current); }
  }

  lemma StopResidents(st: State, n: State, status: Status)
    requires st.current in st.threads && Residents(st) && NoDead(st) && Stopped(st, n, status)
    requires status == DYING ==> st.current != st.idle && st.threads[st.current].at.Outside?
    ensures Residents(n) && DeadExcept(n, n.current)
  {
  }

  lemma StopKeeps(st: State, n: State, status: Status)
    requires Inv(st) && Stopped(st, n, status) && status != RUNNING
    requires status == DYING ==> st.current != st.idle && st.threads[st.current].at.Outside?
    requires status == BLOCKED ==> st.current == st.idle
    ensures BetweenThreads(n) && Counts(n)
  {
    hide NoLostWakeup, Conserved, MutualExclusion, WaitLists, BlockedWait, ReadyList, Residents, NoDead, DeadExcept,
         NoneRunning;
    SameCounts(st, n);
    ChangeOne(st, n, st.current);
    StopReady(st, n, status);
    StopResidents(st, n, status);
  }

  lemma YieldKeeps(st: State)
    requires Inv(st) && st.threads[st.current].at.Outside?
    ensures BetweenThreads(YieldStep(st)) && Counts(YieldStep(st))
  {
    hide Lists, NoDead, BetweenThreads, Counts, NoLostWakeup, Conserved, MutualExclusion;
    StopKeeps(st, YieldStep(st), READY);
  }

  lemma IdleBlockKeeps(st: State)
    requires Inv(st) && st.current == st.idle
    ensures var n := SetStatus(st, st.current, BLOCKED); BetweenThreads(n) && Counts(n)
  {
    hide Lists, NoDead, BetweenThreads, Counts, NoLostWakeup, Conserved, MutualExclusion;
    StopKeeps(st, SetStatus(st, st.current, BLOCKED), BLOCKED);
  }

  lemma ExitKeeps(st: State)
    requires Inv(st) && st.current != st.idle && st.threads[st.current].at.Outside?
    ensures var n := SetStatus(st, st.current, DYING); BetweenThreads(n) && Counts(n)
  {
    hide Lists, NoDead, BetweenThreads, Counts, NoLostWakeup, Conserved, MutualExclusion;
    StopKeeps(st, SetStatus(st, st.current, DYING), DYING);
  }

  lemma CreatedReady(st: State)
    requires OneRunning(st) && ReadyList(st) && Residents(st) && NoDead(st)
    ensures var n := Created(st); OneRunning(n) && ReadyList(n) && Residents(n) && NoDead(n)
  {
    var t := st.nextTid;
    assert Created(st).threads == st.threads[t := Thread(READY, Outside)];
    assert t !in st.ready;
    AppendMembers(st.ready, t);
  }

  lemma CreateKeeps(st: State)
    requires Inv(st)
    ensures Inv(Created(st))
  {
    hide NoLostWakeup, Conserved, MutualExclusion, WaitLists, BlockedWait, ReadyList, NoDead, OneRunning;
    var t, n := st.nextTid, Created(st);
    assert n.threads == st.threads[t := Thread(READY, Outside)];
    SameCounts(st, n);
    ChangeOne(st, n, t);
    CreatedReady(st);
  }

  lemma HolderKeeps(st: State, s: SemaId, l: Lock)
    requires Inv(st) && s in st.locks && l.inside.Keys == st.locks[s].inside.Keys
    requires forall t :: l.holder == Some(t) <==> t in l.inside && l.inside[t] == Held
    ensures Inv(st.(locks := st.locks[s := l]))
  {
    LocksOnly(st, st.locks[s := l]);
    HolderExcludes(st, s, l);
  }

  lemma LocksOnly(st: State, locks: map<SemaId, Lock>)
    requires Inv(st)
    ensures var n := st.(locks := locks);
            OneRunning(n) && Lists(n) && NoDead(n) && NoLostWakeup(n) && Conserved(n)
  {
    hide MutualExclusion;
    var n := st.(locks := locks);
    forall x | x in st.semas ensures Woken(n, x) == Woken(st, x) {}
  }

  lemma HolderExcludes(st: State, s: SemaId, l: Lock)
    requires MutualExclusion(st) && s in st.locks && l.inside.Keys == st.locks[s].inside.Keys
    requires forall t :: l.holder == Some(t) <==> t in l.inside && l.inside[t] == Held
    ensures MutualExclusion(st.(locks := st.locks[s := l]))
  {
    assert |l.inside| == |l.inside.Keys| && |st.locks[s].inside| == |st.locks[s].inside.Keys|;
  }

  lemma SemaInitKeeps(st: State, s: SemaId, v: nat)
    requires Inv(st) && s !in st.semas
    ensures Inv(st.(semas := st.semas[s := Sema(v, [], v, 0, 0)]))
  {
    SemaInitLists(st, s, v);
    SemaInitCounts(st, s, v);
  }

  lemma SemaInitLists(st: State, s: SemaId, v: nat)
    requires Inv(st) && s !in st.semas
    ensures var n := st.(semas := st.semas[s := Sema(v, [], v, 0, 0)]);
            OneRunning(n) && Lists(n) && NoDead(n)
  {
    hide NoLostWakeup, Conserved, MutualExclusion;
  }

  lemma SemaInitCounts(st: State, s: SemaId, v: nat)
    requires Counts(st) && s !in st.semas
    ensures Counts(st.(semas := st.semas[s := Sema(v, [], v, 0, 0)]))
  {
    var n := st.(semas := st.semas[s := Sema(v, [], v, 0, 0)]);
    forall x | x in st.semas ensures Woken(n, x) == Woken(st, x) {}
  }

  lemma LockInitKeeps(st: State, s: SemaId)
    requires Inv(st) && s !in st.semas
    ensures Inv(st.(semas := st.semas[s := Sema(1, [], 1, 0, 0)], locks := st.locks[s := Lock(None, map[])]))
  {
    var m := st.(semas := st.semas[s := Sema(1, [], 1, 0, 0)]);
    SemaInitKeeps(st, s, 1);
    LocksOnly(m, st.locks[s := Lock(None, map[])]);
    LockInitExcludes(st, s);
  }

  lemma LockInitExcludes(st: State, s: SemaId)
    requires MutualExclusion(st) && s !in st.semas
    ensures MutualExclusion(
              st.(semas := st.semas[s := Sema(1, [], 1, 0, 0)], locks := st.locks[s := Lock(None, map[])]))
  {
  }

  /** Before `Down(s)` the current thread is either outside or woken by `s`. */
  ghost predicate MayTest(st: State, s: SemaId) {
    && s in st.semas && st.current in st.threads
    && (st.threads[st.current].at == Outside || st.threads[st.current].at == InDown(s))
  }

  lemma DownWaitsKeeps(st: State, s: SemaId)
    requires Inv(st) && MayTest(st, s) && st.semas[s].value == 0 && st.current != st.idle
    ensures BetweenThreads(DownStep(st, s)) && Counts(DownStep(st, s))
  {
    DownWaitsLists(st, s);
    DownWaitsCounts(st, s);
  }

  lemma DownWaitsLists(st: State, s: SemaId)
    requires Inv(st) && MayTest(st, s) && st.semas[s].value == 0 && st.current != st.idle
    ensures BetweenThreads(DownStep(st, s))
  {
    hide ReadyList, WaitLists, BlockedWait, Residents, NoLostWakeup, Conserved, MutualExclusion;
    DownWaitsReady(st, s);
    DownWaitsWaits(st, s);
  }

  lemma DownWaitsReady(st: State, s: SemaId)
    requires OneRunning(st) && ReadyList(st) && Residents(st)
    requires MayTest(st, s) && st.semas[s].value == 0 && st.current != st.idle
    ensures ReadyList(DownStep(st, s)) && Residents(DownStep(st, s))
  {
    hide Distinct;
  }

  lemma DownWaitsWaits(st: State, s: SemaId)
    requires OneRunning(st) && WaitLists(st) && BlockedWait(st)
    requires MayTest(st, s) && st.semas[s].value == 0 && st.current != st.idle
    ensures WaitLists(DownStep(st, s)) && BlockedWait(DownStep(st, s))
  {
    AppendMembers(st.semas[s].waiters, st.current);
  }

  lemma DownWaitsCounts(st: State, s: SemaId)
    requires Inv(st) && MayTest(st, s) && st.semas[s].value == 0
    ensures Counts(DownStep(st, s))
  {
    hide ReadyList, BlockedWait, Residents, NoDead, WaitLists, Woken;
    DownWoken(st, s);
  }

  /** One turn of `sema_down` takes the thread from those woken by its semaphore. */
  lemma DownWoken(st: State, s: SemaId)
    requires MayTest(st, s)
    ensures var n := DownStep(st, s);
            && (forall x | x in st.semas && x != s :: Woken(n, x) == Woken(st, x))
            && Woken(n, s) == Woken(st, s) - {st.current}
  {
    var n := DownStep(st, s);
    forall x | x in st.semas && x != s ensures Woken(n, x) == Woken(st, x) {}
  }

  lemma DownTakesLists(st: State, s: SemaId)
    requires Inv(st) && MayTest(st, s) && st.semas[s].value > 0
    ensures var n := DownStep(st, s); OneRunning(n) && Lists(n) && NoDead(n)
  {
    hide OneRunning, ReadyList, WaitLists, BlockedWait, Residents, NoDead, NoLostWakeup, Conserved, MutualExclusion,
         DownStep;
    DownTakesReady(st, s);
    DownTakesWaits(st, s);
  }

  lemma DownTakesReady(st: State, s: SemaId)
    requires OneRunning(st) && ReadyList(st) && Residents(st) && NoDead(st)
    requires MayTest(st, s) && st.semas[s].value > 0
    ensures var n := DownStep(st, s); OneRunning(n) && ReadyList(n) && Residents(n) && NoDead(n)
  {
    hide Distinct;
  }

  lemma DownTakesWaits(st: State, s: SemaId)
    requires OneRunning(st) && WaitLists(st) && BlockedWait(st)
    requires MayTest(st, s) && st.semas[s].value > 0
    ensures WaitLists(DownStep(st, s)) && BlockedWait(DownStep(st, s))
  {
    hide Distinct;
  }

  lemma DownTakesWakeups(st: State, s: SemaId)
    requires Inv(st) && MayTest(st, s) && st.semas[s].value > 0
    ensures NoLostWakeup(DownStep(st, s)) && Conserved(DownStep(st, s))
  {
    hide ReadyList, BlockedWait, Residents, NoDead, MutualExclusion, WaitLists, Woken;
    DownWoken(st, s);
  }

  lemma DownTakesExcludes(st: State, s: SemaId)
    requires MutualExclusion(st) && MayTest(st, s) && st.semas[s].value > 0
    ensures MutualExclusion(DownStep(st, s))
  {
    if s in st.locks {
      assert st.locks[s].inside == map[];
      assert map[][st.current := Acquired].Keys == {st.current};
    }
  }

  lemma DownTakesKeeps(st: State, s: SemaId)
    requires Inv(st) && MayTest(st, s) && st.semas[s].value > 0
    ensures Inv(DownStep(st, s))
  {
    hide DownStep, ReadyList, WaitLists, BlockedWait, Residents, NoDead, OneRunning;
    DownTakesLists(st, s);
    DownTakesWakeups(st, s);
    DownTakesExcludes(st, s);
  }

  lemma UpLists(st: State, s: SemaId)
    requires Inv(st) && s in st.semas
    ensures var n := UpStep(st, s); OneRunning(n) && Lists(n) && NoDead(n)
  {
    hide OneRunning, ReadyList, BlockedWait, Residents, NoDead, NoLostWakeup, Conserved, MutualExclusion, UpStep;
    UpReady(st, s);
    UpWaits(st, s);
  }

  /** The front waiter, if any, is blocked on the semaphore. */
  lemma FrontWaiter(st: State, s: SemaId)
    requires WaitLists(st) && s in st.semas && st.semas[s].waiters != []
    ensures var t := st.semas[s].waiters[0]; t in st.threads && st.threads[t] == Thread(BLOCKED, InDown(s))
  {
    assert st.semas[s].waiters[0] in st.semas[s].waiters;
  }

  lemma UpReady(st: State, s: SemaId)
    requires OneRunning(st) && ReadyList(st) && WaitLists(st) && Residents(st) && NoDead(st) && s in st.semas
    ensures var n := UpStep(st, s); OneRunning(n) && ReadyList(n) && Residents(n) && NoDead(n)
  {
    hide WaitLists, ReadyList;
    var w := st.semas[s].waiters;
    if w != [] { FrontWaiter(st, s); }
    UpReadyList(st, s);
  }

  lemma UpReadyList(st: State, s: SemaId)
    requires ReadyList(st) && WaitLists(st) && Residents(st) && s in st.semas
    ensures ReadyList(UpStep(st, s))
  {
    hide WaitLists;
    var w := st.semas[s].waiters;
    if w != [] {
      FrontWaiter(st, s);
      AppendMembers(st.ready, w[0]);
    }
  }

  lemma UpWaits(st: State, s: SemaId)
    requires WaitLists(st) && BlockedWait(st) && s in st.semas && Residents(st)
    ensures WaitLists(UpStep(st, s)) && BlockedWait(UpStep(st, s))
  {
    hide BlockedWait;
    var w := st.semas[s].waiters;
    if w != [] {
      FrontWaiter(st, s);
      TailMembers(w);
    }
    UpBlocked(st, s);
  }

  lemma UpBlocked(st: State, s: SemaId)
    requires WaitLists(st) && BlockedWait(st) && s in st.semas
    ensures BlockedWait(UpStep(st, s))
  {
    hide WaitLists;
    var w := st.semas[s].waiters;
    if w != [] {
      FrontWaiter(st, s);
      WaitersOnce(st, s);
      TailMembers(w);
    }
  }

  lemma WaitersOnce(st: State, s: SemaId)
    requires WaitLists(st) && s in st.semas
    ensures Distinct(st.semas[s].waiters)
  {
  }

  lemma UpWakeups(st: State, s: SemaId)
    requires Inv(st) && s in st.semas
    ensures NoLostWakeup(UpStep(st, s)) && Conserved(UpStep(st, s))
  {
    hide ReadyList, BlockedWait, Residents, NoDead, MutualExclusion, Woken, WaitLists;
    UpWoken(st, s);
  }

  lemma UpWoken(st: State, s: SemaId)
    requires WaitLists(st) && s in st.semas
    ensures var n, w := UpStep(st, s), st.semas[s].waiters;
            && (forall x | x in st.semas && x != s :: Woken(n, x) == Woken(st, x))
            && (w != [] ==> |Woken(n, s)| == |Woken(st, s)| + 1)
  {
    hide Woken;
    var n, w := UpStep(st, s), st.semas[s].waiters;
    forall x | x in st.semas && x != s ensures Woken(n, x) == Woken(st, x) { UpElsewhere(st, s, x); }
    if w != [] { UpWakesFront(st, s); }
  }

  lemma UpElsewhere(st: State, s: SemaId, x: SemaId)
    requires s in st.semas && x in st.semas && x != s
    requires forall t | t in st.semas[s].waiters :: t in st.threads
    ensures Woken(UpStep(st, s), x) == Woken(st, x)
  {
    hide Distinct;
  }

  lemma UpWakesFront(st: State, s: SemaId)
    requires s in st.semas && st.semas[s].waiters != [] && Distinct(st.semas[s].waiters)
    requires forall t | t in st.semas[s].waiters :: t in st.threads && st.threads[t] == Thread(BLOCKED, InDown(s))
    ensures |Woken(UpStep(st, s), s)| == |Woken(st, s)| + 1
  {
    hide Distinct;
    var n, w := UpStep(st, s), st.semas[s].waiters;
    TailMembers(w);
    assert w[0] in w;
    assert n.threads == st.threads[w[0] := Thread(READY, InDown(s))] && n.semas[s].waiters == w[1..];
    WakesOne(st, n, s, w[0]);
  }

  lemma WakesOne(st: State, n: State, s: SemaId, t: Tid)
    requires s in st.semas && s in n.semas && t in st.threads && t in st.semas[s].waiters
    requires n.threads == st.threads[t := Thread(READY, InDown(s))]
    requires forall u :: u in n.semas[s].waiters <==> u in st.semas[s].waiters && u != t
    ensures |Woken(n, s)| == |Woken(st, s)| + 1
  {
    assert Woken(n, s) == Woken(st, s) + {t};
  }

  lemma UpExcludes(st: State, s: SemaId)
    requires MutualExclusion(st) && s in st.semas
    requires forall t | t in st.semas[s].waiters :: t in st.threads
    requires s in st.locks ==> PhaseIs(st, s, Releasing)
    ensures MutualExclusion(UpStep(st, s))
  {
    if s in st.locks {
      var inside := st.locks[s].inside;
      assert |inside.Keys| == |inside| == 1;
      assert inside.Keys == {st.current} by {
        assert |inside.Keys - {st.current}| == 0;
      }
      assert (inside - {st.current}).Keys == {};
    }
  }

  lemma UpKeeps(st: State, s: SemaId)
    requires Inv(st) && s in st.semas && (s in st.locks ==> PhaseIs(st, s, Releasing))
    ensures Inv(UpStep(st, s))
  {
    UpLists(st, s);
    UpWakeups(st, s);
    UpExcludes(st, s);
  }

  lemma TryDownKeeps(st: State, s: SemaId)
    requires Inv(st) && s in st.semas && st.threads[st.current].at == Outside
    ensures Inv(TryDownStep(st, s))
  {
    if st.semas[s].value > 0 {
      DownTakesKeeps(st, s);
    }
  }

  /** Every enabled step keeps the invariant. */
  lemma StepKeeps(st: State, e: Event)
    requires Inv(st) && Enabled(st, e)
    ensures Inv(Step(st, e))
  {
    hide Inv, BetweenThreads, Counts, DownStep, UpStep, Schedule, YieldStep, Created;
    match e
    case SemaInit(s, v) => SemaInitKeeps(st, s, v);
    case LockInit(s) => LockInitKeeps(st, s);
    case Down(s) =>
      if st.semas[s].value == 0 {
        DownWaitsKeeps(st, s);
        SwitchKeeps(DownStep(st, s));
      } else {
        DownTakesKeeps(st, s);
      }
    case TryDown(s) => TryDownKeeps(st, s);
    case Up(s) => UpKeeps(st, s);
    case SetHolder(s) => LockPhaseKeeps(st, s, Lock(Some(st.current), st.locks[s].inside[st.current := Held]));
    case ClearHolder(s) => LockPhaseKeeps(st, s, Lock(None, st.locks[s].inside[st.current := Releasing]));
    case Yield => YieldKeeps(st); SwitchKeeps(YieldStep(st));
    case IdleBlock => IdleBlockKeeps(st); SwitchKeeps(SetStatus(st, st.current, BLOCKED));
    case Create => CreateKeeps(st);
    case Exit => ExitKeeps(st); SwitchKeeps(SetStatus(st, st.current, DYING));
  }

  /** The thread inside records or clears itself as holder. */
  lemma LockPhaseKeeps(st: State, s: SemaId, l: Lock)
    requires Inv(st) && s in st.locks && st.current in st.locks[s].inside
    requires || l == Lock(Some(st.current), st.locks[s].inside[st.current := Held])
             || l == Lock(None, st.locks[s].inside[st.current := Releasing])
    ensures Inv(st.(locks := st.locks[s := l]))
  {
    var inside := st.locks[s].inside;
    assert l.inside.Keys == inside.Keys;
    OnlyOneInside(st, s);
    HolderKeeps(st, s, l);
  }

  /** Mutual exclusion, in the plain form: two threads inside are one. */
  lemma OnlyOneInside(st: State, s: SemaId)
    requires Inv(st) && s in st.locks
    ensures forall t, u | t in st.locks[s].inside && u in st.locks[s].inside :: t == u
  {
    var keys := st.locks[s].inside.Keys;
    forall t, u | t in keys && u in keys ensures t == u {
      assert |keys| == |st.locks[s].inside| <= 1;
      assert |keys - {t}| == 0;
    }
  }

  // ----- runs -----

  /** The system once `thread_start` has returned: the initial thread runs, the
      idle thread has blocked itself or was preempted before it could, and no
      semaphore is in use yet. */
  ghost predicate Booted(st: State) {
    && st.initial != st.idle && st.initial < st.nextTid && st.idle < st.nextTid
    && st.threads.Keys == {st.initial, st.idle} && st.threads[st.initial] == Thread(RUNNING, Outside)
    && st.threads[st.idle] in {Thread(BLOCKED, Outside), Thread(READY, Outside)}
    && st.current == st.initial && st.ready == []
    && st.semas == map[] && st.locks == map[]
  }

  lemma BootedKeeps(st: State)
    requires Booted(st)
    ensures Inv(st)
  {
  }

  /** The run that performs `es` from `st` ends in `n`. */
  ghost predicate Reaches(st: State, es: seq<Event>, n: State)
    requires Inv(st)
    decreases |es|
  {
    if es == [] then n == st
    else Enabled(st, es[0]) && (StepKeeps(st, es[0]); Reaches(Step(st, es[0]), es[1..], n))
  }

  /** Safety of every run, in every interleaving. */
  lemma {:induction false} RunsAreSafe(st: State, es: seq<Event>, n: State)
    requires Inv(st) && Reaches(st, es, n)
    ensures Inv(n)
    decreases |es|
  {
    if es != [] {
      StepKeeps(st, es[0]);
      RunsAreSafe(Step(st, es[0]), es[1..], n);
    }
  }

  /** What the shared list element relies on: no thread is on the run queue and
      a wait list at once, or on two wait lists, and every listed thread exists. */
  lemma SharedElement(st: State, s: SemaId, x: SemaId, t: Tid)
    requires Inv(st) && s in st.semas && x in st.semas && t in st.semas[s].waiters
    ensures t in st.threads && t !in st.ready && t != st.current
    ensures t in st.semas[x].waiters ==> x == s
  {
  }

  /** If a semaphore is up while threads wait for it, some thread it has woken is
      running or on the run queue, about to re-test it. */
  lemma WakeupPending(st: State, s: SemaId)
    requires Inv(st) && s in st.semas
    requires st.semas[s].value > 0 && st.semas[s].waiters != []
    ensures exists t :: t in Woken(st, s) && (t == st.current || t in st.ready)
  {
    var w := Woken(st, s);
    assert |w| > 0;
    var t :| t in w;
    assert st.threads[t].status != BLOCKED && st.threads[t].status != DYING;
  }

  // ----- round robin -----

  predicate Switches(st: State, e: Event)
    requires Inv(st) && Enabled(st, e)
  {
    e.Yield? || e.IdleBlock? || e.Exit? || (e.Down? && st.semas[e.s].value == 0)
  }

  /** One step moves a thread on the run queue up by one exactly when it
      switches threads, and dispatches it when it was first. */
  lemma StepMovesUp(st: State, e: Event, k: nat)
    requires Inv(st) && Enabled(st, e) && k < |st.ready|
    ensures var n := Step(st, e);
            if !Switches(st, e) then k < |n.ready| && n.ready[k] == st.ready[k]
            else if k == 0 then n.current == st.ready[0]
            else k - 1 < |n.ready| && n.ready[k - 1] == st.ready[k]
  {
  }

  ghost function SwitchCount(st: State, es: seq<Event>, n: State): nat
    requires Inv(st) && Reaches(st, es, n)
    decreases |es|
  {
    if es == [] then 0
    else
      StepKeeps(st, es[0]);
      (if Switches(st, es[0]) then 1 else 0) + SwitchCount(Step(st, es[0]), es[1..], n)
  }

  lemma {:induction false} RunMovesUp(st: State, es: seq<Event>, n: State, k: nat)
    requires Inv(st) && Reaches(st, es, n) && k < |st.ready|
    requires SwitchCount(st, es, n) <= k
    ensures var c := SwitchCount(st, es, n);
            k - c < |n.ready| && n.ready[k - c] == st.ready[k]
    decreases |es|
  {
    hide Inv, Step, Enabled, Switches;
    if es != [] {
      StepKeeps(st, es[0]);
      StepMovesUp(st, es[0], k);
      var m := Step(st, es[0]);
      RunMovesUp(m, es[1..], n, if Switches(st, es[0]) then k - 1 else k);
    }
  }

  /** Fairness: whatever else happens, the thread at position `k` of the run
      queue is dispatched by the (k+1)-th switch. */
  lemma RoundRobin(st: State, es: seq<Event>, n: State, e: Event, k: nat)
    requires Inv(st) && Reaches(st, es, n) && k < |st.ready|
    requires SwitchCount(st, es, n) == k
    requires Inv(n) && Enabled(n, e) && Switches(n, e)
    ensures Step(n, e).current == st.ready[k]
  {
    hide Inv, Step, Enabled, Switches, SwitchCount, Reaches;
    RunMovesUp(st, es, n, k);
    StepMovesUp(n, e, 0);
  }

  // ----- waiting in turn -----

  /** A step leaves a waiter in its place, or moves it up when it is an up of its
      semaphore; the first waiter goes to the back of the run queue. */
  lemma StepKeepsTurn(st: State, e: Event, s: SemaId, k: nat)
    requires Inv(st) && Enabled(st, e) && s in st.semas && k < |st.semas[s].waiters|
    ensures var n, w := Step(st, e), st.semas[s].waiters;
            && s in n.semas
            && if e != Up(s) then k < |n.semas[s].waiters| && n.semas[s].waiters[k] == w[k]
               else if k == 0 then n.ready != [] && n.ready[|n.ready| - 1] == w[0] && w[0] !in n.semas[s].waiters
               else k - 1 < |n.semas[s].waiters| && n.semas[s].waiters[k - 1] == w[k]
  {
    hide OneRunning, ReadyList, BlockedWait, Residents, NoDead, NoLostWakeup, Conserved, MutualExclusion;
    if e == Up(s) { TailMembers(st.semas[s].waiters); }
  }

  /** How often a run ups a semaphore. */
  ghost function UpCount(es: seq<Event>, s: SemaId): nat {
    if es == [] then 0 else (if es[0] == Up(s) then 1 else 0) + UpCount(es[1..], s)
  }

  lemma {:induction false} RunKeepsTurn(st: State, es: seq<Event>, n: State, s: SemaId, k: nat)
    requires Inv(st) && Reaches(st, es, n) && s in st.semas && k < |st.semas[s].waiters| && UpCount(es, s) <= k
    ensures s in n.semas && k - UpCount(es, s) < |n.semas[s].waiters|
    ensures n.semas[s].waiters[k - UpCount(es, s)] == st.semas[s].waiters[k]
    decreases |es|
  {
    hide Inv, Step, Enabled;
    if es != [] {
      StepKeeps(st, es[0]);
      StepKeepsTurn(st, es[0], s, k);
      RunKeepsTurn(Step(st, es[0]), es[1..], n, s, if es[0] == Up(s) then k - 1 else k);
    }
  }

  /** Whatever else happens, the thread that is waiter `k` of a semaphore is woken by
      its (k+1)-th up, and not before. */
  lemma WokenInTurn(st: State, es: seq<Event>, n: State, s: SemaId, k: nat)
    requires Inv(st) && Reaches(st, es, n) && s in st.semas && k < |st.semas[s].waiters| && UpCount(es, s) == k
    requires Inv(n) && Enabled(n, Up(s))
    ensures var m, t := Step(n, Up(s)), st.semas[s].waiters[k];
            && s in n.semas && t in n.semas[s].waiters
            && m.ready != [] && m.ready[|m.ready| - 1] == t && t !in m.semas[s].waiters
  {
    hide Inv, Step, Enabled, Reaches, UpCount;
    RunKeepsTurn(st, es, n, s, k);
    StepKeepsTurn(n, Up(s), s, 0);
  }
}
