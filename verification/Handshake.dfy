/** The exec / exit / wait handshake between a process and its children.  The
    two share a heap-allocated `thread_info`; each step below runs without
    interference, and steps of different processes interleave freely.  A
    semaphore is its value here: a down is a step that needs it positive. */
module Handshake {
  import opened Helpers

  const TID_ERROR := -1

  type Tid = nat
  type InfoId = nat

  datatype Info = Info(tid: Tid, loadSuccess: bool, exitStatus: int,
                       waitSema: nat, execSema: nat, isWaited: bool, isKilled: bool)

  /** Where a process is: loading its program, in user code, between the two
      assignments that record a kill, past its last assignment to its own info,
      or in one of the waits of exec and wait. */
  datatype Pc =
    | Loading
    | User
    | Killing
    | Exiting
    | ExecWait(i: InfoId)
    | Waiting(i: InfoId)
    | Harvest(i: InfoId)

  /** The initial process has no info of its own. */
  datatype Proc = Proc(info: Option<InfoId>, children: seq<InfoId>, pc: Pc)

  /** Parent and child of an info, for ever. */
  datatype Link = Link(parent: Tid, child: int)

  /** A call of exec that has returned: who called, the child unless none could
      be created, and the result. */
  datatype ExecCall = ExecCall(caller: Tid, child: Option<Tid>, result: int)

  /** `infos` holds the infos not yet freed.  The last six fields record what
      happened: the status each child found in its uninitialised info, exit
      calls, kills, failed loads, the results of waits by one process for one
      identifier in order, and the calls of exec that returned. */
  datatype State = State(
    procs: map<Tid, Proc>,
    infos: map<InfoId, Info>,
    nextTid: Tid,
    nextInfo: InfoId,
    links: map<InfoId, Link>,
    leftover: map<Tid, int>,
    exits: map<Tid, int>,
    killed: set<Tid>,
    loadFailed: set<Tid>,
    waits: map<Link, seq<int>>,
    execs: seq<ExecCall>)

  datatype Event =
    | Spawn(p: Tid, garbage: int)
    | Exec(p: Tid, garbage: int)
    | ExecNoThread(p: Tid)
    | ExecReturn(p: Tid)
    | LoadOk(p: Tid)
    | LoadFail(p: Tid)
    | ExitCall(p: Tid, status: int)
    | Kill(p: Tid)
    | KillStatus(p: Tid)
    | Halt(p: Tid)
    | ThreadExit(p: Tid)
    | WaitCall(p: Tid, tid: int)
    | WaitWake(p: Tid)
    | Reap(p: Tid)

  // ----- the operations -----

  function SetPc(st: State, p: Tid, pc: Pc): State
    requires p in st.procs
  {
    st.(procs := st.procs[p := st.procs[p].(pc := pc)])
  }

  /** A new child and its info; `exit_status` is left uninitialised. */
  function ThreadCreate(st: State, p: Tid, garbage: int): State
    requires p in st.procs
  {
    var c, i := st.nextTid, st.nextInfo;
    st.(procs := st.procs[p := st.procs[p].(children := st.procs[p].children + [i])]
                         [c := Proc(Some(i), [], Loading)],
        infos := st.infos[i := Info(c, true, garbage, 0, 0, false, false)],
        links := st.links[i := Link(p, c)],
        leftover := st.leftover[c := garbage],
        nextTid := c + 1, nextInfo := i + 1)
  }

  function SetInfo(st: State, i: InfoId, info: Info): State {
    st.(infos := st.infos[i := info])
  }

  function Results(st: State, l: Link): seq<int> {
    if l in st.waits then st.waits[l] else []
  }

  function Returned(st: State, l: Link, r: int): State {
    st.(waits := st.waits[l := Results(st, l) + [r]])
  }

  /** Some occurrence of `i` has no info with the identifier before it. */
  ghost predicate NoneBefore(infos: map<InfoId, Info>, children: seq<InfoId>, tid: int, i: InfoId)
    requires forall j | j in children :: j in infos
  {
    exists k | 0 <= k < |children| ::
      children[k] == i && forall j | 0 <= j < k :: infos[children[j]].tid != tid
  }

  lemma NoneBeforeNext(infos: map<InfoId, Info>, children: seq<InfoId>, tid: int, i: InfoId)
    requires forall j | j in children :: j in infos
    requires children != [] && infos[children[0]].tid != tid
    requires NoneBefore(infos, children[1..], tid, i)
    ensures NoneBefore(infos, children, tid, i)
  {
    var k :| 0 <= k < |children[1..]| && children[1..][k] == i &&
             forall j | 0 <= j < k :: infos[children[1..][j]].tid != tid;
    assert children[k + 1] == i;
    forall j | 0 <= j < k + 1 ensures infos[children[j]].tid != tid {
      assert j > 0 ==> children[j] == children[1..][j - 1];
    }
  }

  /** The first info in a child list with the given identifier. */
  function FindChild(infos: map<InfoId, Info>, children: seq<InfoId>, tid: int): (r: Option<InfoId>)
    requires forall i | i in children :: i in infos
    ensures r.None? <==> forall i | i in children :: infos[i].tid != tid
    ensures r.Some? ==> r.value in children && infos[r.value].tid == tid
    ensures r.Some? ==> NoneBefore(infos, children, tid, r.value)
  {
    if children == [] then None
    else if infos[children[0]].tid == tid then Some(children[0])
    else
      var r := FindChild(infos, children[1..], tid);
      assert r.Some? ==> NoneBefore(infos, children, tid, r.value) by {
        if r.Some? { NoneBeforeNext(infos, children, tid, r.value); }
      }
      r
  }

  /** `handle_exec` after `process_execute` has returned `tid`: it sleeps on the
      info with that identifier, or returns what it was given. */
  function ExecStep(st: State, p: Tid, tid: int): State
    requires p in st.procs && forall i | i in st.procs[p].children :: i in st.infos
  {
    match FindChild(st.infos, st.procs[p].children, tid)
    case None => ExecReturned(st, ExecCall(p, None, tid))
    case Some(i) => SetPc(st, p, ExecWait(i))
  }

  function ExecReturned(st: State, call: ExecCall): State {
    st.(execs := st.execs + [call])
  }

  /** `process_wait` up to the point where it sleeps or returns.  Results are
      recorded for identifiers that have been given out. */
  function WaitStep(st: State, p: Tid, tid: int): State
    requires p in st.procs && forall i | i in st.procs[p].children :: i in st.infos
  {
    match FindChild(st.infos, st.procs[p].children, tid)
    case None => if 0 <= tid < st.nextTid then Returned(st, Link(p, tid), -1) else st
    case Some(i) =>
      var info := st.infos[i];
      var m := st.(procs := st.procs[p := st.procs[p].(children := Without(st.procs[p].children, i))]);
      if info.isWaited || info.isKilled then Returned(m, Link(p, tid), -1)
      else SetPc(SetInfo(m, i, info.(isWaited := true)), p, Waiting(i))
  }

  /** The status is read and the info freed. */
  function ReapStep(st: State, p: Tid, i: InfoId): State
    requires p in st.procs && i in st.infos
  {
    Returned(SetPc(st, p, User), Link(p, st.infos[i].tid), st.infos[i].exitStatus).(infos := st.infos - {i})
  }

  /** With interrupts off: both semaphores go up and the thread is gone. */
  function ExitStep(st: State, p: Tid, i: InfoId): State
    requires i in st.infos
  {
    var info := st.infos[i];
    SetInfo(st, i, info.(execSema := info.execSema + 1, waitSema := info.waitSema + 1))
      .(procs := st.procs - {p})
  }

  function ExecReturnStep(st: State, p: Tid, i: InfoId): State
    requires p in st.procs && i in st.infos && st.infos[i].execSema > 0
  {
    var info := st.infos[i];
    ExecReturned(SetPc(SetInfo(st, i, info.(execSema := info.execSema - 1)), p, User),
                 ExecCall(p, Some(info.tid), if info.loadSuccess then info.tid else -1))
  }

  // ----- steps -----

  /** Whose info a process writes. */
  predicate HasInfo(st: State, p: Tid) {
    p in st.procs && st.procs[p].info.Some?
  }

  predicate AtPc(st: State, p: Tid, pc: Pc) {
    p in st.procs && st.procs[p].pc == pc
  }

  /** When a step can be taken.  The conditions are about program order and
      semaphore values only; that the infos a step touches are still allocated
      is what the invariant shows. */
  predicate Enabled(st: State, e: Event) {
    match e
    case Spawn(p, _) => AtPc(st, p, User)
    case Exec(p, _) => AtPc(st, p, User)
    case ExecNoThread(p) => AtPc(st, p, User)
    case ExecReturn(p) => p in st.procs && st.procs[p].pc.ExecWait? && SemaUp(st, st.procs[p].pc.i, false)
    case LoadOk(p) => HasInfo(st, p) && AtPc(st, p, Loading)
    case LoadFail(p) => HasInfo(st, p) && AtPc(st, p, Loading)
    case ExitCall(p, _) => HasInfo(st, p) && AtPc(st, p, User)
    case Kill(p) => HasInfo(st, p) && AtPc(st, p, User)
    case KillStatus(p) => HasInfo(st, p) && AtPc(st, p, Killing)
    case Halt(p) => HasInfo(st, p) && AtPc(st, p, User)
    case ThreadExit(p) => HasInfo(st, p) && AtPc(st, p, Exiting)
    case WaitCall(p, _) => AtPc(st, p, User)
    case WaitWake(p) => p in st.procs && st.procs[p].pc.Waiting? && SemaUp(st, st.procs[p].pc.i, true)
    case Reap(p) => p in st.procs && st.procs[p].pc.Harvest?
  }

  predicate SemaUp(st: State, i: InfoId, wait: bool) {
    i in st.infos ==> (if wait then st.infos[i].waitSema else st.infos[i].execSema) > 0
  }

  function Step(st: State, e: Event): State
    requires Linked(st) && OwnInfo(st) && ChildLists(st) && Sleepers(st) && Enabled(st, e)
  {
    match e
    case Spawn(p, g) => ThreadCreate(st, p, g)
    case Exec(p, g) => ExecStep(ThreadCreate(st, p, g), p, st.nextTid)
    case ExecNoThread(p) => ExecStep(st, p, TID_ERROR)
    case ExecReturn(p) => ExecReturnStep(st, p, st.procs[p].pc.i)
    case LoadOk(p) => SetPc(st, p, User)
    case LoadFail(p) =>
      var i := st.procs[p].info.value;
      SetPc(SetInfo(st, i, st.infos[i].(loadSuccess := false)), p, Exiting).(loadFailed := st.loadFailed + {p})
    case ExitCall(p, s) =>
      var i := st.procs[p].info.value;
      SetPc(SetInfo(st, i, st.infos[i].(exitStatus := s)), p, Exiting).(exits := st.exits[p := s])
    case Kill(p) =>
      var i := st.procs[p].info.value;
      SetPc(SetInfo(st, i, st.infos[i].(isKilled := true)), p, Killing).(killed := st.killed + {p})
    case KillStatus(p) =>
      var i := st.procs[p].info.value;
      SetPc(SetInfo(st, i, st.infos[i].(exitStatus := -1)), p, Exiting)
    case Halt(p) => SetPc(st, p, Exiting)
    case ThreadExit(p) => ExitStep(st, p, st.procs[p].info.value)
    case WaitCall(p, tid) => WaitStep(st, p, tid)
    case WaitWake(p) =>
      var i := st.procs[p].pc.i;
      SetPc(SetInfo(st, i, st.infos[i].(waitSema := st.infos[i].waitSema - 1)), p, Harvest(i))
    case Reap(p) => ReapStep(st, p, st.procs[p].pc.i)
  }

  // ----- the invariant -----

  /** Identifiers are never reused, and every info has a parent and a child. */
  ghost predicate Linked(st: State) {
    && (forall p | p in st.procs :: p < st.nextTid)
    && (forall i | i in st.infos :: i in st.links && st.infos[i].tid == st.links[i].child)
    && (forall i | i in st.links :: st.links[i].child >= 0 && st.links[i].child in st.leftover)
    && (forall i | i in st.links :: i < st.nextInfo && 0 <= st.links[i].child < st.nextTid && st.links[i].parent < st.nextTid)
    && (forall i, j | i in st.links && j in st.links && st.links[i].child == st.links[j].child :: i == j)
  }

  /** The info of a process is allocated as long as the process lives, and its
      semaphores are down. */
  ghost predicate OwnInfo(st: State) {
    && (forall p | p in st.procs && st.procs[p].info.Some? ::
          var i := st.procs[p].info.value;
          && i in st.infos && i in st.links && st.links[i].child == p
          && st.infos[i].waitSema == 0 && st.infos[i].execSema == 0)
    && (forall i | i in st.links && st.links[i].child in st.procs :: st.procs[st.links[i].child].info == Some(i))
  }

  /** The infos on a child list are allocated, the list owner's, and not waited
      for. */
  ghost predicate ChildLists(st: State) {
    forall p | p in st.procs ::
      && Distinct(st.procs[p].children)
      && forall i | i in st.procs[p].children ::
           i in st.infos && i in st.links && st.links[i].parent == p && !st.infos[i].isWaited
  }

  ghost predicate Slept(st: State, p: Tid, i: InfoId) {
    i in st.infos && i in st.links && st.links[i].parent == p && st.infos[i].isWaited
  }

  /** The info a parent sleeps on is allocated and its own; one it waits for has
      left its child list, and one it is about to reap has a dead child. */
  ghost predicate Sleepers(st: State) {
    forall p | p in st.procs ::
      var pc := st.procs[p].pc;
      && (pc.ExecWait? ==> pc.i in st.procs[p].children && pc.i in st.infos)
      && (pc.Waiting? || pc.Harvest? ==> Slept(st, p, pc.i))
      && (pc.Harvest? ==> st.infos[pc.i].tid !in st.procs)
  }

  /** What a child leaves in its info: the status of its exit call, -1 if it was
      killed, and otherwise whatever the info held before. */
  ghost function Status(st: State, c: int): int {
    if c < 0 then 0
    else if c in st.exits then st.exits[c]
    else if c in st.killed then -1
    else if c in st.leftover then st.leftover[c]
    else 0
  }

  /** What an info says agrees with what happened to its child. */
  ghost predicate InfosTrue(st: State) {
    forall i | i in st.infos ::
      var c := st.infos[i].tid;
      && (AtPc(st, c, Killing) || st.infos[i].exitStatus == Status(st, c))
      && (st.infos[i].isKilled <==> c in st.killed)
      && (st.infos[i].loadSuccess <==> c !in st.loadFailed)
  }

  /** A process called exit, was killed or failed to load at most once, and is
      then on its way out. */
  ghost predicate ProcsTrue(st: State) {
    && (forall c | c in st.exits :: c < st.nextTid && c !in st.killed && c !in st.loadFailed)
    && (forall c | c in st.killed :: c < st.nextTid)
    && (forall c | c in st.loadFailed :: c < st.nextTid)
    && (forall p | p in st.procs ::
          && (p in st.exits ==> st.procs[p].pc == Exiting)
          && (p in st.killed ==> st.procs[p].pc == Exiting || st.procs[p].pc == Killing)
          && (st.procs[p].pc == Killing ==> p in st.killed)
          && (p in st.loadFailed ==> st.procs[p].pc == Exiting))
  }

  ghost predicate Truthful(st: State) {
    InfosTrue(st) && ProcsTrue(st)
  }

  /** Exec has returned only for dead children, with the right result. */
  ghost predicate ExecResults(st: State) {
    forall e | e in st.execs :: GoodExec(st, e)
  }

  ghost predicate GoodExec(st: State, e: ExecCall) {
    match e.child
    case None => e.result == -1
    case Some(c) => c < st.nextTid && c !in st.procs && e.result == if c in st.loadFailed then -1 else c
  }

  /** The first wait for a child returns the status it left; all others, and all
      waits for what is not a child, return -1. */
  ghost predicate WaitResults(st: State) {
    forall l | l in st.waits :: l.child < st.nextTid && GoodResults(st, l, st.waits[l])
  }

  ghost predicate GoodResults(st: State, l: Link, rs: seq<int>) {
    && (IsLink(st, l) && rs != [] ==> rs[0] == Status(st, l.child))
    && (forall k | 1 <= k < |rs| :: rs[k] == -1)
    && (!IsLink(st, l) ==> forall k | 0 <= k < |rs| :: rs[k] == -1)
  }

  ghost predicate IsLink(st: State, l: Link) {
    exists i :: i in st.links && st.links[i] == l
  }

  /** A result for a child is recorded only once the child has left the child
      list and nobody waits for it, when the child is dead or killed. */
  ghost predicate WaitedFor(st: State) {
    forall i | i in st.links && st.links[i] in st.waits && st.waits[st.links[i]] != [] ::
      var l := st.links[i];
      && (l.parent in st.procs ==>
            && i !in st.procs[l.parent].children
            && st.procs[l.parent].pc != Waiting(i) && st.procs[l.parent].pc != Harvest(i)
            && st.procs[l.parent].pc != ExecWait(i))
      && (l.child in st.procs ==> l.child in st.killed)
  }

  /** A child of a live process is on its child list, being waited for, or has
      been waited for. */
  ghost predicate Accounted(st: State) {
    forall i | i in st.links && st.links[i].parent in st.procs ::
      var p := st.procs[st.links[i].parent];
      i in p.children || p.pc == Waiting(i) || p.pc == Harvest(i) || Results(st, st.links[i]) != []
  }

  ghost predicate Inv(st: State) {
    && Linked(st) && OwnInfo(st) && ChildLists(st) && Sleepers(st) && Truthful(st)
    && ExecResults(st) && WaitResults(st) && WaitedFor(st) && Accounted(st)
  }

  // ----- steps of a child on its own info -----

  /** Same processes, child lists, infos, semaphores and wait flags. */
  ghost predicate SameShape(st: State, n: State) {
    && n.procs.Keys == st.procs.Keys && n.infos.Keys == st.infos.Keys
    && (forall p | p in st.procs ::
          n.procs[p].info == st.procs[p].info && n.procs[p].children == st.procs[p].children)
    && (forall i | i in st.infos ::
          && n.infos[i].tid == st.infos[i].tid && n.infos[i].isWaited == st.infos[i].isWaited
          && n.infos[i].waitSema == st.infos[i].waitSema && n.infos[i].execSema == st.infos[i].execSema)
    && n.links == st.links && n.nextTid == st.nextTid && n.nextInfo == st.nextInfo
    && n.waits == st.waits && n.execs == st.execs && n.leftover == st.leftover
  }

  lemma ShapeKeeps(st: State, n: State)
    requires SameShape(st, n) && Linked(st) && OwnInfo(st) && ChildLists(st)
    ensures Linked(n) && OwnInfo(n) && ChildLists(n)
  {
  }

  ghost predicate Asleep(pc: Pc) { pc.ExecWait? || pc.Waiting? || pc.Harvest? }

  lemma AwakeKeeps(st: State, n: State, p: Tid)
    requires SameShape(st, n) && p in st.procs && !Asleep(n.procs[p].pc)
    requires forall q | q in st.procs && q != p :: n.procs[q].pc == st.procs[q].pc
    requires Sleepers(st) && WaitedFor(st) && Accounted(st) && st.killed <= n.killed
    requires !st.procs[p].pc.Waiting? && !st.procs[p].pc.Harvest?
    ensures Sleepers(n) && WaitedFor(n) && Accounted(n)
  {
  }

  /** A child moves to `pc` and writes `info` to its own info. */
  function OwnStep(st: State, p: Tid, i: InfoId, info: Info, pc: Pc): State
    requires p in st.procs
  {
    SetPc(SetInfo(st, i, info), p, pc)
  }

  ghost predicate OwnWrite(st: State, p: Tid, i: InfoId, info: Info, pc: Pc) {
    && HasInfo(st, p) && st.procs[p].info.value == i && i in st.infos && !Asleep(pc) && !Asleep(st.procs[p].pc)
    && info.tid == st.infos[i].tid && info.isWaited == st.infos[i].isWaited
    && info.waitSema == st.infos[i].waitSema && info.execSema == st.infos[i].execSema
  }

  lemma OwnStepKeeps(st: State, n: State, p: Tid, i: InfoId, info: Info, pc: Pc)
    requires Inv(st) && OwnWrite(st, p, i, info, pc)
    requires n == OwnStep(st, p, i, info, pc).(exits := n.exits, killed := n.killed, loadFailed := n.loadFailed)
    requires st.killed <= n.killed
    ensures Linked(n) && OwnInfo(n) && ChildLists(n) && Sleepers(n) && WaitedFor(n) && Accounted(n)
  {
    hide Linked, OwnInfo, ChildLists, Sleepers, Truthful, ExecResults, WaitResults, WaitedFor, Accounted;
    ShapeKeeps(st, n);
    AwakeKeeps(st, n, p);
  }

  /** The same exit calls, kills and failed loads, except of `p`. */
  ghost predicate OthersSame(st: State, n: State, p: Tid) {
    && (forall c | c != p :: c in n.exits <==> c in st.exits)
    && (forall c | c != p && c in n.exits && c in st.exits :: n.exits[c] == st.exits[c])
    && (forall c | c != p :: c in n.killed <==> c in st.killed)
    && (forall c | c != p :: c in n.loadFailed <==> c in st.loadFailed)
  }

  /** What an info and a program counter must say about one process. */
  ghost predicate TrueOf(n: State, p: Tid, info: Info, pc: Pc) {
    && (pc == Killing || info.exitStatus == Status(n, p))
    && (p in n.exits ==> pc == Exiting && p !in n.killed && p !in n.loadFailed)
    && (info.isKilled <==> p in n.killed)
    && (p in n.killed ==> pc == Killing || pc == Exiting)
    && (pc == Killing ==> p in n.killed)
    && (info.loadSuccess <==> p !in n.loadFailed)
    && (p in n.loadFailed ==> pc == Exiting)
  }

  /** The history changes at most for `p`, and its info stays truthful. */
  lemma OwnTruthful(st: State, n: State, p: Tid, i: InfoId, info: Info, pc: Pc)
    requires Linked(st) && OwnInfo(st) && Truthful(st) && OwnWrite(st, p, i, info, pc)
    requires n == OwnStep(st, p, i, info, pc).(exits := n.exits, killed := n.killed, loadFailed := n.loadFailed)
    requires OthersSame(st, n, p)
    requires TrueOf(n, p, info, pc)
    ensures Truthful(n)
  {
    hide ProcsTrue;
    OwnProcsTrue(st, n, p, pc);
  }

  lemma OwnProcsTrue(st: State, n: State, p: Tid, pc: Pc)
    requires ProcsTrue(st) && OthersSame(st, n, p) && n.nextTid == st.nextTid && p in st.procs && p < st.nextTid
    requires n.procs == st.procs[p := st.procs[p].(pc := pc)]
    requires p in n.exits ==> pc == Exiting && p !in n.killed && p !in n.loadFailed
    requires p in n.killed ==> pc == Exiting || pc == Killing
    requires pc == Killing ==> p in n.killed
    requires p in n.loadFailed ==> pc == Exiting
    ensures ProcsTrue(n)
  {
  }

  /** Results already returned are about processes that are gone or killed. */
  lemma OwnResults(st: State, n: State, p: Tid)
    requires SameShape(st, n) && ExecResults(st) && WaitResults(st) && WaitedFor(st)
    requires p in st.procs && OthersSame(st, n, p)
    requires p !in st.killed ==> NoResults(st, p)
    requires p in st.killed ==> p in n.killed && p !in n.exits && p !in st.exits
    ensures ExecResults(n) && WaitResults(n)
  {
    forall l | l in n.waits ensures l.child < n.nextTid && GoodResults(n, l, n.waits[l]) {
      assert GoodResults(st, l, st.waits[l]);
      assert IsLink(n, l) <==> IsLink(st, l);
    }
  }

  /** No wait for `p` by its parent has returned. */
  ghost predicate NoResults(st: State, p: Tid) {
    forall l | l in st.waits && l.child == p && IsLink(st, l) :: st.waits[l] == []
  }

  lemma AliveNoResults(st: State, p: Tid)
    requires WaitedFor(st) && p in st.procs && p !in st.killed
    ensures NoResults(st, p)
  {
  }

  lemma OwnKeeps(st: State, n: State, p: Tid, i: InfoId, info: Info, pc: Pc)
    requires Inv(st) && OwnWrite(st, p, i, info, pc)
    requires n == OwnStep(st, p, i, info, pc).(exits := n.exits, killed := n.killed, loadFailed := n.loadFailed)
    requires OthersSame(st, n, p)
    requires st.killed <= n.killed && TrueOf(n, p, info, pc)
    ensures Inv(n)
  {
    hide Linked, OwnInfo, ChildLists, Sleepers, Truthful, ExecResults, WaitResults, WaitedFor, Accounted, NoResults;
    OwnStepKeeps(st, n, p, i, info, pc);
    OwnTruthful(st, n, p, i, info, pc);
    if p !in st.killed { AliveNoResults(st, p); }
    OwnTrue(st, p);
    OwnResults(st, n, p);
  }

  lemma StatusKeeps(st: State, e: Event)
    requires Inv(st) && Enabled(st, e) && (e.ExitCall? || e.Kill? || e.KillStatus?)
    ensures Inv(Step(st, e))
  {
    hide Linked, OwnInfo, ChildLists, Sleepers, Truthful, ExecResults, WaitResults, WaitedFor, Accounted,
         ThreadCreate, ExecStep, ExecReturnStep, ExitStep, WaitStep, ReapStep;
    var p := e.p;
    var i := st.procs[p].info.value;
    OwnTrue(st, p);
    var info := st.infos[i];
    match e
    case ExitCall(_, s) => OwnKeeps(st, Step(st, e), p, i, info.(exitStatus := s), Exiting);
    case Kill(_) => OwnKeeps(st, Step(st, e), p, i, info.(isKilled := true), Killing);
    case KillStatus(_) => OwnKeeps(st, Step(st, e), p, i, info.(exitStatus := -1), Exiting);
  }

  lemma ChildKeeps(st: State, e: Event)
    requires Inv(st) && Enabled(st, e)
    requires e.LoadOk? || e.LoadFail? || e.ExitCall? || e.Kill? || e.KillStatus? || e.Halt?
    ensures Inv(Step(st, e))
  {
    hide Linked, OwnInfo, ChildLists, Sleepers, Truthful, ExecResults, WaitResults, WaitedFor, Accounted,
         ThreadCreate, ExecStep, ExecReturnStep, ExitStep, WaitStep, ReapStep;
    var p := e.p;
    var i := st.procs[p].info.value;
    OwnTrue(st, p);
    var info := st.infos[i];
    match e
    case LoadOk(_) => OwnKeeps(st, Step(st, e), p, i, info, User);
    case LoadFail(_) => OwnKeeps(st, Step(st, e), p, i, info.(loadSuccess := false), Exiting);
    case Halt(_) => OwnKeeps(st, Step(st, e), p, i, info, Exiting);
    case _ => StatusKeeps(st, e);
  }

  lemma OwnTrue(st: State, p: Tid)
    requires Linked(st) && OwnInfo(st) && Truthful(st) && HasInfo(st, p)
    ensures st.procs[p].info.value in st.infos
    ensures TrueOf(st, p, st.infos[st.procs[p].info.value], st.procs[p].pc)
  {
  }

  // ----- creating a child -----

  lemma CreateLinked(st: State, p: Tid, g: int)
    requires Linked(st) && p in st.procs
    ensures Linked(ThreadCreate(st, p, g))
  {
    var n := ThreadCreate(st, p, g);
    forall i, j | i in n.links && j in n.links && n.links[i].child == n.links[j].child ensures i == j {
      assert i != st.nextInfo ==> i in st.links && st.links[i].child < st.nextTid;
      assert j != st.nextInfo ==> j in st.links && st.links[j].child < st.nextTid;
    }
  }

  lemma CreateOwn(st: State, p: Tid, g: int)
    requires Linked(st) && OwnInfo(st) && p in st.procs
    ensures OwnInfo(ThreadCreate(st, p, g))
  {
  }

  lemma CreateLists(st: State, p: Tid, g: int)
    requires Linked(st) && ChildLists(st) && p in st.procs
    ensures ChildLists(ThreadCreate(st, p, g))
  {
    var i := st.nextInfo;
    assert i !in st.procs[p].children;
    AppendMembers(st.procs[p].children, i);
  }

  lemma CreateSleepers(st: State, p: Tid, g: int)
    requires Linked(st) && Sleepers(st) && p in st.procs
    ensures Sleepers(ThreadCreate(st, p, g))
  {
  }

  lemma CreateWaited(st: State, p: Tid, g: int)
    requires Linked(st) && WaitedFor(st) && WaitResults(st) && p in st.procs
    ensures WaitedFor(ThreadCreate(st, p, g))
  {
    hide GoodResults;
  }

  lemma CreateAccounted(st: State, p: Tid, g: int)
    requires Linked(st) && Accounted(st) && p in st.procs
    ensures Accounted(ThreadCreate(st, p, g))
  {
  }

  lemma CreateTruthful(st: State, p: Tid, g: int)
    requires Linked(st) && Truthful(st) && p in st.procs
    ensures Truthful(ThreadCreate(st, p, g))
  {
    hide ProcsTrue;
    CreateProcsTrue(st, p, g);
    assert st.nextTid !in st.exits && st.nextTid !in st.killed && st.nextTid !in st.loadFailed by {
      NoHistory(st);
    }
  }

  lemma NoHistory(st: State)
    requires ProcsTrue(st)
    ensures st.nextTid !in st.exits && st.nextTid !in st.killed && st.nextTid !in st.loadFailed
  {
  }

  lemma CreateProcsTrue(st: State, p: Tid, g: int)
    requires ProcsTrue(st) && p in st.procs
    ensures ProcsTrue(ThreadCreate(st, p, g))
  {
  }

  lemma CreateExecs(st: State, p: Tid, g: int)
    requires ExecResults(st) && p in st.procs
    ensures ExecResults(ThreadCreate(st, p, g))
  {
    forall e | e in st.execs ensures GoodExec(ThreadCreate(st, p, g), e) {
      assert GoodExec(st, e);
    }
  }

  lemma CreateResults(st: State, p: Tid, g: int)
    requires Linked(st) && WaitResults(st) && p in st.procs
    ensures WaitResults(ThreadCreate(st, p, g))
  {
    var n := ThreadCreate(st, p, g);
    forall l | l in n.waits ensures l.child < n.nextTid && GoodResults(n, l, n.waits[l]) {
      assert GoodResults(st, l, st.waits[l]);
      assert IsLink(n, l) <==> IsLink(st, l) by {
        if IsLink(st, l) {
          var i :| i in st.links && st.links[i] == l;
          assert i in n.links && n.links[i] == l;
        }
      }
    }
  }

  lemma CreateKeeps(st: State, p: Tid, g: int)
    requires Inv(st) && p in st.procs
    ensures Inv(ThreadCreate(st, p, g))
  {
    hide Linked, OwnInfo, ChildLists, Sleepers, Truthful, ExecResults, WaitResults, WaitedFor, Accounted,
         ThreadCreate;
    CreateLinked(st, p, g);
    CreateOwn(st, p, g);
    CreateLists(st, p, g);
    CreateSleepers(st, p, g);
    CreateWaited(st, p, g);
    CreateAccounted(st, p, g);
    CreateTruthful(st, p, g);
    CreateExecs(st, p, g);
    CreateResults(st, p, g);
  }

  // ----- exec waits and returns -----

  /** Results depend only on the links and the history. */
  lemma SameResults(st: State, n: State)
    requires WaitResults(st) && n.waits == st.waits && n.links == st.links && n.nextTid == st.nextTid
    requires n.exits == st.exits && n.killed == st.killed && n.leftover == st.leftover
    ensures WaitResults(n)
  {
    forall l | l in n.waits ensures l.child < n.nextTid && GoodResults(n, l, n.waits[l]) {
      assert GoodResults(st, l, st.waits[l]);
      assert IsLink(n, l) <==> IsLink(st, l);
    }
  }

  /** A positive semaphore means that the child is gone. */
  lemma UpMeansDead(st: State, i: InfoId)
    requires Linked(st) && OwnInfo(st) && i in st.infos
    requires st.infos[i].waitSema > 0 || st.infos[i].execSema > 0
    ensures st.infos[i].tid !in st.procs
  {
  }

  lemma SameTruth(st: State, n: State, p: Tid)
    requires Truthful(st) && p in st.procs && n.procs.Keys == st.procs.Keys && n.nextTid == st.nextTid
    requires forall q | q in st.procs && q != p :: n.procs[q].pc == st.procs[q].pc
    requires st.procs[p].pc != Killing && st.procs[p].pc != Exiting && n.procs[p].pc != Killing
    requires n.infos.Keys <= st.infos.Keys
    requires forall i | i in n.infos ::
               && n.infos[i].tid == st.infos[i].tid && n.infos[i].exitStatus == st.infos[i].exitStatus
               && n.infos[i].isKilled == st.infos[i].isKilled && n.infos[i].loadSuccess == st.infos[i].loadSuccess
    requires n.exits == st.exits && n.killed == st.killed && n.loadFailed == st.loadFailed
    requires n.leftover == st.leftover
    ensures Truthful(n)
  {
  }

  lemma InfoLinked(st: State, i: InfoId)
    requires Linked(st) && i in st.infos
    ensures i in st.links && st.links[i].child == st.infos[i].tid
  {
  }

  lemma ExecWaitSleepers(st: State, p: Tid, i: InfoId)
    requires Sleepers(st) && WaitedFor(st) && Accounted(st) && AtPc(st, p, User)
    requires i in st.procs[p].children && i in st.infos
    ensures var n := SetPc(st, p, ExecWait(i)); Sleepers(n) && WaitedFor(n) && Accounted(n)
  {
  }

  lemma ExecWaitKeeps(st: State, p: Tid, i: InfoId)
    requires Inv(st) && AtPc(st, p, User)
    requires i in st.procs[p].children && i in st.infos
    ensures Inv(SetPc(st, p, ExecWait(i)))
  {
    hide Linked, OwnInfo, ChildLists, WaitResults, Truthful, Sleepers, WaitedFor, Accounted;
    var n := SetPc(st, p, ExecWait(i));
    ShapeKeeps(st, n);
    ExecWaitSleepers(st, p, i);
    SameResults(st, n);
    SameTruth(st, n, p);
  }

  /** A semaphore changes in the info of a dead child. */
  ghost predicate SemaChange(st: State, n: State, i: InfoId) {
    && i in st.infos && i in st.links && st.links[i].child !in st.procs
    && n.procs.Keys == st.procs.Keys
    && (forall p | p in st.procs ::
          n.procs[p].info == st.procs[p].info && n.procs[p].children == st.procs[p].children)
    && i in n.infos && n.infos == st.infos[i := n.infos[i]]
    && n.infos[i].tid == st.infos[i].tid && n.infos[i].isWaited == st.infos[i].isWaited
    && n.links == st.links && n.nextTid == st.nextTid && n.nextInfo == st.nextInfo && n.leftover == st.leftover
  }

  lemma SemaLinked(st: State, n: State, i: InfoId)
    requires Linked(st) && ChildLists(st) && SemaChange(st, n, i)
    ensures Linked(n) && ChildLists(n)
  {
  }

  lemma SemaOwn(st: State, n: State, i: InfoId)
    requires OwnInfo(st) && SemaChange(st, n, i)
    ensures OwnInfo(n)
  {
  }

  /** The owner of the list moves on and a positive semaphore changes. */
  lemma SemaShape(st: State, n: State, p: Tid, i: InfoId)
    requires Linked(st) && OwnInfo(st) && ChildLists(st) && p in st.procs && i in st.infos && i in n.infos
    requires st.infos[i].waitSema > 0 || st.infos[i].execSema > 0
    requires p in n.procs && n == SetPc(SetInfo(st, i, n.infos[i]), p, n.procs[p].pc).(execs := n.execs)
    requires n.infos[i].tid == st.infos[i].tid && n.infos[i].isWaited == st.infos[i].isWaited
    ensures Linked(n) && OwnInfo(n) && ChildLists(n)
  {
    hide Linked, OwnInfo, ChildLists;
    UpMeansDead(st, i);
    InfoLinked(st, i);
    SemaLinked(st, n, i);
    SemaOwn(st, n, i);
  }

  lemma ExecReturnResult(st: State, p: Tid, i: InfoId)
    requires Linked(st) && OwnInfo(st) && Truthful(st) && ExecResults(st)
    requires AtPc(st, p, ExecWait(i)) && i in st.infos && st.infos[i].execSema > 0
    ensures ExecResults(ExecReturnStep(st, p, i))
  {
    UpMeansDead(st, i);
  }

  lemma ExecReturnSleepers(st: State, p: Tid, i: InfoId)
    requires Linked(st) && ChildLists(st) && Sleepers(st)
    requires AtPc(st, p, ExecWait(i)) && i in st.infos && st.infos[i].execSema > 0
    ensures Sleepers(ExecReturnStep(st, p, i))
  {
  }

  lemma ExecReturnWaited(st: State, p: Tid, i: InfoId)
    requires WaitedFor(st) && Accounted(st)
    requires AtPc(st, p, ExecWait(i)) && i in st.infos && st.infos[i].execSema > 0
    ensures var n := ExecReturnStep(st, p, i); WaitedFor(n) && Accounted(n)
  {
  }

  lemma ExecReturnKeeps(st: State, p: Tid, i: InfoId)
    requires Inv(st) && AtPc(st, p, ExecWait(i)) && i in st.infos && st.infos[i].execSema > 0
    ensures Inv(ExecReturnStep(st, p, i))
  {
    hide Linked, OwnInfo, ChildLists, Sleepers, Truthful, ExecResults, WaitResults, WaitedFor, Accounted;
    var n := ExecReturnStep(st, p, i);
    SemaShape(st, n, p, i);
    ExecReturnResult(st, p, i);
    ExecReturnSleepers(st, p, i);
    ExecReturnWaited(st, p, i);
    SameTruth(st, n, p);
    SameResults(st, n);
  }

  // ----- waiting for a child -----

  /** Recording a result for `l` in a state that is otherwise settled. */
  lemma ReturnedGood(st: State, l: Link, r: int)
    requires WaitResults(st) && l.child < st.nextTid
    requires Results(st, l) != [] || !IsLink(st, l) ==> r == -1
    requires Results(st, l) == [] && IsLink(st, l) ==> r == Status(st, l.child)
    ensures WaitResults(Returned(st, l, r))
  {
    var n := Returned(st, l, r);
    forall m | m in n.waits ensures m.child < n.nextTid && GoodResults(n, m, n.waits[m]) {
      assert IsLink(n, m) <==> IsLink(st, m);
      if m in st.waits { assert GoodResults(st, m, st.waits[m]); }
    }
  }

  function Dropped(st: State, p: Tid, i: InfoId): State
    requires p in st.procs
  {
    st.(procs := st.procs[p := st.procs[p].(children := Without(st.procs[p].children, i))])
  }

  /** A wait that finds no info returns -1. */
  lemma WaitNoneKeeps(st: State, p: Tid, tid: int)
    requires Inv(st) && AtPc(st, p, User) && 0 <= tid < st.nextTid
    requires forall i | i in st.procs[p].children :: i in st.infos && st.infos[i].tid != tid
    ensures Inv(Returned(st, Link(p, tid), -1))
  {
    hide Linked, OwnInfo, ChildLists, Sleepers, Truthful, ExecResults, WaitResults, WaitedFor, Accounted;
    var l := Link(p, tid);
    NotFirst(st, p, tid);
    ReturnedGood(st, l, -1);
    ReturnedElse(st, l, -1);
    AllButWaits(st, Returned(st, l, -1).waits);
  }

  /** Without the info on the list, the first wait has already returned. */
  lemma NotFirst(st: State, p: Tid, tid: int)
    requires Linked(st) && Accounted(st) && AtPc(st, p, User)
    requires forall i | i in st.procs[p].children :: i in st.infos && st.infos[i].tid != tid
    ensures IsLink(st, Link(p, tid)) ==> Results(st, Link(p, tid)) != []
  {
  }

  lemma AllButWaits(st: State, waits: map<Link, seq<int>>)
    requires Linked(st) && OwnInfo(st) && ChildLists(st) && Sleepers(st) && Truthful(st) && ExecResults(st)
    ensures var n := st.(waits := waits);
            Linked(n) && OwnInfo(n) && ChildLists(n) && Sleepers(n) && Truthful(n) && ExecResults(n)
  {
    hide Linked, OwnInfo, ChildLists, Sleepers, Truthful, ExecResults;
    SameProcs(st, st.(waits := waits));
    SameHistory(st, st.(waits := waits));
    SameExecs(st, st.(waits := waits));
  }

  /** The same processes, infos and links. */
  lemma SameProcs(st: State, n: State)
    requires Linked(st) && OwnInfo(st) && ChildLists(st) && Sleepers(st)
    requires n.procs == st.procs && n.infos == st.infos && n.links == st.links && n.leftover == st.leftover
    requires n.nextTid == st.nextTid && n.nextInfo == st.nextInfo
    ensures Linked(n) && OwnInfo(n) && ChildLists(n) && Sleepers(n)
  {
  }

  /** The same processes, infos and history. */
  lemma SameHistory(st: State, n: State)
    requires Truthful(st)
    requires n.procs == st.procs && n.infos == st.infos && n.nextTid == st.nextTid && n.leftover == st.leftover
    requires n.exits == st.exits && n.killed == st.killed && n.loadFailed == st.loadFailed
    ensures Truthful(n)
  {
  }

  /** Recording a result for what is not a child, or again, changes nothing else. */
  lemma ReturnedElse(st: State, l: Link, r: int)
    requires WaitedFor(st) && Accounted(st) && (IsLink(st, l) ==> Results(st, l) != [])
    ensures WaitedFor(Returned(st, l, r)) && Accounted(Returned(st, l, r))
  {
    forall i | i in st.links && st.links[i] == l ensures IsLink(st, l) {}
  }

  // The info `i` of a live child list leaves the list.

  lemma DropShape(st: State, p: Tid, i: InfoId)
    requires Linked(st) && OwnInfo(st) && ChildLists(st) && p in st.procs
    ensures var n := Dropped(st, p, i); Linked(n) && OwnInfo(n) && ChildLists(n) && i !in n.procs[p].children
  {
    WithoutIs(st.procs[p].children, i);
  }

  lemma DropTruth(st: State, p: Tid, i: InfoId)
    requires Truthful(st) && ExecResults(st) && WaitResults(st) && p in st.procs
    ensures var n := Dropped(st, p, i); Truthful(n) && ExecResults(n) && WaitResults(n)
  {
    SameResults(st, Dropped(st, p, i));
  }

  lemma DropSleepers(st: State, p: Tid, i: InfoId)
    requires Sleepers(st) && WaitedFor(st) && AtPc(st, p, User)
    ensures var n := Dropped(st, p, i); Sleepers(n) && WaitedFor(n)
  {
  }

  /** All children but `i` stay accounted for. */
  ghost predicate AccountedBut(st: State, i0: InfoId) {
    forall i | i in st.links && i != i0 && st.links[i].parent in st.procs ::
      var p := st.procs[st.links[i].parent];
      i in p.children || p.pc == Waiting(i) || p.pc == Harvest(i) || Results(st, st.links[i]) != []
  }

  lemma DropAccounted(st: State, p: Tid, i: InfoId)
    requires Accounted(st) && p in st.procs
    ensures AccountedBut(Dropped(st, p, i), i)
  {
  }

  /** The first wait finds a killed child: -1, and the info is abandoned. */
  lemma WaitKilledKeeps(st: State, p: Tid, i: InfoId)
    requires Inv(st) && AtPc(st, p, User) && i in st.procs[p].children && i in st.infos && st.infos[i].isKilled
    ensures Inv(Returned(Dropped(st, p, i), Link(p, st.infos[i].tid), -1))
  {
    hide Linked, OwnInfo, ChildLists, Sleepers, Truthful, ExecResults, WaitResults, WaitedFor, Accounted,
         AccountedBut;
    var m, l := Dropped(st, p, i), Link(p, st.infos[i].tid);
    var n := Returned(m, l, -1);
    DropShape(st, p, i);
    DropTruth(st, p, i);
    DropSleepers(st, p, i);
    DropAccounted(st, p, i);
    ListedChild(st, p, i);
    FirstResultGood(m, i, l, -1);
    FirstResult(m, i, l, -1);
    AllButWaits(m, n.waits);
  }

  lemma ListedChild(st: State, p: Tid, i: InfoId)
    requires Linked(st) && ChildLists(st) && WaitedFor(st) && Truthful(st)
    requires p in st.procs && i in st.procs[p].children
    ensures i in st.infos && i in st.links && st.links[i] == Link(p, st.infos[i].tid) && !st.infos[i].isWaited
    ensures Results(st, st.links[i]) == []
    ensures st.infos[i].tid < st.nextTid
    ensures st.infos[i].isKilled <==> st.infos[i].tid in st.killed
    ensures st.infos[i].isKilled ==> Status(st, st.infos[i].tid) == -1
  {
  }

  lemma FirstResultGood(m: State, i: InfoId, l: Link, r: int)
    requires Linked(m) && WaitResults(m) && i in m.links && m.links[i] == l && Results(m, l) == []
    requires r == Status(m, l.child)
    ensures WaitResults(Returned(m, l, r))
  {
    assert IsLink(m, l);
    ReturnedGood(m, l, r);
  }

  /** Once settled, the child is off the list, not waited for, and out. */
  lemma FirstResult(m: State, i: InfoId, l: Link, r: int)
    requires Linked(m) && WaitedFor(m) && AccountedBut(m, i) && i in m.links && m.links[i] == l
    requires l.parent in m.procs ==> i !in m.procs[l.parent].children && m.procs[l.parent].pc == User
    requires l.child in m.procs ==> l.child in m.killed
    ensures WaitedFor(Returned(m, l, r)) && Accounted(Returned(m, l, r))
  {
  }

  /** The parent goes to sleep on an info that has left its list. */
  function SleepOn(m: State, p: Tid, i: InfoId): State
    requires p in m.procs && i in m.infos
  {
    SetPc(SetInfo(m, i, m.infos[i].(isWaited := true)), p, Waiting(i))
  }

  lemma SleepOwn(m: State, p: Tid, i: InfoId)
    requires Linked(m) && OwnInfo(m) && p in m.procs && i in m.infos && i in m.links
    requires m.links[i].parent == p && i !in m.procs[p].children
    ensures OwnInfo(SleepOn(m, p, i))
  {
  }

  lemma SleepLinked(m: State, p: Tid, i: InfoId)
    requires Linked(m) && ChildLists(m) && p in m.procs && i in m.infos && i in m.links
    requires m.links[i].parent == p && i !in m.procs[p].children
    ensures var n := SleepOn(m, p, i); Linked(n) && ChildLists(n)
  {
    hide ChildLists;
    SleepLists(m, p, i);
  }

  lemma SleepLists(m: State, p: Tid, i: InfoId)
    requires ChildLists(m) && p in m.procs && i in m.infos && i in m.links
    requires m.links[i].parent == p && i !in m.procs[p].children
    ensures ChildLists(SleepOn(m, p, i))
  {
  }

  lemma SleepSleepers(m: State, p: Tid, i: InfoId)
    requires Sleepers(m) && WaitedFor(m) && AccountedBut(m, i) && AtPc(m, p, User)
    requires i in m.infos && i in m.links && m.links[i].parent == p && Results(m, m.links[i]) == []
    ensures var n := SleepOn(m, p, i); Sleepers(n) && WaitedFor(n) && Accounted(n)
  {
  }

  lemma WaitSleepKeeps(st: State, p: Tid, i: InfoId)
    requires Inv(st) && AtPc(st, p, User) && i in st.procs[p].children && i in st.infos
    ensures Inv(SleepOn(Dropped(st, p, i), p, i))
  {
    hide Linked, OwnInfo, ChildLists, Sleepers, Truthful, ExecResults, WaitResults, WaitedFor, Accounted,
         AccountedBut, SleepOn;
    var m := Dropped(st, p, i);
    DropShape(st, p, i);
    DropTruth(st, p, i);
    DropSleepers(st, p, i);
    DropAccounted(st, p, i);
    ListedChild(st, p, i);
    SleepOwn(m, p, i);
    SleepLinked(m, p, i);
    SleepSleepers(m, p, i);
    SleepTruth(m, p, i);
  }

  lemma SleepTruth(m: State, p: Tid, i: InfoId)
    requires Truthful(m) && WaitResults(m) && ExecResults(m) && AtPc(m, p, User) && i in m.infos
    ensures var n := SleepOn(m, p, i); Truthful(n) && WaitResults(n) && ExecResults(n)
  {
    hide Truthful, WaitResults, ExecResults;
    SameTruth(m, SleepOn(m, p, i), p);
    SameResults(m, SleepOn(m, p, i));
    SameExecs(m, SleepOn(m, p, i));
  }

  lemma SameExecs(st: State, n: State)
    requires ExecResults(st) && n.execs == st.execs && n.procs.Keys <= st.procs.Keys && n.nextTid == st.nextTid
    requires n.loadFailed == st.loadFailed
    ensures ExecResults(n)
  {
  }

  lemma WaitKeeps(st: State, p: Tid, tid: int)
    requires Inv(st) && AtPc(st, p, User)
    ensures Inv(WaitStep(st, p, tid))
  {
    hide Linked, OwnInfo, Sleepers, Truthful, ExecResults, WaitResults, WaitedFor, Accounted;
    var f := FindChild(st.infos, st.procs[p].children, tid);
    if f.None? {
      if 0 <= tid < st.nextTid { WaitNoneKeeps(st, p, tid); }
    } else {
      ListedChild(st, p, f.value);
      if st.infos[f.value].isKilled { WaitKilledKeeps(st, p, f.value); } else { WaitSleepKeeps(st, p, f.value); }
    }
  }

  // ----- waking up and reaping -----

  function WakeStep(st: State, p: Tid, i: InfoId): State
    requires p in st.procs && i in st.infos && st.infos[i].waitSema > 0
  {
    SetPc(SetInfo(st, i, st.infos[i].(waitSema := st.infos[i].waitSema - 1)), p, Harvest(i))
  }

  lemma WakeSleepers(st: State, p: Tid, i: InfoId)
    requires Sleepers(st) && WaitedFor(st) && Accounted(st) && AtPc(st, p, Waiting(i))
    requires i in st.infos && st.infos[i].waitSema > 0 && st.infos[i].tid !in st.procs
    ensures var n := WakeStep(st, p, i); Sleepers(n) && WaitedFor(n) && Accounted(n)
  {
  }

  lemma WakeKeeps(st: State, p: Tid, i: InfoId)
    requires Inv(st) && AtPc(st, p, Waiting(i)) && i in st.infos && st.infos[i].waitSema > 0
    ensures Inv(WakeStep(st, p, i))
  {
    hide Linked, OwnInfo, ChildLists, Sleepers, Truthful, ExecResults, WaitResults, WaitedFor, Accounted;
    var n := WakeStep(st, p, i);
    UpMeansDead(st, i);
    SemaShape(st, n, p, i);
    WakeSleepers(st, p, i);
    SameTruth(st, n, p);
    SameResults(st, n);
    SameExecs(st, n);
  }

  /** Freeing an info of a dead child that is on no list. */
  function Freed(st: State, p: Tid, i: InfoId): State
    requires p in st.procs
  {
    SetPc(st, p, User).(infos := st.infos - {i})
  }

  lemma FreeOwn(st: State, p: Tid, i: InfoId)
    requires Linked(st) && OwnInfo(st) && p in st.procs && i in st.infos && st.infos[i].isWaited
    requires st.infos[i].tid !in st.procs
    ensures OwnInfo(Freed(st, p, i))
  {
  }

  lemma FreeLinked(st: State, p: Tid, i: InfoId)
    requires Linked(st) && ChildLists(st) && p in st.procs && i in st.infos && st.infos[i].isWaited
    requires st.infos[i].tid !in st.procs
    ensures var n := Freed(st, p, i); Linked(n) && ChildLists(n)
  {
  }

  lemma FreeSleepers(st: State, p: Tid, i: InfoId)
    requires Sleepers(st) && ChildLists(st) && WaitedFor(st) && Accounted(st) && AtPc(st, p, Harvest(i))
    ensures var n := Freed(st, p, i);
            Sleepers(n) && WaitedFor(n) && AccountedBut(n, i)
  {
  }

  lemma ReapedChild(st: State, p: Tid, i: InfoId)
    requires Linked(st) && ChildLists(st) && Sleepers(st) && WaitedFor(st) && Truthful(st) && AtPc(st, p, Harvest(i))
    ensures i in st.infos && i in st.links && st.links[i] == Link(p, st.infos[i].tid)
    ensures i !in st.procs[p].children && st.infos[i].isWaited
    ensures Results(st, st.links[i]) == [] && st.infos[i].tid !in st.procs
    ensures st.infos[i].exitStatus == Status(st, st.infos[i].tid)
  {
  }

  lemma ReapKeeps(st: State, p: Tid, i: InfoId)
    requires Inv(st) && AtPc(st, p, Harvest(i)) && i in st.infos
    ensures Inv(ReapStep(st, p, i))
  {
    hide Linked, OwnInfo, ChildLists, Sleepers, Truthful, ExecResults, WaitResults, WaitedFor, Accounted,
         AccountedBut;
    ReapedChild(st, p, i);
    var m, l := Freed(st, p, i), Link(p, st.infos[i].tid);
    var n := Returned(m, l, st.infos[i].exitStatus);
    assert ReapStep(st, p, i) == n;
    FreeOwn(st, p, i);
    FreeLinked(st, p, i);
    FreeSleepers(st, p, i);
    SameTruth(st, m, p);
    SameResults(st, m);
    SameExecs(st, m);
    FirstResultGood(m, i, l, st.infos[i].exitStatus);
    FirstResult(m, i, l, st.infos[i].exitStatus);
    AllButWaits(m, n.waits);
  }

  // ----- a thread goes away -----

  lemma ExitOwn(st: State, p: Tid, i: InfoId)
    requires Linked(st) && OwnInfo(st) && HasInfo(st, p) && st.procs[p].info.value == i
    requires i in st.infos
    ensures OwnInfo(ExitStep(st, p, i))
  {
  }

  lemma ExitLinked(st: State, p: Tid, i: InfoId)
    requires Linked(st) && ChildLists(st) && HasInfo(st, p) && st.procs[p].info.value == i
    requires i in st.infos
    ensures var n := ExitStep(st, p, i); Linked(n) && ChildLists(n)
  {
    hide ChildLists;
    ExitLists(st, p, i);
  }

  lemma ExitLists(st: State, p: Tid, i: InfoId)
    requires ChildLists(st) && i in st.infos
    ensures ChildLists(ExitStep(st, p, i))
  {
  }

  lemma ExitSleepers(st: State, p: Tid, i: InfoId)
    requires Sleepers(st) && WaitedFor(st) && Accounted(st) && i in st.infos
    ensures var n := ExitStep(st, p, i); Sleepers(n) && WaitedFor(n) && Accounted(n)
  {
  }

  lemma ExitTruth(st: State, p: Tid, i: InfoId)
    requires Truthful(st) && AtPc(st, p, Exiting) && i in st.infos
    ensures Truthful(ExitStep(st, p, i))
  {
  }

  lemma ExitKeeps(st: State, p: Tid, i: InfoId)
    requires Inv(st) && HasInfo(st, p) && AtPc(st, p, Exiting) && st.procs[p].info.value == i && i in st.infos
    ensures Inv(ExitStep(st, p, i))
  {
    hide Linked, OwnInfo, ChildLists, Sleepers, Truthful, ExecResults, WaitResults, WaitedFor, Accounted;
    ExitOwn(st, p, i);
    ExitLinked(st, p, i);
    ExitSleepers(st, p, i);
    ExitTruth(st, p, i);
    SameResults(st, ExitStep(st, p, i));
    SameExecs(st, ExitStep(st, p, i));
  }

  // ----- runs -----

  /** Every enabled step keeps the invariant. */
  lemma StepKeeps(st: State, e: Event)
    requires Inv(st) && Enabled(st, e)
    ensures Inv(Step(st, e))
  {
    hide Inv, ThreadCreate, ExecReturnStep, ExitStep, WaitStep, ReapStep;
    InvParts(st);
    var p := e.p;
    match e
    case Spawn(_, g) => CreateKeeps(st, p, g);
    case Exec(_, g) => ExecStepKeeps(st, p, g);
    case ExecNoThread(_) => ExecFailKeeps(st, p);
    case ExecReturn(_) => ExecReturnKeeps(st, p, st.procs[p].pc.i);
    case LoadOk(_) => ChildKeeps(st, e);
    case LoadFail(_) => ChildKeeps(st, e);
    case ExitCall(_, _) => ChildKeeps(st, e);
    case Kill(_) => ChildKeeps(st, e);
    case KillStatus(_) => ChildKeeps(st, e);
    case Halt(_) => ChildKeeps(st, e);
    case ThreadExit(_) => ExitKeeps(st, p, st.procs[p].info.value);
    case WaitCall(_, tid) => WaitKeeps(st, p, tid);
    case WaitWake(_) => WakeKeeps(st, p, st.procs[p].pc.i);
    case Reap(_) => ReapKeeps(st, p, st.procs[p].pc.i);
  }

  lemma InvParts(st: State)
    requires Inv(st)
    ensures OwnInfo(st) && ChildLists(st) && Sleepers(st)
  {
  }

  lemma {:induction false} FindsOnly(infos: map<InfoId, Info>, children: seq<InfoId>, i: InfoId)
    requires forall j | j in children :: j in infos
    requires i !in children && i in infos && forall j | j in children :: infos[j].tid != infos[i].tid
    ensures FindChild(infos, children + [i], infos[i].tid) == Some(i)
  {
    if children != [] {
      assert (children + [i])[1..] == children[1..] + [i];
      FindsOnly(infos, children[1..], i);
    }
  }

  lemma NewTid(st: State, p: Tid)
    requires Linked(st) && ChildLists(st) && p in st.procs
    ensures p < st.nextTid
    ensures forall i | i in st.procs[p].children ::
              i in st.infos && i < st.nextInfo && st.infos[i].tid != st.nextTid
  {
  }

  /** The info that exec finds is the one just made. */
  lemma FindsNew(st: State, p: Tid, g: int)
    requires Linked(st) && ChildLists(st) && p in st.procs
    ensures var n := ThreadCreate(st, p, g);
            && (forall i | i in n.procs[p].children :: i in n.infos)
            && FindChild(n.infos, n.procs[p].children, st.nextTid) == Some(st.nextInfo)
  {
    hide Linked, ChildLists, FindChild;
    NewTid(st, p);
    var n := ThreadCreate(st, p, g);
    CreatedList(st, p, g);
    FindsOnly(n.infos, st.procs[p].children, st.nextInfo);
  }

  lemma CreatedList(st: State, p: Tid, g: int)
    requires p in st.procs && p < st.nextTid
    ensures ThreadCreate(st, p, g).procs[p].children == st.procs[p].children + [st.nextInfo]
  {
  }

  lemma ExecStepKeeps(st: State, p: Tid, g: int)
    requires Inv(st) && AtPc(st, p, User)
    ensures var n := ThreadCreate(st, p, g);
            && (forall i | i in n.procs[p].children :: i in n.infos)
            && Inv(ExecStep(n, p, st.nextTid))
  {
    CreateKeeps(st, p, g);
    FindsNew(st, p, g);
    hide Inv;
    ExecWaitKeeps(ThreadCreate(st, p, g), p, st.nextInfo);
  }

  /** TID_ERROR is nobody's identifier, so exec does not sleep. */
  lemma FindsNothing(st: State, p: Tid)
    requires ChildLists(st) && p in st.procs
    ensures (forall i | i in st.procs[p].children :: i in st.infos)
    ensures ExecStep(st, p, TID_ERROR) == ExecReturned(st, ExecCall(p, None, -1))
  {
  }

  lemma ExecFailKeeps(st: State, p: Tid)
    requires Inv(st) && AtPc(st, p, User)
    ensures (forall i | i in st.procs[p].children :: i in st.infos) && Inv(ExecStep(st, p, TID_ERROR))
  {
    FindsNothing(st, p);
    hide Linked, OwnInfo, ChildLists, Sleepers, Truthful, WaitResults, WaitedFor, Accounted, ExecStep;
    AllButExecs(st, ExecReturned(st, ExecCall(p, None, -1)).execs);
  }

  lemma AllButExecs(st: State, execs: seq<ExecCall>)
    requires Inv(st)
    ensures var n := st.(execs := execs);
            && Linked(n) && OwnInfo(n) && ChildLists(n) && Sleepers(n) && Truthful(n)
            && WaitResults(n) && WaitedFor(n) && Accounted(n)
  {
    hide Linked, OwnInfo, ChildLists, Sleepers, Truthful, ExecResults, WaitResults;
    SameProcs(st, st.(execs := execs));
    SameHistory(st, st.(execs := execs));
    SameResults(st, st.(execs := execs));
  }

  /** Only the initial process exists. */
  ghost predicate Booted(st: State) {
    && st.procs == map[1 := Proc(None, [], User)] && st.nextTid == 2
    && st.infos == map[] && st.links == map[] && st.nextInfo == 0
    && st.leftover == map[] && st.exits == map[] && st.killed == {} && st.loadFailed == {}
    && st.waits == map[] && st.execs == []
  }

  lemma BootedKeeps(st: State)
    requires Booted(st)
    ensures Inv(st)
  {
  }

  ghost predicate Reaches(st: State, es: seq<Event>, n: State)
    requires Inv(st)
    decreases |es|
  {
    if es == [] then n == st
    else Enabled(st, es[0]) && (StepKeeps(st, es[0]); Reaches(Step(st, es[0]), es[1..], n))
  }

  lemma {:induction false} RunsAreSafe(st: State, es: seq<Event>, n: State)
    requires Inv(st) && Reaches(st, es, n)
    ensures Inv(n)
    decreases |es|
  {
    if es != [] {
      StepKeeps(st, es[0]);
      RunsAreSafe(Step(st, es[0]), es[1..], n);
    }
  }

  /** Every call of exec that returned yields -1 exactly when no thread could be
      created or the child failed to load, and otherwise the child's identifier;
      by then the child is gone. */
  lemma ExecReports(st: State, es: seq<Event>, n: State, k: nat)
    requires Booted(st) && Inv(st) && Reaches(st, es, n) && k < |n.execs|
    ensures var call := n.execs[k];
            && (call.result == -1 <==> call.child.None? || call.child.value in n.loadFailed)
            && (call.result != -1 ==> call.child == Some(call.result))
            && (call.child.Some? ==> call.child.value !in n.procs)
  {
    hide Linked, OwnInfo, ChildLists, Sleepers, Truthful, WaitResults, WaitedFor, Accounted, Reaches, Booted;
    RunsAreSafe(st, es, n);
    assert GoodExec(n, n.execs[k]);
  }

  /** The first wait of its parent for a child that returned gave the status of
      the child's exit call; -1 if it was killed; and if it did neither (a halt, a
      failed load, an exception), what its info held when it was allocated.
      Every other wait, by any process, gave -1. */
  lemma WaitReports(st: State, es: seq<Event>, n: State, p: Tid, c: Tid, k: nat)
    requires Booted(st) && Inv(st) && Reaches(st, es, n)
    requires k < |Results(n, Link(p, c))|
    ensures var first, r := IsLink(n, Link(p, c)) && k == 0, Results(n, Link(p, c))[k];
            && (!first ==> r == -1)
            && (first && c in n.exits ==> r == n.exits[c])
            && (first && c in n.killed ==> r == -1)
            && (first && c !in n.exits && c !in n.killed ==> c in n.leftover && r == n.leftover[c])
  {
    hide OwnInfo, ChildLists, Sleepers, InfosTrue, ExecResults, WaitedFor, Accounted, Reaches, Booted;
    RunsAreSafe(st, es, n);
    assert GoodResults(n, Link(p, c), n.waits[Link(p, c)]);
  }

  /** No step frees more than one info or forgets a link; only creation adds. */
  lemma StepKeys(st: State, e: Event)
    requires Linked(st) && OwnInfo(st) && ChildLists(st) && Sleepers(st) && Enabled(st, e)
    ensures var n := Step(st, e);
            n.infos.Keys <= st.infos.Keys + {st.nextInfo} && st.links.Keys <= n.links.Keys
  {
    hide Linked, OwnInfo, ChildLists, Sleepers, HasInfo, WaitStep, ExecStep;
    ListsThere(st, e.p);
    if e.WaitCall? { WaitKeys(st, e.p, e.tid); }
    if e.ExecNoThread? { ExecKeys(st, e.p, TID_ERROR); }
    if e.Exec? { ExecKeys(ThreadCreate(st, e.p, e.garbage), e.p, st.nextTid); }
    if e.LoadFail? || e.ExitCall? || e.Kill? || e.KillStatus? || e.ThreadExit? { OwnThere(st, e.p); }
  }

  lemma WaitKeys(st: State, p: Tid, tid: int)
    requires p in st.procs && forall i | i in st.procs[p].children :: i in st.infos
    ensures var n := WaitStep(st, p, tid); n.infos.Keys == st.infos.Keys && n.links == st.links
  {
    hide Without, NoneBefore, FindChild, Results;
    var f := FindChild(st.infos, st.procs[p].children, tid);
    if f.Some? { assert st.infos[f.value := st.infos[f.value].(isWaited := true)].Keys == st.infos.Keys; }
  }

  lemma ExecKeys(st: State, p: Tid, tid: int)
    requires p in st.procs && forall i | i in st.procs[p].children :: i in st.infos
    ensures var n := ExecStep(st, p, tid); n.infos == st.infos && n.links == st.links
  {
    hide FindChild;
  }

  lemma OwnThere(st: State, p: Tid)
    requires OwnInfo(st) && HasInfo(st, p)
    ensures st.procs[p].info.value in st.infos
  {
  }

  lemma ListsThere(st: State, p: Tid)
    requires ChildLists(st) && Sleepers(st) && p in st.procs
    ensures forall i | i in st.procs[p].children :: i in st.infos
    ensures Asleep(st.procs[p].pc) ==> st.procs[p].pc.i in st.infos
  {
  }

  /** An info is allocated while its child lives, so no step of the child touches
      a freed one; once freed it stays freed. */
  lemma FreedOnce(st: State, e: Event, i: InfoId)
    requires Inv(st) && Enabled(st, e) && i in st.links && i !in st.infos
    ensures st.links[i].child !in st.procs
    ensures i in Step(st, e).links && i !in Step(st, e).infos
  {
    hide ChildLists, Sleepers, Truthful, ExecResults, WaitResults, WaitedFor, Accounted, Step, Enabled;
    StepKeys(st, e);
  }
}
