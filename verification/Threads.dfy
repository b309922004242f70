/** Threads, the ready list and semaphores (threads/thread.c, threads/synch.c) as a transition
    system: every action is what one thread, or an interrupt handler, does with interrupts off. */
module Threads {
  import opened Tids

  type SemaId = nat

  datatype Status = Running | Ready | Blocked | Dying

  /** struct semaphore */
  datatype Sema = Sema(value: nat, waiters: seq<Tid>)

  /** The kernel after the idle thread has started.  WAITON has the threads inside the loop of
      sema_down: blocked there, or woken and not yet back at the test of the value. */
  datatype State = State(
    status: map<Tid, Status>,
    ready: seq<Tid>,
    running: Tid,
    idle: Tid,
    initial: Tid,
    semas: map<SemaId, Sema>,
    waitOn: map<Tid, SemaId>)

  datatype Action =
    | SemaInit(id: SemaId, value: nat)
    | Down(id: SemaId)
    | Recheck
    | TryDown(id: SemaId)
    | Up(id: SemaId)
    | Yield
    | IdleBlock
    | Create(tid: Tid)
    | Exit

  // ---- Steps ----

  /** next_thread_to_run, schedule and schedule_tail, when the running thread has been given
      another status. */
  ghost function Schedule(s: State): State {
    var next := if s.ready == [] then s.idle else s.ready[0];
    s.(status := s.status[next := Running], running := next, ready := if s.ready == [] then [] else s.ready[1..])
  }

  /** The running thread joins the waiters of semaphore ID and blocks. */
  ghost function Sleep(s: State, id: SemaId): State
    requires id in s.semas
  {
    Schedule(Asleep(s, id))
  }

  ghost function Asleep(s: State, id: SemaId): State
    requires id in s.semas
  {
    var t := s.running;
    s.(status := s.status[t := Blocked], waitOn := s.waitOn[t := id],
       semas := s.semas[id := s.semas[id].(waiters := s.semas[id].waiters + [t])])
  }

  ghost function Decremented(s: State, id: SemaId): State
    requires id in s.semas && s.semas[id].value > 0
  {
    s.(semas := s.semas[id := s.semas[id].(value := s.semas[id].value - 1)])
  }

  /** thread_unblock */
  ghost function Unblocked(s: State, t: Tid): State {
    s.(ready := s.ready + [t], status := s.status[t := Ready])
  }

  /** sema_up */
  ghost function Upped(s: State, id: SemaId): State
    requires id in s.semas
  {
    var x := s.semas[id];
    if x.waiters == [] then s.(semas := s.semas[id := x.(value := x.value + 1)])
    else Unblocked(s.(semas := s.semas[id := Sema(x.value + 1, x.waiters[1..])]), x.waiters[0])
  }

  /** thread_yield */
  ghost function Yielded(s: State): State {
    Schedule(s.(ready := if s.running == s.idle then s.ready else s.ready + [s.running],
                status := s.status[s.running := Ready]))
  }

  /** thread_exit, with the destruction of the thread in schedule_tail. */
  ghost function Exited(s: State): State {
    Schedule(s.(status := if s.running == s.initial then s.status[s.running := Dying] else s.status - {s.running}))
  }

  /** The running thread is not in the middle of sema_down. */
  ghost predicate Free(s: State) {
    s.running !in s.waitOn
  }

  ghost predicate Enabled(s: State, a: Action) {
    match a
    case SemaInit(id, _) => forall t :: t in s.waitOn ==> s.waitOn[t] != id
    case Down(id) => Free(s) && s.running != s.idle && id in s.semas
    case Recheck => s.running in s.waitOn && s.waitOn[s.running] in s.semas
    case TryDown(id) => id in s.semas
    case Up(id) => id in s.semas
    case Yield => Free(s)
    case IdleBlock => s.running == s.idle
    case Create(t) => t !in s.status
    case Exit => Free(s) && s.running != s.idle
  }

  ghost function Do(s: State, a: Action): State
    requires Enabled(s, a)
  {
    match a
    case SemaInit(id, v) => s.(semas := s.semas[id := Sema(v, [])])
    case Down(id) => if s.semas[id].value == 0 then Sleep(s, id) else Decremented(s, id)
    case Recheck =>
      var id := s.waitOn[s.running];
      if s.semas[id].value == 0 then Sleep(s, id)
      else Decremented(s, id).(waitOn := s.waitOn - {s.running})
    case TryDown(id) => if s.semas[id].value == 0 then s else Decremented(s, id)
    case Up(id) => Upped(s, id)
    case Yield => Yielded(s)
    case IdleBlock => Schedule(s.(status := s.status[s.running := Blocked]))
    case Create(t) => Unblocked(s, t)
    case Exit => Exited(s)
  }

  // ---- The invariant ----

  ghost predicate NoDup(s: seq<Tid>) {
    forall i, j :: 0 <= i < j < |s| ==> s[i] != s[j]
  }

  /** The ready list has every thread that is ready, but for the idle thread, exactly once. */
  ghost predicate ReadyOk(s: State) {
    && s.idle in s.status && s.status[s.idle] != Dying && NoDup(s.ready)
    && forall t :: t in s.ready <==> t in s.status && s.status[t] == Ready && t != s.idle
  }

  /** Exactly one thread is running. */
  ghost predicate OneRunning(s: State) {
    s.running in s.status && forall t :: t in s.status ==> (s.status[t] == Running <==> t == s.running)
  }

  /** A thread, other than idle, is blocked exactly while it is among the waiters of the
      semaphore that it waits for. */
  ghost predicate WaitersOk(s: State) {
    s.idle !in s.waitOn && WaitOnOk(s) && ListsOk(s)
  }

  ghost predicate WaitOnOk(s: State) {
    && (forall t :: t in s.waitOn ==> t in s.status && s.status[t] != Dying && s.waitOn[t] in s.semas
                                      && (s.status[t] == Blocked <==> t in s.semas[s.waitOn[t]].waiters))
    && (forall t :: t in s.status && s.status[t] == Blocked && t != s.idle ==> t in s.waitOn)
  }

  ghost predicate ListsOk(s: State) {
    && (forall id, t :: id in s.semas && t in s.semas[id].waiters ==> t in s.waitOn && s.waitOn[t] == id)
    && (forall id :: id in s.semas ==> NoDup(s.semas[id].waiters))
  }

  /** The threads that were woken from ID and have not rechecked its value. */
  ghost function Woken(s: State, id: SemaId): set<Tid> {
    set t | t in s.waitOn && s.waitOn[t] == id && (id !in s.semas || t !in s.semas[id].waiters)
  }

  /** While threads wait, the value is spoken for. */
  ghost predicate NoLostWakeup(s: State) {
    forall id :: id in s.semas && s.semas[id].waiters != [] ==> s.semas[id].value <= |Woken(s, id)|
  }

  ghost predicate Inv(s: State) {
    ReadyOk(s) && OneRunning(s) && WaitersOk(s) && NoLostWakeup(s)
  }

  // ---- Steps keep the invariant ----

  /** What schedule needs: the invariant, but with no thread running. */
  ghost predicate Off(s: State) {
    ReadyOk(s) && (forall t :: t in s.status ==> s.status[t] != Running) && WaitersOk(s)
  }

  lemma ScheduleKeeps(s: State)
    requires Off(s)
    ensures ReadyOk(Schedule(s)) && OneRunning(Schedule(s)) && WaitersOk(Schedule(s))
    ensures Schedule(s).semas == s.semas && Schedule(s).waitOn == s.waitOn
  {
    hide NoDup, WaitersOk;
    if s.ready != [] {
      assert s.ready[0] in s.ready;
      PopOk(s.ready);
    } else {
      EmptyNoDup();
    }
    ScheduleWaiters(s);
  }

  lemma ScheduleWaiters(s: State)
    requires ReadyOk(s) && WaitersOk(s)
    ensures WaitersOk(Schedule(s))
  {
    hide NoDup;
    if s.ready != [] {
      assert s.ready[0] in s.ready;
    }
  }

  lemma PushOk(a: seq<Tid>, t: Tid)
    requires NoDup(a) && t !in a
    ensures NoDup(a + [t])
  {
  }

  /** Only the woken threads of ID change. */
  lemma WokenChange(s: State, s': State, id: SemaId)
    requires NoLostWakeup(s) && (forall j :: j in s'.semas && j != id ==> j in s.semas && s'.semas[j] == s.semas[j])
    requires forall t :: t in s'.waitOn && s'.waitOn[t] != id ==> t in s.waitOn && s.waitOn[t] == s'.waitOn[t]
    requires forall t :: t in s.waitOn && s.waitOn[t] != id ==> t in s'.waitOn && s.waitOn[t] == s'.waitOn[t]
    requires id in s'.semas && s'.semas[id].waiters != [] ==> s'.semas[id].value <= |Woken(s', id)|
    ensures NoLostWakeup(s')
  {
    forall j | j in s'.semas && j != id ensures Woken(s', j) == Woken(s, j) {
    }
  }

  lemma AsleepOff(s: State, id: SemaId)
    requires Inv(s) && id in s.semas && s.running != s.idle
    requires s.running in s.waitOn ==> s.waitOn[s.running] == id
    ensures Off(Asleep(s, id))
  {
    hide NoDup, NoLostWakeup, WaitersOk;
    AsleepWaiters(s, id);
  }

  lemma AsleepWaiters(s: State, id: SemaId)
    requires WaitersOk(s) && OneRunning(s) && id in s.semas && s.running != s.idle
    requires s.running in s.waitOn ==> s.waitOn[s.running] == id
    ensures WaitersOk(Asleep(s, id))
  {
    hide NoDup;
    AsleepLists(s, id);
  }

  lemma AsleepLists(s: State, id: SemaId)
    requires ListsOk(s) && id in s.semas && s.running !in s.semas[id].waiters
    requires s.running in s.waitOn ==> s.waitOn[s.running] == id
    ensures ListsOk(Asleep(s, id))
  {
    hide NoDup;
    PushOk(s.semas[id].waiters, s.running);
  }

  lemma SleepKeeps(s: State, id: SemaId)
    requires Inv(s) && id in s.semas && s.running != s.idle && s.semas[id].value == 0
    requires s.running in s.waitOn ==> s.waitOn[s.running] == id
    ensures Inv(Sleep(s, id))
  {
    hide ReadyOk, OneRunning, WaitersOk, Off;
    AsleepOff(s, id);
    ScheduleKeeps(Asleep(s, id));
    WokenChange(s, Sleep(s, id), id);
  }

  lemma DecrementKeeps(s: State, id: SemaId)
    requires Inv(s) && id in s.semas && s.semas[id].value > 0
    ensures Inv(Decremented(s, id))
  {
    hide WaitersOk, NoLostWakeup, ReadyOk, OneRunning;
    var s' := Decremented(s, id);
    SameReady(s, s');
    DecrementWaiters(s, id);
    assert Woken(s', id) == Woken(s, id);
    if s.semas[id].waiters != [] {
      LostAt(s, id);
    }
    WokenChange(s, s', id);
  }

  lemma DecrementWaiters(s: State, id: SemaId)
    requires WaitersOk(s) && id in s.semas && s.semas[id].value > 0
    ensures WaitersOk(Decremented(s, id))
  {
    hide NoDup;
  }

  lemma RecheckWaiters(s: State, t: Tid, id: SemaId)
    requires WaitersOk(s) && id in s.semas && t in s.waitOn && s.waitOn[t] == id && s.status[t] == Running
    ensures t !in s.semas[id].waiters && WaitersOk(s.(waitOn := s.waitOn - {t}))
  {
    hide NoDup;
  }

  lemma OnWait(s: State, t: Tid)
    requires WaitersOk(s) && t in s.waitOn
    ensures t in s.status
  {
  }

  lemma SameReady(s: State, s': State)
    requires ReadyOk(s) && OneRunning(s) && s' == s.(semas := s'.semas, waitOn := s'.waitOn)
    ensures ReadyOk(s') && OneRunning(s')
  {
  }

  lemma LostAt(s: State, id: SemaId)
    requires NoLostWakeup(s) && id in s.semas && s.semas[id].waiters != []
    ensures s.semas[id].value <= |Woken(s, id)|
  {
  }

  /** A woken thread that finds the value positive has its down. */
  lemma RecheckKeeps(s: State)
    requires Inv(s) && s.running in s.waitOn && s.waitOn[s.running] in s.semas && s.semas[s.waitOn[s.running]].value > 0
    ensures Inv(Decremented(s, s.waitOn[s.running]).(waitOn := s.waitOn - {s.running}))
  {
    hide WaitersOk, NoLostWakeup, ReadyOk;
    var t, id := s.running, s.waitOn[s.running];
    var s' := Decremented(s, id).(waitOn := s.waitOn - {t});
    SameReady(s, s');
    OnWait(s, t);
    RecheckWaiters(s, t, id);
    DecrementWaiters(s.(waitOn := s.waitOn - {t}), id);
    assert t in Woken(s, id);
    assert Woken(s', id) == Woken(s, id) - {t};
    if s.semas[id].waiters != [] {
      LostAt(s, id);
    }
    WokenChange(s, s', id);
  }

  lemma UpWaiters(s: State, id: SemaId)
    requires Inv(s) && id in s.semas
    ensures WaitersOk(Upped(s, id))
  {
    hide NoLostWakeup, WaitOnOk, ListsOk, ReadyOk, OneRunning;
    UpLists(s, id);
    UpWaitOn(s, id);
  }

  lemma UpLists(s: State, id: SemaId)
    requires ListsOk(s) && id in s.semas
    ensures ListsOk(Upped(s, id))
  {
    hide NoDup;
    if s.semas[id].waiters != [] {
      PopOk(s.semas[id].waiters);
    }
  }

  lemma UpWaitOn(s: State, id: SemaId)
    requires WaitOnOk(s) && ListsOk(s) && id in s.semas
    ensures WaitOnOk(Upped(s, id))
  {
    hide NoDup;
    var x := s.semas[id];
    if x.waiters != [] {
      assert x.waiters[0] in x.waiters;
      PopOk(x.waiters);
    }
  }

  lemma UpReady(s: State, id: SemaId)
    requires Inv(s) && id in s.semas
    ensures ReadyOk(Upped(s, id)) && OneRunning(Upped(s, id))
  {
    hide NoDup, NoLostWakeup;
    var x := s.semas[id];
    if x.waiters != [] {
      assert x.waiters[0] in x.waiters;
      PushOk(s.ready, x.waiters[0]);
    }
  }

  lemma UpKeeps(s: State, id: SemaId)
    requires Inv(s) && id in s.semas
    ensures Inv(Upped(s, id))
  {
    hide ReadyOk, OneRunning, WaitersOk, NoLostWakeup;
    UpReady(s, id);
    UpWaiters(s, id);
    if s.semas[id].waiters != [] {
      UpWoken(s, id);
      LostAt(s, id);
    }
    WokenChange(s, Upped(s, id), id);
  }

  lemma UpWoken(s: State, id: SemaId)
    requires WaitersOk(s) && id in s.semas && s.semas[id].waiters != []
    ensures |Woken(Upped(s, id), id)| == |Woken(s, id)| + 1
  {
    hide NoDup;
    var x := s.semas[id];
    var w := x.waiters[0];
    assert w in x.waiters;
    PopOk(x.waiters);
    assert Woken(Upped(s, id), id) == Woken(s, id) + {w};
  }

  lemma EmptyNoDup()
    ensures NoDup([])
  {
  }

  lemma PopOk(a: seq<Tid>)
    requires NoDup(a) && a != []
    ensures NoDup(a[1..]) && forall t :: t in a[1..] <==> t in a && t != a[0]
  {
    assert a == [a[0]] + a[1..];
  }

  lemma YieldOff(s: State)
    requires Inv(s)
    ensures Off(s.(ready := if s.running == s.idle then s.ready else s.ready + [s.running],
                   status := s.status[s.running := Ready]))
  {
    hide NoDup, NoLostWakeup;
    if s.running != s.idle {
      PushOk(s.ready, s.running);
    }
  }

  lemma YieldKeeps(s: State)
    requires Inv(s)
    ensures Inv(Yielded(s))
  {
    hide NoLostWakeup, ReadyOk, OneRunning, WaitersOk, Off;
    YieldOff(s);
    ScheduleKeeps(s.(ready := if s.running == s.idle then s.ready else s.ready + [s.running],
                     status := s.status[s.running := Ready]));
    SameWoken(s, Yielded(s));
  }

  lemma SameWoken(s: State, s': State)
    requires NoLostWakeup(s) && s'.semas == s.semas && s'.waitOn == s.waitOn
    ensures NoLostWakeup(s')
  {
    forall id ensures Woken(s', id) == Woken(s, id) {
    }
  }

  lemma IdleKeeps(s: State)
    requires Inv(s) && s.running == s.idle
    ensures Inv(Schedule(s.(status := s.status[s.running := Blocked])))
  {
    hide NoDup, NoLostWakeup;
    ScheduleKeeps(s.(status := s.status[s.running := Blocked]));
    SameWoken(s, Schedule(s.(status := s.status[s.running := Blocked])));
  }

  lemma ExitKeeps(s: State)
    requires Inv(s) && Free(s) && s.running != s.idle
    ensures Inv(Exited(s))
  {
    hide NoDup, NoLostWakeup;
    ScheduleKeeps(s.(status := if s.running == s.initial then s.status[s.running := Dying]
        else s.status - {s.running}));
    SameWoken(s, Exited(s));
  }

  lemma CreateKeeps(s: State, t: Tid)
    requires Inv(s) && t !in s.status
    ensures Inv(Unblocked(s, t))
  {
    hide NoDup, NoLostWakeup;
    PushOk(s.ready, t);
    SameWoken(s, Unblocked(s, t));
  }

  lemma InitKeeps(s: State, id: SemaId, v: nat)
    requires Inv(s) && forall t :: t in s.waitOn ==> s.waitOn[t] != id
    ensures Inv(s.(semas := s.semas[id := Sema(v, [])]))
  {
    hide WaitersOk, NoLostWakeup, ReadyOk, OneRunning;
    InitWaiters(s, id, v);
    SameReady(s, s.(semas := s.semas[id := Sema(v, [])]));
    WokenChange(s, s.(semas := s.semas[id := Sema(v, [])]), id);
  }

  lemma InitWaiters(s: State, id: SemaId, v: nat)
    requires WaitersOk(s) && forall t :: t in s.waitOn ==> s.waitOn[t] != id
    ensures WaitersOk(s.(semas := s.semas[id := Sema(v, [])]))
  {
    hide NoDup;
    EmptyNoDup();
  }

  /** Every action keeps the invariant. */
  lemma StepKeeps(s: State, a: Action)
    requires Inv(s) && Enabled(s, a)
    ensures Inv(Do(s, a))
  {
    hide NoDup, ReadyOk, OneRunning, NoLostWakeup;
    match a
    case SemaInit(id, v) => InitKeeps(s, id, v);
    case Down(id) => if s.semas[id].value == 0 { SleepKeeps(s, id); } else { DecrementKeeps(s, id); }
    case Recheck => if s.semas[s.waitOn[s.running]].value == 0 { SleepKeeps(s, s.waitOn[s.running]); }
        else { RecheckKeeps(s); }
    case TryDown(id) => if s.semas[id].value > 0 { DecrementKeeps(s, id); }
    case Up(id) => UpKeeps(s, id);
    case Yield => YieldKeeps(s);
    case IdleBlock => IdleKeeps(s);
    case Create(t) => CreateKeeps(s, t);
    case Exit => ExitKeeps(s);
  }

  // ---- What each step does ----

  /** Threads other than those in TS are as they were. */
  ghost predicate OthersSame(s: State, s': State, ts: set<Tid>) {
    && s'.idle == s.idle && s'.initial == s.initial
    && forall t :: t !in ts ==> (t in s'.status <==> t in s.status) && (t in s.status ==> s'.status[t] == s.status[t])
  }

  /** The first thread of QUEUE runs, or idle if there is none, and the others are on the ready list. */
  ghost predicate Dispatches(s: State, s': State, queue: seq<Tid>) {
    && s'.running in s'.status && s'.status[s'.running] == Running
    && if queue == [] then s'.running == s.idle && s'.ready == [] else [s'.running] + s'.ready == queue
  }

  /** thread_create: T is ready, behind all others, and nothing else has changed. */
  ghost predicate Creates(s: State, t: Tid, s': State) {
    && t in s'.status && s'.status[t] == Ready && s'.ready == s.ready + [t] && OthersSame(s, s', {t})
    && s'.running == s.running && s'.semas == s.semas && s'.waitOn == s.waitOn
  }

  /** thread_exit: the caller is gone, or dying if it is the initial thread, and another thread runs. */
  ghost predicate Exits(s: State, s': State) {
    && (if s.running == s.initial then s.running in s'.status && s'.status[s.running] == Dying
        else s.running !in s'.status)
    && s'.running != s.running && Dispatches(s, s', s.ready) && OthersSame(s, s', {s.running, s'.running})
    && s'.semas == s.semas && s'.waitOn == s.waitOn
  }

  /** thread_yield: the caller goes behind all others, unless it is idle, and the first of them all runs. */
  ghost predicate Yields(s: State, s': State) {
    && Dispatches(s, s', if s.running == s.idle then s.ready else s.ready + [s.running])
    && (s'.running != s.running ==> s.running in s'.status && s'.status[s.running] == Ready)
    && OthersSame(s, s', {s.running, s'.running}) && s'.semas == s.semas && s'.waitOn == s.waitOn
  }

  /** idle blocks, and another thread runs if one is ready. */
  ghost predicate Idles(s: State, s': State) {
    && Dispatches(s, s', s.ready) && OthersSame(s, s', {s.idle, s'.running})
    && (s'.running != s.idle ==> s.idle in s'.status && s'.status[s.idle] == Blocked)
    && s'.semas == s.semas && s'.waitOn == s.waitOn
  }

  /** Semaphores other than ID are as they were. */
  ghost predicate OtherSemas(s: State, s': State, id: SemaId) {
    forall j :: j != id ==> (j in s'.semas <==> j in s.semas) && (j in s.semas ==> s'.semas[j] == s.semas[j])
  }

  /** The threads, the ready list and who runs are as they were. */
  ghost predicate SameThreads(s: State, s': State) {
    s'.status == s.status && s'.ready == s.ready && s'.running == s.running && s'.idle == s.idle
    && s'.initial == s.initial
  }

  /** sema_init: semaphore ID has value V and no waiters. */
  ghost predicate Inits(s: State, id: SemaId, v: nat, s': State) {
    && id in s'.semas && s'.semas[id].value == v && s'.semas[id].waiters == []
    && OtherSemas(s, s', id) && SameThreads(s, s') && s'.waitOn == s.waitOn
  }

  /** A positive semaphore's value falls by one, and the caller goes on. */
  ghost predicate Decrements(s: State, id: SemaId, s': State) {
    && id in s.semas && id in s'.semas && s.semas[id].value == s'.semas[id].value + 1
    && s'.semas[id].waiters == s.semas[id].waiters && OtherSemas(s, s', id) && SameThreads(s, s')
  }

  /** A down that completes. */
  ghost predicate Lowers(s: State, id: SemaId, s': State) {
    Decrements(s, id, s') && s'.waitOn == s.waitOn - {s.running}
  }

  /** A down of a semaphore that is zero: the caller is blocked, the last of the waiters, and another
      thread runs. */
  ghost predicate Sleeps(s: State, id: SemaId, s': State) {
    && id in s.semas && id in s'.semas && s.semas[id].value == 0 == s'.semas[id].value
    && s'.semas[id].waiters == s.semas[id].waiters + [s.running] && OtherSemas(s, s', id)
    && s'.running != s.running && s.running in s'.status && s'.status[s.running] == Blocked
    && Dispatches(s, s', s.ready) && OthersSame(s, s', {s.running, s'.running})
    && s'.waitOn == s.waitOn[s.running := id]
  }

  /** sema_up: the value rises by one, and the thread that has waited longest is ready, behind all others. */
  ghost predicate Raises(s: State, id: SemaId, s': State) {
    && id in s.semas && id in s'.semas && s'.semas[id].value == s.semas[id].value + 1 && OtherSemas(s, s', id)
    && s'.running == s.running && s'.waitOn == s.waitOn
    && if s.semas[id].waiters == [] then s'.semas[id].waiters == [] && SameThreads(s, s')
       else
         var w := s.semas[id].waiters[0];
         && s.semas[id].waiters == [w] + s'.semas[id].waiters && s'.ready == s.ready + [w]
         && w in s'.status && s'.status[w] == Ready && OthersSame(s, s', {w})
  }

  /** The promises of thread.c and synch.c for an action. */
  ghost predicate Promised(s: State, a: Action, s': State) {
    match a
    case SemaInit(id, v) => Inits(s, id, v, s')
    case Down(id) => if id in s.semas && s.semas[id].value == 0 then Sleeps(s, id, s') else Lowers(s, id, s')
    case Recheck =>
      && s.running in s.waitOn && s.waitOn[s.running] in s.semas
      && var id := s.waitOn[s.running];
         if s.semas[id].value == 0 then Sleeps(s, id, s') else Lowers(s, id, s')
    case TryDown(id) =>
      if id in s.semas && s.semas[id].value == 0 then s' == s else Decrements(s, id, s') && s'.waitOn == s.waitOn
    case Up(id) => Raises(s, id, s')
    case Yield => Yields(s, s')
    case IdleBlock => Idles(s, s')
    case Create(t) => Creates(s, t, s')
    case Exit => Exits(s, s')
  }

  /** Every step does what its call promises. */
  lemma StepPromised(s: State, a: Action)
    requires Inv(s) && Enabled(s, a)
    ensures Promised(s, a, Do(s, a))
  {
    hide Inv, Schedule, Sleep, Asleep, Decremented, Upped, Yielded, Exited, Unblocked, Inits, Decrements, Sleeps,
      Raises, Yields, Idles, Creates, Exits;
    match a
    case SemaInit(id, v) => InitsSema(s, id, v);
    case Down(id) =>
      assert s.waitOn - {s.running} == s.waitOn;
      if s.semas[id].value == 0 {
        SleepsAt(s, id);
      } else {
        LowersSema(s, id);
      }
    case Recheck =>
      NotIdle(s);
      if s.semas[s.waitOn[s.running]].value == 0 { SleepsAt(s, s.waitOn[s.running]); }
      else { LowersSema(s, s.waitOn[s.running]); }
    case TryDown(id) =>
      if s.semas[id].value > 0 {
        LowersSema(s, id);
      }
    case Up(id) => RaisesSema(s, id);
    case Yield => YieldsOn(s);
    case IdleBlock => IdlesOn(s);
    case Create(t) => CreatesOne(s, t);
    case Exit => ExitsFor(s);
  }

  lemma NotIdle(s: State)
    requires Inv(s)
    ensures s.running in s.waitOn ==> s.running != s.idle
  {
  }

  lemma InitsSema(s: State, id: SemaId, v: nat)
    ensures Inits(s, id, v, s.(semas := s.semas[id := Sema(v, [])]))
  {
  }

  lemma LowersSema(s: State, id: SemaId)
    requires id in s.semas && s.semas[id].value > 0
    ensures Decrements(s, id, Decremented(s, id)) && Decremented(s, id).waitOn == s.waitOn
    ensures Lowers(s, id, Decremented(s, id).(waitOn := s.waitOn - {s.running}))
  {
  }

  lemma SleepsAt(s: State, id: SemaId)
    requires Inv(s) && id in s.semas && s.semas[id].value == 0 && s.running != s.idle
    ensures Sleeps(s, id, Sleep(s, id))
  {
    hide NoDup, WaitersOk, NoLostWakeup;
    FrontReady(s);
  }

  lemma RaisesSema(s: State, id: SemaId)
    requires id in s.semas
    ensures Raises(s, id, Upped(s, id))
  {
    var ws := s.semas[id].waiters;
    assert ws != [] ==> [ws[0]] + ws[1..] == ws;
  }

  lemma YieldsOn(s: State)
    requires Inv(s)
    ensures Yields(s, Yielded(s))
  {
    hide NoDup, WaitersOk, NoLostWakeup;
    FrontReady(s);
    var q := s.ready + [s.running];
    assert [q[0]] + q[1..] == q;
  }

  lemma IdlesOn(s: State)
    requires Inv(s) && s.running == s.idle
    ensures Idles(s, Schedule(s.(status := s.status[s.running := Blocked])))
  {
    hide NoDup, WaitersOk, NoLostWakeup;
    FrontReady(s);
  }

  lemma CreatesOne(s: State, t: Tid)
    requires t !in s.status
    ensures Creates(s, t, Unblocked(s, t))
  {
  }

  lemma ExitsFor(s: State)
    requires Inv(s) && s.running != s.idle
    ensures Exits(s, Exited(s))
  {
    hide NoDup, WaitersOk, NoLostWakeup;
    FrontReady(s);
  }

  lemma FrontReady(s: State)
    requires Inv(s)
    ensures s.running !in s.ready
    ensures s.ready != [] ==> s.ready[0] != s.running && [s.ready[0]] + s.ready[1..] == s.ready
    ensures s.ready == [] && s.running != s.idle ==> s.idle in s.status
  {
    if s.ready != [] {
      assert s.ready[0] in s.ready;
    }
  }

  // ---- Runs ----

  /** The actions can happen one after the other. */
  ghost predicate Run(s: State, acts: seq<Action>)
    decreases |acts|
  {
    acts == [] || (Enabled(s, acts[0]) && Run(Do(s, acts[0]), acts[1..]))
  }

  ghost function Exec(s: State, acts: seq<Action>): State
    requires Run(s, acts)
    decreases |acts|
  {
    if acts == [] then s else Exec(Do(s, acts[0]), acts[1..])
  }

  /** Every run keeps the invariant. */
  lemma {:induction false} RunKeeps(s: State, acts: seq<Action>)
    requires Inv(s) && Run(s, acts)
    ensures Inv(Exec(s, acts))
    decreases |acts|
  {
    if acts != [] {
      StepKeeps(s, acts[0]);
      RunKeeps(Do(s, acts[0]), acts[1..]);
    }
  }

  /** The main thread is running and the idle thread has blocked for the first time. */
  ghost function Start(main: Tid, idle: Tid): State {
    State(map[main := Running, idle := Blocked], [], main, idle, main, map[], map[])
  }

  lemma StartOk(main: Tid, idle: Tid)
    requires main != idle
    ensures Inv(Start(main, idle))
  {
  }

  /** No thread is on two lists, or twice on one: its list element has only one use at a time. */
  lemma OneList(s: State, t: Tid)
    requires Inv(s)
    ensures t in s.ready ==> forall id :: id in s.semas ==> t !in s.semas[id].waiters
    ensures forall i, j :: i in s.semas && j in s.semas && t in s.semas[i].waiters && t in s.semas[j].waiters ==> i == j
    ensures t == s.running ==> t !in s.ready && forall id :: id in s.semas ==> t !in s.semas[id].waiters
  {
  }

  /** When a semaphore is positive while threads wait, a woken thread is running or on the ready
      list and will recheck it. */
  lemma WakeupPending(s: State, id: SemaId)
    requires Inv(s) && id in s.semas && s.semas[id].waiters != [] && s.semas[id].value > 0
    ensures exists t :: t in s.waitOn && s.waitOn[t] == id && (t == s.running || t in s.ready)
  {
    LostAt(s, id);
    assert |Woken(s, id)| > 0;
    var t :| t in Woken(s, id);
    assert t in s.waitOn && s.status[t] != Blocked;
  }

  // ---- First come, first served ----

  /** Whether the action calls schedule. */
  ghost predicate Switches(s: State, a: Action)
    requires Enabled(s, a)
  {
    match a
    case Down(id) => s.semas[id].value == 0
    case Recheck => s.semas[s.waitOn[s.running]].value == 0
    case Yield => true
    case IdleBlock => true
    case Exit => true
    case _ => false
  }

  /** The threads that the calls of schedule in a run dispatch, in order. */
  ghost function Dispatched(s: State, acts: seq<Action>): seq<Tid>
    requires Run(s, acts)
    decreases |acts|
  {
    if acts == [] then []
    else
      var s' := Do(s, acts[0]);
      (if Switches(s, acts[0]) then [s'.running] else []) + Dispatched(s', acts[1..])
  }

  /** A step takes at most the first thread off the ready list, and only to dispatch it. */
  lemma StepFifo(s: State, a: Action)
    requires Enabled(s, a)
    ensures var s' := Do(s, a);
            if Switches(s, a) && s.ready != [] then s'.running == s.ready[0] && s.ready[1..] <= s'.ready
            else Switches(s, a) || s.ready <= s'.ready
  {
    if a.Yield? && s.ready != [] && s.running != s.idle {
      assert (s.ready + [s.running])[1..] == s.ready[1..] + [s.running];
    }
  }

  /** The thread at position K of the ready list is dispatched by the call of schedule number K + 1,
      whatever happens in between. */
  lemma {:induction false} Fifo(s: State, acts: seq<Action>, k: nat)
    requires Run(s, acts) && k < |s.ready| && k < |Dispatched(s, acts)|
    ensures Dispatched(s, acts)[k] == s.ready[k]
    decreases |acts|
  {
    var s' := Do(s, acts[0]);
    StepFifo(s, acts[0]);
    if !Switches(s, acts[0]) {
      Fifo(s', acts[1..], k);
    } else if k > 0 {
      assert s.ready[1..][k - 1] == s.ready[k];
      Fifo(s', acts[1..], k - 1);
    }
  }

  /** The threads that the ups of semaphore ID in a run wake, in order. */
  ghost function WokenBy(s: State, acts: seq<Action>, id: SemaId): seq<Tid>
    requires Run(s, acts)
    decreases |acts|
  {
    if acts == [] then []
    else
      (if acts[0] == Up(id) && s.semas[id].waiters != [] then [s.semas[id].waiters[0]] else [])
      + WokenBy(Do(s, acts[0]), acts[1..], id)
  }

  /** A step takes at most the first waiter off, and only to wake it. */
  lemma StepWaiters(s: State, a: Action, id: SemaId)
    requires WaitersOk(s) && Enabled(s, a) && id in s.semas && s.semas[id].waiters != []
    ensures id in Do(s, a).semas
    ensures if a == Up(id) then Do(s, a).semas[id].waiters == s.semas[id].waiters[1..]
            else s.semas[id].waiters <= Do(s, a).semas[id].waiters
  {
    var w := s.semas[id].waiters;
    assert w[0] in w && w[..|w|] == w;
    assert w[0] in s.waitOn && s.waitOn[w[0]] == id;
    assert (w + [s.running])[..|w|] == w;
  }

  /** The thread at position K of a semaphore's waiters is woken by the up number K + 1, whatever
      happens in between. */
  lemma {:induction false} WaitFifo(s: State, acts: seq<Action>, id: SemaId, k: nat)
    requires Inv(s) && Run(s, acts) && id in s.semas && k < |s.semas[id].waiters| && k < |WokenBy(s, acts, id)|
    ensures WokenBy(s, acts, id)[k] == s.semas[id].waiters[k]
    decreases |acts|
  {
    hide ReadyOk, OneRunning, NoLostWakeup, Do;
    var s' := Do(s, acts[0]);
    StepWaiters(s, acts[0], id);
    StepKeeps(s, acts[0]);
    if acts[0] != Up(id) {
      WaitFifo(s', acts[1..], id, k);
    } else if k > 0 {
      assert s.semas[id].waiters[1..][k - 1] == s.semas[id].waiters[k];
      WaitFifo(s', acts[1..], id, k - 1);
    }
  }

  // ---- Semaphore values ----

  /** The ups and the completed downs of semaphore ID in a run. */
  ghost function Ups(acts: seq<Action>, id: SemaId): nat {
    if acts == [] then 0 else (if acts[0] == Up(id) then 1 else 0) + Ups(acts[1..], id)
  }

  ghost predicate Downs1(s: State, a: Action, id: SemaId)
    requires Enabled(s, a)
  {
    match a
    case Down(j) => j == id && s.semas[j].value > 0
    case TryDown(j) => j == id && s.semas[j].value > 0
    case Recheck => s.waitOn[s.running] == id && s.semas[id].value > 0
    case _ => false
  }

  ghost function Downs(s: State, acts: seq<Action>, id: SemaId): nat
    requires Run(s, acts)
    decreases |acts|
  {
    if acts == [] then 0
    else (if Downs1(s, acts[0], id) then 1 else 0) + Downs(Do(s, acts[0]), acts[1..], id)
  }

  /** A semaphore's value is its earlier value plus the ups less the completed downs since. */
  lemma {:induction false} ValueCounts(s: State, acts: seq<Action>, id: SemaId)
    requires Run(s, acts) && id in s.semas && forall i :: 0 <= i < |acts| ==> !(acts[i].SemaInit? && acts[i].id == id)
    ensures id in Exec(s, acts).semas
    ensures Exec(s, acts).semas[id].value == s.semas[id].value + Ups(acts, id) - Downs(s, acts, id)
    decreases |acts|
  {
    if acts != [] {
      var s' := Do(s, acts[0]);
      var n := if acts[0] == Up(id) then 1 else if Downs1(s, acts[0], id) then -1 else 0;
      assert id in s'.semas && s'.semas[id].value == s.semas[id].value + n;
      forall i | 0 <= i < |acts[1..]| ensures !(acts[1..][i].SemaInit? && acts[1..][i].id == id) {
      }
      ValueCounts(s', acts[1..], id);
    }
  }
}
