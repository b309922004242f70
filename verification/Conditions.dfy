/** Condition variables (threads/synch.c): cond_wait, cond_signal and cond_broadcast built from a
    lock and one private semaphore for each waiting thread.  None of them is atomic: other threads
    may run between any two of the steps below. */
module Conditions {
  import opened Options
  import opened Tids
  import opened Threads
  import opened Locks

  type CondId = nat

  /** struct condition, with the lock that goes with it. */
  datatype Cond = Cond(lock: SemaId, waiters: seq<Tid>)

  /** Where a thread is inside cond_wait: its semaphore is initialized; it is on the list of waiters
      and releases the lock; it downs its semaphore; it acquires the lock again. */
  datatype Stage = Prepared | Queued | Waiting | Awake

  /** What has become of a waiter: not on the list yet, on the list, taken off it by cond_signal, its
      semaphore upped, its down completed. */
  datatype Mark = New | Listed | Popped | Raised | Taken

  datatype Wait = Wait(cond: CondId, sema: SemaId, stage: Stage, mark: Mark)

  /** WAITS are the threads inside cond_wait, SIGNALS the threads inside cond_signal that have taken a
      waiter off the list and not yet upped its semaphore. */
  datatype Monitor = Monitor(y: System, conds: map<CondId, Cond>, waits: map<Tid, Wait>, signals: map<Tid, Tid>)

  datatype CondAction =
    | CondInit(cond: CondId, lock: SemaId)
    | Prepare(cond: CondId, sema: SemaId)
    | Enqueue
    | PopWaiter(cond: CondId)
    | RaiseWaiter
    | Base(action: LockAction)

  // ---- Steps ----

  /** The step of the scheduler that a lock action consists of, if it does. */
  ghost function Kernel(a: LockAction): Option<Action> {
    match a
    case LockInit(id) => Some(SemaInit(id, 1))
    case Acquire(id) => Some(Down(id))
    case TryAcquire(id) => Some(TryDown(id))
    case RaiseSema(id) => Some(Up(id))
    case Other(b) => Some(b)
    case _ => None
  }

  /** A timer interrupt, or another handler that ups a semaphore. */
  ghost predicate Interrupt(a: LockAction) {
    a.Other? && (a.action.Yield? || a.action.Up?)
  }

  /** The calls inside cond_wait. */
  ghost predicate OwnStep(w: Wait, lock: SemaId, a: LockAction) {
    match w.stage
    case Prepared => false
    case Queued => a == ClearHolder(lock) || a == RaiseSema(lock)
    case Waiting => a == Other(Down(w.sema)) || a == Other(Recheck)
    case Awake => a == Acquire(lock) || a == Other(Recheck) || a == SetHolder(lock)
  }

  /** The running thread holds the lock of condition C. */
  ghost predicate HoldsFor(m: Monitor, c: CondId, t: Tid) {
    c in m.conds && m.conds[c].lock in m.y.locks && m.y.locks[m.conds[c].lock].holder == Some(t)
  }

  /** A private semaphore is used by its owner in cond_wait alone. */
  ghost predicate LeavesPrivate(m: Monitor, a: LockAction) {
    forall u :: u in m.waits && Kernel(a).Some? && Uses(Kernel(a).value, m.waits[u].sema) ==>
      u == m.y.k.running && m.waits[u].stage == Waiting && a == Other(Down(m.waits[u].sema))
  }

  ghost predicate CanCond(m: Monitor, a: CondAction) {
    var t := m.y.k.running;
    match a
    case CondInit(c, lock) => lock in m.y.locks && forall u :: u in m.waits ==> m.waits[u].cond != c
    case Prepare(c, w) =>
      && t !in m.waits && t !in m.signals && HoldsFor(m, c, t) && t !in m.y.k.waitOn
      && CanDo(m.y, Other(SemaInit(w, 0))) && LeavesPrivate(m, Other(SemaInit(w, 0)))
    case Enqueue => t in m.waits && m.waits[t].stage == Prepared && m.waits[t].cond in m.conds
    case PopWaiter(c) =>
      && t !in m.waits && t !in m.signals && HoldsFor(m, c, t) && m.conds[c].waiters != []
      && m.conds[c].waiters[0] in m.waits
    case RaiseWaiter => t in m.signals && m.signals[t] in m.waits && CanDo(m.y, Other(Up(m.waits[m.signals[t]].sema)))
    case Base(b) =>
      && CanDo(m.y, b) && LeavesPrivate(m, b)
      && (t in m.signals ==> Interrupt(b))
      && (t in m.waits ==>
            Interrupt(b) || (m.waits[t].cond in m.conds && OwnStep(m.waits[t], m.conds[m.waits[t].cond].lock, b)))
  }

  /** The place of the running thread in cond_wait after one of its calls. */
  ghost function Onward(w: Wait, lock: SemaId, y: System, a: LockAction): Option<Wait>
    requires CanDo(y, a)
  {
    if w.stage == Queued && a == RaiseSema(lock) then Some(w.(stage := Waiting))
    else if w.stage == Waiting && a.Other? && Downs1(y.k, a.action, w.sema) then Some(w.(stage := Awake, mark := Taken))
    else if w.stage == Awake && a == SetHolder(lock) then None
    else Some(w)
  }

  ghost function CondDo(m: Monitor, a: CondAction): Monitor
    requires CanCond(m, a)
  {
    var t := m.y.k.running;
    match a
    case CondInit(c, lock) => m.(conds := m.conds[c := Cond(lock, [])])
    case Prepare(c, w) =>
      m.(y := Act(m.y, Other(SemaInit(w, 0))), waits := m.waits[t := Wait(c, w, Prepared, New)])
    case Enqueue =>
      var c := m.waits[t].cond;
      m.(conds := m.conds[c := m.conds[c].(waiters := m.conds[c].waiters + [t])],
         waits := m.waits[t := m.waits[t].(stage := Queued, mark := Listed)])
    case PopWaiter(c) =>
      var u := m.conds[c].waiters[0];
      m.(conds := m.conds[c := m.conds[c].(waiters := m.conds[c].waiters[1..])],
         waits := m.waits[u := m.waits[u].(mark := Popped)], signals := m.signals[t := u])
    case RaiseWaiter =>
      var u := m.signals[t];
      m.(y := Act(m.y, Other(Up(m.waits[u].sema))), waits := m.waits[u := m.waits[u].(mark := Raised)],
         signals := m.signals - {t})
    case Base(b) =>
      var waits := if t !in m.waits || Interrupt(b) then m.waits
                   else match Onward(m.waits[t], m.conds[m.waits[t].cond].lock, m.y, b)
                        case Some(w) => m.waits[t := w]
                        case None => m.waits - {t};
      m.(y := Act(m.y, b), waits := waits)
  }

  // ---- The invariant ----

  /** Where thread T, inside cond_wait, may be on a list of the scheduler. */
  ghost predicate Sleeps(m: Monitor, t: Tid)
    requires t in m.waits && m.waits[t].cond in m.conds
  {
    var w, waitOn := m.waits[t], m.y.k.waitOn;
    && (t in waitOn ==> || (w.stage == Waiting && waitOn[t] == w.sema)
                        || (w.stage == Awake && waitOn[t] == m.conds[w.cond].lock))
    && (forall u :: u in waitOn && waitOn[u] == w.sema ==> u == t && w.stage == Waiting)
  }

  /** The private semaphore of thread T is one exactly while T has been signalled and has not
      completed its down; T is on the list of its condition exactly until it is signalled. */
  ghost predicate WaitOk(m: Monitor, t: Tid) {
    && t in m.waits
    && var w := m.waits[t];
    && w.cond in m.conds && w.sema in m.y.k.semas && w.sema !in m.y.locks
    && (w.stage == Prepared <==> w.mark == New) && (w.stage == Awake <==> w.mark == Taken)
    && m.y.k.semas[w.sema].value == (if w.mark == Raised then 1 else 0)
    && (w.mark == Listed <==> t in m.conds[w.cond].waiters)
    && Sleeps(m, t) && t !in m.signals
    && (w.stage == Prepared ==> HoldsFor(m, w.cond, t))
  }

  ghost predicate CondOk(m: Monitor, c: CondId) {
    && c in m.conds && m.conds[c].lock in m.y.locks && NoDup(m.conds[c].waiters)
    && forall t :: t in m.conds[c].waiters ==> t in m.waits && m.waits[t].cond == c
  }

  /** A thread that is signalling holds the lock, and the waiter it has taken off the list is still there. */
  ghost predicate SignalOk(m: Monitor, u: Tid) {
    && u in m.signals && m.signals[u] in m.waits && m.waits[m.signals[u]].mark == Popped
    && HoldsFor(m, m.waits[m.signals[u]].cond, u)
  }

  ghost predicate SemasApart(m: Monitor) {
    forall t, u :: t in m.waits && u in m.waits && t != u ==> m.waits[t].sema != m.waits[u].sema
  }

  ghost predicate MonitorInv(m: Monitor) {
    && LockInv(m.y) && SemasApart(m)
    && (forall t :: t in m.waits ==> WaitOk(m, t))
    && (forall c :: c in m.conds ==> CondOk(m, c))
    && (forall u :: u in m.signals ==> SignalOk(m, u))
  }

  // ---- What lock actions do to the rest ----

  /** A step changes who waits for what only for the running thread. */
  lemma WaitOnStep(k: State, b: Action)
    requires Enabled(k, b)
    ensures Do(k, b).waitOn == if b.Down? && k.semas[b.id].value == 0 then k.waitOn[k.running := b.id]
              else if b.Recheck? && k.semas[k.waitOn[k.running]].value > 0 then k.waitOn - {k.running}
              else k.waitOn
  {
    if b.Recheck? {
      assert k.waitOn[k.running := k.waitOn[k.running]] == k.waitOn;
    }
  }

  lemma KernelStep(y: System, a: LockAction)
    requires CanDo(y, a)
    ensures match Kernel(a)
            case Some(b) => Enabled(y.k, b) && Act(y, a).k == Do(y.k, b)
            case None => Act(y, a).k == y.k
    ensures y.locks.Keys <= Act(y, a).locks.Keys
    ensures forall id :: id in Act(y, a).locks && id !in y.locks ==> a == LockInit(id)
  {
    hide Do, Enabled;
  }

  /** A thread that holds a lock keeps it until it clears the holder itself. */
  lemma HolderStays(y: System, a: LockAction, id: SemaId, t: Tid)
    requires LockInv(y) && CanDo(y, a) && id in y.locks && y.locks[id].holder == Some(t)
    requires a != ClearHolder(id) || y.k.running != t
    ensures id in Act(y, a).locks && Act(y, a).locks[id].holder == Some(t)
  {
    hide LockInv, LockOk, CanDo, Act;
    if a.LockInit? || a.SetHolder? || a.ClearHolder? || a.RaiseSema? {
      HolderKept(y, a, id, t);
    } else {
      EnteredHolder(y, a, id);
    }
  }

  lemma EnteredHolder(y: System, a: LockAction, id: SemaId)
    requires CanDo(y, a) && id in y.locks && (a.Acquire? || a.TryAcquire? || a.Other?)
    ensures id in Act(y, a).locks && Act(y, a).locks[id].holder == y.locks[id].holder
  {
    hide Do;
  }

  lemma HolderKept(y: System, a: LockAction, id: SemaId, t: Tid)
    requires LockInv(y) && CanDo(y, a) && id in y.locks && y.locks[id].holder == Some(t)
    requires (a != ClearHolder(id) || y.k.running != t) && !(a.Acquire? || a.TryAcquire? || a.Other?)
    ensures id in Act(y, a).locks && Act(y, a).locks[id].holder == Some(t)
  {
    hide Inv, Do, Enabled;
    assert LockOk(y, id);
    SoleInside(y.locks[id].inside, t);
  }

  /** A lock action that leaves the private semaphore W alone, though its owner T may be the one that runs. */
  lemma PrivateStep(y: System, a: LockAction, w: SemaId, t: Tid)
    requires CanDo(y, a) && w in y.k.semas && (Kernel(a).Some? ==> !Uses(Kernel(a).value, w))
    requires forall u :: u in y.k.waitOn && y.k.waitOn[u] == w ==> u == t
    ensures w in Act(y, a).k.semas
    ensures (a == Other(Recheck) && y.k.running == t) || Act(y, a).k.semas[w].value == y.k.semas[w].value
    ensures forall u :: u in Act(y, a).k.waitOn && Act(y, a).k.waitOn[u] == w ==>
              u == t && t in y.k.waitOn && y.k.waitOn[t] == w
    ensures t in Act(y, a).k.waitOn && t !in y.k.waitOn ==> t == y.k.running
    ensures t in y.k.waitOn && t in Act(y, a).k.waitOn && t != y.k.running ==>
              Act(y, a).k.waitOn[t] == y.k.waitOn[t]
  {
    hide Do, Enabled, CanDo, Act;
    KernelStep(y, a);
    if Kernel(a).Some? {
      var b := Kernel(a).value;
      WaitOnStep(y.k, b);
      PrivateValue(y.k, b, w, t);
    }
  }

  lemma PrivateValue(k: State, b: Action, w: SemaId, t: Tid)
    requires Enabled(k, b) && w in k.semas && !Uses(b, w)
    requires forall u :: u in k.waitOn && k.waitOn[u] == w ==> u == t
    ensures w in Do(k, b).semas
    ensures (b == Recheck && k.running == t) || Do(k, b).semas[w].value == k.semas[w].value
  {
    hide Do;
    ValueStep(k, b, w);
  }

  // ---- Steps keep the invariant ----

  /** A lock action by another thread leaves waiter T as it was. */
  lemma OthersWait(m: Monitor, b: LockAction, t: Tid)
    requires MonitorInv(m) && CanCond(m, Base(b)) && t in m.waits && t != m.y.k.running
    ensures WaitOk(CondDo(m, Base(b)), t)
  {
    hide LockInv, CanDo, Act, LockOk, Sleeps, Do, Downs1, NoDup;
    var w := m.waits[t];
    assert WaitOk(m, t) && CondOk(m, w.cond);
    OthersSleeps(m, b, t);
    KernelStep(m.y, b);
    if w.stage == Prepared {
      HolderStays(m.y, b, m.conds[w.cond].lock, t);
    }
  }

  lemma OthersSleeps(m: Monitor, b: LockAction, t: Tid)
    requires MonitorInv(m) && CanCond(m, Base(b)) && t in m.waits && t != m.y.k.running
    ensures var m' := CondDo(m, Base(b));
            && t in m'.waits && m'.waits[t] == m.waits[t] && m.waits[t].cond in m'.conds && Sleeps(m', t)
            && m.waits[t].sema in m'.y.k.semas
            && m'.y.k.semas[m.waits[t].sema].value == m.y.k.semas[m.waits[t].sema].value
  {
    hide LockInv, CanDo, Act, LockOk, HoldsFor, Do, Downs1, NoDup;
    assert WaitOk(m, t);
    PrivateStep(m.y, b, m.waits[t].sema, t);
  }

  /** An interrupt leaves the waiter that runs as it was. */
  lemma InterruptWait(m: Monitor, b: LockAction)
    requires MonitorInv(m) && CanCond(m, Base(b)) && m.y.k.running in m.waits && Interrupt(b)
    ensures WaitOk(CondDo(m, Base(b)), m.y.k.running)
  {
    hide LockInv, CanDo, Act, LockOk;
    var t := m.y.k.running;
    var w := m.waits[t];
    assert WaitOk(m, t);
    assert CondOk(m, w.cond);
    PrivateStep(m.y, b, w.sema, t);
    KernelStep(m.y, b);
    WaitOnStep(m.y.k, b.action);
    if w.stage == Prepared {
      HolderStays(m.y, b, m.conds[w.cond].lock, t);
    }
  }

  /** A call of cond_wait itself. */
  lemma OwnWait(m: Monitor, b: LockAction)
    requires MonitorInv(m) && CanCond(m, Base(b)) && m.y.k.running in m.waits && !Interrupt(b)
    ensures var m', t := CondDo(m, Base(b)), m.y.k.running; t in m'.waits ==> WaitOk(m', t)
  {
    hide MonitorInv, WaitOk, CondDo, CanDo, Act;
    match m.waits[m.y.k.running].stage
    case Queued => OwnQueued(m, b);
    case Waiting => OwnWaiting(m, b);
    case Awake => OwnAwake(m, b);
    case Prepared =>
  }

  /** lock_release */
  lemma OwnQueued(m: Monitor, b: LockAction)
    requires MonitorInv(m) && CanCond(m, Base(b)) && m.y.k.running in m.waits && !Interrupt(b)
    requires m.waits[m.y.k.running].stage == Queued
    ensures WaitOk(CondDo(m, Base(b)), m.y.k.running)
  {
    hide LockInv, CanDo, Act, LockOk, Do, NoDup, LeavesPrivate, SemasApart, SignalOk;
    var t := m.y.k.running;
    var w := m.waits[t];
    assert WaitOk(m, t) && CondOk(m, w.cond);
    KernelStep(m.y, b);
    PrivateStep(m.y, b, w.sema, t);
    if Kernel(b).Some? {
      WaitOnStep(m.y.k, Kernel(b).value);
    }
  }

  /** sema_down of the private semaphore */
  lemma OwnWaiting(m: Monitor, b: LockAction)
    requires MonitorInv(m) && CanCond(m, Base(b)) && m.y.k.running in m.waits && !Interrupt(b)
    requires m.waits[m.y.k.running].stage == Waiting
    ensures WaitOk(CondDo(m, Base(b)), m.y.k.running)
  {
    hide LockInv, CanDo, Act, LockOk, Do, NoDup, HoldsFor, LeavesPrivate, SemasApart, SignalOk;
    var t := m.y.k.running;
    var w := m.waits[t];
    assert WaitOk(m, t);
    KernelStep(m.y, b);
    WaitOnStep(m.y.k, b.action);
    ValueStep(m.y.k, b.action, w.sema);
  }

  /** lock_acquire */
  lemma OwnAwake(m: Monitor, b: LockAction)
    requires MonitorInv(m) && CanCond(m, Base(b)) && m.y.k.running in m.waits && !Interrupt(b)
    requires m.waits[m.y.k.running].stage == Awake
    ensures var m', t := CondDo(m, Base(b)), m.y.k.running; t in m'.waits ==> WaitOk(m', t)
  {
    hide LockInv, CanDo, Act, LockOk, Do, NoDup, HoldsFor, Downs1, LeavesPrivate, SemasApart, SignalOk;
    var t := m.y.k.running;
    var w := m.waits[t];
    assert WaitOk(m, t) && CondOk(m, w.cond);
    AwakeStep(m.y, b, w.sema, m.conds[w.cond].lock);
    KernelStep(m.y, b);
  }

  /** A step of lock_acquire does nothing to another semaphore W. */
  lemma AwakeStep(y: System, b: LockAction, w: SemaId, lock: SemaId)
    requires CanDo(y, b) && (b == Acquire(lock) || b == Other(Recheck) || b == SetHolder(lock))
    requires w in y.k.semas && w != lock && (forall u :: u in y.k.waitOn ==> y.k.waitOn[u] != w)
    requires y.k.running in y.k.waitOn ==> y.k.waitOn[y.k.running] == lock
    ensures var k' := Act(y, b).k;
            && w in k'.semas && k'.semas[w].value == y.k.semas[w].value
            && (forall u :: u in k'.waitOn ==> k'.waitOn[u] != w)
            && (y.k.running in k'.waitOn ==> k'.waitOn[y.k.running] == lock)
  {
    hide Act, CanDo, Do;
    KernelStep(y, b);
    if Kernel(b).Some? {
      WaitOnStep(y.k, Kernel(b).value);
      ValueStep(y.k, Kernel(b).value, w);
    }
  }

  lemma BaseConds(m: Monitor, b: LockAction, c: CondId)
    requires MonitorInv(m) && CanCond(m, Base(b)) && c in m.conds
    ensures CondOk(CondDo(m, Base(b)), c)
  {
    hide LockInv, CanDo, Act, LockOk, NoDup, Sleeps, HoldsFor, LeavesPrivate, SemasApart, SignalOk, Downs1;
    KernelStep(m.y, b);
    assert CondOk(m, c);
    var t := m.y.k.running;
    if t in m.waits {
      assert WaitOk(m, t);
    }
  }

  lemma BaseSignals(m: Monitor, b: LockAction, u: Tid)
    requires MonitorInv(m) && CanCond(m, Base(b)) && u in m.signals
    ensures SignalOk(CondDo(m, Base(b)), u)
  {
    hide LockInv, CanDo, Act, LockOk, Do, NoDup, Sleeps;
    assert SignalOk(m, u);
    var v := m.signals[u];
    assert WaitOk(m, v);
    HolderStays(m.y, b, m.conds[m.waits[v].cond].lock, u);
  }

  lemma BaseKeeps(m: Monitor, b: LockAction)
    requires MonitorInv(m) && CanCond(m, Base(b))
    ensures MonitorInv(CondDo(m, Base(b)))
  {
    hide LockInv, CanDo, Act, LockOk, Do, WaitOk, CondOk, SignalOk;
    var m', t := CondDo(m, Base(b)), m.y.k.running;
    ActKeeps(m.y, b);
    forall u | u in m'.waits ensures WaitOk(m', u) {
      if u != t {
        OthersWait(m, b, u);
      } else if Interrupt(b) {
        InterruptWait(m, b);
      } else {
        OwnWait(m, b);
      }
    }
    forall c | c in m'.conds ensures CondOk(m', c) {
      BaseConds(m, b, c);
    }
    forall u | u in m'.signals ensures SignalOk(m', u) {
      BaseSignals(m, b, u);
    }
  }

  lemma CondInitKeeps(m: Monitor, c: CondId, lock: SemaId)
    requires MonitorInv(m) && CanCond(m, CondInit(c, lock))
    ensures MonitorInv(CondDo(m, CondInit(c, lock)))
  {
    hide LockInv, NoDup, Sleeps;
    var m' := CondDo(m, CondInit(c, lock));
    EmptyNoDup();
    forall u | u in m'.waits ensures WaitOk(m', u) {
      assert WaitOk(m, u);
      SleepsOn(m, m', u);
    }
    forall d | d in m'.conds ensures CondOk(m', d) {
      assert d != c ==> CondOk(m, d);
    }
    forall u | u in m'.signals ensures SignalOk(m', u) {
      assert SignalOk(m, u);
    }
  }

  /** sema_init of a semaphore of its own brings the running thread into cond_wait. */
  lemma PrepareKeeps(m: Monitor, c: CondId, w: SemaId)
    requires MonitorInv(m) && CanCond(m, Prepare(c, w))
    ensures MonitorInv(CondDo(m, Prepare(c, w)))
  {
    hide LockInv, CanDo, Act, LockOk, NoDup, Sleeps, WaitOk, Do;
    var b := Other(SemaInit(w, 0));
    var m1, m', t := CondDo(m, Base(b)), CondDo(m, Prepare(c, w)), m.y.k.running;
    BaseKeeps(m, b);
    PreparedWait(m, c, w);
    forall u | u in m'.waits ensures WaitOk(m', u) {
      if u != t {
        SameWait(m1, m', u);
      }
    }
    forall d | d in m'.conds ensures CondOk(m', d) {
      assert CondOk(m1, d);
    }
    forall u | u in m'.signals ensures SignalOk(m', u) {
      assert SignalOk(m1, u);
      HeldStill(m1, m', m1.waits[m1.signals[u]].cond, u);
    }
  }

  lemma SameWait(m: Monitor, m': Monitor, u: Tid)
    requires WaitOk(m, u) && m'.y == m.y && m'.conds == m.conds && m'.signals == m.signals
    requires u in m'.waits && m'.waits[u] == m.waits[u]
    ensures WaitOk(m', u)
  {
  }

  lemma PreparedWait(m: Monitor, c: CondId, w: SemaId)
    requires MonitorInv(m) && CanCond(m, Prepare(c, w))
    ensures WaitOk(CondDo(m, Prepare(c, w)), m.y.k.running)
  {
    hide LockInv, LockOk, NoDup;
    var b, t := Other(SemaInit(w, 0)), m.y.k.running;
    assert CondOk(m, c);
    HolderStays(m.y, b, m.conds[c].lock, t);
  }

  /** A step after which the same threads wait for the same semaphores. */
  lemma SleepsOn(m: Monitor, m': Monitor, t: Tid)
    requires WaitOk(m, t) && m'.y.k.waitOn == m.y.k.waitOn
    requires t in m'.waits && m'.waits[t] == m.waits[t].(mark := m'.waits[t].mark)
    requires m.waits[t].cond in m'.conds && m'.conds[m.waits[t].cond].lock == m.conds[m.waits[t].cond].lock
    ensures Sleeps(m', t)
  {
  }

  lemma EnqueueWait(m: Monitor, u: Tid)
    requires MonitorInv(m) && CanCond(m, Enqueue) && u in m.waits
    ensures WaitOk(CondDo(m, Enqueue), u)
  {
    hide LockInv, NoDup;
    var m', t := CondDo(m, Enqueue), m.y.k.running;
    assert WaitOk(m, u) && WaitOk(m, t);
    if u != t {
      hide Sleeps;
      SleepsOn(m, m', u);
    }
  }

  lemma EnqueueConds(m: Monitor, d: CondId)
    requires MonitorInv(m) && CanCond(m, Enqueue) && d in m.conds
    ensures CondOk(CondDo(m, Enqueue), d)
  {
    hide LockInv, NoDup, Sleeps, HoldsFor;
    assert WaitOk(m, m.y.k.running) && CondOk(m, d);
    PushWaiter(m, m.y.k.running, d);
  }

  lemma PushWaiter(m: Monitor, t: Tid, d: CondId)
    requires CondOk(m, d) && WaitOk(m, t) && m.waits[t].mark == New
    ensures NoDup(m.conds[d].waiters + [t])
  {
    hide NoDup;
    PushOk(m.conds[d].waiters, t);
  }

  lemma EnqueueKeeps(m: Monitor)
    requires MonitorInv(m) && CanCond(m, Enqueue)
    ensures MonitorInv(CondDo(m, Enqueue))
  {
    hide LockInv, NoDup, WaitOk, CondOk, HoldsFor;
    var m', t := CondDo(m, Enqueue), m.y.k.running;
    forall u | u in m'.waits ensures WaitOk(m', u) {
      EnqueueWait(m, u);
    }
    forall d | d in m'.conds ensures CondOk(m', d) {
      EnqueueConds(m, d);
    }
    forall u | u in m'.signals ensures SignalOk(m', u) {
      EnqueueSignals(m, u);
    }
  }

  lemma EnqueueSignals(m: Monitor, u: Tid)
    requires MonitorInv(m) && CanCond(m, Enqueue) && u in m.signals
    ensures SignalOk(CondDo(m, Enqueue), u)
  {
    hide LockInv, NoDup, Sleeps, CondOk;
    assert SignalOk(m, u) && WaitOk(m, m.y.k.running);
  }

  lemma HeldStill(m: Monitor, m': Monitor, c: CondId, u: Tid)
    requires HoldsFor(m, c, u) && m'.y == m.y && c in m'.conds && m'.conds[c].lock == m.conds[c].lock
    ensures HoldsFor(m', c, u)
  {
  }

  lemma PopWait(m: Monitor, c: CondId, u: Tid)
    requires MonitorInv(m) && CanCond(m, PopWaiter(c)) && u in m.waits
    ensures WaitOk(CondDo(m, PopWaiter(c)), u)
  {
    hide LockInv, NoDup, Sleeps;
    var m' := CondDo(m, PopWaiter(c));
    assert CondOk(m, c) && WaitOk(m, u);
    PopOk(m.conds[c].waiters);
    assert m.conds[c].waiters[0] in m.conds[c].waiters;
    SleepsOn(m, m', u);
  }

  lemma PopKeeps(m: Monitor, c: CondId)
    requires MonitorInv(m) && CanCond(m, PopWaiter(c))
    ensures MonitorInv(CondDo(m, PopWaiter(c)))
  {
    hide LockInv, NoDup, WaitOk;
    var m', t := CondDo(m, PopWaiter(c)), m.y.k.running;
    assert CondOk(m, c);
    PopOk(m.conds[c].waiters);
    forall u | u in m'.waits ensures WaitOk(m', u) {
      PopWait(m, c, u);
    }
    forall d | d in m'.conds ensures CondOk(m', d) {
      assert CondOk(m, d);
    }
    var v := m.conds[c].waiters[0];
    assert v in m.conds[c].waiters;
    forall u | u in m'.signals ensures SignalOk(m', u) {
      if u != t {
        assert SignalOk(m, u);
        HeldStill(m, m', m.waits[m.signals[u]].cond, u);
      } else {
        HeldStill(m, m', c, t);
      }
    }
  }

  lemma RaiseWait(m: Monitor, u: Tid)
    requires MonitorInv(m) && CanCond(m, RaiseWaiter) && u in m.waits
    ensures WaitOk(CondDo(m, RaiseWaiter), u)
  {
    hide LockInv, NoDup, CanDo, Act, LockOk, Do, Sleeps, Uses;
    var m', t := CondDo(m, RaiseWaiter), m.y.k.running;
    assert SignalOk(m, t) && WaitOk(m, u) && CondOk(m, m.waits[u].cond);
    var b := Other(Up(m.waits[m.signals[t]].sema));
    KernelStep(m.y, b);
    WaitOnStep(m.y.k, b.action);
    SleepsOn(m, m', u);
    ValueStep(m.y.k, b.action, m.waits[u].sema);
    if m.waits[u].stage == Prepared {
      HolderStays(m.y, b, m.conds[m.waits[u].cond].lock, u);
    }
  }

  lemma RaiseSignals(m: Monitor, u: Tid)
    requires MonitorInv(m) && CanCond(m, RaiseWaiter) && u in m.signals && u != m.y.k.running
    ensures SignalOk(CondDo(m, RaiseWaiter), u)
  {
    hide LockInv, NoDup, CanDo, Act, LockOk, Do, Sleeps;
    var t := m.y.k.running;
    assert SignalOk(m, t) && SignalOk(m, u);
    var v := m.signals[u];
    assert WaitOk(m, v) && v != m.signals[t];
    HolderStays(m.y, Other(Up(m.waits[m.signals[t]].sema)), m.conds[m.waits[v].cond].lock, u);
  }

  /** sema_up of the private semaphore of the waiter that was taken off the list. */
  lemma RaiseKeeps(m: Monitor)
    requires MonitorInv(m) && CanCond(m, RaiseWaiter)
    ensures MonitorInv(CondDo(m, RaiseWaiter))
  {
    hide LockInv, NoDup, CanDo, Act, LockOk, Do, WaitOk, SignalOk;
    var m', t := CondDo(m, RaiseWaiter), m.y.k.running;
    assert SignalOk(m, t);
    var b := Other(Up(m.waits[m.signals[t]].sema));
    ActKeeps(m.y, b);
    KernelStep(m.y, b);
    forall u | u in m'.waits ensures WaitOk(m', u) {
      RaiseWait(m, u);
    }
    forall d | d in m'.conds ensures CondOk(m', d) {
      assert CondOk(m, d);
    }
    forall u | u in m'.signals ensures SignalOk(m', u) {
      RaiseSignals(m, u);
    }
  }

  /** Every step of the operations on conditions, and every other step, keeps the invariant. */
  lemma CondKeeps(m: Monitor, a: CondAction)
    requires MonitorInv(m) && CanCond(m, a)
    ensures MonitorInv(CondDo(m, a))
  {
    hide MonitorInv, CanDo, Act, CondDo;
    match a
    case CondInit(c, lock) => CondInitKeeps(m, c, lock);
    case Prepare(c, w) => PrepareKeeps(m, c, w);
    case Enqueue => EnqueueKeeps(m);
    case PopWaiter(c) => PopKeeps(m, c);
    case RaiseWaiter => RaiseKeeps(m);
    case Base(b) => BaseKeeps(m, b);
  }

  // ---- Runs ----

  ghost predicate CondRun(m: Monitor, acts: seq<CondAction>)
    decreases |acts|
  {
    acts == [] || (CanCond(m, acts[0]) && CondRun(CondDo(m, acts[0]), acts[1..]))
  }

  ghost function CondExec(m: Monitor, acts: seq<CondAction>): Monitor
    requires CondRun(m, acts)
    decreases |acts|
  {
    if acts == [] then m else CondExec(CondDo(m, acts[0]), acts[1..])
  }

  /** The kernel starts without conditions. */
  lemma CondStart(main: Tid, idle: Tid)
    requires main != idle
    ensures MonitorInv(Monitor(System(Start(main, idle), map[]), map[], map[], map[]))
  {
    hide LockInv;
    LockStart(main, idle);
  }

  lemma {:induction false} CondRunKeeps(m: Monitor, acts: seq<CondAction>)
    requires MonitorInv(m) && CondRun(m, acts)
    ensures MonitorInv(CondExec(m, acts))
    decreases |acts|
  {
    hide MonitorInv, CanCond, CondDo;
    if acts != [] {
      CondKeeps(m, acts[0]);
      CondRunKeeps(CondDo(m, acts[0]), acts[1..]);
    }
  }

  // ---- The course of a wait ----

  /** cond_init: the condition has no waiters, and nothing else changes. */
  lemma CondInitMakes(m: Monitor, c: CondId, lock: SemaId)
    requires CanCond(m, CondInit(c, lock))
    ensures var m' := CondDo(m, CondInit(c, lock));
            && c in m'.conds && m'.conds[c].lock == lock && m'.conds[c].waiters == []
            && (forall d :: d in m.conds && d != c ==> d in m'.conds && m'.conds[d] == m.conds[d])
            && m'.y == m.y && m'.waits == m.waits && m'.signals == m.signals
  {
  }

  /** The start of cond_wait: the caller is the last of the waiters, with a semaphore of its own that is
      zero, and still holds the lock. */
  lemma WaitBegins(m: Monitor, c: CondId, w: SemaId)
    requires MonitorInv(m) && CanCond(m, Prepare(c, w))
    ensures var t, m1 := m.y.k.running, CondDo(m, Prepare(c, w));
            && CanCond(m1, Enqueue) && m1.y.k.running == t
            && var m2 := CondDo(m1, Enqueue);
               && m2.y.k.running == t && t in m2.waits && m2.waits[t] == Wait(c, w, Queued, Listed)
               && c in m2.conds && m2.conds[c].waiters == m.conds[c].waiters + [t] && HoldsFor(m2, c, t)
               && (forall u :: u in m.waits ==> u in m2.waits && m2.waits[u] == m.waits[u])
               && (forall d :: d in m.conds && d != c ==> d in m2.conds && m2.conds[d] == m.conds[d])
               && Inits(m.y.k, w, 0, m2.y.k) && m2.y.locks == m.y.locks && m2.signals == m.signals
  {
    hide LockInv, NoDup;
    assert CondOk(m, c);
    InitsSema(m.y.k, w, 0);
  }

  /** Then it releases the lock: it clears the holder, */
  lemma WaitClears(m: Monitor, c: CondId)
    requires MonitorInv(m) && m.y.k.running in m.waits && m.waits[m.y.k.running].stage == Queued
    requires m.waits[m.y.k.running].cond == c && HoldsFor(m, c, m.y.k.running)
    ensures var a := ClearHolder(m.conds[c].lock);
            CanCond(m, Base(a)) && CondDo(m, Base(a)) == m.(y := Act(m.y, a))
  {
    hide LockInv, NoDup, Act, Sleeps, SemasApart, SignalOk, CondOk;
    var t := m.y.k.running;
    assert WaitOk(m, t);
    assert m.waits[t := m.waits[t]] == m.waits;
  }

  /** and ups the semaphore of the lock; nobody is inside, and the thread that has waited longest for it is
      ready. */
  lemma WaitReleases(m: Monitor, c: CondId)
    requires MonitorInv(m) && m.y.k.running in m.waits && m.waits[m.y.k.running].stage == Queued
    requires m.waits[m.y.k.running].cond == c && HoldsFor(m, c, m.y.k.running)
    ensures var lock := m.conds[c].lock;
            && CanDo(m.y, ClearHolder(lock))
            && var m1 := m.(y := Act(m.y, ClearHolder(lock)));
               && CanCond(m1, Base(RaiseSema(lock)))
               && var m2 := CondDo(m1, Base(RaiseSema(lock)));
                  && m2.waits == m.waits[m.y.k.running := m.waits[m.y.k.running].(stage := Waiting)]
                  && m2.conds == m.conds && Raises(m.y.k, lock, m2.y.k)
                  && lock in m2.y.locks && m2.y.locks[lock].holder == None && m2.y.locks[lock].inside == map[]
  {
    hide LockInv, NoDup, Act, Raises, Sleeps, SemasApart, SignalOk, CondOk;
    var t, lock := m.y.k.running, m.conds[c].lock;
    assert WaitOk(m, t);
    ReleaseFrees(m.y, lock);
    KernelStep(m.y, ClearHolder(lock));
    LockIsPublic(m, lock);
  }

  lemma LockIsPublic(m: Monitor, lock: SemaId)
    requires MonitorInv(m) && lock in m.y.locks
    ensures forall u :: u in m.waits ==> m.waits[u].sema != lock
  {
    hide LockInv;
    forall u | u in m.waits ensures m.waits[u].sema != lock {
      assert WaitOk(m, u);
    }
  }

  /** A waiter that has not been signalled sleeps on its semaphore. */
  lemma WaitSleeps(m: Monitor)
    requires MonitorInv(m) && m.y.k.running in m.waits && m.y.k.running != m.y.k.idle
    requires var w := m.waits[m.y.k.running]; w.stage == Waiting && w.mark != Raised && m.y.k.running !in m.y.k.waitOn
    ensures var t := m.y.k.running;
            var a := Base(Other(Down(m.waits[t].sema)));
            && CanCond(m, a) && CondDo(m, a).waits == m.waits && CondDo(m, a).conds == m.conds
            && Threads.Sleeps(m.y.k, m.waits[t].sema, CondDo(m, a).y.k)
  {
    hide Inv, LockOk, NoDup, Do, Threads.Sleeps, SignalOk;
    var t := m.y.k.running;
    assert WaitOk(m, t);
    StepPromised(m.y.k, Down(m.waits[t].sema));
    assert m.waits[t := m.waits[t]] == m.waits;
  }

  /** A waiter that is awake takes the lock, when it is free, */
  lemma WaitTakes(m: Monitor, c: CondId)
    requires MonitorInv(m) && m.y.k.running in m.waits && m.waits[m.y.k.running].stage == Awake
    requires m.waits[m.y.k.running].cond == c && c in m.conds && m.y.k.running !in m.y.k.waitOn
    requires m.y.k.running != m.y.k.idle
    requires m.conds[c].lock in m.y.locks && m.y.locks[m.conds[c].lock].inside == map[]
    ensures var lock := m.conds[c].lock;
            && CanCond(m, Base(Acquire(lock)))
            && var m1 := CondDo(m, Base(Acquire(lock)));
               && m1.waits == m.waits && m1.conds == m.conds && m1.y.k.running == m.y.k.running
               && lock in m1.y.locks && m1.y.locks[lock].inside == map[m.y.k.running := Got]
  {
    hide LockInv, NoDup, CanDo, Act, Sleeps, SemasApart, SignalOk, CondOk;
    var t, lock := m.y.k.running, m.conds[c].lock;
    assert WaitOk(m, t);
    LockIsPublic(m, lock);
    AcquireEnters(m.y, lock);
    assert m.waits[t := m.waits[t]] == m.waits;
  }

  /** and then is out of cond_wait, with the lock in its hands. */
  lemma WaitReturns(m: Monitor, c: CondId)
    requires m.y.k.running in m.waits && m.waits[m.y.k.running].stage == Awake && m.y.k.running !in m.signals
    requires m.waits[m.y.k.running].cond == c && c in m.conds && m.conds[c].lock in m.y.locks
    requires m.y.locks[m.conds[c].lock].inside == map[m.y.k.running := Got]
    ensures var a := Base(SetHolder(m.conds[c].lock));
            && CanCond(m, a)
            && var m' := CondDo(m, a);
               m'.waits == m.waits - {m.y.k.running} && HoldsFor(m', c, m.y.k.running) && m'.conds == m.conds
  {
  }

  // ---- Signals ----

  /** No signal is lost, even one that comes between lock_release and sema_down: a thread that has been
      signalled is asleep on no semaphore, and its semaphore is one until its down. */
  lemma SignalKept(m: Monitor, t: Tid)
    requires MonitorInv(m) && t in m.waits && m.waits[t].mark == Raised
    ensures m.waits[t].sema in m.y.k.semas && m.y.k.semas[m.waits[t].sema].value == 1
    ensures forall id :: id in m.y.k.semas ==> t !in m.y.k.semas[id].waiters
  {
    hide LockOk, ReadyOk, OneRunning, NoDup, WaitOnOk, NoLostWakeup;
    assert WaitOk(m, t);
    if t in m.y.k.semas[m.waits[t].sema].waiters {
      AsleepAtZero(m.y.k, m.waits[t].sema, t);
    }
  }

  /** A semaphore on which its only user sleeps is zero. */
  lemma AsleepAtZero(k: State, w: SemaId, t: Tid)
    requires NoLostWakeup(k) && w in k.semas && t in k.semas[w].waiters
    requires forall u :: u in k.waitOn && k.waitOn[u] == w ==> u == t
    ensures k.semas[w].value == 0
  {
    LostAt(k, w);
    assert Woken(k, w) == {};
  }

  /** Its down then completes at once. */
  lemma SignalTaken(m: Monitor, a: CondAction)
    requires MonitorInv(m) && CanCond(m, a) && m.y.k.running in m.waits
    requires var w := m.waits[m.y.k.running];
             && w.mark == Raised && w.stage == Waiting
             && (a == Base(Other(Down(w.sema))) || a == Base(Other(Recheck)))
    ensures var m', t := CondDo(m, a), m.y.k.running; t in m'.waits && m'.waits[t].stage == Awake
  {
    hide LockInv, Do, NoDup, Act, LeavesPrivate, SemasApart, SignalOk, CondOk, HoldsFor;
    assert WaitOk(m, m.y.k.running);
  }

  /** cond_signal wakes exactly the first waiter: its semaphore becomes one, it goes to the ready list if
      it was asleep, and all other waiters stay as they were. */
  lemma SignalFirst(m: Monitor, c: CondId)
    requires MonitorInv(m) && CanCond(m, PopWaiter(c))
    ensures var m1 := CondDo(m, PopWaiter(c));
            && CanCond(m1, RaiseWaiter)
            && var m2, u := CondDo(m1, RaiseWaiter), m.conds[c].waiters[0];
               && m2.conds == m.conds[c := m.conds[c].(waiters := m.conds[c].waiters[1..])] && m2.signals == m.signals
               && u in m.waits && m2.waits == m.waits[u := m.waits[u].(mark := Raised)] && WaitOk(m2, u)
               && (forall v :: v in m.waits && v != u ==>
                     && m.waits[v].sema in m.y.k.semas && m.waits[v].sema in m2.y.k.semas
                     && m2.y.k.semas[m.waits[v].sema] == m.y.k.semas[m.waits[v].sema])
               && m2.y.k.ready == (if u in m.y.k.semas[m.waits[u].sema].waiters then m.y.k.ready + [u] else m.y.k.ready)
  {
    hide LockInv, CanDo, Act, LockOk, WaitOk, CondOk, SignalOk;
    var m1, u, t := CondDo(m, PopWaiter(c)), m.conds[c].waiters[0], m.y.k.running;
    CanSignal(m, c);
    SignalKeeps(m, c);
    UpPrivate(m, u);
    assert m.signals[t := u] - {t} == m.signals;
    forall v | v in m.waits && v != u ensures m.waits[v].sema in m.y.k.semas && m.waits[v].sema != m.waits[u].sema {
      PrivateIs(m, v);
    }
  }

  lemma SignalKeeps(m: Monitor, c: CondId)
    requires MonitorInv(m) && CanCond(m, PopWaiter(c)) && CanCond(CondDo(m, PopWaiter(c)), RaiseWaiter)
    ensures var m2 := CondDo(CondDo(m, PopWaiter(c)), RaiseWaiter);
            MonitorInv(m2) && (m.conds[c].waiters[0] in m2.waits ==> WaitOk(m2, m.conds[c].waiters[0]))
  {
    hide LockInv, CanCond, CondDo, WaitOk, CondOk, SignalOk;
    CondKeeps(m, PopWaiter(c));
    CondKeeps(CondDo(m, PopWaiter(c)), RaiseWaiter);
  }

  lemma PrivateIs(m: Monitor, t: Tid)
    requires WaitOk(m, t)
    ensures t in m.waits && m.waits[t].sema in m.y.k.semas && m.waits[t].sema !in m.y.locks
    ensures forall u :: u in m.y.k.waitOn && m.y.k.waitOn[u] == m.waits[t].sema ==> u == t
  {
  }

  lemma CanSignal(m: Monitor, c: CondId)
    requires MonitorInv(m) && CanCond(m, PopWaiter(c))
    ensures CanDo(m.y, Other(Up(m.waits[m.conds[c].waiters[0]].sema)))
  {
    hide LockInv, LockOk, NoDup, WaitOk;
    PrivateIs(m, m.conds[c].waiters[0]);
  }

  /** An up of a private semaphore changes that semaphore and wakes its owner if it sleeps there. */
  lemma UpPrivate(m: Monitor, u: Tid)
    requires MonitorInv(m) && u in m.waits
    ensures var b := Other(Up(m.waits[u].sema));
            && m.waits[u].sema in m.y.k.semas && CanDo(m.y, b)
            && var k, k' := m.y.k, Act(m.y, b).k;
               && (forall id :: id in k.semas && id != m.waits[u].sema ==>
                     id in k'.semas && k'.semas[id] == k.semas[id])
               && k'.ready == if u in k.semas[m.waits[u].sema].waiters then k.ready + [u] else k.ready
  {
    hide LockOk, ReadyOk, OneRunning, NoLostWakeup, NoDup, WaitOnOk;
    assert WaitOk(m, u);
    var x := m.y.k.semas[m.waits[u].sema];
    if x.waiters != [] {
      assert x.waiters[0] in x.waiters;
      assert m.y.k.waitOn[x.waiters[0]] == m.waits[u].sema;
    }
    if u in x.waiters {
      assert x.waiters[0] == u;
    }
  }

  /** A thread leaves cond_wait only with the lock in its hands, and goes on in it only by its own steps
      and by being signalled. */
  lemma MarkStep(m: Monitor, a: CondAction, t: Tid)
    requires MonitorInv(m) && CanCond(m, a) && t in m.waits
    ensures var m', w := CondDo(m, a), m.waits[t];
            if t !in m'.waits then w.mark == Taken && HoldsFor(m', w.cond, t)
            else
              && m'.waits[t].cond == w.cond && m'.waits[t].sema == w.sema
              && match m'.waits[t].mark
                 case Listed => w.mark == Listed || (w.mark == New && a == Enqueue && m.y.k.running == t)
                 case Popped => w.mark == Popped || (w.mark == Listed && a == PopWaiter(w.cond)
                                                     && m.conds[w.cond].waiters[0] == t)
                 case Raised => w.mark == Raised || (w.mark == Popped && a == RaiseWaiter
                                                     && m.signals[m.y.k.running] == t)
                 case Taken => w.mark == Taken || (w.mark == Raised && m.y.k.running == t)
                 case New => w.mark == New
  {
    hide LockInv, NoDup, LockOk, Sleeps, HoldsFor, CanDo, Act;
    assert WaitOk(m, t);
    match a
    case PopWaiter(c) =>
      PoppedFrom(m, c);
    case RaiseWaiter => assert SignalOk(m, m.y.k.running);
    case Base(b) =>
      MarkBase(m, b, t);
    case _ =>
  }

  lemma PoppedFrom(m: Monitor, c: CondId)
    requires MonitorInv(m) && CanCond(m, PopWaiter(c))
    ensures c in m.conds && m.waits[m.conds[c].waiters[0]].cond == c && m.waits[m.conds[c].waiters[0]].mark == Listed
  {
    hide LockInv, NoDup, LockOk, Sleeps;
    assert CondOk(m, c);
    FirstWaits(m, c);
    assert WaitOk(m, m.conds[c].waiters[0]);
  }

  lemma MarkBase(m: Monitor, b: LockAction, t: Tid)
    requires MonitorInv(m) && CanCond(m, Base(b)) && t in m.waits
    ensures var m', w := CondDo(m, Base(b)), m.waits[t];
            if t !in m'.waits then w.mark == Taken && HoldsFor(m', w.cond, t)
            else
              && m'.waits[t].cond == w.cond && m'.waits[t].sema == w.sema
              && (m'.waits[t].mark == w.mark || (m'.waits[t].mark == Taken && w.mark == Raised && m.y.k.running == t))
  {
    hide LockInv, Do, NoDup, LockOk, Sleeps;
    assert WaitOk(m, t) && CondOk(m, m.waits[t].cond);
  }

  /** The waiters that the signals on condition C in a run take off its list, in order. */
  ghost function Signalled(m: Monitor, acts: seq<CondAction>, c: CondId): seq<Tid>
    requires CondRun(m, acts)
    decreases |acts|
  {
    if acts == [] then []
    else
      (if acts[0] == PopWaiter(c) then [m.conds[c].waiters[0]] else []) + Signalled(CondDo(m, acts[0]), acts[1..], c)
  }

  /** A thread that waits on a condition goes on only after a signal that was meant for it. */
  lemma {:induction false} NoSpuriousWakeup(m: Monitor, acts: seq<CondAction>, t: Tid)
    requires MonitorInv(m) && CondRun(m, acts) && t in m.waits && m.waits[t].mark == Listed
    requires var m' := CondExec(m, acts); !(t in m'.waits && m'.waits[t].mark == Listed)
    ensures t in Signalled(m, acts, m.waits[t].cond)
    decreases |acts|
  {
    hide MonitorInv, CanCond, CondDo;
    if acts != [] {
      var m1 := CondDo(m, acts[0]);
      CondKeeps(m, acts[0]);
      MarkStep(m, acts[0], t);
      if t in m1.waits && m1.waits[t].mark == Listed {
        NoSpuriousWakeup(m1, acts[1..], t);
      }
    }
  }

  // ---- First come, first served ----

  /** The list of a condition changes only by a thread that holds its lock: it grows at the end by that
      thread, or loses its first waiter to a signal. */
  lemma ListStep(m: Monitor, a: CondAction, c: CondId)
    requires MonitorInv(m) && CanCond(m, a) && c in m.conds
    ensures c in CondDo(m, a).conds
    ensures var ws, ws' := m.conds[c].waiters, CondDo(m, a).conds[c].waiters;
            || ws' == ws
            || (HoldsFor(m, c, m.y.k.running) && a == Enqueue && ws' == ws + [m.y.k.running])
            || (HoldsFor(m, c, m.y.k.running) && a == PopWaiter(c) && ws != [] && ws' == ws[1..])
    ensures a == PopWaiter(c) ==> m.conds[c].waiters != []
                                  && CondDo(m, a).conds[c].waiters == m.conds[c].waiters[1..]
  {
    hide LockInv, LockOk, NoDup, Sleeps, CanDo, Act;
    match a
    case CondInit(d, _) =>
      assert CondOk(m, c);
      if d == c && m.conds[c].waiters != [] {
        FirstWaits(m, c);
      }
    case Enqueue => assert WaitOk(m, m.y.k.running);
    case _ =>
  }

  lemma FirstWaits(m: Monitor, c: CondId)
    requires CondOk(m, c) && m.conds[c].waiters != []
    ensures m.conds[c].waiters[0] in m.waits && m.waits[m.conds[c].waiters[0]].cond == c
  {
    assert m.conds[c].waiters[0] in m.conds[c].waiters;
  }

  /** The waiter at position K is taken off by signal number K + 1, whatever happens in between. */
  lemma {:induction false} CondFifo(m: Monitor, acts: seq<CondAction>, c: CondId, k: nat)
    requires MonitorInv(m) && CondRun(m, acts) && c in m.conds
    requires k < |m.conds[c].waiters| && k < |Signalled(m, acts, c)|
    ensures Signalled(m, acts, c)[k] == m.conds[c].waiters[k]
    decreases |acts|
  {
    hide MonitorInv, CanCond, CondDo;
    var m1 := CondDo(m, acts[0]);
    CondKeeps(m, acts[0]);
    ListStep(m, acts[0], c);
    if acts[0] != PopWaiter(c) {
      CondFifo(m1, acts[1..], c, k);
    } else if k > 0 {
      CondFifo(m1, acts[1..], c, k - 1);
    }
  }

  /** Thread U is inside cond_broadcast of condition C for the whole run. */
  ghost predicate Broadcasting(m: Monitor, acts: seq<CondAction>, c: CondId, u: Tid)
    requires CondRun(m, acts)
    decreases |acts|
  {
    acts == [] ||
    (&& (m.y.k.running == u ==>
           acts[0] == PopWaiter(c) || acts[0] == RaiseWaiter || (acts[0].Base? && Interrupt(acts[0].action)))
     && Broadcasting(CondDo(m, acts[0]), acts[1..], c, u))
  }

  lemma StaysHeld(m: Monitor, a: CondAction, c: CondId, u: Tid)
    requires MonitorInv(m) && CanCond(m, a) && HoldsFor(m, c, u)
    requires m.y.k.running == u ==> a.PopWaiter? || a == RaiseWaiter || (a.Base? && Interrupt(a.action))
    ensures (a.CondInit? && a.cond == c) || HoldsFor(CondDo(m, a), c, u)
  {
    hide LockInv, LockOk, NoDup, Sleeps, CanDo, Act;
    match a
    case Prepare(_, w) => HolderStays(m.y, Other(SemaInit(w, 0)), m.conds[c].lock, u);
    case RaiseWaiter => HolderStays(m.y, Other(Up(m.waits[m.signals[m.y.k.running]].sema)), m.conds[c].lock, u);
    case Base(b) => HolderStays(m.y, b, m.conds[c].lock, u);
    case _ =>
  }

  /** cond_broadcast, when it finds the list empty, has signalled exactly the threads that waited when it
      began, in order, whatever other threads did meanwhile. */
  lemma {:induction false} Broadcast(m: Monitor, acts: seq<CondAction>, c: CondId, u: Tid)
    requires MonitorInv(m) && CondRun(m, acts) && HoldsFor(m, c, u) && Broadcasting(m, acts, c, u)
    requires forall i :: 0 <= i < |acts| ==> !(acts[i].CondInit? && acts[i].cond == c)
    requires c in CondExec(m, acts).conds && CondExec(m, acts).conds[c].waiters == []
    ensures Signalled(m, acts, c) == m.conds[c].waiters
    decreases |acts|
  {
    hide MonitorInv, CanCond, CondDo;
    if acts != [] {
      var m1 := CondDo(m, acts[0]);
      CondKeeps(m, acts[0]);
      ListStep(m, acts[0], c);
      StaysHeld(m, acts[0], c, u);
      assert forall i :: 0 <= i < |acts[1..]| ==> !(acts[1..][i].CondInit? && acts[1..][i].cond == c);
      Broadcast(m1, acts[1..], c, u);
    }
  }
}
