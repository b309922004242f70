/** Locks over semaphores (threads/synch.c).  Acquiring and releasing are not atomic: the holder is
    set after the down and cleared before the up, and other threads may run in between. */
module Locks {
  import opened Options
  import opened Tids
  import opened Threads

  /** Where a thread is between its completed down and its up: before it has set the holder, while
      it is the holder, after it has cleared the holder. */
  datatype Phase = Got | Holds | Releasing

  /** struct lock, with the threads that are inside. */
  datatype Lock = Lock(holder: Option<Tid>, inside: map<Tid, Phase>)

  /** LOCKS are the locks by the semaphore in them. */
  datatype System = System(k: State, locks: map<SemaId, Lock>)

  datatype LockAction =
    | LockInit(id: SemaId)
    | Acquire(id: SemaId)
    | TryAcquire(id: SemaId)
    | SetHolder(id: SemaId)
    | ClearHolder(id: SemaId)
    | RaiseSema(id: SemaId)
    | Other(action: Action)

  /** The action is an operation on semaphore ID itself. */
  ghost predicate Uses(a: Action, id: SemaId) {
    match a
    case SemaInit(j, _) => j == id
    case Down(j) => j == id
    case TryDown(j) => j == id
    case Up(j) => j == id
    case _ => false
  }

  ghost predicate CanDo(y: System, a: LockAction) {
    var t := y.k.running;
    match a
    case LockInit(id) => (id in y.locks ==> y.locks[id].inside == map[]) && Enabled(y.k, SemaInit(id, 1))
    case Acquire(id) => id in y.locks && y.locks[id].holder != Some(t) && Enabled(y.k, Down(id))
    case TryAcquire(id) => id in y.locks && y.locks[id].holder != Some(t) && Enabled(y.k, TryDown(id))
    case SetHolder(id) => id in y.locks && t in y.locks[id].inside && y.locks[id].inside[t] == Got
    case ClearHolder(id) => id in y.locks && y.locks[id].holder == Some(t)
    case RaiseSema(id) =>
      id in y.locks && t in y.locks[id].inside && y.locks[id].inside[t] == Releasing && Enabled(y.k, Up(id))
    case Other(b) => Enabled(y.k, b) && forall id :: id in y.locks ==> !Uses(b, id)
  }

  /** Thread T is inside lock ID if its action B completes a down of it. */
  ghost function Entered(locks: map<SemaId, Lock>, k: State, b: Action, id: SemaId): (r: map<SemaId, Lock>)
    requires Enabled(k, b)
    ensures r.Keys == locks.Keys
  {
    if id in locks && Downs1(k, b, id) then locks[id := locks[id].(inside := locks[id].inside[k.running := Got])]
        else locks
  }

  ghost function Act(y: System, a: LockAction): System
    requires CanDo(y, a)
  {
    var t := y.k.running;
    match a
    case LockInit(id) => System(Do(y.k, SemaInit(id, 1)), y.locks[id := Lock(None, map[])])
    case Acquire(id) => System(Do(y.k, Down(id)), Entered(y.locks, y.k, Down(id), id))
    case TryAcquire(id) => System(Do(y.k, TryDown(id)), Entered(y.locks, y.k, TryDown(id), id))
    case SetHolder(id) => y.(locks := y.locks[id := Lock(Some(t), y.locks[id].inside[t := Holds])])
    case ClearHolder(id) => y.(locks := y.locks[id := Lock(None, y.locks[id].inside[t := Releasing])])
    case RaiseSema(id) =>
      System(Do(y.k, Up(id)), y.locks[id := y.locks[id].(inside := y.locks[id].inside - {t})])
    case Other(b) =>
      System(Do(y.k, b), if b.Recheck? then Entered(y.locks, y.k, b, y.k.waitOn[t]) else y.locks)
  }

  /** The value and the threads inside make one; the holder is the thread inside that has set it. */
  ghost predicate LockOk(y: System, id: SemaId)
    requires id in y.locks
  {
    && id in y.k.semas && y.k.semas[id].value + |y.locks[id].inside| == 1
    && forall t :: y.locks[id].holder == Some(t) <==> t in y.locks[id].inside && y.locks[id].inside[t] == Holds
  }

  ghost predicate LockInv(y: System) {
    Inv(y.k) && forall id :: id in y.locks ==> LockOk(y, id)
  }

  lemma ValueStep(k: State, a: Action, id: SemaId)
    requires Enabled(k, a) && id in k.semas && !(a.SemaInit? && a.id == id)
    ensures id in Do(k, a).semas
    ensures Do(k, a).semas[id].value - k.semas[id].value
            == if a == Up(id) then 1 else if Downs1(k, a, id) then -1 else 0
  {
  }

  lemma EnterOk(y: System, b: Action, id: SemaId, j: SemaId)
    requires LockInv(y) && Enabled(y.k, b)
               && (b == Down(id) || b == TryDown(id) || (b.Recheck? && y.k.waitOn[y.k.running] == id))
    requires j in y.locks
    ensures j in Entered(y.locks, y.k, b, id) && LockOk(System(Do(y.k, b), Entered(y.locks, y.k, b, id)), j)
  {
    hide Inv, Do;
    assert LockOk(y, j);
    ValueStep(y.k, b, j);
    if Downs1(y.k, b, id) && j == id {
      assert y.locks[id].inside == map[];
    }
  }

  lemma SoleInside(m: map<Tid, Phase>, t: Tid)
    requires t in m && |m| <= 1
    ensures m == map[t := m[t]] && |m - {t}| == 0
  {
    assert |m.Keys - {t}| == |m.Keys| - 1;
    assert (m - {t}).Keys == m.Keys - {t} == {};
    assert m.Keys == {t};
  }

  lemma ActLock(y: System, a: LockAction, j: SemaId)
    requires LockInv(y) && CanDo(y, a) && j in Act(y, a).locks
    ensures LockOk(Act(y, a), j)
  {
    hide Inv, Do, Enabled, LockOk, Downs1, Entered;
    match a
    case LockInit(id) => InitLock(y, id, j);
    case Acquire(id) => EnterOk(y, Down(id), id, j);
    case TryAcquire(id) => EnterOk(y, TryDown(id), id, j);
    case SetHolder(id) =>
      PhaseLock(y, id, y.k.running, Lock(Some(y.k.running), y.locks[id].inside[y.k.running := Holds]), j);
    case ClearHolder(id) =>
      ClearEnabled(y, id);
      PhaseLock(y, id, y.k.running, Lock(None, y.locks[id].inside[y.k.running := Releasing]), j);
    case RaiseSema(id) => RaiseLock(y, id, y.k.running, Do(y.k, Up(id)), j);
    case Other(b) => OtherLock(y, b, j);
  }

  lemma SoleUpdate(m: map<Tid, Phase>, t: Tid, p: Phase)
    requires t in m && |m| <= 1
    ensures m.Keys == {t} && m[t := p] == map[t := p] && |m[t := p]| == |m| == 1
  {
    SoleInside(m, t);
    assert |map[t := p]| == 1;
  }

  lemma InitLock(y: System, id: SemaId, j: SemaId)
    requires LockInv(y) && CanDo(y, LockInit(id)) && j in Act(y, LockInit(id)).locks
    ensures LockOk(Act(y, LockInit(id)), j)
  {
    hide Inv, Do, Enabled;
    InitStep(y.k, id);
    if j != id {
      assert LockOk(y, j);
      ValueStep(y.k, SemaInit(id, 1), j);
    }
  }

  /** The thread inside changes its phase, and the holder with it. */
  lemma PhaseLock(y: System, id: SemaId, t: Tid, l: Lock, j: SemaId)
    requires LockInv(y) && id in y.locks && j in y.locks && t in y.locks[id].inside
    requires l == Lock(Some(t), y.locks[id].inside[t := Holds]) || l == Lock(None, y.locks[id].inside[t := Releasing])
    ensures LockOk(y.(locks := y.locks[id := l]), j)
  {
    hide Inv, LockOk;
    assert LockOk(y, j);
    PhaseOk(y, id, t, l, j);
  }

  lemma PhaseOk(y: System, id: SemaId, t: Tid, l: Lock, j: SemaId)
    requires id in y.locks && j in y.locks && t in y.locks[id].inside && LockOk(y, j)
    requires l == Lock(Some(t), y.locks[id].inside[t := Holds]) || l == Lock(None, y.locks[id].inside[t := Releasing])
    ensures LockOk(y.(locks := y.locks[id := l]), j)
  {
    if j == id {
      SoleUpdate(y.locks[id].inside, t, l.inside[t]);
    }
  }

  lemma ClearEnabled(y: System, id: SemaId)
    requires LockInv(y) && CanDo(y, ClearHolder(id))
    ensures y.k.running in y.locks[id].inside
  {
    assert LockOk(y, id);
  }

  lemma RaiseLock(y: System, id: SemaId, t: Tid, k: State, j: SemaId)
    requires LockInv(y) && id in y.locks && j in y.locks
    requires t in y.locks[id].inside && y.locks[id].inside[t] == Releasing
    requires Enabled(y.k, Up(id)) && k == Do(y.k, Up(id))
    ensures LockOk(System(k, y.locks[id := y.locks[id].(inside := y.locks[id].inside - {t})]), j)
  {
    hide Inv, Do, Enabled;
    assert LockOk(y, j);
    ValueStep(y.k, Up(id), j);
    if j == id {
      SoleInside(y.locks[id].inside, t);
    }
  }

  lemma OtherLock(y: System, b: Action, j: SemaId)
    requires LockInv(y) && CanDo(y, Other(b)) && j in y.locks
    ensures j in Act(y, Other(b)).locks && LockOk(Act(y, Other(b)), j)
  {
    hide Inv, Do;
    assert LockOk(y, j);
    if b.Recheck? {
      EnterOk(y, b, y.k.waitOn[y.k.running], j);
    } else {
      ValueStep(y.k, b, j);
    }
  }

  /** Every action of the lock operations keeps the invariant. */
  lemma ActKeeps(y: System, a: LockAction)
    requires LockInv(y) && CanDo(y, a)
    ensures LockInv(Act(y, a))
  {
    hide Inv, Do, LockOk, Enabled;
    match a {
      case LockInit(id) => StepKeeps(y.k, SemaInit(id, 1));
      case Acquire(id) => StepKeeps(y.k, Down(id));
      case TryAcquire(id) => StepKeeps(y.k, TryDown(id));
      case RaiseSema(id) => StepKeeps(y.k, Up(id));
      case Other(b) => StepKeeps(y.k, b);
      case _ =>
    }
    forall j | j in Act(y, a).locks ensures LockOk(Act(y, a), j) {
      ActLock(y, a, j);
    }
  }

  /** The kernel starts without locks. */
  lemma LockStart(main: Tid, idle: Tid)
    requires main != idle
    ensures LockInv(System(Start(main, idle), map[]))
  {
    hide Inv;
    StartOk(main, idle);
  }

  lemma InitStep(k: State, id: SemaId)
    requires Enabled(k, SemaInit(id, 1))
    ensures var k' := Do(k, SemaInit(id, 1)); id in k'.semas && k'.semas[id].value == 1
  {
  }

  ghost predicate LockRun(y: System, acts: seq<LockAction>)
    decreases |acts|
  {
    acts == [] || (CanDo(y, acts[0]) && LockRun(Act(y, acts[0]), acts[1..]))
  }

  ghost function LockExec(y: System, acts: seq<LockAction>): System
    requires LockRun(y, acts)
    decreases |acts|
  {
    if acts == [] then y else LockExec(Act(y, acts[0]), acts[1..])
  }

  /** In every run, at most one thread is between a completed acquire and its release, none while the
      value is one, and a thread that holds the lock is that one. */
  lemma {:induction false} MutualExclusion(y: System, acts: seq<LockAction>)
    requires LockInv(y) && LockRun(y, acts)
    ensures var y' := LockExec(y, acts);
            && LockInv(y')
            && forall id :: id in y'.locks ==>
                 && id in y'.k.semas && y'.k.semas[id].value + |y'.locks[id].inside| == 1
                 && (forall t, u :: t in y'.locks[id].inside && u in y'.locks[id].inside ==> t == u)
                 && (forall t :: y'.locks[id].holder == Some(t) ==>
                     t in y'.locks[id].inside && y'.k.semas[id].value == 0)
    decreases |acts|
  {
    hide Inv, Do;
    if acts == [] {
      forall id | id in y.locks
        ensures forall t, u :: t in y.locks[id].inside && u in y.locks[id].inside ==> t == u
      {
        assert LockOk(y, id);
        forall t, u | t in y.locks[id].inside && u in y.locks[id].inside ensures t == u {
          SoleInside(y.locks[id].inside, t);
        }
      }
      forall id, t | id in y.locks && y.locks[id].holder == Some(t)
        ensures t in y.locks[id].inside && y.k.semas[id].value == 0
      {
        assert LockOk(y, id);
        SoleInside(y.locks[id].inside, t);
      }
    } else {
      ActKeeps(y, acts[0]);
      MutualExclusion(Act(y, acts[0]), acts[1..]);
    }
  }

  // ---- What the calls do ----

  /** Locks other than ID are as they were. */
  ghost predicate OtherLocks(y: System, y': System, id: SemaId) {
    forall j :: j != id ==> (j in y'.locks <==> j in y.locks) && (j in y.locks ==> y'.locks[j] == y.locks[j])
  }

  /** After lock_init the lock exists, nobody holds it or is inside, and a running thread other than
      idle may acquire it. */
  lemma InitMakes(y: System, id: SemaId)
    requires CanDo(y, LockInit(id))
    ensures var y' := Act(y, LockInit(id));
            && id in y'.locks && y'.locks[id].holder == None && y'.locks[id].inside == map[] && OtherLocks(y, y', id)
            && Inits(y.k, id, 1, y'.k)
            && (y.k.running != y.k.idle && y.k.running !in y.k.waitOn ==>
                  CanDo(y', Acquire(id)) && CanDo(y', TryAcquire(id)))
  {
    InitsSema(y.k, id, 1);
  }

  /** From Y to Y' lock ID, which was free, has been taken by the running thread, which holds it and is the
      only one inside; no other lock has changed. */
  ghost predicate Takes(y: System, y': System, id: SemaId) {
    && id in y'.locks && y'.locks[id].holder == Some(y.k.running) && y'.locks[id].inside == map[y.k.running := Holds]
    && OtherLocks(y, y', id)
  }

  lemma EnterTakes(y: System, b: Action, k: State, id: SemaId)
    requires Enabled(y.k, b) && id in y.locks && y.locks[id].inside == map[] && Downs1(y.k, b, id)
    requires k.running == y.k.running
    ensures var y1 := System(k, Entered(y.locks, y.k, b, id));
            CanDo(y1, SetHolder(id)) && Takes(y, Act(y1, SetHolder(id)), id) && Act(y1, SetHolder(id)).k == k
  {
    hide Enabled;
    var t := y.k.running;
    assert map[][t := Got][t := Holds] == map[t := Holds];
  }

  /** lock_acquire of a free lock: the caller holds it, and is the only thread inside. */
  lemma AcquireFree(y: System, id: SemaId)
    requires LockInv(y) && CanDo(y, Acquire(id)) && y.locks[id].inside == map[]
    ensures var y1 := Act(y, Acquire(id));
            && CanDo(y1, SetHolder(id))
            && Takes(y, Act(y1, SetHolder(id)), id) && Lowers(y.k, id, Act(y1, SetHolder(id)).k)
  {
    hide Inv, Do, Entered, Takes, OtherSemas;
    assert LockOk(y, id);
    StepPromised(y.k, Down(id));
    EnterTakes(y, Down(id), Do(y.k, Down(id)), id);
  }

  /** The down of lock_acquire on a free lock. */
  lemma AcquireEnters(y: System, id: SemaId)
    requires LockInv(y) && id in y.locks && y.locks[id].inside == map[]
    requires y.k.running != y.k.idle && y.k.running !in y.k.waitOn
    ensures CanDo(y, Acquire(id))
    ensures var y1 := Act(y, Acquire(id));
            y1.k.running == y.k.running && id in y1.locks && y1.locks[id].inside == map[y.k.running := Got]
  {
    hide Inv, Do, Lowers, Sleeps;
    assert LockOk(y, id);
    StepPromised(y.k, Down(id));
    LowersRuns(y.k, id, Do(y.k, Down(id)));
  }

  lemma LowersRuns(s: State, id: SemaId, s': State)
    requires Lowers(s, id, s')
    ensures s'.running == s.running
  {
  }

  /** lock_acquire of a lock that a thread is inside: the caller sleeps. */
  lemma AcquireWaits(y: System, id: SemaId)
    requires LockInv(y) && CanDo(y, Acquire(id)) && y.locks[id].inside != map[]
    ensures var y' := Act(y, Acquire(id)); y'.locks == y.locks && Sleeps(y.k, id, y'.k)
  {
    hide Inv, Do, Sleeps;
    assert LockOk(y, id);
    SomeoneInside(y.locks[id].inside);
    StepPromised(y.k, Down(id));
  }

  lemma SomeoneInside(m: map<Tid, Phase>)
    requires m != map[]
    ensures |m| > 0
  {
  }

  /** lock_try_acquire takes a free lock, and does nothing otherwise. */
  lemma TryTakes(y: System, id: SemaId)
    requires LockInv(y) && CanDo(y, TryAcquire(id))
    ensures var y1 := Act(y, TryAcquire(id));
            if y.locks[id].inside != map[] then y1 == y
            else
              && CanDo(y1, SetHolder(id)) && Takes(y, Act(y1, SetHolder(id)), id)
              && Decrements(y.k, id, Act(y1, SetHolder(id)).k) && Act(y1, SetHolder(id)).k.waitOn == y.k.waitOn
  {
    hide Inv, Do, Takes, OtherSemas;
    assert LockOk(y, id);
    StepPromised(y.k, TryDown(id));
    if y.locks[id].inside != map[] {
      SomeoneInside(y.locks[id].inside);
    } else {
      EnterTakes(y, TryDown(id), Do(y.k, TryDown(id)), id);
    }
  }

  /** The holder is cleared. */
  lemma ReleaseClears(y: System, id: SemaId)
    requires LockInv(y) && CanDo(y, ClearHolder(id))
    ensures var y1 := Act(y, ClearHolder(id));
            && y1.k == y.k && CanDo(y1, RaiseSema(id)) && OtherLocks(y, y1, id)
            && id in y1.locks && y1.locks[id] == Lock(None, map[y.k.running := Releasing])
  {
    hide LockInv, Do, Enabled;
    SemaThere(y, id);
    SoleUpdate(y.locks[id].inside, y.k.running, Releasing);
  }

  lemma ReleaseRaises(y: System, id: SemaId)
    requires CanDo(y, RaiseSema(id)) && y.locks[id] == Lock(None, map[y.k.running := Releasing])
    ensures var y1 := Act(y, RaiseSema(id));
            y1.k == Do(y.k, Up(id)) && OtherLocks(y, y1, id) && id in y1.locks && y1.locks[id] == Lock(None, map[])
  {
    hide Do;
    assert map[y.k.running := Releasing] - {y.k.running} == map[];
  }

  /** lock_release: nobody holds the lock or is inside, and the thread that has waited longest is ready. */
  lemma ReleaseFrees(y: System, id: SemaId)
    requires LockInv(y) && CanDo(y, ClearHolder(id))
    ensures CanDo(Act(y, ClearHolder(id)), RaiseSema(id))
    ensures var y2 := Act(Act(y, ClearHolder(id)), RaiseSema(id));
            && id in y2.locks && y2.locks[id].holder == None && y2.locks[id].inside == map[]
            && OtherLocks(y, y2, id) && Raises(y.k, id, y2.k)
  {
    hide Inv, Do, Raises, Act, CanDo;
    ReleaseClears(y, id);
    ReleaseRaises(Act(y, ClearHolder(id)), id);
    SemaThere(y, id);
    StepPromised(y.k, Up(id));
  }

  lemma SemaThere(y: System, id: SemaId)
    requires LockInv(y) && CanDo(y, ClearHolder(id))
    ensures Enabled(y.k, Up(id)) && y.k.running in y.locks[id].inside && |y.locks[id].inside| <= 1
  {
    hide Inv;
    assert LockOk(y, id);
  }

  // ---- Acquiring and releasing as single steps ----

  /** The thread inside lock ID, if there is one. */
  ghost function Owner(y: System, id: SemaId): Option<Tid>
    requires id in y.locks
  {
    if y.locks[id].inside == map[] then None
    else
      var t :| t in y.locks[id].inside;
      Some(t)
  }

  /** The running thread completes its down of lock ID. */
  ghost predicate Completes(y: System, a: LockAction, id: SemaId)
    requires CanDo(y, a)
  {
    match a
    case Acquire(j) => j == id && Downs1(y.k, Down(j), id)
    case TryAcquire(j) => j == id && Downs1(y.k, TryDown(j), id)
    case Other(b) => b.Recheck? && Downs1(y.k, b, id)
    case _ => false
  }

  lemma OwnerIs(y: System, id: SemaId, t: Tid)
    requires LockInv(y) && id in y.locks && t in y.locks[id].inside
    ensures Owner(y, id) == Some(t) && y.locks[id].inside.Keys == {t}
  {
    assert LockOk(y, id);
    SoleInside(y.locks[id].inside, t);
  }

  /** How an action changes who is inside lock ID. */
  lemma InsideStep(y: System, a: LockAction, id: SemaId)
    requires LockInv(y) && CanDo(y, a) && id in y.locks
    ensures id in Act(y, a).locks
    ensures var m, m' := y.locks[id].inside, Act(y, a).locks[id].inside;
            if Completes(y, a, id) then m == map[] && y.k.running in m'
            else if a == RaiseSema(id) then y.k.running in m && m' == m - {y.k.running}
            else m'.Keys == m.Keys
  {
    hide Inv, Do, Enabled;
    if a.LockInit? || a.SetHolder? || a.ClearHolder? || a.RaiseSema? {
      assert LockOk(y, id);
    } else {
      InsideDown(y, a, id);
    }
  }

  lemma InsideDown(y: System, a: LockAction, id: SemaId)
    requires LockInv(y) && CanDo(y, a) && id in y.locks && (a.Acquire? || a.TryAcquire? || a.Other?)
    ensures id in Act(y, a).locks
    ensures var m, m' := y.locks[id].inside, Act(y, a).locks[id].inside;
            if Completes(y, a, id) then m == map[] && y.k.running in m' else m'.Keys == m.Keys
  {
    hide Inv, Do, Entered, LockOk, Downs1;
    match a
    case Acquire(j) => EnteredInside(y, Down(j), j, id);
    case TryAcquire(j) => EnteredInside(y, TryDown(j), j, id);
    case Other(b) => if b.Recheck? { EnteredInside(y, b, y.k.waitOn[y.k.running], id); }
  }

  lemma EnteredInside(y: System, b: Action, j: SemaId, id: SemaId)
    requires LockInv(y) && Enabled(y.k, b) && id in y.locks
    requires b == Down(j) || b == TryDown(j) || (b == Recheck && y.k.waitOn[y.k.running] == j)
    ensures var m, m' := y.locks[id].inside, Entered(y.locks, y.k, b, j)[id].inside;
            && (Downs1(y.k, b, id) ==> j == id && m == map[] && y.k.running in m')
            && (!Downs1(y.k, b, id) ==> m' == m)
  {
    hide Inv;
    assert LockOk(y, id);
  }

  /** For who is inside, a lock is taken and given back in one step each: the completed down of an
      acquire takes a free lock, the up of a release frees it, and no other step has an effect. */
  lemma OneStepLock(y: System, a: LockAction, id: SemaId)
    requires LockInv(y) && CanDo(y, a) && id in y.locks
    ensures id in Act(y, a).locks
    ensures Completes(y, a, id) ==> Owner(y, id) == None && Owner(Act(y, a), id) == Some(y.k.running)
    ensures a == RaiseSema(id) ==> Owner(y, id) == Some(y.k.running) && Owner(Act(y, a), id) == None
    ensures !Completes(y, a, id) && a != RaiseSema(id) ==> Owner(Act(y, a), id) == Owner(y, id)
  {
    hide LockInv, CanDo, Act;
    var t := y.k.running;
    InsideStep(y, a, id);
    ActKeeps(y, a);
    var m, m' := y.locks[id].inside, Act(y, a).locks[id].inside;
    if Completes(y, a, id) {
      OwnerIs(Act(y, a), id, t);
    } else if a == RaiseSema(id) {
      OwnerIs(y, id, t);
      assert m' == map[];
    } else if m != map[] {
      var u :| u in m;
      OwnerIs(y, id, u);
      OwnerIs(Act(y, a), id, u);
    } else {
      assert m' == map[];
    }
  }
}
