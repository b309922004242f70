/** The code of threads/thread.c and of the semaphores of threads/synch.c, over linked lists that share
    the threads' list elements.  Each piece that runs with interrupts off is its step of the
    transition system. */
module Kernel {
  import opened Tids
  import opened Threads
  import opened Queues
  import opened MergeRuns

  /** S with the threads of list K replaced by LIST. */
  ghost function WithList(s: State, k: Key, list: seq<Tid>): State
    requires k.Waiters? ==> k.id in s.semas
  {
    match k
    case ReadyList => s.(ready := list)
    case Waiters(id) => s.(semas := s.semas[id := s.semas[id].(waiters := list)])
  }

  ghost function ListOf(s: State, k: Key): seq<Tid>
    requires k.Waiters? ==> k.id in s.semas
  {
    match k
    case ReadyList => s.ready
    case Waiters(id) => s.semas[id].waiters
  }

  ghost function SemasOf(value: map<SemaId, nat>, alls: map<Key, seq<Elem<Tid>>>): (r: map<SemaId, Sema>)
    ensures r.Keys == value.Keys
  {
    map id | id in value :: Sema(value[id], OnOf(alls, Waiters(id)))
  }

  lemma SemasAt(value: map<SemaId, nat>, alls: map<Key, seq<Elem<Tid>>>, id: SemaId)
    requires id in value
    ensures SemasOf(value, alls)[id] == Sema(value[id], OnOf(alls, Waiters(id)))
  {
  }

  /** Only semaphore ID may have changed. */
  lemma SemasSet(value: map<SemaId, nat>, alls: map<Key, seq<Elem<Tid>>>, value': map<SemaId, nat>,
                 alls': map<Key, seq<Elem<Tid>>>, id: SemaId)
    requires id in value' && value' == value[id := value'[id]]
    requires forall j :: j in value && j != id ==> OnOf(alls', Waiters(j)) == OnOf(alls, Waiters(j))
    ensures SemasOf(value', alls') == SemasOf(value, alls)[id := Sema(value'[id], OnOf(alls', Waiters(id)))]
  {
  }

  lemma SemasSame(value: map<SemaId, nat>, alls: map<Key, seq<Elem<Tid>>>, alls': map<Key, seq<Elem<Tid>>>)
    requires forall j :: j in value ==> OnOf(alls', Waiters(j)) == OnOf(alls, Waiters(j))
    ensures SemasOf(value, alls') == SemasOf(value, alls)
  {
  }

  /** S2 is S after action A. */
  ghost predicate Does(s: State, a: Action, s2: State) {
    Enabled(s, a) && s2 == Do(s, a)
  }

  /** Thread T is on no list. */
  ghost predicate Unlisted(s: State, t: Tid) {
    t !in s.ready && forall id :: id in s.semas ==> t !in s.semas[id].waiters
  }

  class Scheduler {
    const q: Lists
    var status: map<Tid, Status>
    var running: Tid
    const idle: Tid
    const initial: Tid
    var value: map<SemaId, nat>
    ghost var waitOn: map<Tid, SemaId>

    ghost function S(): State
      reads this, q, q.repr
    {
      State(status, q.On(ReadyList), running, idle, initial,
            SemasOf(value, q.alls), waitOn)
    }

    /** The lists are in order; there is one for each semaphore, and an element for each thread. */
    ghost predicate Parts()
      reads this, q, q.repr
    {
      && q.Valid() && q in q.repr && this !in q.repr && ReadyList in q.lists
      && (forall k: Key :: k.Waiters? ==> (k in q.lists <==> k.id in value))
      && (forall t :: t in status ==> t in q.elem)
    }

    ghost predicate Valid()
      reads this, q, q.repr
    {
      Parts() && Inv(S())
    }

    /** The kernel once the idle thread has blocked for the first time. */
    constructor (main: Tid, idle: Tid)
      requires main != idle
      ensures Valid() && S() == Start(main, idle) && fresh(q) && fresh(q.repr)
    {
      hide Lists.On, Lists.Valid, SemasOf;
      var l := new Lists();
      l.AddThread(main);
      l.AddThread(idle);
      q, status, running := l, map[main := Running, idle := Blocked], main;
      this.idle, initial, value, waitOn := idle, main, map[], map[];
      new;
      StartOk(main, idle);
      assert S() == Start(main, idle);
    }

    lemma OnNone(t: Tid)
      requires Parts() && Unlisted(S(), t)
      ensures forall k :: k in q.lists ==> t !in q.On(k)
    {
      forall k | k in q.lists ensures t !in q.On(k) {
        if k.Waiters? {
          SemasAt(value, q.alls, k.id);
        }
      }
    }

    /** What a change of list K alone does to the semaphores. */
    lemma ListChanged(alls: map<Key, seq<Elem<Tid>>>, k: Key)
      requires k.Waiters? ==> k.id in value
      requires forall j :: j in q.lists && j != k ==> OnOf(q.alls, j) == OnOf(alls, j)
      requires forall j: Key :: j.Waiters? && j.id in value ==> j in q.lists
      ensures k.ReadyList? ==> SemasOf(value, q.alls) == SemasOf(value, alls)
      ensures k.Waiters? ==>
                && SemasOf(value, alls)[k.id] == Sema(value[k.id], OnOf(alls, k))
                && SemasOf(value, q.alls) == SemasOf(value, alls)[k.id := Sema(value[k.id], OnOf(q.alls, k))]
    {
      hide SemasOf, OnOf;
      if k.ReadyList? {
        SemasSame(value, alls, q.alls);
      } else {
        SemasAt(value, alls, k.id);
        SemasSet(value, alls, value, q.alls, k.id);
      }
    }

    /** list_push_back on the ready list or a list of waiters. */
    method Enqueue(k: Key, t: Tid)
      requires Parts() && k in q.lists && t in status && Unlisted(S(), t)
      modifies q.repr
      ensures Parts() && q.repr == old(q.repr) && q.lists == old(q.lists)
      ensures S() == WithList(old(S()), k, ListOf(old(S()), k) + [t])
    {
      hide Lists.Valid, SemasOf, OnOf;
      OnNone(t);
      ghost var s, alls := S(), q.alls;
      q.PushBack(k, t);
      ListChanged(alls, k);
    }

    /** list_pop_front */
    method Dequeue(k: Key) returns (t: Tid)
      requires Parts() && k in q.lists && ListOf(S(), k) != []
      modifies q.repr
      ensures Parts() && q.repr == old(q.repr) && q.lists == old(q.lists)
      ensures t == ListOf(old(S()), k)[0] && S() == WithList(old(S()), k, ListOf(old(S()), k)[1..])
    {
      hide Lists.Valid, SemasOf, OnOf;
      ghost var s, alls := S(), q.alls;
      if k.Waiters? {
        SemasAt(value, alls, k.id);
      }
      t := q.PopFront(k);
      ListChanged(alls, k);
    }

    /** list_empty */
    method IsEmpty(k: Key) returns (r: bool)
      requires Parts() && k in q.lists
      ensures r <==> ListOf(S(), k) == []
    {
      hide Lists.Valid, SemasOf;
      r := q.Empty(k);
      if k.Waiters? {
        SemasAt(value, q.alls, k.id);
      }
    }

    method SetStatus(t: Tid, st: Status)
      requires Parts() && t in q.elem
      modifies this`status
      ensures Parts() && S() == old(S()).(status := old(status)[t := st])
    {
      hide Lists.On, Lists.Valid, SemasOf;
      status := status[t := st];
    }

    method SetValue(id: SemaId, v: nat)
      requires Parts() && id in value
      modifies this`value
      ensures Parts() && value == old(value)[id := v]
      ensures id in old(S()).semas && S() == old(S()).(semas := old(S()).semas[id := old(S()).semas[id].(value := v)])
    {
      hide Lists.On, Lists.Valid, SemasOf;
      SemasAt(value, q.alls, id);
      SemasSet(value, q.alls, value[id := v], q.alls, id);
      value := value[id := v];
    }

    ghost method SetWait(w: map<Tid, SemaId>)
      requires Parts()
      modifies this`waitOn
      ensures Parts() && S() == old(S()).(waitOn := w)
    {
      hide Lists.On, Lists.Valid, SemasOf;
      waitOn := w;
    }

    /** The destruction of thread T. */
    method Destroy(t: Tid)
      requires Parts()
      modifies this`status
      ensures Parts() && S() == old(S()).(status := old(status) - {t})
    {
      hide Lists.On, Lists.Valid, SemasOf;
      status := status - {t};
    }

    /** next_thread_to_run: the thread at the front of the ready list, which is then on no list, or the
        idle thread. */
    method NextThreadToRun() returns (next: Tid)
      requires Parts() && ReadyOk(S())
      modifies q.repr
      ensures Parts() && q.repr == old(q.repr) && next in status && next !in S().ready
      ensures if old(S()).ready == [] then next == idle && S() == old(S())
              else status[next] == Ready && S() == old(S()).(ready := S().ready) && [next] + S().ready == old(S()).ready
    {
      hide Lists.On, Lists.Valid, SemasOf;
      ghost var s := S();
      FrontIsReady(s);
      var empty := IsEmpty(ReadyList);
      if empty {
        next := idle;
      } else {
        next := Dequeue(ReadyList);
      }
    }

    /** schedule and schedule_tail: if no thread is running and the lists are otherwise in order, then
        exactly one thread is running afterwards, and they are still in order. */
    method Schedule()
      requires Parts() && Off(S())
      modifies this, q.repr
      ensures Parts() && q.repr == old(q.repr) && S() == Threads.Schedule(old(S()))
      ensures ReadyOk(S()) && OneRunning(S()) && WaitersOk(S()) && Dispatches(old(S()), S(), old(S()).ready)
    {
      hide Lists.On, Lists.Valid, SemasOf, ReadyOk, OneRunning, WaitersOk;
      ghost var s := S();
      ScheduleKeeps(s);
      var next := NextThreadToRun();
      running := next;
      SetStatus(next, Running);
      assert s.ready != [] ==> ([next] + S().ready)[1..] == S().ready;
      assert S() == Threads.Schedule(s);
    }

    /** thread_block */
    method ThreadBlock()
      requires Parts() && running in status && Off(S().(status := status[running := Blocked]))
      modifies this, q.repr
      ensures Parts() && q.repr == old(q.repr) && OneRunning(S())
      ensures S() == Threads.Schedule(old(S()).(status := old(status)[old(running) := Blocked]))
    {
      hide Lists.On, Lists.Valid, SemasOf, Off, ReadyOk, OneRunning, WaitersOk;
      SetStatus(running, Blocked);
      Schedule();
    }

    /** thread_unblock of a thread whose list element is free; its assertion demands a blocked thread.
        The thread is then the last on the ready list, which stays in order. */
    method ThreadUnblock(t: Tid)
      requires Parts() && t in status && status[t] == Blocked && Unlisted(S(), t)
      modifies this, q.repr
      ensures Parts() && q.repr == old(q.repr) && S() == Unblocked(old(S()), t)
      ensures ReadyOk(old(S())) && t != idle ==> ReadyOk(S())
    {
      hide Lists.On, Lists.Valid, SemasOf;
      ghost var s := S();
      UnblockedReady(s, t);
      Enqueue(ReadyList, t);
      SetStatus(t, Ready);
    }

    /** thread_create: a blocked thread in a new page is unblocked at once. */
    method ThreadCreate(t: Tid)
      requires Valid() && t !in status
      modifies this, q.repr
      ensures Valid() && Does(old(S()), Create(t), S()) && fresh(q.repr - old(q.repr))
      ensures Creates(old(S()), t, S())
    {
      hide Lists.On, Lists.Valid, SemasOf, Inv, ReadyOk, Creates;
      ghost var s := S();
      StepKeeps(s, Create(t));
      StepPromised(s, Create(t));
      NewUnlisted(s, t);
      AddElement(t);
      SetStatus(t, Blocked);
      ThreadUnblock(t);
      assert S() == Unblocked(s, t);
    }

    /** The list element of a new thread. */
    method AddElement(t: Tid)
      requires Parts() && Unlisted(S(), t)
      modifies q.repr
      ensures Parts() && S() == old(S()) && t in q.elem && fresh(q.repr - old(q.repr))
    {
      hide Lists.Valid, SemasOf, OnOf;
      OnNone(t);
      ghost var alls := q.alls;
      q.AddThread(t);
      SemasSame(value, alls, q.alls);
    }

    /** thread_yield */
    method ThreadYield()
      requires Valid() && running !in waitOn
      modifies this, q.repr
      ensures Valid() && Does(old(S()), Yield, S()) && q.repr == old(q.repr)
      ensures Yields(old(S()), S())
    {
      hide Lists.On, Lists.Valid, SemasOf, Inv, Off;
      ghost var s := S();
      StepKeeps(s, Yield);
      StepPromised(s, Yield);
      YieldOff(s);
      RunningUnlisted(s);
      if running != idle {
        Enqueue(ReadyList, running);
      }
      SetStatus(running, Ready);
      Schedule();
    }

    /** thread_exit, up to the destruction of the thread in schedule_tail. */
    method ThreadExit()
      requires Valid() && running !in waitOn && running != idle
      modifies this, q.repr
      ensures Valid() && Does(old(S()), Exit, S()) && q.repr == old(q.repr)
      ensures Exits(old(S()), S())
    {
      hide Lists.On, Lists.Valid, SemasOf, Inv, Off, ReadyOk, OneRunning, WaitersOk, Threads.Schedule, Do;
      ghost var s := S();
      ExitOff(s);
      ExitIs(s);
      StepPromised(s, Exit);
      var prev := running;
      SetStatus(prev, Dying);
      Schedule();
      if prev != initial {
        Destroy(prev);
      }
    }

    /** An iteration of the loop of idle. */
    method IdleLoop()
      requires Valid() && running == idle
      modifies this, q.repr
      ensures Valid() && Does(old(S()), IdleBlock, S()) && q.repr == old(q.repr)
      ensures Idles(old(S()), S())
    {
      hide Lists.On, Lists.Valid, SemasOf, Inv, Off;
      ghost var s := S();
      StepKeeps(s, IdleBlock);
      StepPromised(s, IdleBlock);
      IdleOff(s);
      ThreadBlock();
    }

    /** sema_init */
    method SemaInit(id: SemaId, v: nat)
      requires Valid() && Enabled(S(), Threads.SemaInit(id, v))
      modifies this, q.repr
      ensures Valid() && Does(old(S()), Threads.SemaInit(id, v), S()) && fresh(q.repr - old(q.repr))
      ensures Inits(old(S()), id, v, S())
    {
      hide Lists.On, Lists.Valid, SemasOf, Inv;
      ghost var s := S();
      StepKeeps(s, Threads.SemaInit(id, v));
      StepPromised(s, Threads.SemaInit(id, v));
      NoneWait(s, id);
      AddSema(id, v);
    }

    /** A semaphore with a new list. */
    method AddSema(id: SemaId, v: nat)
      requires Parts() && (id in S().semas ==> S().semas[id].waiters == [])
      modifies this, q.repr
      ensures Parts() && S() == old(S()).(semas := old(S()).semas[id := Sema(v, [])]) && fresh(q.repr - old(q.repr))
    {
      hide Lists.Valid, SemasOf, OnOf;
      EmptyList(id);
      ghost var alls := q.alls;
      q.AddList(Waiters(id));
      SemasSet(value, alls, value[id := v], q.alls, id);
      value := value[id := v];
    }

    lemma ValueIs(id: SemaId)
      requires id in value
      ensures id in S().semas && S().semas[id].value == value[id]
    {
      SemasAt(value, q.alls, id);
    }

    lemma EmptyList(id: SemaId)
      requires Parts() && (id in S().semas ==> S().semas[id].waiters == [])
      ensures q.On(Waiters(id)) == []
    {
      if id in value {
        SemasAt(value, q.alls, id);
      } else {
        assert Waiters(id) !in q.lists;
      }
    }

    /** sema_down from its test of the value, at the start or after a wakeup, until the running
        thread has its down or is blocked. */
    method SemaDown(id: SemaId) returns (done: bool)
      requires Valid() && id in value && running != idle
      requires running in waitOn ==> waitOn[running] == id
      modifies this, q.repr
      ensures Valid() && Does(old(S()), if old(running) in old(waitOn) then Recheck else Down(id), S())
      ensures q.repr == old(q.repr) && (done <==> old(value)[id] > 0)
      ensures if done then Lowers(old(S()), id, S()) else Sleeps(old(S()), id, S())
    {
      hide Lists.On, Lists.Valid, SemasOf, Inv, Off;
      ghost var s, a := S(), if running in waitOn then Recheck else Down(id);
      ValueIs(id);
      StepKeeps(s, a);
      StepPromised(s, a);
      if value[id] == 0 {
        RunningUnlisted(s);
        AsleepOff(s, id);
        Enqueue(Waiters(id), running);
        SetWait(waitOn[running := id]);
        assert S().(status := status[running := Blocked]) == Asleep(s, id);
        ThreadBlock();
        return false;
      }
      SetValue(id, value[id] - 1);
      if running in waitOn {
        SetWait(waitOn - {running});
      }
      done := true;
    }

    /** sema_try_down */
    method SemaTryDown(id: SemaId) returns (success: bool)
      requires Valid() && id in value
      modifies this
      ensures Valid() && Does(old(S()), TryDown(id), S())
      ensures success <==> old(value)[id] > 0
      ensures if !success then S() == old(S())
              else id in value && value == old(value)[id := old(value)[id] - 1]
                   && S() == old(S()).(semas := S().semas) && q.alls == old(q.alls)
    {
      hide Lists.On, Lists.Valid, SemasOf, Inv;
      ghost var s := S();
      StepKeeps(s, TryDown(id));
      ValueIs(id);
      success := value[id] > 0;
      if success {
        SetValue(id, value[id] - 1);
      }
    }

    /** sema_up: the thread that has waited longest is unblocked.  Its element is free by then, and the
        assertion of thread_unblock does not fail. */
    method SemaUp(id: SemaId)
      requires Valid() && id in value
      modifies this, q.repr
      ensures Valid() && Does(old(S()), Up(id), S()) && q.repr == old(q.repr)
      ensures Raises(old(S()), id, S())
    {
      hide Lists.On, Lists.Valid, SemasOf, Inv, ReadyOk, Do, Unlisted, Unblocked;
      ghost var s := S();
      UpIs(s, id);
      StepPromised(s, Up(id));
      var empty := IsEmpty(Waiters(id));
      if !empty {
        FrontAlone(s, id);
        var w := Dequeue(Waiters(id));
        ThreadUnblock(w);
      }
      ValueIs(id);
      SetValue(id, value[id] + 1);
    }
  }

  /** What thread_exit does is the exit step. */
  lemma ExitIs(s: State)
    requires Inv(s) && s.running !in s.waitOn && s.running != s.idle
    ensures var t := Threads.Schedule(s.(status := s.status[s.running := Dying]));
            Does(s, Exit, if s.running == s.initial then t else t.(status := t.status - {s.running}))
    ensures Inv(Do(s, Exit))
  {
    hide Inv;
    StepKeeps(s, Exit);
    ExitOff(s);
    var next := if s.ready == [] then s.idle else s.ready[0];
    assert s.status[s.running := Dying][next := Running] - {s.running} == (s.status - {s.running})[next := Running];
  }

  /** What sema_up does is the up step. */
  lemma UpIs(s: State, id: SemaId)
    requires Inv(s) && id in s.semas
    ensures Inv(Do(s, Up(id)))
    ensures var w := s.semas[id].waiters;
            var t := if w == [] then s else Unblocked(WithList(s, Waiters(id), w[1..]), w[0]);
            id in t.semas && Does(s, Up(id), t.(semas := t.semas[id := t.semas[id].(value := t.semas[id].value + 1)]))
  {
    hide Inv;
    StepKeeps(s, Up(id));
    var w := s.semas[id].waiters;
    var t := if w == [] then s else Unblocked(WithList(s, Waiters(id), w[1..]), w[0]);
    assert t.semas[id := t.semas[id].(value := t.semas[id].value + 1)] == Upped(s, id).semas;
  }

  lemma FrontIsReady(s: State)
    requires ReadyOk(s)
    ensures s.idle in s.status && s.idle !in s.ready
    ensures s.ready != [] ==>
              && s.ready[0] in s.status && s.status[s.ready[0]] == Ready && s.ready[0] !in s.ready[1..]
              && [s.ready[0]] + s.ready[1..] == s.ready
  {
    if s.ready != [] {
      assert s.ready[0] in s.ready;
    }
  }

  lemma UnblockedReady(s: State, t: Tid)
    requires t !in s.ready && t in s.status && s.status[t] == Blocked
    ensures ReadyOk(s) && t != s.idle ==> ReadyOk(Unblocked(s, t))
  {
  }

  lemma NewUnlisted(s: State, t: Tid)
    requires Inv(s) && t !in s.status
    ensures Unlisted(s, t)
  {
  }

  lemma RunningUnlisted(s: State)
    requires Inv(s)
    ensures Unlisted(s, s.running) && s.running in s.status
  {
  }

  /** The thread that has waited longest is on no list once it is taken off its own. */
  lemma FrontAlone(s: State, id: SemaId)
    requires Inv(s) && id in s.semas && s.semas[id].waiters != []
    ensures var w := s.semas[id].waiters;
            && w[0] in s.status && s.status[w[0]] == Blocked && w[0] != s.idle
            && Unlisted(WithList(s, Waiters(id), w[1..]), w[0])
  {
    var w := s.semas[id].waiters;
    assert w[0] in w;
    PopOk(w);
  }

  lemma NoneWait(s: State, id: SemaId)
    requires Inv(s) && forall t :: t in s.waitOn ==> s.waitOn[t] != id
    ensures id in s.semas ==> s.semas[id].waiters == []
  {
    if id in s.semas {
      SomeoneWaits(s, id);
    }
  }

  lemma SomeoneWaits(s: State, id: SemaId)
    requires Inv(s) && id in s.semas
    ensures s.semas[id].waiters != [] ==> exists t :: t in s.waitOn && s.waitOn[t] == id
  {
    if s.semas[id].waiters != [] {
      var t := s.semas[id].waiters[0];
      assert t in s.semas[id].waiters;
      assert t in s.waitOn && s.waitOn[t] == id;
    }
  }

  lemma ExitOff(s: State)
    requires Inv(s) && s.running !in s.waitOn && s.running != s.idle
    ensures s.running in s.status && Off(s.(status := s.status[s.running := Dying]))
    ensures s.ready != [] ==> s.ready[0] != s.running
  {
    hide NoDup, NoLostWakeup, ListsOk;
    if s.ready != [] {
      assert s.ready[0] in s.ready;
    }
    ListsSame(s, s.(status := s.status[s.running := Dying]));
  }

  lemma ListsSame(s: State, s': State)
    requires ListsOk(s) && s'.semas == s.semas && s'.waitOn == s.waitOn
    ensures ListsOk(s')
  {
  }

  lemma IdleOff(s: State)
    requires Inv(s) && s.running == s.idle
    ensures s.running in s.status && Off(s.(status := s.status[s.running := Blocked]))
  {
  }
}
