/** Any number of threads on one entry of the buffer cache: the loader of filesys/cache.c, the readers
    of filesys/inode.c and the writers of filesys/cache.c, with the entry's lock and condition
    variable of threads/synch.c.  Copies go byte by byte, and threads interleave at every step. */
module CacheProtocol {
  import opened Options
  import opened Disk
  import opened Tids

  /** Where a thread is. */
  datatype Pc =
    | Outside(got: seq<byte>)                          // with what its last read has brought
    | Loading(k: nat)                                  // disk_read has filled K bytes
    | Loaded
    | ReadEnter(from: nat, to: nat)                    // waits for the lock
    | ReadIn(from: nat, to: nat)                       // about to count itself
    | ReadCounted(from: nat, to: nat)                  // about to release the lock
    | Copying(from: nat, to: nat, seen: seq<byte>, got: seq<byte>)
    | ReadLeave(got: seq<byte>)                        // waits for the lock
    | ReadOut(got: seq<byte>)                          // about to uncount itself
    | Signalling(got: seq<byte>)                       // in cond_broadcast, or about to release
    | WriteEnter(ofs: nat, data: seq<byte>)            // waits for the lock
    | WriteTest(ofs: nat, data: seq<byte>)             // at the test of the readers
    | WaitPushed(ofs: nat, data: seq<byte>)            // in cond_wait, about to release the lock
    | Asleep(ofs: nat, data: seq<byte>)                // in cond_wait, not signalled
    | Woken(ofs: nat, data: seq<byte>)                 // signalled, waits for the lock
    | Writing(ofs: nat, data: seq<byte>, k: nat, before: seq<byte>) // memcpy has stored K bytes
    | Leaving                                          // about to release the lock

  /** The entry and its threads; SEEN of a copying reader and BEFORE of a writer are the buffer
      when they began to copy. */
  datatype Entry = Entry(
    pcs: map<Tid, Pc>,
    owner: Option<Tid>,
    readers: nat,
    queue: seq<Tid>,
    buffer: seq<byte>,
    loaded: bool)

  datatype Step =
    | LoadByte(b: byte)
    | StartRead(from: nat, to: nat)
    | StartWrite(ofs: nat, data: seq<byte>)
    | Go

  // ---- Steps ----

  predicate Wants(p: Pc) {
    p.ReadEnter? || p.ReadLeave? || p.WriteEnter? || p.Woken?
  }

  /** The thread holds the lock. */
  predicate Holding(p: Pc) {
    p.Loading? || p.Loaded? || p.ReadIn? || p.ReadCounted? || p.ReadOut? || p.Signalling? ||
    p.WriteTest? || p.WaitPushed? || p.Writing? || p.Leaving?
  }

  /** The thread is counted in readers. */
  predicate Counted(p: Pc) {
    p.ReadCounted? || p.Copying? || p.ReadLeave? || p.ReadOut?
  }

  predicate Queued(p: Pc) {
    p.WaitPushed? || p.Asleep?
  }

  ghost predicate Enabled(e: Entry, t: Tid, a: Step) {
    t in e.pcs &&
    match a
    case LoadByte(_) => e.pcs[t].Loading? && e.pcs[t].k < SECTOR_SIZE
    case StartRead(from, to) => e.pcs[t].Outside? && from <= to <= SECTOR_SIZE
    case StartWrite(ofs, data) => e.pcs[t].Outside? && ofs + |data| <= SECTOR_SIZE
    case Go =>
      && !e.pcs[t].Outside? && !e.pcs[t].Asleep? && (Wants(e.pcs[t]) ==> e.owner.None?)
      && (e.pcs[t].Loading? ==> e.pcs[t].k == SECTOR_SIZE)
  }

  /** The thread releases the lock and is then at P. */
  ghost function Release(e: Entry, t: Tid, p: Pc): Entry {
    e.(owner := None, pcs := e.pcs[t := p])
  }

  ghost function Take(e: Entry, t: Tid, p: Pc): Entry {
    e.(owner := Some(t), pcs := e.pcs[t := p])
  }

  ghost function At(e: Entry, t: Tid, p: Pc): Entry {
    e.(pcs := e.pcs[t := p])
  }

  /** A store to the buffer. */
  ghost function Poke(buffer: seq<byte>, i: nat, b: byte): seq<byte> {
    if i < |buffer| then buffer[i := b] else buffer
  }

  /** The first waiter of the condition is signalled. */
  ghost function Signal(e: Entry): Entry
    requires e.queue != []
  {
    var w := e.queue[0];
    if w in e.pcs && e.pcs[w].Asleep? then
      e.(queue := e.queue[1..], pcs := e.pcs[w := Woken(e.pcs[w].ofs, e.pcs[w].data)])
    else e.(queue := e.queue[1..])
  }

  /** The thread is in inode_read_at. */
  predicate Reading(p: Pc) {
    p.ReadEnter? || p.ReadIn? || p.ReadCounted? || p.Copying? || p.ReadLeave? || p.ReadOut? || p.Signalling?
  }

  /** The next thing a reader does. */
  ghost function ReadGo(e: Entry, t: Tid): Entry
    requires t in e.pcs
  {
    match e.pcs[t]
    case ReadEnter(from, to) => Take(e, t, ReadIn(from, to))
    case ReadIn(from, to) => At(e, t, ReadCounted(from, to)).(readers := e.readers + 1)
    case ReadCounted(from, to) => Release(e, t, Copying(from, to, e.buffer, []))
    case Copying(from, to, seen, got) =>
      if from + |got| < to && from + |got| < |e.buffer|
      then At(e, t, Copying(from, to, seen, got + [e.buffer[from + |got|]]))
      else At(e, t, ReadLeave(got))
    case ReadLeave(got) => Take(e, t, ReadOut(got))
    case ReadOut(got) => At(e, t, Signalling(got)).(readers := if e.readers == 0 then 0 else e.readers - 1)
    case Signalling(got) => if e.readers == 0 && e.queue != [] then Signal(e) else Release(e, t, Outside(got))
    case _ => e
  }

  /** The next thing the loader or a writer does. */
  ghost function WriteGo(e: Entry, t: Tid): Entry
    requires t in e.pcs
  {
    match e.pcs[t]
    case Loading(_) => At(e, t, Loaded).(loaded := true)
    case Loaded => Release(e, t, Outside([]))
    case WriteEnter(ofs, data) => Take(e, t, WriteTest(ofs, data))
    case WriteTest(ofs, data) =>
      if e.readers > 0 then At(e, t, WaitPushed(ofs, data)).(queue := e.queue + [t])
      else At(e, t, Writing(ofs, data, 0, e.buffer))
    case WaitPushed(ofs, data) => Release(e, t, Asleep(ofs, data))
    case Woken(ofs, data) => Take(e, t, WriteTest(ofs, data))
    case Writing(ofs, data, k, before) =>
      if k < |data| then At(e, t, Writing(ofs, data, k + 1, before)).(buffer := Poke(e.buffer, ofs + k, data[k]))
      else At(e, t, Leaving)
    case Leaving => Release(e, t, Outside([]))
    case _ => e
  }

  ghost function Do(e: Entry, t: Tid, a: Step): Entry
    requires Enabled(e, t, a)
  {
    match a
    case LoadByte(b) => At(e, t, Loading(e.pcs[t].k + 1)).(buffer := Poke(e.buffer, e.pcs[t].k, b))
    case StartRead(from, to) => At(e, t, ReadEnter(from, to))
    case StartWrite(ofs, data) => At(e, t, WriteEnter(ofs, data))
    case Go => if Reading(e.pcs[t]) then ReadGo(e, t) else WriteGo(e, t)
  }

  // ---- The invariant ----

  ghost predicate LockOk(e: Entry) {
    forall t :: t in e.pcs && Holding(e.pcs[t]) <==> e.owner == Some(t)
  }

  /** The threads counted in readers. */
  ghost function CopyPhase(pcs: map<Tid, Pc>): set<Tid> {
    set t | t in pcs && Counted(pcs[t])
  }

  ghost predicate ReadersOk(e: Entry) {
    e.readers == |CopyPhase(e.pcs)|
  }

  /** While threads wait and no reader is left, someone is signalling. */
  ghost predicate Watched(e: Entry) {
    e.queue != [] && e.readers == 0 ==> exists u :: u in e.pcs && e.pcs[u].Signalling?
  }

  ghost predicate QueueOk(e: Entry) {
    && (forall t :: t in e.queue <==> t in e.pcs && Queued(e.pcs[t]))
    && (forall i, j :: 0 <= i < j < |e.queue| ==> e.queue[i] != e.queue[j])
    && Watched(e)
  }

  /** Until disk_read has ended, the loader has the lock and nobody else is past its first wait for
      it. */
  ghost predicate LoadOk(e: Entry) {
    && |e.buffer| == SECTOR_SIZE
    && (forall t :: t in e.pcs && e.pcs[t].Loading? ==> !e.loaded)
    && (!e.loaded ==> forall t :: t in e.pcs ==>
          e.pcs[t].Outside? || e.pcs[t].Loading? || e.pcs[t].ReadEnter? || e.pcs[t].WriteEnter?)
    && (!e.loaded ==> exists t :: t in e.pcs && e.pcs[t].Loading?)
  }

  /** What each thread knows about the buffer. */
  ghost predicate CopyOk(e: Entry) {
    forall t :: t in e.pcs ==> CopyAt(e, e.pcs[t])
  }

  ghost predicate CopyAt(e: Entry, p: Pc) {
    match p
    case Copying(from, to, seen, got) => Copied(e.buffer, from, to, seen, got)
    case Writing(ofs, data, k, before) => e.readers == 0 && Stored(e.buffer, ofs, data, k, before)
    case Leaving => e.readers == 0
    case WriteEnter(ofs, data) => ofs + |data| <= SECTOR_SIZE
    case WriteTest(ofs, data) => ofs + |data| <= SECTOR_SIZE
    case WaitPushed(ofs, data) => ofs + |data| <= SECTOR_SIZE
    case Asleep(ofs, data) => ofs + |data| <= SECTOR_SIZE
    case Woken(ofs, data) => ofs + |data| <= SECTOR_SIZE
    case ReadEnter(from, to) => from <= to <= SECTOR_SIZE
    case ReadIn(from, to) => from <= to <= SECTOR_SIZE
    case ReadCounted(from, to) => from <= to <= SECTOR_SIZE
    case _ => true
  }

  ghost predicate Copied(buffer: seq<byte>, from: nat, to: nat, seen: seq<byte>, got: seq<byte>) {
    seen == buffer && from + |got| <= to <= |seen| && got == seen[from..from + |got|]
  }

  ghost predicate Stored(buffer: seq<byte>, ofs: nat, data: seq<byte>, k: nat, before: seq<byte>) {
    k <= |data| && ofs + |data| <= |before| && buffer == Patch(before, ofs, data[..k])
  }

  ghost predicate Inv(e: Entry) {
    LockOk(e) && ReadersOk(e) && QueueOk(e) && LoadOk(e) && CopyOk(e)
  }

  // ---- Every step keeps it ----

  lemma CountUpdate(pcs: map<Tid, Pc>, t: Tid, p: Pc)
    requires t in pcs
    ensures |CopyPhase(pcs[t := p])| == |CopyPhase(pcs)| - (if Counted(pcs[t]) then 1 else 0)
              + (if Counted(p) then 1 else 0)
  {
    var a, b := CopyPhase(pcs), CopyPhase(pcs[t := p]);
    if Counted(pcs[t]) && !Counted(p) {
      assert b == a - {t};
    } else if !Counted(pcs[t]) && Counted(p) {
      assert b == a + {t};
    } else {
      assert b == a;
    }
  }

  lemma FrontQueued(e: Entry)
    requires QueueOk(e) && e.queue != []
    ensures e.queue[0] in e.pcs && Queued(e.pcs[e.queue[0]])
    ensures forall t :: t in e.queue[1..] <==> t in e.queue && t != e.queue[0]
  {
    assert e.queue[0] in e.queue;
    assert e.queue == [e.queue[0]] + e.queue[1..];
  }

  /** A step moves only the thread itself, or the thread that it signals. */
  lemma OneMoves(e: Entry, t: Tid, a: Step, u: Tid)
    requires Enabled(e, t, a) && u in e.pcs && u != t
    ensures u in Do(e, t, a).pcs
    ensures Do(e, t, a).pcs[u] == e.pcs[u] || WakesUp(e, Do(e, t, a), u)
  {
    hide ReadGo, WriteGo, WakesUp;
    if a.Go? && Reading(e.pcs[t]) {
      ReadMoves(e, t, u);
    } else if a.Go? {
      WriteMoves(e, t, u);
    }
  }

  /** U was at the front of the queue and is woken. */
  ghost predicate WakesUp(e: Entry, e': Entry, u: Tid)
    requires u in e.pcs && u in e'.pcs
  {
    e.queue != [] && u == e.queue[0] && e.pcs[u].Asleep? && e'.pcs[u] == Woken(e.pcs[u].ofs, e.pcs[u].data)
  }

  lemma ReadMoves(e: Entry, t: Tid, u: Tid)
    requires t in e.pcs && u in e.pcs && u != t
    ensures u in ReadGo(e, t).pcs && (ReadGo(e, t).pcs[u] == e.pcs[u] || WakesUp(e, ReadGo(e, t), u))
  {
  }

  lemma WriteMoves(e: Entry, t: Tid, u: Tid)
    requires t in e.pcs && u in e.pcs && u != t
    ensures u in WriteGo(e, t).pcs && WriteGo(e, t).pcs[u] == e.pcs[u]
  {
  }

  /** What a step of T does to the lock. */
  ghost predicate LockMoves(e: Entry, e': Entry, t: Tid) {
    && t in e'.pcs && (Holding(e'.pcs[t]) <==> e'.owner == Some(t))
    && (e'.owner == e.owner || e'.owner == None || e'.owner == Some(t))
    && (e'.owner != e.owner ==> e.owner == None || e.owner == Some(t))
  }

  lemma LockAt(e: Entry, t: Tid, a: Step)
    requires LockOk(e) && Enabled(e, t, a)
    ensures LockMoves(e, Do(e, t, a), t)
  {
    hide ReadGo, WriteGo;
    if a.Go? && Reading(e.pcs[t]) {
      ReadLock(e, t);
    } else if a.Go? {
      WriteLock(e, t);
    }
  }

  lemma ReadLock(e: Entry, t: Tid)
    requires LockOk(e) && t in e.pcs && Reading(e.pcs[t]) && (Wants(e.pcs[t]) ==> e.owner.None?)
    ensures LockMoves(e, ReadGo(e, t), t)
  {
  }

  lemma WriteLock(e: Entry, t: Tid)
    requires LockOk(e) && t in e.pcs && !Reading(e.pcs[t]) && !e.pcs[t].Outside? && !e.pcs[t].Asleep?
    requires Wants(e.pcs[t]) ==> e.owner.None?
    ensures LockMoves(e, WriteGo(e, t), t)
  {
  }

  lemma KeepsLock(e: Entry, t: Tid, a: Step)
    requires Inv(e) && Enabled(e, t, a)
    ensures LockOk(Do(e, t, a))
  {
    hide QueueOk, ReadersOk, LoadOk, CopyOk, Do, Enabled;
    LockAt(e, t, a);
    forall u | u in e.pcs && u != t
      ensures u in Do(e, t, a).pcs && (Holding(Do(e, t, a).pcs[u]) <==> Holding(e.pcs[u]))
    {
      OneMoves(e, t, a, u);
    }
    SameThreads(e, t, a);
  }

  lemma SameThreads(e: Entry, t: Tid, a: Step)
    requires Enabled(e, t, a)
    ensures Do(e, t, a).pcs.Keys == e.pcs.Keys
  {
  }

  lemma KeepsReaders(e: Entry, t: Tid, a: Step)
    requires Inv(e) && Enabled(e, t, a)
    ensures ReadersOk(Do(e, t, a))
  {
    hide QueueOk, LoadOk, CopyOk, CopyPhase, LockOk, ReadGo, WriteGo;
    if a.Go? && Reading(e.pcs[t]) {
      ReadReaders(e, t);
    } else if a.Go? {
      WriteReaders(e, t);
    } else {
      CountUpdate(e.pcs, t, Do(e, t, a).pcs[t]);
    }
  }

  lemma ReadReaders(e: Entry, t: Tid)
    requires ReadersOk(e) && t in e.pcs && Reading(e.pcs[t])
    ensures ReadersOk(ReadGo(e, t))
  {
    hide CopyPhase;
    var e' := ReadGo(e, t);
    CountUpdate(e.pcs, t, e'.pcs[t]);
    if e.queue != [] && e.queue[0] in e.pcs {
      CountUpdate(e.pcs, e.queue[0], e'.pcs[e.queue[0]]);
    }
    if Counted(e.pcs[t]) {
      SomeReader(e, t);
    }
  }

  lemma WriteReaders(e: Entry, t: Tid)
    requires ReadersOk(e) && t in e.pcs && !Reading(e.pcs[t])
    ensures ReadersOk(WriteGo(e, t))
  {
    hide CopyPhase;
    CountUpdate(e.pcs, t, WriteGo(e, t).pcs[t]);
  }

  lemma SomeReader(e: Entry, t: Tid)
    requires ReadersOk(e) && t in e.pcs && Counted(e.pcs[t])
    ensures e.readers > 0
  {
    assert t in CopyPhase(e.pcs);
  }

  /** The queue stays as it is, and so do all threads but T. */
  ghost predicate SameQueue(e: Entry, e': Entry, t: Tid) {
    && e'.queue == e.queue && t in e.pcs && t in e'.pcs && (Queued(e'.pcs[t]) <==> Queued(e.pcs[t]))
    && forall u :: u in e.pcs && u != t ==> u in e'.pcs && e'.pcs[u] == e.pcs[u]
  }

  /** T joins the queue while there are readers. */
  ghost predicate Joins(e: Entry, e': Entry, t: Tid) {
    && e'.queue == e.queue + [t] && t in e.pcs && t in e'.pcs && Queued(e'.pcs[t]) && !Queued(e.pcs[t])
    && e.readers > 0 && e'.readers == e.readers
    && forall u :: u in e.pcs && u != t ==> u in e'.pcs && e'.pcs[u] == e.pcs[u]
  }

  /** The thread at the front leaves the queue. */
  ghost predicate Leaves(e: Entry, e': Entry) {
    && e.queue != [] && e'.queue == e.queue[1..] && e.queue[0] in e'.pcs && !Queued(e'.pcs[e.queue[0]])
    && forall u :: u in e.pcs && u != e.queue[0] ==> u in e'.pcs && e'.pcs[u] == e.pcs[u]
  }

  lemma SignalStep(e: Entry, t: Tid)
    requires LockOk(e) && QueueOk(e) && t in e.pcs && e.pcs[t].Signalling? && e.queue != []
    ensures Leaves(e, Signal(e))
  {
    FrontQueued(e);
    assert Holding(e.pcs[t]);
  }

  /** How a step changes the queue. */
  lemma QueueStep(e: Entry, t: Tid, a: Step)
    requires Inv(e) && Enabled(e, t, a)
    ensures var e' := Do(e, t, a); SameQueue(e, e', t) || Joins(e, e', t) || Leaves(e, e')
  {
    hide ReadersOk, LoadOk, CopyOk, LockOk, QueueOk, Leaves, Joins, ReadGo, WriteGo;
    if a.Go? && Reading(e.pcs[t]) {
      ReadQueue(e, t);
    } else if a.Go? {
      WriteQueue(e, t);
    }
  }

  lemma ReadQueue(e: Entry, t: Tid)
    requires LockOk(e) && QueueOk(e) && t in e.pcs && Reading(e.pcs[t])
    ensures SameQueue(e, ReadGo(e, t), t) || Leaves(e, ReadGo(e, t))
  {
    hide LockOk, QueueOk, Leaves;
    if e.pcs[t].Signalling? && e.queue != [] && e.readers == 0 {
      SignalStep(e, t);
    }
  }

  lemma WriteQueue(e: Entry, t: Tid)
    requires t in e.pcs && !Reading(e.pcs[t])
    ensures SameQueue(e, WriteGo(e, t), t) || Joins(e, WriteGo(e, t), t)
  {
  }

  lemma KeepsQueue(e: Entry, t: Tid, a: Step)
    requires Inv(e) && Enabled(e, t, a)
    ensures QueueOk(Do(e, t, a))
  {
    hide LoadOk, CopyOk, ReadersOk, LockOk, Do, Enabled;
    QueueStep(e, t, a);
    SameThreads(e, t, a);
    if e.queue != [] {
      FrontQueued(e);
    }
    KeepsSignal(e, t, a);
    assert t in e.pcs by {
      InEntry(e, t, a);
    }
  }

  lemma InEntry(e: Entry, t: Tid, a: Step)
    requires Enabled(e, t, a)
    ensures t in e.pcs
  {
  }

  /** Someone is signalling while threads wait and no reader is left. */
  lemma KeepsSignal(e: Entry, t: Tid, a: Step)
    requires Inv(e) && Enabled(e, t, a)
    ensures Watched(Do(e, t, a))
  {
    hide LoadOk, CopyOk, CopyPhase, ReadGo, WriteGo;
    if a.Go? && Reading(e.pcs[t]) {
      ReadSignal(e, t);
    } else if a.Go? {
      WriteSignal(e, t);
    } else if e.queue != [] && e.readers == 0 {
      var u :| u in e.pcs && e.pcs[u].Signalling?;
      assert u in Do(e, t, a).pcs;
    }
  }

  lemma ReadSignal(e: Entry, t: Tid)
    requires LockOk(e) && QueueOk(e) && ReadersOk(e) && t in e.pcs && Reading(e.pcs[t])
    requires Wants(e.pcs[t]) ==> e.owner.None?
    ensures Watched(ReadGo(e, t))
  {
    hide CopyPhase;
    var e' := ReadGo(e, t);
    if e.queue != [] {
      FrontQueued(e);
      if e.readers == 0 {
        var u :| u in e.pcs && e.pcs[u].Signalling?;
        assert u in e'.pcs;
      }
    }
    assert t in e'.pcs;
  }

  lemma WriteSignal(e: Entry, t: Tid)
    requires QueueOk(e) && t in e.pcs && !Reading(e.pcs[t])
    ensures Watched(WriteGo(e, t))
  {
    if e.queue != [] && e.readers == 0 {
      var u :| u in e.pcs && e.pcs[u].Signalling?;
      assert u in WriteGo(e, t).pcs;
    }
  }

  lemma KeepsLoad(e: Entry, t: Tid, a: Step)
    requires Inv(e) && Enabled(e, t, a)
    ensures LoadOk(Do(e, t, a))
  {
    hide ReadersOk, CopyOk;
    var e' := Do(e, t, a);
    if e.queue != [] {
      FrontQueued(e);
    }
    if !e.loaded {
      var u :| u in e.pcs && e.pcs[u].Loading?;
      assert u in e'.pcs;
    }
  }

  lemma KeepsCopy(e: Entry, t: Tid, a: Step)
    requires Inv(e) && Enabled(e, t, a)
    ensures CopyOk(Do(e, t, a))
  {
    hide QueueOk, ReadersOk, LoadOk, LockOk, Do, Enabled, CopyAt;
    SameThreads(e, t, a);
    forall u | u in Do(e, t, a).pcs ensures CopyAt(Do(e, t, a), Do(e, t, a).pcs[u]) {
      if u == t {
        CopySelf(e, t, a);
      } else {
        CopyOther(e, t, a, u);
      }
    }
  }

  lemma CopySelf(e: Entry, t: Tid, a: Step)
    requires Inv(e) && Enabled(e, t, a)
    ensures t in Do(e, t, a).pcs && CopyAt(Do(e, t, a), Do(e, t, a).pcs[t])
  {
    hide QueueOk, ReadersOk, ReadGo, WriteGo, LockOk;
    assert CopyAt(e, e.pcs[t]);
    if a.Go? && Reading(e.pcs[t]) {
      ReadCopy(e, t);
    } else if a.Go? {
      WriteCopy(e, t);
    }
  }

  lemma ReadCopy(e: Entry, t: Tid)
    requires |e.buffer| == SECTOR_SIZE && t in e.pcs && Reading(e.pcs[t]) && CopyAt(e, e.pcs[t])
    ensures t in ReadGo(e, t).pcs && CopyAt(ReadGo(e, t), ReadGo(e, t).pcs[t])
  {
  }

  lemma WriteCopy(e: Entry, t: Tid)
    requires |e.buffer| == SECTOR_SIZE && t in e.pcs && !Reading(e.pcs[t]) && CopyAt(e, e.pcs[t])
    ensures t in WriteGo(e, t).pcs && CopyAt(WriteGo(e, t), WriteGo(e, t).pcs[t])
  {
    var p := e.pcs[t];
    if p.Writing? && p.k < |p.data| {
      StoreNext(e.buffer, p.ofs, p.data, p.k, p.before);
    }
  }

  lemma StoreNext(buffer: seq<byte>, ofs: nat, data: seq<byte>, k: nat, before: seq<byte>)
    requires Stored(buffer, ofs, data, k, before) && k < |data|
    ensures Stored(Poke(buffer, ofs + k, data[k]), ofs, data, k + 1, before)
  {
    assert data[..k + 1] == data[..k] + [data[k]];
  }

  /** While a thread copies, the buffer does not change; while one writes, no reader comes in. */
  lemma CopyOther(e: Entry, t: Tid, a: Step, u: Tid)
    requires Inv(e) && Enabled(e, t, a) && u in e.pcs && u != t
    ensures u in Do(e, t, a).pcs && CopyAt(Do(e, t, a), Do(e, t, a).pcs[u])
  {
    hide QueueOk, ReadersOk;
    OneMoves(e, t, a, u);
    assert CopyAt(e, e.pcs[u]) && CopyAt(e, e.pcs[t]);
    if e.pcs[u].Copying? {
      SomeReader(e, u);
    }
  }

  lemma StepKeeps(e: Entry, t: Tid, a: Step)
    requires Inv(e) && Enabled(e, t, a)
    ensures Inv(Do(e, t, a))
  {
    hide Do, LockOk, ReadersOk, QueueOk, LoadOk, CopyOk;
    KeepsLock(e, t, a);
    KeepsReaders(e, t, a);
    KeepsQueue(e, t, a);
    KeepsLoad(e, t, a);
    KeepsCopy(e, t, a);
  }

  // ---- Runs ----

  ghost predicate Run(e: Entry, steps: seq<(Tid, Step)>)
    decreases |steps|
  {
    steps == [] || (Enabled(e, steps[0].0, steps[0].1) && Run(Do(e, steps[0].0, steps[0].1), steps[1..]))
  }

  ghost function Exec(e: Entry, steps: seq<(Tid, Step)>): Entry
    requires Run(e, steps)
    decreases |steps|
  {
    if steps == [] then e else Exec(Do(e, steps[0].0, steps[0].1), steps[1..])
  }

  /** A new entry: its loader has the lock, whatever memory held is in the buffer. */
  ghost function Begin(threads: set<Tid>, loader: Tid, buffer: seq<byte>): Entry {
    var pcs := map t | t in threads + {loader} :: if t == loader then Loading(0) else Outside([]);
    Entry(pcs, Some(loader), 0, [], buffer, false)
  }

  lemma BeginOk(threads: set<Tid>, loader: Tid, buffer: seq<byte>)
    requires |buffer| == SECTOR_SIZE
    ensures Inv(Begin(threads, loader, buffer))
  {
    var e := Begin(threads, loader, buffer);
    assert CopyPhase(e.pcs) == {};
    assert e.pcs[loader].Loading?;
  }

  /** Nobody uses the buffer before disk_read has ended; no reader copies out while a writer copies
      in, and there is only one writer; what a reader has copied is the buffer as it was when the
      reader began; readers counts the threads in the copy phase; while the lock is free, a waiting
      writer has a reader that will signal it. */
  ghost predicate Safe(e: Entry) {
    && (forall t, u :: t in e.pcs && u in e.pcs && e.pcs[t].Loading? ==> !e.pcs[u].Copying? && !e.pcs[u].Writing?)
    && (forall t, u :: t in e.pcs && u in e.pcs && e.pcs[t].Writing? ==>
        !e.pcs[u].Copying? && (e.pcs[u].Writing? ==> u == t))
    && (forall t :: t in e.pcs && e.pcs[t].Copying? ==>
          e.pcs[t].from + |e.pcs[t].got| <= |e.pcs[t].seen| && e.pcs[t].seen == e.buffer
          && e.pcs[t].got == e.pcs[t].seen[e.pcs[t].from..e.pcs[t].from + |e.pcs[t].got|])
    && e.readers == |CopyPhase(e.pcs)|
    && (e.owner.None? && e.queue != [] ==> e.readers > 0 && exists t :: t in e.pcs && Counted(e.pcs[t]))
  }

  lemma InvSafe(e: Entry)
    requires Inv(e)
    ensures Safe(e)
  {
    hide CopyPhase;
    forall t, u | t in e.pcs && u in e.pcs && e.pcs[t].Writing?
      ensures !e.pcs[u].Copying? && (e.pcs[u].Writing? ==> u == t)
    {
      assert CopyAt(e, e.pcs[t]);
      if e.pcs[u].Copying? {
        SomeReader(e, u);
      }
    }
    forall t | t in e.pcs && e.pcs[t].Copying?
      ensures Copied(e.buffer, e.pcs[t].from, e.pcs[t].to, e.pcs[t].seen, e.pcs[t].got)
    {
      assert CopyAt(e, e.pcs[t]);
    }
    if e.readers > 0 {
      var t :| t in CopyPhase(e.pcs);
      InCopyPhase(e.pcs, t);
    }
  }

  lemma InCopyPhase(pcs: map<Tid, Pc>, t: Tid)
    requires t in CopyPhase(pcs)
    ensures t in pcs && Counted(pcs[t])
  {
  }

  /** A reader that is done has the bytes it asked for, all as they were when it began; a writer that is
      done has stored all of its bytes, and changed no others. */
  lemma CopiesWhole(e: Entry, t: Tid)
    requires Inv(e) && Enabled(e, t, Go)
    ensures e.pcs[t].Copying? && Do(e, t, Go).pcs[t].ReadLeave? ==>
              e.pcs[t].from <= e.pcs[t].to <= |e.pcs[t].seen|
                  && e.pcs[t].got == e.pcs[t].seen[e.pcs[t].from..e.pcs[t].to]
    ensures e.pcs[t].Writing? && Do(e, t, Go).pcs[t].Leaving? ==>
              e.pcs[t].ofs + |e.pcs[t].data| <= |e.pcs[t].before|
                  && e.buffer == Patch(e.pcs[t].before, e.pcs[t].ofs, e.pcs[t].data)
  {
    assert CopyAt(e, e.pcs[t]);
    if e.pcs[t].Writing? && e.pcs[t].k == |e.pcs[t].data| {
      assert e.pcs[t].data[..e.pcs[t].k] == e.pcs[t].data;
    }
  }

  /** In every interleaving of any number of threads. */
  lemma {:induction false} AlwaysSafe(e: Entry, steps: seq<(Tid, Step)>)
    requires Inv(e) && Run(e, steps)
    ensures Inv(Exec(e, steps)) && Safe(Exec(e, steps))
    decreases |steps|
  {
    if steps == [] {
      InvSafe(e);
    } else {
      StepKeeps(e, steps[0].0, steps[0].1);
      AlwaysSafe(Do(e, steps[0].0, steps[0].1), steps[1..]);
    }
  }
}
