/** What the threads on a cache entry leave behind and get, over whole runs.  The history is told from
    the calls that are made and that return, whatever happens inside them. */
module CacheHistory {
  import opened Options
  import opened Disk
  import opened Tids
  import opened CacheProtocol

  /** A call that has not returned; SINCE is what the entry held at every moment since it was made: the
      bytes that were loaded, with the writes that had returned by then. */
  datatype Call =
    | ReadCall(from: nat, to: nat, since: seq<seq<byte>>)
    | WriteCall(ofs: nat, data: seq<byte>)

  /** A write that has returned. */
  datatype Write = Write(ofs: nat, data: seq<byte>)

  /** A read that has returned, with the bytes GOT. */
  datatype Read = Read(from: nat, to: nat, since: seq<seq<byte>>, got: seq<byte>)

  /** The bytes that disk_read has delivered, the calls being made, and those that have returned, in
      the order in which they did. */
  datatype History = History(loaded: seq<byte>, calls: map<Tid, Call>, writes: seq<Write>, readings: seq<Read>)

  const NOTHING := History([], map[], [], [])

  // ---- Telling the history ----

  ghost function Watched(c: Call, now: seq<seq<byte>>): Call {
    match c
    case ReadCall(from, to, since) => ReadCall(from, to, since + now)
    case WriteCall(_, _) => c
  }

  ghost function WatchedAll(calls: map<Tid, Call>, now: seq<seq<byte>>): map<Tid, Call> {
    map u | u in calls :: Watched(calls[u], now)
  }

  /** What the entry holds now, once it is loaded. */
  ghost function Now(h: History): seq<seq<byte>> {
    if |h.loaded| == SECTOR_SIZE then [StoreAll(h.loaded, h.writes)] else []
  }

  /** The call of thread T has just returned. */
  ghost predicate Returns(h: History, t: Tid, a: Step, e: Entry) {
    a.Go? && t in h.calls && t in e.pcs && e.pcs[t].Outside?
  }

  /** H with the byte that step A of T delivered, or the write that returned with it. */
  ghost function Noted(h: History, t: Tid, a: Step, e: Entry): History {
    if a.LoadByte? then h.(loaded := h.loaded + [a.b])
    else if Returns(h, t, a, e) && h.calls[t].WriteCall? then
      h.(writes := h.writes + [Write(h.calls[t].ofs, h.calls[t].data)])
    else h
  }

  /** The history after step A of thread T, which leads to E. */
  ghost function Observed1(h: History, t: Tid, a: Step, e: Entry): History {
    var h1 := Noted(h, t, a, e);
    var h2 := h1.(calls := WatchedAll(h.calls, Now(h1)));
    match a
    case StartRead(from, to) => h2.(calls := h2.calls[t := ReadCall(from, to, Now(h1))])
    case StartWrite(ofs, data) => h2.(calls := h2.calls[t := WriteCall(ofs, data)])
    case _ => if Returns(h, t, a, e) then Done(h2, t, e.pcs[t].got) else h2
  }

  /** The call of T is over; a read has brought GOT. */
  ghost function Done(h: History, t: Tid, got: seq<byte>): History
    requires t in h.calls
  {
    match h.calls[t]
    case ReadCall(from, to, since) =>
      h.(calls := h.calls - {t}, readings := h.readings + [Read(from, to, since, got)])
    case WriteCall(_, _) => h.(calls := h.calls - {t})
  }

  ghost function Observed(e: Entry, h: History, steps: seq<(Tid, Step)>): History
    requires Run(e, steps)
    decreases |steps|
  {
    if steps == [] then h
    else
      var e' := Do(e, steps[0].0, steps[0].1);
      Observed(e', Observed1(h, steps[0].0, steps[0].1, e'), steps[1..])
  }

  // ---- What it should be ----

  /** The bytes DATA stored at OFS, if they fit. */
  ghost function Store(buffer: seq<byte>, ofs: nat, data: seq<byte>): (r: seq<byte>)
    ensures |r| == |buffer|
  {
    if ofs + |data| <= |buffer| then Patch(buffer, ofs, data) else buffer
  }

  ghost function StoreAll(buffer: seq<byte>, ws: seq<Write>): (r: seq<byte>)
    ensures |r| == |buffer|
  {
    if ws == [] then buffer
    else Store(StoreAll(buffer, ws[..|ws| - 1]), ws[|ws| - 1].ofs, ws[|ws| - 1].data)
  }

  /** Memory BUFFER with the loaded bytes and then the writes that have returned, one after the other. */
  ghost function Settled(h: History, buffer: seq<byte>): (r: seq<byte>)
    ensures |r| == |buffer|
  {
    StoreAll(Store(buffer, 0, h.loaded), h.writes)
  }

  /** The buffer has the writes that have returned, in the order of returning, and of those in progress
      at most one has left a part of its bytes. */
  ghost predicate BufferTold(e: Entry, h: History, buffer: seq<byte>) {
    || e.buffer == Settled(h, buffer)
    || exists u, k: nat :: PartOf(e, h, buffer, u, k)
  }

  ghost predicate PartOf(e: Entry, h: History, buffer: seq<byte>, u: Tid, k: nat) {
    && u in h.calls && h.calls[u].WriteCall? && k <= |h.calls[u].data|
    && e.buffer == Store(Settled(h, buffer), h.calls[u].ofs, h.calls[u].data[..k])
  }

  /** GOT is what one of the contents SINCE has from FROM to TO. */
  ghost predicate AtOnce(from: nat, to: nat, since: seq<seq<byte>>, got: seq<byte>) {
    exists i :: 0 <= i < |since| && from <= to <= |since[i]| && got == since[i][from..to]
  }

  ghost predicate ReadsTold(h: History) {
    forall i :: 0 <= i < |h.readings| ==>
      AtOnce(h.readings[i].from, h.readings[i].to, h.readings[i].since, h.readings[i].got)
  }

  // ---- The history and the threads ----

  ghost predicate IsRead(h: History, t: Tid, from: nat, to: nat) {
    t in h.calls && h.calls[t].ReadCall? && h.calls[t].from == from && h.calls[t].to == to
  }

  ghost predicate HasRead(h: History, t: Tid, got: seq<byte>) {
    t in h.calls && h.calls[t].ReadCall? && AtOnce(h.calls[t].from, h.calls[t].to, h.calls[t].since, got)
  }

  ghost predicate IsWrite(h: History, t: Tid, ofs: nat, data: seq<byte>) {
    t in h.calls && h.calls[t] == WriteCall(ofs, data)
  }

  /** Each thread works on the call it made. */
  ghost predicate CallOk(e: Entry, h: History, t: Tid) {
    && t in e.pcs
    && match e.pcs[t]
       case ReadEnter(from, to) => IsRead(h, t, from, to)
       case ReadIn(from, to) => IsRead(h, t, from, to)
       case ReadCounted(from, to) => IsRead(h, t, from, to)
       case Copying(from, to, _, _) => IsRead(h, t, from, to)
       case ReadLeave(got) => HasRead(h, t, got)
       case ReadOut(got) => HasRead(h, t, got)
       case Signalling(got) => HasRead(h, t, got)
       case WriteEnter(ofs, data) => IsWrite(h, t, ofs, data)
       case WriteTest(ofs, data) => IsWrite(h, t, ofs, data)
       case WaitPushed(ofs, data) => IsWrite(h, t, ofs, data)
       case Asleep(ofs, data) => IsWrite(h, t, ofs, data)
       case Woken(ofs, data) => IsWrite(h, t, ofs, data)
       case Writing(ofs, data, _, _) => IsWrite(h, t, ofs, data)
       case Leaving => t in h.calls && h.calls[t].WriteCall?
       case _ => t !in h.calls
  }

  /** What thread T, if it holds the lock to load or to write, has done to the buffer. */
  ghost predicate HolderOk(e: Entry, h: History, buffer: seq<byte>, t: Tid) {
    t in e.pcs ==>
      match e.pcs[t]
      case Loading(k) => k == |h.loaded| && e.buffer == Settled(h, buffer)
      case Writing(_, _, _, before) => before == Settled(h, buffer)
      case Leaving => t in h.calls && h.calls[t].WriteCall?
                      && e.buffer == Store(Settled(h, buffer), h.calls[t].ofs, h.calls[t].data)
      case _ => true
  }

  ghost predicate Stores(p: Pc) {
    p.Writing? || p.Leaving?
  }

  ghost predicate Quiet(e: Entry) {
    forall t :: t in e.pcs ==> !Stores(e.pcs[t])
  }

  ghost predicate Told(e: Entry, h: History, buffer: seq<byte>) {
    && Inv(e) && |buffer| == SECTOR_SIZE && ReadsTold(h)
    && (forall t :: t in e.pcs ==> CallOk(e, h, t) && HolderOk(e, h, buffer, t))
    && (forall t :: t in h.calls ==> t in e.pcs)
    && (Quiet(e) ==> e.buffer == Settled(h, buffer))
    && (!e.loaded ==> h.writes == []) && (e.loaded ==> |h.loaded| == SECTOR_SIZE)
  }

  lemma SettledLoad(h: History, buffer: seq<byte>, b: byte)
    requires h.writes == [] && |h.loaded| < |buffer|
    ensures Settled(h.(loaded := h.loaded + [b]), buffer) == Poke(Settled(h, buffer), |h.loaded|, b)
  {
  }

  lemma SettledWrite(h: History, buffer: seq<byte>, w: Write)
    ensures Settled(h.(writes := h.writes + [w]), buffer) == Store(Settled(h, buffer), w.ofs, w.data)
  {
    assert (h.writes + [w])[..|h.writes|] == h.writes;
  }

  /** Once everything is loaded, nothing of the memory is left. */
  lemma SettledNow(h: History, buffer: seq<byte>)
    requires |h.loaded| == |buffer| == SECTOR_SIZE
    ensures Now(h) == [Settled(h, buffer)]
  {
    assert Store(buffer, 0, h.loaded) == h.loaded;
  }

  lemma AtOnceStill(from: nat, to: nat, since: seq<seq<byte>>, got: seq<byte>, now: seq<seq<byte>>)
    requires AtOnce(from, to, since, got)
    ensures AtOnce(from, to, since + now, got)
  {
    var i :| 0 <= i < |since| && from <= to <= |since[i]| && got == since[i][from..to];
    assert (since + now)[i] == since[i];
  }

  // ---- Every step goes on with it ----

  /** The thread has copied and not yet returned. */
  predicate Back(p: Pc) {
    p.ReadLeave? || p.ReadOut? || p.Signalling?
  }

  lemma HasReadStill(h: History, h': History, t: Tid, got: seq<byte>, now: seq<seq<byte>>)
    requires HasRead(h, t, got) && t in h'.calls && h'.calls[t] == Watched(h.calls[t], now)
    ensures HasRead(h', t, got)
  {
    AtOnceStill(h.calls[t].from, h.calls[t].to, h.calls[t].since, got, now);
  }

  /** A thread that another thread's step leaves in its call. */
  lemma OthersCall(e: Entry, h: History, t: Tid, a: Step, u: Tid)
    requires Inv(e) && Enabled(e, t, a) && CallOk(e, h, u) && u != t
    ensures CallOk(Do(e, t, a), Observed1(h, t, a, Do(e, t, a)), u)
  {
    hide Inv, Do, Enabled, AtOnce, Now, Noted;
    var e' := Do(e, t, a);
    var h' := Observed1(h, t, a, e');
    OneMoves(e, t, a, u);
    if Back(e.pcs[u]) {
      HasReadStill(h, h', u, e.pcs[u].got, Now(Noted(h, t, a, e')));
    }
  }

  /** The thread that takes the step, if its call goes on. */
  lemma OwnCall(e: Entry, h: History, buffer: seq<byte>, t: Tid, a: Step)
    requires Told(e, h, buffer) && Enabled(e, t, a)
    ensures CallOk(Do(e, t, a), Observed1(h, t, a, Do(e, t, a)), t)
  {
    hide Told, ReadGo, WriteGo, AtOnce, Now;
    ToldCall(e, h, buffer, t);
    if a.Go? && Reading(e.pcs[t]) {
      ReadCallOk(e, h, buffer, t);
    } else if a.Go? {
      WriteCallOk(e, h, t);
    }
  }

  lemma ToldCall(e: Entry, h: History, buffer: seq<byte>, t: Tid)
    requires Told(e, h, buffer) && t in e.pcs
    ensures CallOk(e, h, t)
  {
  }

  lemma WriteCallOk(e: Entry, h: History, t: Tid)
    requires Enabled(e, t, Go) && CallOk(e, h, t) && !Reading(e.pcs[t])
    ensures CallOk(WriteGo(e, t), Observed1(h, t, Go, WriteGo(e, t)), t)
  {
    hide AtOnce, Now;
  }

  lemma ReadCallOk(e: Entry, h: History, buffer: seq<byte>, t: Tid)
    requires Told(e, h, buffer) && Enabled(e, t, Go) && CallOk(e, h, t) && Reading(e.pcs[t])
    ensures CallOk(ReadGo(e, t), Observed1(h, t, Go, ReadGo(e, t)), t)
  {
    hide Told, AtOnce, Now;
    if e.pcs[t].Copying? {
      CopyingOn(e, h, buffer, t);
    } else if Back(e.pcs[t]) {
      BackOn(e, h, buffer, t);
    }
  }

  lemma CopyingOn(e: Entry, h: History, buffer: seq<byte>, t: Tid)
    requires Told(e, h, buffer) && Enabled(e, t, Go) && CallOk(e, h, t) && e.pcs[t].Copying?
    ensures CallOk(ReadGo(e, t), Observed1(h, t, Go, ReadGo(e, t)), t)
  {
    hide LockOk, ReadersOk, QueueOk, AtOnce, Now, ReadsTold, Settled, HolderOk;
    assert CopyAt(e, e.pcs[t]);
    if ReadGo(e, t).pcs[t].ReadLeave? {
      QuietReading(e, t);
      SettledNow(h, buffer);
      GotNow(h, t, e.buffer, e.pcs[t].from, e.pcs[t].to);
    }
  }

  lemma BackOn(e: Entry, h: History, buffer: seq<byte>, t: Tid)
    requires Told(e, h, buffer) && Enabled(e, t, Go) && CallOk(e, h, t) && Back(e.pcs[t])
    ensures CallOk(ReadGo(e, t), Observed1(h, t, Go, ReadGo(e, t)), t)
  {
    hide Inv, AtOnce, Now, ReadsTold, Settled, HolderOk;
    AtOnceStill(h.calls[t].from, h.calls[t].to, h.calls[t].since, e.pcs[t].got, Now(h));
    StillSignals(e, t);
  }

  /** While a thread copies out, nobody is storing. */
  lemma QuietReading(e: Entry, t: Tid)
    requires Inv(e) && t in e.pcs && e.pcs[t].Copying?
    ensures Quiet(e) && e.loaded
  {
    hide QueueOk, CopyPhase;
    SomeReader(e, t);
    forall u | u in e.pcs ensures !Stores(e.pcs[u]) {
      assert CopyAt(e, e.pcs[u]);
    }
  }

  lemma GotNow(h: History, t: Tid, b: seq<byte>, from: nat, to: nat)
    requires IsRead(h, t, from, to) && from <= to <= |b| && Now(h) == [b]
    ensures AtOnce(from, to, h.calls[t].since + Now(h), b[from..to])
  {
    assert (h.calls[t].since + [b])[|h.calls[t].since|] == b;
  }

  /** A thread in cond_broadcast does not wake itself. */
  lemma StillSignals(e: Entry, t: Tid)
    requires Inv(e) && t in e.pcs && Back(e.pcs[t])
    ensures e.queue != [] ==> e.queue[0] != t
  {
    hide LockOk, ReadersOk, LoadOk, CopyOk;
    if e.queue != [] {
      FrontQueued(e);
    }
  }

  /** The thread may change the buffer, or let a write return. */
  predicate Changes(p: Pc) {
    p.Loading? || p.Writing? || p.Leaving?
  }

  lemma Unaffected(e: Entry, h: History, t: Tid, a: Step)
    requires Enabled(e, t, a) && CallOk(e, h, t) && !Changes(e.pcs[t])
    ensures var e' := Do(e, t, a);
            var h' := Observed1(h, t, a, e');
            e'.buffer == e.buffer && h'.loaded == h.loaded && h'.writes == h.writes
  {
    hide ReadGo, WriteGo, AtOnce, WatchedAll;
    if a.Go? && Reading(e.pcs[t]) {
      ReadUnaffected(e, h, t);
    } else if a.Go? {
      WriteUnaffected(e, h, t);
    }
  }

  lemma ReadUnaffected(e: Entry, h: History, t: Tid)
    requires Enabled(e, t, Go) && CallOk(e, h, t) && Reading(e.pcs[t])
    ensures var e' := ReadGo(e, t);
            var h' := Observed1(h, t, Go, e');
            e'.buffer == e.buffer && h'.loaded == h.loaded && h'.writes == h.writes
  {
    hide AtOnce;
  }

  lemma WriteUnaffected(e: Entry, h: History, t: Tid)
    requires Enabled(e, t, Go) && CallOk(e, h, t) && !Reading(e.pcs[t]) && !Changes(e.pcs[t])
    ensures var e' := WriteGo(e, t);
            var h' := Observed1(h, t, Go, e');
            e'.buffer == e.buffer && h'.loaded == h.loaded && h'.writes == h.writes
  {
  }

  lemma QuietAround(e: Entry, t: Tid)
    requires LockOk(e) && t in e.pcs && Holding(e.pcs[t]) && !Stores(e.pcs[t])
    ensures Quiet(e)
  {
  }

  /** The loader or the writer whose turn it is. */
  lemma OwnHolder(e: Entry, h: History, buffer: seq<byte>, t: Tid, a: Step)
    requires Told(e, h, buffer) && Enabled(e, t, a)
    ensures HolderOk(Do(e, t, a), Observed1(h, t, a, Do(e, t, a)), buffer, t)
  {
    hide ReadersOk, QueueOk, AtOnce, Settled, ReadsTold, ReadGo, CallOk, WatchedAll;
    assert HolderOk(e, h, buffer, t) && CallOk(e, h, t) && CopyAt(e, e.pcs[t]);
    var p := e.pcs[t];
    if p.Loading? {
      assert !e.loaded;
      if a.LoadByte? {
        SettledLoad(h, buffer, a.b);
        LoadedByte(e, h, t, a);
        SameSettled(h.(loaded := h.loaded + [a.b]), Observed1(h, t, a, Do(e, t, a)), buffer);
      }
    } else if p.WriteTest? {
      QuietAround(e, t);
      Unaffected(e, h, t, a);
      SameSettled(h, Observed1(h, t, a, Do(e, t, a)), buffer);
    } else if p.Writing? {
      WritingOn(e, h, buffer, t);
    } else if Reading(p) {
      ReadNoHolder(e, t, a);
    }
  }

  lemma LoadedByte(e: Entry, h: History, t: Tid, a: Step)
    requires Enabled(e, t, a) && a.LoadByte?
    ensures var h' := Observed1(h, t, a, Do(e, t, a)); h'.loaded == h.loaded + [a.b] && h'.writes == h.writes
    ensures Do(e, t, a).buffer == Poke(e.buffer, e.pcs[t].k, a.b)
  {
  }

  lemma SameSettled(h: History, h': History, buffer: seq<byte>)
    requires h'.loaded == h.loaded && h'.writes == h.writes
    ensures Settled(h', buffer) == Settled(h, buffer)
  {
  }

  lemma ReadNoHolder(e: Entry, t: Tid, a: Step)
    requires Inv(e) && Enabled(e, t, a) && Reading(e.pcs[t])
    ensures !Changes(Do(e, t, a).pcs[t])
  {
    hide LockOk, ReadersOk, LoadOk, CopyOk;
    if e.queue != [] {
      FrontQueued(e);
    }
  }

  lemma WritingOn(e: Entry, h: History, buffer: seq<byte>, t: Tid)
    requires Enabled(e, t, Go) && CallOk(e, h, t) && e.pcs[t].Writing? && CopyAt(e, e.pcs[t])
    requires HolderOk(e, h, buffer, t)
    ensures HolderOk(Do(e, t, Go), Observed1(h, t, Go, Do(e, t, Go)), buffer, t)
  {
    hide Settled;
    SameSettled(h, Observed1(h, t, Go, Do(e, t, Go)), buffer);
    var p := e.pcs[t];
    if p.k == |p.data| {
      assert p.data[..p.k] == p.data;
    }
  }

  lemma OtherHolder(e: Entry, h: History, buffer: seq<byte>, t: Tid, a: Step, u: Tid)
    requires Told(e, h, buffer) && Enabled(e, t, a) && u in e.pcs && u != t
    ensures HolderOk(Do(e, t, a), Observed1(h, t, a, Do(e, t, a)), buffer, u)
  {
    hide ReadersOk, QueueOk, LoadOk, CopyOk, AtOnce, Settled, ReadsTold, Do, Observed1;
    assert HolderOk(e, h, buffer, u) && CallOk(e, h, u) && CallOk(e, h, t);
    OneMoves(e, t, a, u);
    if Changes(e.pcs[u]) {
      var e' := Do(e, t, a);
      var h' := Observed1(h, t, a, e');
      Unaffected(e, h, t, a);
      SameSettled(h, h', buffer);
      OtherGoesOn(h, t, a, e', u);
    }
  }

  lemma OtherGoesOn(h: History, t: Tid, a: Step, e: Entry, u: Tid)
    requires u != t
    ensures var h' := Observed1(h, t, a, e);
            u in h.calls && h.calls[u].WriteCall? ==> u in h'.calls && h'.calls[u] == h.calls[u]
  {
  }

  /** When nobody is in the middle of storing, the buffer is settled. */
  lemma QuietStep(e: Entry, h: History, buffer: seq<byte>, t: Tid, a: Step)
    requires Told(e, h, buffer) && Enabled(e, t, a) && Quiet(Do(e, t, a))
    ensures Do(e, t, a).buffer == Settled(Observed1(h, t, a, Do(e, t, a)), buffer)
  {
    hide ReadersOk, QueueOk, CopyOk, AtOnce, Settled, ReadsTold, Do, Observed1;
    var e' := Do(e, t, a);
    var h' := Observed1(h, t, a, e');
    assert CallOk(e, h, t) && HolderOk(e, h, buffer, t);
    if e.pcs[t].Writing? {
      StillStores(e, t, a);
    } else if Changes(e.pcs[t]) {
      QuietOwn(e, h, buffer, t, a);
    } else {
      Unaffected(e, h, t, a);
      SameSettled(h, h', buffer);
      forall u | u in e.pcs ensures !Stores(e.pcs[u]) {
        if u != t {
          OneMoves(e, t, a, u);
        }
      }
    }
  }

  lemma QuietOwn(e: Entry, h: History, buffer: seq<byte>, t: Tid, a: Step)
    requires Told(e, h, buffer) && Enabled(e, t, a) && (e.pcs[t].Loading? || e.pcs[t].Leaving?)
    ensures Do(e, t, a).buffer == Settled(Observed1(h, t, a, Do(e, t, a)), buffer)
  {
    hide ReadersOk, QueueOk, CopyOk, AtOnce, Settled, ReadsTold, WatchedAll;
    var e' := Do(e, t, a);
    var h' := Observed1(h, t, a, e');
    assert CallOk(e, h, t) && HolderOk(e, h, buffer, t);
    var p := e.pcs[t];
    if p.Leaving? {
      var w := Write(h.calls[t].ofs, h.calls[t].data);
      SettledWrite(h, buffer, w);
      SameSettled(h.(writes := h.writes + [w]), h', buffer);
    } else if a.LoadByte? {
      SettledLoad(h, buffer, a.b);
      SameSettled(h.(loaded := h.loaded + [a.b]), h', buffer);
    } else {
      SameSettled(h, h', buffer);
    }
  }

  lemma StillStores(e: Entry, t: Tid, a: Step)
    requires Enabled(e, t, a) && e.pcs[t].Writing?
    ensures t in Do(e, t, a).pcs && Stores(Do(e, t, a).pcs[t])
  {
  }

  lemma ReadingsStep(e: Entry, h: History, buffer: seq<byte>, t: Tid, a: Step)
    requires Told(e, h, buffer) && Enabled(e, t, a)
    ensures ReadsTold(Observed1(h, t, a, Do(e, t, a)))
  {
    hide ReadersOk, QueueOk, CopyOk, LoadOk, LockOk, AtOnce, Settled, HolderOk;
    var e' := Do(e, t, a);
    assert CallOk(e, h, t);
    if Back(e.pcs[t]) {
      AtOnceStill(h.calls[t].from, h.calls[t].to, h.calls[t].since, e.pcs[t].got, Now(h));
      StillSignals(e, t);
    }
  }

  lemma LoadedStep(e: Entry, h: History, buffer: seq<byte>, t: Tid, a: Step)
    requires Told(e, h, buffer) && Enabled(e, t, a)
    ensures var e' := Do(e, t, a);
            var h' := Observed1(h, t, a, e');
            && (!e'.loaded ==> h'.writes == []) && (e'.loaded ==> |h'.loaded| == SECTOR_SIZE)
            && (forall u :: u in h'.calls ==> u in e'.pcs)
  {
    hide ReadersOk, QueueOk, CopyOk, LockOk, AtOnce, Settled;
    assert CallOk(e, h, t) && HolderOk(e, h, buffer, t);
    SameThreads(e, t, a);
  }

  /** Every step of every thread goes on with the history. */
  lemma ToldStep(e: Entry, h: History, buffer: seq<byte>, t: Tid, a: Step)
    requires Told(e, h, buffer) && Enabled(e, t, a)
    ensures Told(Do(e, t, a), Observed1(h, t, a, Do(e, t, a)), buffer)
  {
    hide Inv, Do, Observed1, CallOk, HolderOk, ReadsTold, Settled, Quiet, Enabled;
    var e' := Do(e, t, a);
    var h' := Observed1(h, t, a, e');
    StepKeeps(e, t, a);
    ReadingsStep(e, h, buffer, t, a);
    LoadedStep(e, h, buffer, t, a);
    SameThreads(e, t, a);
    forall u | u in e'.pcs ensures CallOk(e', h', u) && HolderOk(e', h', buffer, u) {
      if u == t {
        OwnCall(e, h, buffer, t, a);
        OwnHolder(e, h, buffer, t, a);
      } else {
        OthersCall(e, h, t, a, u);
        OtherHolder(e, h, buffer, t, a, u);
      }
    }
    if Quiet(e') {
      QuietStep(e, h, buffer, t, a);
    }
  }

  lemma BeginTold(threads: set<Tid>, loader: Tid, buffer: seq<byte>)
    requires |buffer| == SECTOR_SIZE
    ensures Told(Begin(threads, loader, buffer), NOTHING, buffer)
  {
    hide Inv;
    BeginOk(threads, loader, buffer);
    assert Store(buffer, 0, []) == buffer;
  }

  lemma {:induction false} RunTold(e: Entry, h: History, buffer: seq<byte>, steps: seq<(Tid, Step)>)
    requires Told(e, h, buffer) && Run(e, steps)
    ensures Told(Exec(e, steps), Observed(e, h, steps), buffer)
    decreases |steps|
  {
    hide Told, Do, Observed1, Enabled;
    if steps != [] {
      ToldStep(e, h, buffer, steps[0].0, steps[0].1);
      var e' := Do(e, steps[0].0, steps[0].1);
      RunTold(e', Observed1(h, steps[0].0, steps[0].1, e'), buffer, steps[1..]);
    }
  }

  lemma ToldBuffer(e: Entry, h: History, buffer: seq<byte>)
    requires Told(e, h, buffer)
    ensures BufferTold(e, h, buffer)
    ensures (forall u :: u in h.calls ==> !h.calls[u].WriteCall?) ==> e.buffer == Settled(h, buffer)
  {
    hide ReadersOk, QueueOk, LoadOk, LockOk, Settled, AtOnce;
    if !Quiet(e) {
      var t :| t in e.pcs && Stores(e.pcs[t]);
      assert CallOk(e, h, t) && HolderOk(e, h, buffer, t) && CopyAt(e, e.pcs[t]);
      if e.pcs[t].Writing? {
        assert PartOf(e, h, buffer, t, e.pcs[t].k);
      } else {
        assert h.calls[t].data[..|h.calls[t].data|] == h.calls[t].data;
        assert PartOf(e, h, buffer, t, |h.calls[t].data|);
      }
    }
  }

  /** In every interleaving of any number of threads on a new entry: the buffer is what disk_read
      delivered with every write that has returned stored in it, in the order of returning, but for a part
      of at most one write that has not returned; and every read that has returned got the bytes that the
      entry, fully loaded, held at one moment between its call and its return. */
  lemma Linearizable(threads: set<Tid>, loader: Tid, buffer: seq<byte>, steps: seq<(Tid, Step)>)
    requires |buffer| == SECTOR_SIZE && Run(Begin(threads, loader, buffer), steps)
    ensures var e := Exec(Begin(threads, loader, buffer), steps);
            var h := Observed(Begin(threads, loader, buffer), NOTHING, steps);
            && BufferTold(e, h, buffer) && ReadsTold(h)
            && ((forall u :: u in h.calls ==> !h.calls[u].WriteCall?) ==> e.buffer == Settled(h, buffer))
            && (h.writes != [] ==> |h.loaded| == SECTOR_SIZE)
  {
    hide Inv, Begin, Run, Exec, Observed, BufferTold, ReadsTold, Settled, CallOk, HolderOk, Quiet;
    var e0 := Begin(threads, loader, buffer);
    BeginTold(threads, loader, buffer);
    RunTold(e0, NOTHING, buffer, steps);
    ToldBuffer(Exec(e0, steps), Observed(e0, NOTHING, steps), buffer);
  }

  // ---- Calls come to an end ----

  /** Thread T takes N steps. */
  ghost function Alone(t: Tid, n: nat): (s: seq<(Tid, Step)>)
    ensures |s| == n
  {
    seq(n, _ => (t, Go))
  }

  lemma AloneFirst(e: Entry, t: Tid, n: nat)
    requires n > 0 && Enabled(e, t, Go)
    ensures Run(e, Alone(t, n)) <==> Run(Do(e, t, Go), Alone(t, n - 1))
    ensures Run(e, Alone(t, n)) ==> Exec(e, Alone(t, n)) == Exec(Do(e, t, Go), Alone(t, n - 1))
  {
    assert Alone(t, n)[1..] == Alone(t, n - 1);
  }

  /** E is where thread T alone takes ENTRY in N steps. */
  ghost predicate Reaches(entry: Entry, t: Tid, n: nat, e: Entry) {
    Run(entry, Alone(t, n)) && Exec(entry, Alone(t, n)) == e
  }

  lemma ReachesOne(e: Entry, t: Tid, n: nat, last: Entry)
    requires Enabled(e, t, Go) && Reaches(Do(e, t, Go), t, n, last)
    ensures Reaches(e, t, n + 1, last)
  {
    AloneFirst(e, t, n + 1);
  }

  lemma ReachesNone(e: Entry, t: Tid)
    ensures Reaches(e, t, 0, e)
  {
  }

  lemma PatchFirst(b: seq<byte>, i: nat, x: byte, data: seq<byte>, rest: seq<byte>)
    requires i + |data| <= |b| && data == [x] + rest
    ensures Patch(b, i, data) == Patch(Poke(b, i, x), i + 1, rest)
  {
  }

  lemma PatchNothing(b: seq<byte>, i: nat, data: seq<byte>)
    requires i <= |b| && data == []
    ensures Patch(b, i, data) == b
  {
  }

  /** The entry when thread T, which is storing, has returned. */
  ghost function Stored(e: Entry, t: Tid): Entry
    requires t in e.pcs && e.pcs[t].Writing?
    requires var p := e.pcs[t]; p.k <= |p.data| && p.ofs + |p.data| <= |e.buffer|
  {
    var p := e.pcs[t];
    e.(owner := None, pcs := e.pcs[t := Outside([])], buffer := Patch(e.buffer, p.ofs + p.k, p.data[p.k..]))
  }

  lemma StoredOn(e: Entry, t: Tid)
    requires t in e.pcs && e.pcs[t].Writing?
    requires var p := e.pcs[t]; p.k < |p.data| && p.ofs + |p.data| <= |e.buffer|
    ensures var e1 := Do(e, t, Go);
            && t in e1.pcs && e1.pcs[t] == e.pcs[t].(k := e.pcs[t].k + 1) && |e1.buffer| == |e.buffer|
            && Stored(e1, t) == Stored(e, t)
  {
    hide Patch;
    var p := e.pcs[t];
    PatchFirst(e.buffer, p.ofs + p.k, p.data[p.k], p.data[p.k..], p.data[p.k + 1..]);
  }

  lemma {:induction false} StoresOn(e: Entry, t: Tid)
    requires t in e.pcs && e.pcs[t].Writing?
    requires var p := e.pcs[t]; p.k <= |p.data| && p.ofs + |p.data| <= |e.buffer|
    ensures Reaches(e, t, |e.pcs[t].data| - e.pcs[t].k + 2, Stored(e, t))
    decreases |e.pcs[t].data| - e.pcs[t].k
  {
    hide Reaches, Patch, Stored, Do;
    var p, e1 := e.pcs[t], Do(e, t, Go);
    if p.k < |p.data| {
      StoredOn(e, t);
      StoresOn(e1, t);
      ReachesOne(e, t, |p.data| - p.k + 1, Stored(e, t));
    } else {
      StoredLast(e, t);
    }
  }

  lemma StoredLast(e: Entry, t: Tid)
    requires t in e.pcs && e.pcs[t].Writing?
    requires var p := e.pcs[t]; p.k == |p.data| && p.ofs + |p.data| <= |e.buffer|
    ensures Reaches(e, t, 2, Stored(e, t))
  {
    hide Reaches, Patch;
    var p, e1, last := e.pcs[t], Do(e, t, Go), Stored(e, t);
    PatchNothing(e.buffer, p.ofs + p.k, p.data[p.k..]);
    assert Do(e1, t, Go) == last;
    ReachesNone(last, t);
    ReachesOne(e1, t, 0, last);
    ReachesOne(e, t, 1, last);
  }

  /** A write that waits for the lock, at first or after a signal, gets it if it is free, and returns if
      there are no readers; it has then stored its bytes and nothing else. */
  lemma WriteReturns(e: Entry, t: Tid, ofs: nat, data: seq<byte>)
    requires Inv(e) && e.owner.None? && e.readers == 0 && t in e.pcs
    requires e.pcs[t] == WriteEnter(ofs, data) || e.pcs[t] == Woken(ofs, data)
    ensures |e.buffer| == SECTOR_SIZE && ofs + |data| <= SECTOR_SIZE
    ensures Reaches(e, t, |data| + 4,
                e.(pcs := e.pcs[t := Outside([])], buffer := Patch(e.buffer, ofs, data)))
  {
    hide LockOk, ReadersOk, QueueOk, Reaches;
    assert CopyAt(e, e.pcs[t]);
    var e1 := Do(e, t, Go);
    var e2 := Do(e1, t, Go);
    var last := e.(pcs := e.pcs[t := Outside([])], buffer := Patch(e.buffer, ofs, data));
    assert data[0..] == data;
    assert e2.pcs[t := Outside([])] == last.pcs;
    StoresOn(e2, t);
    ReachesOne(e1, t, |data| + 2, last);
    ReachesOne(e, t, |data| + 3, last);
  }

  lemma {:induction false} CopiesOn(e: Entry, t: Tid, last: Entry)
    requires t in e.pcs && e.pcs[t].Copying? && e.owner.None? && e.readers > 0 && (e.readers == 1 ==> e.queue == [])
    requires var p := e.pcs[t]; p.from + |p.got| <= p.to <= |e.buffer| && p.got == e.buffer[p.from..p.from + |p.got|]
    requires var p := e.pcs[t];
             last == e.(pcs := e.pcs[t := Outside(e.buffer[p.from..p.to])], readers := e.readers - 1)
    ensures Reaches(e, t, e.pcs[t].to - e.pcs[t].from - |e.pcs[t].got| + 4, last)
    decreases e.pcs[t].to - e.pcs[t].from - |e.pcs[t].got|
  {
    hide Run, Exec;
    var p, e1 := e.pcs[t], Do(e, t, Go);
    if p.from + |p.got| < p.to {
      CopiesOn(e1, t, last);
      ReachesOne(e, t, p.to - p.from - |p.got| + 3, last);
    } else {
      LeavesOn(e1, t, last);
      ReachesOne(e, t, 3, last);
    }
  }

  lemma LeavesOn(e: Entry, t: Tid, last: Entry)
    requires t in e.pcs && e.pcs[t].ReadLeave? && e.owner.None? && e.readers > 0 && (e.readers == 1 ==> e.queue == [])
    requires last == e.(pcs := e.pcs[t := Outside(e.pcs[t].got)], readers := e.readers - 1)
    ensures Reaches(e, t, 3, last)
  {
    hide Run, Exec;
    var e1 := Do(e, t, Go);
    var e2 := Do(e1, t, Go);
    assert Do(e2, t, Go) == last;
    ReachesNone(last, t);
    ReachesOne(e2, t, 0, last);
    ReachesOne(e1, t, 1, last);
    ReachesOne(e, t, 2, last);
  }

  /** A read that waits for the lock gets it if it is free, and returns, with the bytes it asked for; it
      changes nothing. */
  lemma ReadReturns(e: Entry, t: Tid, from: nat, to: nat)
    requires Inv(e) && e.owner.None? && t in e.pcs && e.pcs[t] == ReadEnter(from, to)
    ensures from <= to <= SECTOR_SIZE == |e.buffer|
    ensures Reaches(e, t, to - from + 7, e.(pcs := e.pcs[t := Outside(e.buffer[from..to])]))
  {
    hide ReadersOk, Reaches;
    assert CopyAt(e, e.pcs[t]);
    var e1 := Do(e, t, Go);
    var e2 := Do(e1, t, Go);
    var e3 := Do(e2, t, Go);
    var last := e.(pcs := e.pcs[t := Outside(e.buffer[from..to])]);
    if e.readers == 0 {
      NobodyWaits(e);
    }
    assert e3.pcs[t := Outside(e.buffer[from..to])] == last.pcs;
    CopiesOn(e3, t, last);
    ReachesOne(e2, t, to - from + 4, last);
    ReachesOne(e1, t, to - from + 5, last);
    ReachesOne(e, t, to - from + 6, last);
  }

  /** With the lock free and no reader, no writer waits. */
  lemma NobodyWaits(e: Entry)
    requires LockOk(e) && QueueOk(e) && e.owner.None? && e.readers == 0
    ensures e.queue == []
  {
  }
}
