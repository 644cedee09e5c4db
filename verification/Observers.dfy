/** Long polling: observers wait on the channel of the generation they read in, and writers close it. */
module Observers {
  import opened Records
  import opened Cursor
  import opened Wrappers
  import opened History

  const MAX_WAITERS := 32

  /** The arguments of a read, kept for the second one. */
  datatype Ask = Ask(cursor: string, maxRecords: int, maxBytes: int)
  /** What the operating system says about the path; the handle itself answers until it is closed. */
  datatype Path = Path(open: bool, info: bool, same: bool)

  datatype Phase = Waiting | Woken | Leaving
  /** A registered observer: the channel it captured and the length of the file when it did. */
  datatype Observer = Observer(ask: Ask, channel: nat, seen: nat, phase: Phase)

  /** The sink's fields, the channels closed so far, and the observers between registering and leaving. */
  datatype Hub = Hub(epoch: string, bytes: string, fileClosed: bool, changed: Option<nat>, historyClosed: bool, waiters: int,
    channels: nat, closed: set<nat>, closedTwice: bool, observers: map<nat, Observer>)

  /** One region under the lock, or one arm of the wait. */
  datatype Step =
    | Write(line: string, n: nat)
    | Close
    | Observe(id: nat, ask: Ask, waitMs: int, path: Path)
    | Wake(id: nat)
    | Expire(id: nat)
    | Cancel(id: nat)
    | Reread(id: nat, path: Path)
    | Leave(id: nat)

  function Opened(epoch: string, bytes: string): Hub {
    Hub(epoch, bytes, false, None, false, 0, 0, {}, false, map[])
  }

  function PageNow(s: Hub, a: Ask, p: Path): Page {
    ReadPage(s.epoch, Disk(!s.fileClosed, p.open, p.info, p.same, s.bytes), a.cursor, a.maxRecords, a.maxBytes)
  }

  /** Nothing to read, and at the end: the one answer that waits. */
  predicate Waits(p: Page) { p.outcome == "page" && p.records == [] && p.atEnd }

  /** A closed file takes nothing. */
  predicate Enabled(s: Hub, t: Step) {
    match t
    case Write(line, n) => n <= |line| && (s.fileClosed ==> n == 0)
    case Close => true
    case Observe(id, _, _, _) => id !in s.observers
    case Wake(id) => id in s.observers && s.observers[id].phase.Waiting? && s.observers[id].channel in s.closed
    case Expire(id) => id in s.observers && s.observers[id].phase.Waiting?
    case Cancel(id) => id in s.observers && !s.observers[id].phase.Leaving?
    case Reread(id, _) => id in s.observers && s.observers[id].phase.Woken?
    case Leave(id) => id in s.observers && s.observers[id].phase.Leaving?
  }

  /** `close(c)`: closing a closed channel is what must never happen. */
  function Shut(s: Hub, c: nat): Hub { s.(closed := s.closed + {c}, closedTwice := s.closedTwice || c in s.closed) }

  function Moved(s: Hub, id: nat, phase: Phase): Hub
    requires id in s.observers
  {
    s.(observers := s.observers[id := s.observers[id].(phase := phase)])
  }

  /** The first observer makes the channel. */
  function Captured(s: Hub): (c: Hub)
    ensures c.changed.Some?
  {
    if s.changed.None? then s.(changed := Some(s.channels), channels := s.channels + 1) else s
  }

  function Registered(c: Hub, id: nat, ask: Ask): Hub
    requires c.changed.Some?
  {
    c.(waiters := c.waiters + 1, observers := c.observers[id := Observer(ask, c.changed.value, |c.bytes|, Waiting)])
  }

  function After(s: Hub, t: Step): Hub
    requires Enabled(s, t)
  {
    match t
    case Write(line, n) =>
      var w := s.(bytes := s.bytes + line[..n]);
      if n > 0 && w.changed.Some? then Shut(w, w.changed.value).(changed := Some(w.channels), channels := w.channels + 1) else w
    case Close =>
      var c := if s.historyClosed then s
        else if s.changed.Some? then Shut(s.(historyClosed := true), s.changed.value) else s.(historyClosed := true);
      c.(fileClosed := true)
    case Observe(id, ask, waitMs, path) =>
      if waitMs < 0 || waitMs > 30000 then s else
      var c := Captured(s);
      if !Waits(PageNow(c, ask, path)) || waitMs == 0 || c.waiters >= MAX_WAITERS then c else Registered(c, id, ask)
    case Wake(id) => Moved(s, id, Woken)
    case Expire(id) => Moved(s, id, Woken)
    case Cancel(id) => Moved(s, id, Leaving)
    case Reread(id, _) => Moved(s, id, Leaving)
    case Leave(id) => s.(waiters := s.waiters - 1, observers := s.observers - {id})
  }

  /** A run: steps that are not enabled do not happen. */
  function Run(s: Hub, steps: seq<Step>): Hub {
    if steps == [] then s
    else
      var before := Run(s, steps[..|steps|-1]);
      if Enabled(before, steps[|steps|-1]) then After(before, steps[|steps|-1]) else before
  }

  /** Something happened since the observer read: a write that wrote, or the sink's end. */
  predicate Due(s: Hub, o: Observer) { |s.bytes| > o.seen || s.historyClosed }

  ghost predicate Inv(s: Hub) {
    && !s.closedTwice
    && s.historyClosed == s.fileClosed
    && s.waiters == |s.observers| && s.waiters <= MAX_WAITERS
    && (forall c :: c in s.closed ==> c < s.channels)
    && (s.changed.Some? ==> s.changed.value < s.channels && (s.changed.value in s.closed ==> s.historyClosed))
    && (forall id :: id in s.observers ==> Tracked(s, s.observers[id]))
  }

  /** An observer's channel is closed exactly when something happened since it read; until then it is
      still the sink's current one. */
  ghost predicate Tracked(s: Hub, o: Observer) {
    && o.seen <= |s.bytes| && o.channel < s.channels
    && (o.channel in s.closed <==> Due(s, o))
    && (!Due(s, o) ==> s.changed == Some(o.channel))
    && Ended(s.bytes[..o.seen])
    && OffsetOf(s.epoch, o.ask.cursor) == Some(o.seen) && InLimits(o.ask.maxRecords, o.ask.maxBytes)
  }

  lemma WaitsAtEnd(s: Hub, a: Ask, p: Path)
    requires Waits(PageNow(s, a, p))
    ensures !s.fileClosed && OffsetOf(s.epoch, a.cursor) == Some(|s.bytes|) && InLimits(a.maxRecords, a.maxBytes) && Ended(s.bytes)
  {
    hide OffsetOf, Reads, Sum, AllSound, Gather;
    var d := Disk(!s.fileClosed, p.open, p.info, p.same, s.bytes);
    PageIs(s.epoch, d, a.cursor, a.maxRecords, a.maxBytes);
    var to: nat :| Serves(PageNow(s, a, p), s.epoch, s.bytes, OffsetOf(s.epoch, a.cursor).value, to, a.maxRecords, a.maxBytes);
    assert s.bytes[..|s.bytes|] == s.bytes;
  }

  lemma WriteKeeps(s: Hub, line: string, n: nat)
    requires Inv(s) && Enabled(s, Write(line, n))
    ensures Inv(After(s, Write(line, n)))
  {
    hide OffsetOf;
    var t := After(s, Write(line, n));
    forall id | id in t.observers ensures Tracked(t, t.observers[id]) {
      var o := s.observers[id];
      assert Tracked(s, o);
      assert t.bytes[..o.seen] == s.bytes[..o.seen];
    }
  }

  lemma CaptureKeeps(s: Hub)
    requires Inv(s)
    ensures Inv(Captured(s)) && Captured(s).observers == s.observers
  {
    hide OffsetOf, Ended;
    var c := Captured(s);
    forall k | k in c.observers ensures Tracked(c, c.observers[k]) { assert Tracked(s, s.observers[k]); }
  }

  lemma NewObserver(c: Hub, ask: Ask)
    requires Inv(c) && c.changed.Some? && !c.fileClosed
    requires OffsetOf(c.epoch, ask.cursor) == Some(|c.bytes|) && InLimits(ask.maxRecords, ask.maxBytes) && Ended(c.bytes)
    ensures Tracked(c, Observer(ask, c.changed.value, |c.bytes|, Waiting))
  {
    hide OffsetOf, Ended, InLimits;
    assert c.bytes[..|c.bytes|] == c.bytes;
  }

  /** Tracking looks at the sink's fields, not at the other observers. */
  lemma TrackedElsewhere(s: Hub, t: Hub, o: Observer)
    requires Tracked(s, o) && t == s.(waiters := t.waiters, observers := t.observers)
    ensures Tracked(t, o)
  {
    hide OffsetOf, Ended, InLimits;
  }

  lemma RegisterKeeps(c: Hub, id: nat, ask: Ask)
    requires Inv(c) && c.changed.Some? && id !in c.observers && c.waiters < MAX_WAITERS
    requires !c.fileClosed && OffsetOf(c.epoch, ask.cursor) == Some(|c.bytes|) && InLimits(ask.maxRecords, ask.maxBytes) && Ended(c.bytes)
    ensures Inv(Registered(c, id, ask))
  {
    hide OffsetOf, Ended, InLimits, Tracked;
    var t := Registered(c, id, ask);
    NewObserver(c, ask);
    forall k | k in t.observers ensures Tracked(t, t.observers[k]) {
      TrackedElsewhere(c, t, t.observers[k]);
    }
    assert t.observers.Keys == c.observers.Keys + {id};
    MapSize(t.observers);
    MapSize(c.observers);
  }

  lemma ObserveKeeps(s: Hub, id: nat, ask: Ask, waitMs: int, path: Path)
    requires Inv(s) && Enabled(s, Observe(id, ask, waitMs, path))
    ensures Inv(After(s, Observe(id, ask, waitMs, path)))
  {
    hide OffsetOf, PageNow, Waits, Inv, Captured, Registered;
    var c := Captured(s);
    CaptureKeeps(s);
    if Waits(PageNow(c, ask, path)) && c.waiters < MAX_WAITERS {
      WaitsAtEnd(c, ask, path);
      RegisterKeeps(c, id, ask);
    }
  }

  lemma MapSize<T>(m: map<nat, T>)
    ensures |m| == |m.Keys|
  {
  }

  lemma MoveKeeps(s: Hub, id: nat, phase: Phase)
    requires Inv(s) && id in s.observers
    ensures Inv(Moved(s, id, phase))
  {
    hide OffsetOf, Ended, InLimits, Tracked;
    var t := Moved(s, id, phase);
    assert t.observers.Keys == s.observers.Keys;
    MapSize(t.observers);
    MapSize(s.observers);
    forall k | k in t.observers ensures Tracked(t, t.observers[k]) {
      PhaseApart(s, s.observers[k], phase);
      TrackedElsewhere(s, t, t.observers[k]);
    }
  }

  lemma PhaseApart(s: Hub, o: Observer, phase: Phase)
    requires Tracked(s, o)
    ensures Tracked(s, o.(phase := phase))
  {
    hide OffsetOf, Ended, InLimits;
  }

  lemma CloseKeeps(s: Hub)
    requires Inv(s)
    ensures Inv(After(s, Close))
  {
    hide OffsetOf, Ended, InLimits;
    forall k | k in s.observers ensures Tracked(After(s, Close), s.observers[k]) { assert Tracked(s, s.observers[k]); }
  }

  lemma LeaveKeeps(s: Hub, id: nat)
    requires Inv(s) && id in s.observers
    ensures Inv(s.(waiters := s.waiters - 1, observers := s.observers - {id}))
  {
    hide OffsetOf, Ended, InLimits, Tracked;
    var u := s.(waiters := s.waiters - 1, observers := s.observers - {id});
    assert s.observers.Keys == u.observers.Keys + {id};
    MapSize(u.observers);
    MapSize(s.observers);
    forall k | k in u.observers ensures Tracked(u, u.observers[k]) { TrackedElsewhere(s, u, s.observers[k]); }
  }

  lemma StepKeeps(s: Hub, t: Step)
    requires Inv(s) && Enabled(s, t)
    ensures Inv(After(s, t))
  {
    hide Inv, PageNow, Captured, Registered, Moved, Shut;
    match t
    case Write(line, n) => WriteKeeps(s, line, n);
    case Close => CloseKeeps(s);
    case Observe(id, ask, waitMs, path) => ObserveKeeps(s, id, ask, waitMs, path);
    case Wake(id) => MoveKeeps(s, id, Woken);
    case Expire(id) => MoveKeeps(s, id, Woken);
    case Cancel(id) => MoveKeeps(s, id, Leaving);
    case Reread(id, _) => MoveKeeps(s, id, Leaving);
    case Leave(id) => LeaveKeeps(s, id);
  }

  /** On every run: no channel is closed twice, the waiters are the registered observers and at most 32,
      and each observer's channel is closed exactly if something happened since it read. */
  lemma {:induction false} RunKeeps(epoch: string, bytes: string, steps: seq<Step>)
    ensures Inv(Run(Opened(epoch, bytes), steps))
  {
    if steps != [] {
      RunKeeps(epoch, bytes, steps[..|steps|-1]);
      var before := Run(Opened(epoch, bytes), steps[..|steps|-1]);
      if Enabled(before, steps[|steps|-1]) { StepKeeps(before, steps[|steps|-1]); }
    }
  }

  /** No wakeup is lost and none is spurious: on every run a waiting observer can wake exactly if a write
      wrote or the sink closed since it read. */
  lemma NoLostWakeup(epoch: string, bytes: string, steps: seq<Step>, id: nat)
    requires var s := Run(Opened(epoch, bytes), steps); id in s.observers && s.observers[id].phase.Waiting?
    ensures var s := Run(Opened(epoch, bytes), steps);
      Enabled(s, Wake(id)) <==> |s.bytes| > s.observers[id].seen || s.historyClosed
  {
    hide Run, Inv;
    RunKeeps(epoch, bytes, steps);
    ObserverIs(Run(Opened(epoch, bytes), steps), id);
  }

  lemma {:induction false} OnlyGrows(s: Hub, more: seq<Step>)
    requires Inv(s)
    ensures Inv(Run(s, more)) && s.bytes <= Run(s, more).bytes && (s.historyClosed ==> Run(s, more).historyClosed)
  {
    hide Inv, PageNow, Waits;
    if more != [] {
      var before := Run(s, more[..|more|-1]);
      OnlyGrows(s, more[..|more|-1]);
      if Enabled(before, more[|more|-1]) { StepKeeps(before, more[|more|-1]); }
    }
  }

  /** Once an observer can wake it can until it moves, whatever else runs. */
  lemma WakeupStays(s: Hub, more: seq<Step>, id: nat)
    requires Inv(s) && id in s.observers && Enabled(s, Wake(id))
    requires id in Run(s, more).observers && Run(s, more).observers[id] == s.observers[id]
    ensures Enabled(Run(s, more), Wake(id))
  {
    hide Inv, Run;
    OnlyGrows(s, more);
    ObserverIs(s, id);
    ObserverIs(Run(s, more), id);
  }

  lemma ObserverIs(s: Hub, id: nat)
    requires Inv(s) && id in s.observers
    ensures Tracked(s, s.observers[id])
  {
    hide Tracked;
  }

  /** A read from a line boundary with a servable line behind it. */
  lemma BoundaryRead(epoch: string, disk: Disk, a: Ask, seen: nat)
    requires disk.stat && disk.open && disk.info && disk.same && seen < |disk.bytes| && Ended(disk.bytes[..seen])
    requires OffsetOf(epoch, a.cursor) == Some(seen) && InLimits(a.maxRecords, a.maxBytes) && Servable(disk.bytes[seen..], a.maxBytes)
    ensures var p := ReadPage(epoch, disk, a.cursor, a.maxRecords, a.maxBytes); p.outcome == "page" && p.records != []
  {
    hide OffsetOf, Gather, Servable, Reads, Sum, AllSound, Spelled;
    var b := disk.bytes;
    assert seen > 0 ==> b[..seen][seen-1] == b[seen-1];
    GatherServes(b, seen, [], 0, a.maxRecords, a.maxBytes);
    NothingSummed();
    GatherIs(b, seen, [], 0, a.maxRecords, a.maxBytes);
  }

  /** An observer woken by lines that fit its budget rereads a page with records in it. */
  lemma WokenRereads(s: Hub, id: nat, path: Path)
    requires Inv(s) && id in s.observers && s.observers[id].phase.Woken? && path == Path(true, true, true) && !s.fileClosed
    requires var o := s.observers[id]; o.seen < |s.bytes| && o.ask.maxBytes >= 0 && Servable(s.bytes[o.seen..], o.ask.maxBytes)
    ensures var p := PageNow(s, s.observers[id].ask, path); p.outcome == "page" && p.records != []
  {
    hide OffsetOf, Servable, Ended, ReadPage, Inv;
    ObserverIs(s, id);
    var o := s.observers[id];
    BoundaryRead(s.epoch, Disk(true, true, true, true, s.bytes), o.ask, o.seen);
  }

  // ---- the lock regions ----

  /** The sink's fields under its mutex, and the channels it has made: each method is one region. */
  class FileSink {
    const epoch: string
    var bytes: string
    var fileClosed: bool
    var historyChanged: Option<nat>
    var historyClosed: bool
    var historyWaiters: int
    var channels: nat
    var closed: set<nat>
    var closedTwice: bool
    ghost var observers: map<nat, Observer>

    ghost function View(): Hub reads this {
      Hub(epoch, bytes, fileClosed, historyChanged, historyClosed, historyWaiters, channels, closed, closedTwice, observers)
    }

    ghost predicate Valid() reads this { Inv(View()) }

    constructor (key: string, found: string)
      ensures Valid() && View() == Opened(key, found)
    {
      epoch, bytes, fileClosed, historyChanged, historyClosed := key, found, false, None, false;
      historyWaiters, channels, closed, closedTwice, observers := 0, 0, {}, false, map[];
    }

    method CloseChannel(c: nat)
      modifies this`closed, this`closedTwice
      ensures closed == old(closed) + {c} && closedTwice == (old(closedTwice) || c in old(closed))
    {
      closedTwice := closedTwice || c in closed;
      closed := closed + {c};
    }

    /** n is how much of the line the operating system took. */
    method Write(line: string, n: nat)
      requires Valid() && Enabled(View(), Step.Write(line, n))
      modifies this
      ensures Valid() && View() == After(old(View()), Step.Write(line, n))
    {
      hide Inv;
      StepKeeps(View(), Step.Write(line, n));
      bytes := bytes + line[..n];
      if n > 0 && historyChanged.Some? {
        CloseChannel(historyChanged.value);
        historyChanged, channels := Some(channels), channels + 1;
      }
    }

    method Close()
      requires Valid()
      modifies this
      ensures Valid() && View() == After(old(View()), Step.Close)
    {
      hide Inv;
      StepKeeps(View(), Step.Close);
      if !historyClosed {
        historyClosed := true;
        if historyChanged.Some? { CloseChannel(historyChanged.value); }
      }
      fileClosed := true;
    }

    method Capture()
      modifies this`historyChanged, this`channels
      ensures View() == Captured(old(View()))
    {
      if historyChanged.None? { historyChanged, channels := Some(channels), channels + 1; }
    }

    /** Up to the wait: what to answer at once, or the channel to wait on. */
    method Observe(ghost id: nat, ask: Ask, waitMs: int, path: Path) returns (p: Page, wait: Option<nat>)
      requires Valid() && Enabled(View(), Step.Observe(id, ask, waitMs, path))
      modifies this
      ensures Valid() && View() == After(old(View()), Step.Observe(id, ask, waitMs, path))
      ensures wait.Some? <==> id in observers
      ensures wait.Some? ==> wait.value == observers[id].channel && observers[id].seen == |bytes|
      ensures wait.None? ==> (p ==
        if waitMs < 0 || waitMs > 30000 then Refusing("invalid_request", ask.cursor)
        else if Waits(PageNow(View(), ask, path)) && waitMs > 0 then Refusing("unavailable", ask.cursor)
        else PageNow(View(), ask, path))
    {
      hide Inv, ReadPage, After, Enabled;
      StepKeeps(View(), Step.Observe(id, ask, waitMs, path));
      ObserveIs(View(), id, ask, waitMs, path);
      WaitersBounded(View());
      if waitMs < 0 || waitMs > 30000 { return Refusing("invalid_request", ask.cursor), None; }
      Capture();
      p := ReadPage(epoch, Disk(!fileClosed, path.open, path.info, path.same, bytes), ask.cursor, ask.maxRecords, ask.maxBytes);
      if p.outcome != "page" || |p.records| > 0 || !p.atEnd || waitMs == 0 { return p, None; }
      if historyWaiters >= MAX_WAITERS { return Refusing("unavailable", ask.cursor), None; }
      historyWaiters := historyWaiters + 1;
      observers := observers[id := Observer(ask, historyChanged.value, |bytes|, Waiting)];
      wait := historyChanged;
    }

    /** The deferred region of an observer that has its answer. */
    method Depart(ghost id: nat)
      requires Valid() && Enabled(View(), Leave(id))
      modifies this
      ensures Valid() && View() == After(old(View()), Leave(id))
    {
      hide Inv;
      StepKeeps(View(), Leave(id));
      RegisteredCount(View(), id);
      historyWaiters := historyWaiters - 1;
      observers := observers - {id};
    }
  }

  lemma ObserveIs(s: Hub, id: nat, ask: Ask, waitMs: int, path: Path)
    requires Enabled(s, Observe(id, ask, waitMs, path))
    ensures id !in s.observers && Captured(s).observers == s.observers
    ensures var c := Captured(s);
      After(s, Observe(id, ask, waitMs, path)) ==
        if waitMs < 0 || waitMs > 30000 then s
        else if !Waits(PageNow(c, ask, path)) || waitMs == 0 || c.waiters >= MAX_WAITERS then c
        else Registered(c, id, ask)
  {
    hide PageNow, Waits, Registered;
  }

  lemma WaitersBounded(s: Hub)
    requires Inv(s)
    ensures s.waiters <= MAX_WAITERS
  {
  }

  lemma RegisteredCount(s: Hub, id: nat)
    requires Inv(s) && id in s.observers
    ensures s.waiters >= 1
  {
    MapSize(s.observers);
  }
}
