/** Asynchronous delivery: writers, one runner, a worker that may hang in the inner sink, closers. Every
    region under the lock is one step, every channel operation is one step, and a timer may fire at any time. */
module Async {
  import opened Wrappers

  /** A record is known by a number. */
  type Item = nat

  // ---- what the lock guards ----

  datatype Counts = Counts(accepted: nat, dropped: nat, written: nat, failed: nat, abandoned: nat, overflowing: bool, failing: bool)
  datatype Shared = Shared(closed: bool, queue: seq<Item>, counts: Counts)

  datatype Written = Taken | QueueFull(first: bool) | SinkClosed

  function Offer(s: Shared, capacity: nat, r: Item): Written {
    if s.closed then SinkClosed else if |s.queue| < capacity then Taken else QueueFull(!s.counts.overflowing)
  }

  function Offered(s: Shared, capacity: nat, r: Item): Shared {
    match Offer(s, capacity, r)
    case SinkClosed => s
    case Taken => s.(queue := s.queue + [r], counts := s.counts.(accepted := s.counts.accepted + 1, overflowing := false))
    case QueueFull(_) => s.(counts := s.counts.(dropped := s.counts.dropped + 1, overflowing := true))
  }

  function Accounted(c: Counts, ok: bool): Counts {
    if ok then c.(written := c.written + 1, failing := false) else c.(failed := c.failed + 1, failing := true)
  }

  // ---- the threads ----

  /** Where the delivery goroutine is. */
  datatype Runner =
    | Receiving
    | Checking           // holds a record, has not looked at the stop signal
    | Abandoning
    | Calling            // in the inner sink itself, no write timeout
    | WaitingForPending  // an earlier timed-out delivery has not returned
    | Handing            // about to send to the worker
    | Awaiting(channel: nat)
    | Accounting(ok: bool)
    | Reporting(failure: bool)
    | Exited

  /** Where the delivering goroutine is; Returning is between its send and the next receive. */
  datatype Worker = Idle | Busy(channel: nat) | Sending(channel: nat, ok: bool) | Returning | Gone

  datatype Fate = Open | Delivered | Lost | Abandoned
  /** A record the runner has taken: whether the inner sink was called with it, and what became of it. */
  datatype Entry = Entry(r: Item, handed: bool, fate: Fate)

  datatype State = State(
    capacity: nat, bounded: bool,
    shared: Shared, stop: bool, done: bool,
    runner: Runner, worker: Worker, pending: Option<nat>,
    results: map<nat, bool>, channels: nat,
    // history
    accepted: seq<Item>, log: seq<Entry>, given: seq<Item>, writes: seq<bool>, overflows: nat, calls: seq<bool>,
    reports: seq<nat>, left: nat)

  datatype Step =
    | Write(r: Item) | CloseQueue | Remaining | Cancel
    | Take | Exit | Check | Abandon | InnerReturns(ok: bool)
    | PendingReturns | PendingTimesOut | HandOver | ResultArrives | TimesOut
    | Account | Report
    | WorkerReturns(ok: bool) | WorkerSends | WorkerReady | WorkerExits

  function Started(capacity: nat, bounded: bool): State {
    State(capacity, bounded, Shared(false, [], Counts(0, 0, 0, 0, 0, false, false)), false, false,
      Receiving, Idle, None, map[], 0, [], [], [], [], 0, [], [], 0)
  }

  predicate Enabled(s: State, t: Step) {
    match t
    case Write(_) => true
    case CloseQueue => true
    case Remaining => s.shared.closed
    case Cancel => s.reports != [] && !s.stop
    case Take => s.runner.Receiving? && s.shared.queue != []
    case Exit => s.runner.Receiving? && s.shared.queue == [] && s.shared.closed
    case Check => s.runner.Checking?
    case Abandon => s.runner.Abandoning?
    case InnerReturns(_) => s.runner.Calling?
    case PendingReturns => s.runner.WaitingForPending? && s.pending.Some? && s.pending.value in s.results
    case PendingTimesOut => s.runner.WaitingForPending?
    case HandOver => s.runner.Handing? && s.worker.Idle?
    case ResultArrives => s.runner.Awaiting? && s.runner.channel in s.results
    case TimesOut => s.runner.Awaiting?
    case Account => s.runner.Accounting?
    case Report => s.runner.Reporting?
    case WorkerReturns(_) => s.worker.Busy?
    case WorkerSends => s.worker.Sending? && s.worker.channel !in s.results
    case WorkerReady => s.worker.Returning?
    case WorkerExits => s.worker.Idle? && s.runner.Exited?
  }

  /** The runner's current record. */
  function Marked(log: seq<Entry>, handed: bool, fate: Fate): (l: seq<Entry>)
    ensures |l| == |log|
  {
    if log == [] then log else log[|log|-1 := log[|log|-1].(handed := handed, fate := fate)]
  }

  function Current(log: seq<Entry>): seq<Item> { if log == [] then [] else [log[|log|-1].r] }

  function LastHanded(log: seq<Entry>): bool { log != [] && log[|log|-1].handed }

  function After(s: State, t: Step): State
    requires Enabled(s, t)
  {
    match t
    case Write(r) =>
      var o := Offer(s.shared, s.capacity, r);
      s.(shared := Offered(s.shared, s.capacity, r), accepted := if o.Taken? then s.accepted + [r] else s.accepted,
         writes := if o.SinkClosed? then s.writes else s.writes + [o.Taken?], overflows := s.overflows + if o == QueueFull(true) then 1 else 0)
    case CloseQueue => s.(shared := s.shared.(closed := true))
    case Remaining => s.(reports := s.reports + [|s.shared.queue|])
    case Cancel => s.(stop := true, left := |s.shared.queue| + if s.runner.Checking? then 1 else 0)
    case Take =>
      s.(runner := Checking, shared := s.shared.(queue := s.shared.queue[1..]), log := s.log + [Entry(s.shared.queue[0], false, Open)])
    case Exit => s.(runner := Exited, done := true)
    case Check =>
      if s.stop then s.(runner := Abandoning)
      else if !s.bounded then s.(runner := Calling, log := Marked(s.log, true, Open), given := s.given + Current(s.log))
      else if s.pending.Some? then s.(runner := WaitingForPending)
      else s.(runner := Handing)
    case Abandon =>
      s.(runner := Receiving, log := Marked(s.log, false, Abandoned),
         shared := s.shared.(counts := s.shared.counts.(abandoned := s.shared.counts.abandoned + 1)))
    case InnerReturns(ok) => s.(runner := Accounting(ok))
    case PendingReturns => s.(runner := Handing, pending := None, results := s.results - {s.pending.value})
    case PendingTimesOut => s.(runner := Accounting(false))
    case HandOver =>
      s.(runner := Awaiting(s.channels), worker := Busy(s.channels), channels := s.channels + 1,
         log := Marked(s.log, true, Open), given := s.given + Current(s.log))
    case ResultArrives => s.(runner := Accounting(s.results[s.runner.channel]), results := s.results - {s.runner.channel})
    case TimesOut => s.(runner := Accounting(false), pending := Some(s.runner.channel))
    case Account =>
      var ok := s.runner.ok;
      var was := s.shared.counts.failing;
      s.(runner := if was == ok then Reporting(!ok) else Receiving,
         shared := s.shared.(counts := Accounted(s.shared.counts, ok)),
         log := Marked(s.log, LastHanded(s.log), if ok then Delivered else Lost))
    case Report => s.(runner := Receiving, calls := s.calls + [s.runner.failure])
    case WorkerReturns(ok) => s.(worker := Sending(s.worker.channel, ok))
    case WorkerSends => s.(worker := Returning, results := s.results[s.worker.channel := s.worker.ok])
    case WorkerReady => s.(worker := Idle)
    case WorkerExits => s.(worker := Gone)
  }

  function Run(s: State, steps: seq<Step>): State {
    if steps == [] then s
    else
      var before := Run(s, steps[..|steps|-1]);
      if Enabled(before, steps[|steps|-1]) then After(before, steps[|steps|-1]) else before
  }

  // ---- invariants ----

  /** The runner holds a record nothing has been decided about. */
  predicate InFlight(r: Runner) { !r.Receiving? && !r.Reporting? && !r.Exited? }

  function CountOf(log: seq<Entry>, f: Fate): (n: nat)
    ensures n <= |log|
  {
    if log == [] then 0 else CountOf(log[..|log|-1], f) + if log[|log|-1].fate == f then 1 else 0
  }

  function Items(log: seq<Entry>): (rs: seq<Item>)
    ensures |rs| == |log|
  {
    seq(|log|, i requires 0 <= i < |log| => log[i].r)
  }

  /** The records handed to the inner sink, as the log has them. */
  function GivenOf(log: seq<Entry>): seq<Item> {
    if log == [] then [] else GivenOf(log[..|log|-1]) + if log[|log|-1].handed then [log[|log|-1].r] else []
  }

  /** Conservation: every record is in exactly one place. */
  ghost predicate Conserved(s: State) {
    var c := s.shared.counts;
    && |s.shared.queue| <= s.capacity
    && s.accepted == Items(s.log) + s.shared.queue
    && c.accepted == |s.accepted| && c.accepted + c.dropped == |s.writes|
    && c.written == CountOf(s.log, Delivered) && c.failed == CountOf(s.log, Lost) && c.abandoned == CountOf(s.log, Abandoned)
    && CountOf(s.log, Open) == (if InFlight(s.runner) then 1 else 0)
    && c.written + c.failed + c.abandoned + CountOf(s.log, Open) == |s.log|
  }

  /** What was handed over, and what that says about its fate. */
  ghost predicate Orderly(s: State) {
    && s.given == GivenOf(s.log)
    && (InFlight(s.runner) ==> s.log != [] && s.log[|s.log|-1].fate == Open)
    && (forall i :: 0 <= i < |s.log| ==> Settled(s.log[i], s.bounded) || (i == |s.log| - 1 && InFlight(s.runner)))
    && (s.runner.Checking? || s.runner.Abandoning? || s.runner.WaitingForPending? || s.runner.Handing? ==> !LastHanded(s.log))
    && (s.runner.Calling? || s.runner.Awaiting? ==> LastHanded(s.log))
    && (s.runner.Accounting? && (s.runner.ok || !s.bounded) ==> LastHanded(s.log))
  }

  predicate Settled(e: Entry, bounded: bool) {
    e.fate != Open && (e.fate == Delivered ==> e.handed) && (e.fate == Abandoned ==> !e.handed) && (e.fate == Lost && !bounded ==> e.handed)
  }

  /** The worker and the channels: whatever it is busy with, one place waits for. */
  ghost predicate Exclusive(s: State) {
    && (s.runner.Calling? ==> !s.bounded)
    && (s.runner.WaitingForPending? || s.runner.Handing? || s.runner.Awaiting? || s.pending.Some? ==> s.bounded)
    && (s.runner.Handing? ==> s.pending.None?)
    && (s.runner.WaitingForPending? ==> s.pending.Some?)
    && (s.runner.Awaiting? ==> s.pending.None? && s.runner.channel < s.channels)
    && (s.pending.Some? ==> s.pending.value < s.channels)
    && (s.worker.Busy? || s.worker.Sending? ==> Expected(s, s.worker.channel) && s.worker.channel !in s.results)
    && (forall c :: c in s.results ==> Expected(s, c) && !s.worker.Busy? && !s.worker.Sending?)
    && (s.worker.Gone? ==> s.runner.Exited?)
  }

  /** A result the runner is waiting for, now or when the next record's turn comes. */
  predicate Expected(s: State, c: nat) {
    s.pending == Some(c) || s.runner == Awaiting(c)
  }

  predicate Alternating(calls: seq<bool>) { forall i :: 0 <= i < |calls| ==> calls[i] == (i % 2 == 0) }

  /** Callbacks run, and the one the runner is about to make. */
  function Due(s: State): seq<bool> { if s.runner.Reporting? then s.calls + [s.runner.failure] else s.calls }

  function DropRuns(writes: seq<bool>): (n: nat)
  {
    if writes == [] then 0
    else
      var k := |writes| - 1;
      DropRuns(writes[..k]) + if !writes[k] && (k == 0 || writes[k-1]) then 1 else 0
  }

  /** One overflow was reported for each run of drops. */
  ghost predicate Overflows(writes: seq<bool>, overflows: nat, overflowing: bool) {
    overflows == DropRuns(writes) && overflowing == (writes != [] && !writes[|writes|-1])
  }

  ghost predicate Reported(s: State) {
    && Alternating(Due(s)) && s.shared.counts.failing == (|Due(s)| % 2 == 1)
    && Overflows(s.writes, s.overflows, s.shared.counts.overflowing)
  }

  /** A cancelled sink abandons exactly what was left. Only a closer that has read the queue cancels. */
  ghost predicate Stopping(s: State) {
    && (s.reports != [] ==> s.shared.closed)
    && (s.stop ==> s.shared.closed && s.shared.counts.abandoned + |s.shared.queue| + (if s.runner.Checking? || s.runner.Abandoning? then 1 else 0) == s.left)
    && (!s.stop ==> s.shared.counts.abandoned == 0 && !s.runner.Abandoning?)
    && (s.done <==> s.runner.Exited?)
    && (s.done ==> s.shared.closed && s.shared.queue == [])
  }

  ghost predicate Inv(s: State) {
    s.capacity > 0 && Conserved(s) && Orderly(s) && Exclusive(s) && Reported(s) && Stopping(s)
  }

  // ---- every step keeps them ----

  lemma MarkedIs(log: seq<Entry>, handed: bool, fate: Fate, g: Fate)
    requires log != [] && log[|log|-1].fate == Open
    ensures Items(Marked(log, handed, fate)) == Items(log)
    ensures CountOf(Marked(log, handed, fate), g) == CountOf(log, g) - (if g == Open then 1 else 0) + (if g == fate then 1 else 0)
  {
    var m := Marked(log, handed, fate);
    assert m[..|m|-1] == log[..|log|-1];
  }

  lemma AppendedIs(log: seq<Entry>, e: Entry, g: Fate)
    ensures CountOf(log + [e], g) == CountOf(log, g) + if g == e.fate then 1 else 0
    ensures Items(log + [e]) == Items(log) + [e.r]
  {
    assert (log + [e])[..|log|] == log;
  }

  lemma Longer(a: seq<Item>, q: seq<Item>, r: Item)
    ensures a + q + [r] == a + (q + [r])
  {
  }

  lemma WriteConserves(s: State, r: Item)
    requires Conserved(s)
    ensures Conserved(After(s, Write(r)))
  {
    hide Marked, CountOf, Items, GivenOf, DropRuns, InFlight, LastHanded, Current;
    Longer(Items(s.log), s.shared.queue, r);
    match Offer(s.shared, s.capacity, r)
    case SinkClosed =>
    case Taken => var u := After(s, Write(r)); assert u.log == s.log && u.runner == s.runner && |u.accepted| == |s.accepted| + 1;
    case QueueFull(_) => var u := After(s, Write(r)); assert u.log == s.log && u.runner == s.runner && u.accepted == s.accepted;
  }

  lemma TakeConserves(s: State)
    requires Conserved(s) && Enabled(s, Take)
    ensures Conserved(After(s, Take))
  {
    hide Marked, CountOf, Items;
    var q := s.shared.queue;
    var e := Entry(q[0], false, Open);
    AppendedIs(s.log, e, Open);
    AppendedIs(s.log, e, Delivered);
    AppendedIs(s.log, e, Lost);
    AppendedIs(s.log, e, Abandoned);
    assert Items(s.log) + q == Items(s.log) + [q[0]] + q[1..];
  }

  predicate LogStep(t: Step) { t.Check? || t.HandOver? || t.Abandon? || t.Account? }

  lemma LogConserves(s: State, t: Step)
    requires Conserved(s) && Orderly(s) && Enabled(s, t) && LogStep(t)
    ensures Conserved(After(s, t))
  {
    hide Marked, CountOf, Items, Settled, GivenOf;
    match t
    case Abandon => MarkAll(s.log, false, Abandoned);
    case Account => MarkAll(s.log, LastHanded(s.log), if s.runner.ok then Delivered else Lost);
    case _ => MarkAll(s.log, true, Open);
  }

  lemma QuietConserves(s: State, t: Step)
    requires Conserved(s) && Orderly(s) && Enabled(s, t) && !LogStep(t) && !t.Write? && !t.Take?
    ensures Conserved(After(s, t))
  {
    hide Marked, CountOf, Items, Settled, GivenOf;
  }

  lemma ConservedKeeps(s: State, t: Step)
    requires Conserved(s) && Orderly(s) && Enabled(s, t)
    ensures Conserved(After(s, t))
  {
    hide Conserved, Orderly, Enabled, After;
    match t
    case Write(r) => WriteConserves(s, r);
    case Take => TakeConserves(s);
    case _ => if LogStep(t) { LogConserves(s, t); } else { QuietConserves(s, t); }
  }

  lemma MarkAll(log: seq<Entry>, handed: bool, fate: Fate)
    requires log != [] && log[|log|-1].fate == Open
    ensures Items(Marked(log, handed, fate)) == Items(log)
    ensures forall g :: CountOf(Marked(log, handed, fate), g) == CountOf(log, g) - (if g == Open then 1 else 0) + (if g == fate then 1 else 0)
  {
    hide Marked, CountOf, Items;
    MarkedIs(log, handed, fate, fate);
    forall g ensures CountOf(Marked(log, handed, fate), g) == CountOf(log, g) - (if g == Open then 1 else 0) + (if g == fate then 1 else 0) {
      MarkedIs(log, handed, fate, g);
    }
  }

  lemma GivenMarked(log: seq<Entry>, handed: bool, fate: Fate)
    requires log != []
    ensures var g := GivenOf(Marked(log, handed, fate));
      if handed == LastHanded(log) then g == GivenOf(log) else handed ==> g == GivenOf(log) + Current(log)
  {
    var m := Marked(log, handed, fate);
    assert m[..|m|-1] == log[..|log|-1];
  }

  lemma GivenAppended(log: seq<Entry>, e: Entry)
    requires !e.handed
    ensures GivenOf(log + [e]) == GivenOf(log)
  {
    assert (log + [e])[..|log|] == log;
  }

  lemma OrderlyKeeps(s: State, t: Step)
    requires Orderly(s) && Exclusive(s) && Enabled(s, t)
    ensures Orderly(After(s, t))
  {
    hide Offered, Offer, Accounted, GivenOf;
    match t
    case Take => GivenAppended(s.log, Entry(s.shared.queue[0], false, Open));
    case Check => GivenMarked(s.log, true, Open);
    case HandOver => GivenMarked(s.log, true, Open);
    case Abandon => GivenMarked(s.log, false, Abandoned);
    case Account => GivenMarked(s.log, LastHanded(s.log), if s.runner.ok then Delivered else Lost);
    case _ => SameLog(s, t);
  }

  lemma SameLog(s: State, t: Step)
    requires Orderly(s) && Exclusive(s) && Enabled(s, t) && !t.Take? && !t.Check? && !t.HandOver? && !t.Abandon? && !t.Account?
    ensures Orderly(After(s, t))
  {
    hide Offered, Offer, Accounted, GivenOf, Marked, Settled, LastHanded;
  }

  predicate WorkerStep(t: Step) { t.WorkerReturns? || t.WorkerSends? || t.WorkerReady? || t.WorkerExits? }

  /** A step between the runner and the channels. */
  predicate ChannelStep(t: Step) { t.HandOver? || t.PendingReturns? || t.PendingTimesOut? || t.ResultArrives? || t.TimesOut? }

  /** A step of the callers. */
  predicate CallerStep(t: Step) { t.Write? || t.CloseQueue? || t.Remaining? || t.Cancel? }

  lemma WorkerExclusive(s: State, t: Step)
    requires Exclusive(s) && Enabled(s, t) && WorkerStep(t)
    ensures Exclusive(After(s, t))
  {
    hide Offered, Offer, Accounted, Marked, LastHanded, Current;
  }

  lemma ChannelExclusive(s: State, t: Step)
    requires Exclusive(s) && Enabled(s, t) && ChannelStep(t)
    ensures Exclusive(After(s, t))
  {
    hide Offered, Offer, Accounted, Marked, LastHanded, Current;
  }

  lemma CallerExclusive(s: State, t: Step)
    requires Exclusive(s) && Enabled(s, t) && CallerStep(t)
    ensures Exclusive(After(s, t))
  {
    hide Offered, Offer, Accounted, Marked, LastHanded, Current;
  }

  lemma RunnerExclusive(s: State, t: Step)
    requires Exclusive(s) && Enabled(s, t) && !WorkerStep(t) && !ChannelStep(t) && !CallerStep(t)
    ensures Exclusive(After(s, t))
  {
    hide Offered, Offer, Accounted, Marked, LastHanded, Current;
  }

  lemma ExclusiveKeeps(s: State, t: Step)
    requires Exclusive(s) && Enabled(s, t)
    ensures Exclusive(After(s, t))
  {
    hide Exclusive, Enabled, After;
    if WorkerStep(t) { WorkerExclusive(s, t); }
    else if ChannelStep(t) { ChannelExclusive(s, t); }
    else if CallerStep(t) { CallerExclusive(s, t); }
    else { RunnerExclusive(s, t); }
  }

  lemma DropRunsMore(writes: seq<bool>, w: bool)
    ensures DropRuns(writes + [w]) == DropRuns(writes) + if !w && (writes == [] || writes[|writes|-1]) then 1 else 0
  {
    var more := writes + [w];
    assert more[..|writes|] == writes && |more| - 1 == |writes| && more[|writes|] == w;
    assert writes != [] ==> more[|writes|-1] == writes[|writes|-1];
  }

  lemma OverflowsMore(writes: seq<bool>, overflows: nat, overflowing: bool)
    requires Overflows(writes, overflows, overflowing)
    ensures Overflows(writes + [true], overflows, false)
    ensures Overflows(writes + [false], overflows + if overflowing then 0 else 1, true)
  {
    hide DropRuns;
    DropRunsMore(writes, true);
    DropRunsMore(writes, false);
  }

  /** A transition is reported exactly when the outcome changes. */
  lemma TransitionKept(calls: seq<bool>, failing: bool, ok: bool)
    requires Alternating(calls) && failing == (|calls| % 2 == 1)
    ensures failing == ok ==> Alternating(calls + [!ok]) && !ok == (|calls + [!ok]| % 2 == 1)
    ensures failing != ok ==> !ok == failing
  {
  }

  lemma WriteReported(s: State, r: Item)
    requires Reported(s)
    ensures Reported(After(s, Write(r)))
  {
    hide DropRuns, Alternating, Overflows;
    OverflowsMore(s.writes, s.overflows, s.shared.counts.overflowing);
  }

  lemma AccountReported(s: State)
    requires Reported(s) && Enabled(s, Account)
    ensures Reported(After(s, Account))
  {
    hide Marked, LastHanded, Alternating, Overflows;
    TransitionKept(s.calls, s.shared.counts.failing, s.runner.ok);
  }

  lemma QuietReported(s: State, t: Step)
    requires Reported(s) && Enabled(s, t) && !t.Write? && !t.Account?
    ensures Reported(After(s, t))
  {
    hide Marked, LastHanded, Alternating, Overflows, Current;
  }

  lemma ReportedKeeps(s: State, t: Step)
    requires Reported(s) && Enabled(s, t)
    ensures Reported(After(s, t))
  {
    hide Reported, Enabled, After;
    match t
    case Write(r) => WriteReported(s, r);
    case Account => AccountReported(s);
    case _ => QuietReported(s, t);
  }

  lemma StoppingKeeps(s: State, t: Step)
    requires Stopping(s) && Exclusive(s) && Enabled(s, t)
    ensures Stopping(After(s, t))
  {
    hide Marked, LastHanded;
  }

  lemma StepKeeps(s: State, t: Step)
    requires Inv(s) && Enabled(s, t)
    ensures Inv(After(s, t))
  {
    hide Conserved, Orderly, Exclusive, Reported, Stopping;
    CapacityStays(s, t);
    ConservedKeeps(s, t);
    OrderlyKeeps(s, t);
    ExclusiveKeeps(s, t);
    ReportedKeeps(s, t);
    StoppingKeeps(s, t);
  }

  lemma CapacityStays(s: State, t: Step)
    requires Enabled(s, t)
    ensures After(s, t).capacity == s.capacity && After(s, t).bounded == s.bounded
  {
    hide Offered, Accounted, Marked, LastHanded, Current;
  }

  lemma {:induction false} RunKeeps(capacity: nat, bounded: bool, steps: seq<Step>)
    requires capacity > 0
    ensures Inv(Run(Started(capacity, bounded), steps)) && Run(Started(capacity, bounded), steps).bounded == bounded
  {
    if steps != [] {
      RunKeeps(capacity, bounded, steps[..|steps|-1]);
      var before := Run(Started(capacity, bounded), steps[..|steps|-1]);
      if Enabled(before, steps[|steps|-1]) {
        hide Inv;
        StepKeeps(before, steps[|steps|-1]);
        CapacityStays(before, steps[|steps|-1]);
      }
    }
  }

  // ---- the lock regions ----

  /** The sink's fields under its mutex: each method is one region of the runs above. */
  class AsyncSink {
    const capacity: nat
    var closed: bool
    var queue: seq<Item>
    var counts: Counts

    function View(): Shared reads this { Shared(closed, queue, counts) }

    constructor (size: nat)
      ensures capacity == size && View() == Started(size, true).shared
    {
      capacity, closed, queue, counts := size, false, [], Counts(0, 0, 0, 0, 0, false, false);
    }

    /** The callers' region. What does not fit is refused and counted; the first refusal of a run is reported. */
    method Write(r: Item) returns (w: Written)
      modifies this
      ensures View() == Offered(old(View()), capacity, r) && w == Offer(old(View()), capacity, r)
    {
      if closed { return SinkClosed; }
      if |queue| < capacity {
        queue := queue + [r];
        counts := counts.(accepted := counts.accepted + 1, overflowing := false);
        return Taken;
      }
      var first := !counts.overflowing;
      counts := counts.(dropped := counts.dropped + 1, overflowing := true);
      return QueueFull(first);
    }

    method BeginClose()
      modifies this
      ensures View() == old(View()).(closed := true)
    {
      if !closed { closed := true; }
    }

    /** The runner takes the oldest record. */
    method Receive() returns (r: Item)
      requires queue != []
      modifies this
      ensures [r] + queue == old(queue) && View() == old(View()).(queue := queue)
    {
      r := queue[0];
      queue := queue[1..];
    }

    method Abandon()
      modifies this
      ensures View() == old(View()).(counts := old(counts).(abandoned := old(counts).abandoned + 1))
    {
      counts := counts.(abandoned := counts.abandoned + 1);
    }

    /** The outcome of a delivery, and the transition to report if it is one. */
    method Account(ok: bool) returns (report: Option<bool>)
      modifies this
      ensures View() == old(View()).(counts := Accounted(old(counts), ok))
      ensures report == if old(counts).failing == ok then Some(!ok) else None
    {
      if !ok {
        report := if !counts.failing then Some(true) else None;
        counts := counts.(failed := counts.failed + 1, failing := true);
      } else {
        report := if counts.failing then Some(false) else None;
        counts := counts.(written := counts.written + 1, failing := false);
      }
    }
  }
}
