/** What the invariants of asynchronous delivery come to, on every run. */
module AsyncRuns {
  import opened Async
  import opened Wrappers

  /** A state some run reaches. */
  ghost predicate Reachable(capacity: nat, bounded: bool, s: State) {
    capacity > 0 && exists steps :: Run(Started(capacity, bounded), steps) == s
  }

  lemma ReachableIs(capacity: nat, bounded: bool, s: State)
    requires Reachable(capacity, bounded, s)
    ensures Inv(s) && s.bounded == bounded
  {
    hide Inv;
    var steps :| Run(Started(capacity, bounded), steps) == s;
    RunKeeps(capacity, bounded, steps);
  }

  /** The inner sink is never called twice at once. */
  lemma OneAtATime(capacity: nat, bounded: bool, s: State)
    requires Reachable(capacity, bounded, s)
    ensures !(s.runner.Calling? && s.worker.Busy?)
    ensures s.worker.Busy? ==> bounded && (s.pending == Some(s.worker.channel) || s.runner == Awaiting(s.worker.channel))
  {
    ReachableIs(capacity, bounded, s);
  }

  /** When the runner reaches the handoff the worker is outside the inner sink: it is receiving, or back from
      its send with nothing left to do but receive; and the result it sends always has room. Neither side of
      the pair ever waits for a delivery. */
  lemma HandoffNeverWaits(capacity: nat, bounded: bool, s: State)
    requires Reachable(capacity, bounded, s)
    ensures s.runner.Handing? ==> s.pending.None? && (s.worker.Idle? || s.worker.Returning?)
    ensures s.runner.Handing? ==> Enabled(s, HandOver) || (Enabled(s, WorkerReady) && Enabled(After(s, WorkerReady), HandOver))
    ensures s.worker.Sending? ==> Enabled(s, WorkerSends)
  {
    ReachableIs(capacity, bounded, s);
  }

  /** The books balance between any two steps. */
  lemma BooksBalance(capacity: nat, bounded: bool, s: State)
    requires Reachable(capacity, bounded, s)
    ensures var c := s.shared.counts;
      && c.accepted == c.written + c.failed + c.abandoned + |s.shared.queue| + (if InFlight(s.runner) then 1 else 0)
      && c.accepted + c.dropped == |s.writes| && |s.shared.queue| <= s.capacity
  {
    hide CountOf, Items;
    ReachableIs(capacity, bounded, s);
  }

  /** Once the runner is done nothing is queued or in flight, and no step changes the counts again. */
  lemma DoneIsFinal(s: State, t: Step)
    requires Inv(s) && s.done && Enabled(s, t)
    ensures s.shared.queue == [] && !InFlight(s.runner) && After(s, t).done && After(s, t).shared == s.shared
    ensures var c := s.shared.counts; c.accepted == c.written + c.failed + c.abandoned
  {
    hide CountOf, Items;
  }

  lemma {:induction false} DoneForGood(s: State, steps: seq<Step>)
    requires Inv(s) && s.done
    ensures Inv(Run(s, steps)) && Run(s, steps).done && Run(s, steps).shared == s.shared
  {
    hide Inv;
    if steps != [] {
      DoneForGood(s, steps[..|steps|-1]);
      var before := Run(s, steps[..|steps|-1]);
      if Enabled(before, steps[|steps|-1]) {
        DoneIsFinal(before, steps[|steps|-1]);
        StepKeeps(before, steps[|steps|-1]);
      }
    }
  }

  // ---- order ----

  predicate Within(a: seq<Item>, b: seq<Item>) {
    a == [] || (b != [] && ((a[|a|-1] == b[|b|-1] && Within(a[..|a|-1], b[..|b|-1])) || Within(a, b[..|b|-1])))
  }

  lemma {:induction false} GivenWithin(log: seq<Entry>, rest: seq<Item>)
    ensures Within(GivenOf(log), Items(log) + rest)
    decreases |log| + |rest|
  {
    var g, all := GivenOf(log), Items(log) + rest;
    if rest != [] {
      GivenWithin(log, rest[..|rest|-1]);
      assert all[..|all|-1] == Items(log) + rest[..|rest|-1];
    } else if log != [] {
      var init, last := log[..|log|-1], log[|log|-1];
      GivenWithin(init, []);
      assert all[..|all|-1] == Items(init) + [] && all[|all|-1] == last.r;
      assert Items(init) + [] == all[..|all|-1] && Within(GivenOf(init), all[..|all|-1]);
      if last.handed { assert g == GivenOf(init) + [last.r] && g[..|g|-1] == GivenOf(init); } else { assert g == GivenOf(init); }
    }
  }

  /** The records of the log that were not abandoned. */
  function KeptOf(log: seq<Entry>): seq<Item> {
    if log == [] then [] else KeptOf(log[..|log|-1]) + if log[|log|-1].fate != Abandoned then [log[|log|-1].r] else []
  }

  lemma {:induction false} UnboundedKeeps(log: seq<Entry>)
    requires forall i :: 0 <= i < |log| ==> Settled(log[i], false)
    ensures GivenOf(log) == KeptOf(log)
  {
    if log != [] { UnboundedKeeps(log[..|log|-1]); }
  }

  /** The records the runner has decided to deliver: those not abandoned, but for one it holds and has not
      handed over. */
  function Passed(s: State): seq<Item> {
    if s.log != [] && InFlight(s.runner) && !LastHanded(s.log) then KeptOf(s.log[..|s.log|-1]) else KeptOf(s.log)
  }

  /** The inner sink gets accepted records in the order they were accepted; without a write timeout it has
      got, at every moment, exactly those taken and not abandoned; and it got every record counted as written. */
  lemma InOrder(capacity: nat, bounded: bool, s: State)
    requires Reachable(capacity, bounded, s)
    ensures Within(s.given, s.accepted) && s.accepted == Items(s.log) + s.shared.queue
    ensures !bounded ==> s.given == Passed(s)
    ensures forall i :: 0 <= i < |s.log| && s.log[i].fate == Delivered ==> s.log[i].handed
  {
    hide Marked, CountOf;
    ReachableIs(capacity, bounded, s);
    GivenWithin(s.log, s.shared.queue);
    if !bounded {
      if InFlight(s.runner) { UnboundedKeeps(s.log[..|s.log|-1]); } else { UnboundedKeeps(s.log); }
    }
  }

  // ---- abandoning ----

  lemma {:induction false} StopStays(s: State, steps: seq<Step>)
    requires Inv(s) && s.stop
    ensures Inv(Run(s, steps)) && Run(s, steps).stop && Run(s, steps).left == s.left
  {
    hide Inv;
    if steps != [] {
      StopStays(s, steps[..|steps|-1]);
      var before := Run(s, steps[..|steps|-1]);
      if Enabled(before, steps[|steps|-1]) { StepKeeps(before, steps[|steps|-1]); }
    }
  }

  /** What a cancellation finds: the queue, and a record the runner holds without having looked at the signal. */
  function Found(s: State): nat { |s.shared.queue| + if s.runner.Checking? then 1 else 0 }

  /** Only a cancelled sink abandons, and a run that goes on from the cancellation until the runner is done
      abandons exactly what the cancellation found; so more than was queued exactly if the runner held a
      record it had not looked at the signal for. */
  lemma AbandonedExactly(capacity: nat, bounded: bool, s: State, steps: seq<Step>)
    requires Reachable(capacity, bounded, s)
    ensures !s.stop ==> s.shared.counts.abandoned == 0
    ensures Enabled(s, Cancel) ==> Run(After(s, Cancel), steps).shared.counts.abandoned <= Found(s)
    ensures Enabled(s, Cancel) && Run(After(s, Cancel), steps).done ==>
      var n := Run(After(s, Cancel), steps).shared.counts.abandoned; n == Found(s) && (n > |s.shared.queue| <==> s.runner.Checking?)
  {
    ReachableIs(capacity, bounded, s);
    if Enabled(s, Cancel) {
      hide Run;
      StepKeeps(s, Cancel);
      StopStays(After(s, Cancel), steps);
    }
  }

  /** How many records the runner takes on a run. */
  function Takes(s: State, steps: seq<Step>): nat {
    if steps == [] then 0
    else
      var t := steps[|steps|-1];
      Takes(s, steps[..|steps|-1]) + if t.Take? && Enabled(Run(s, steps[..|steps|-1]), t) then 1 else 0
  }

  lemma StepDrains(s: State, t: Step)
    requires s.shared.closed && Enabled(s, t)
    ensures After(s, t).shared.closed && |After(s, t).shared.queue| + (if t.Take? then 1 else 0) == |s.shared.queue|
  {
    hide Marked, LastHanded, Current, Accounted;
  }

  lemma {:induction false} QueueDrains(s: State, steps: seq<Step>)
    requires s.shared.closed
    ensures Run(s, steps).shared.closed && |Run(s, steps).shared.queue| + Takes(s, steps) == |s.shared.queue|
  {
    hide After, Enabled;
    if steps != [] {
      QueueDrains(s, steps[..|steps|-1]);
      var before, t := Run(s, steps[..|steps|-1]), steps[|steps|-1];
      if Enabled(before, t) { StepDrains(before, t); }
    }
  }

  /** `Close` reads the queue's length, cancels a moment later, and reports that length as the number
      abandoned. From the reading until the runner is done the report is exact if and only if, between the
      two, the runner took as many records as it held unlooked at when the signal came: none, or that one. */
  lemma ReportExactly(capacity: nat, bounded: bool, s: State, between: seq<Step>, rest: seq<Step>)
    requires Reachable(capacity, bounded, s) && Enabled(s, Remaining)
    requires Enabled(Run(After(s, Remaining), between), Cancel)
    requires Run(After(Run(After(s, Remaining), between), Cancel), rest).done
    ensures After(s, Remaining).reports == s.reports + [|s.shared.queue|]
    ensures var u := Run(After(s, Remaining), between); var n := Run(After(u, Cancel), rest).shared.counts.abandoned;
      var held := if u.runner.Checking? then 1 else 0; var taken := Takes(After(s, Remaining), between);
      n + taken == |s.shared.queue| + held && (n == |s.shared.queue| <==> taken == held)
  {
    hide Inv, Run;
    ReachableIs(capacity, bounded, s);
    StepKeeps(s, Remaining);
    var r := After(s, Remaining);
    ClosedIs(s);
    QueueDrains(r, between);
    var u := Run(r, between);
    RunKeepsFrom(r, between);
    AbandonedFrom(u, rest);
  }

  /** A second closer may read the queue after the first has cancelled. Its report is exact if and only if
      nothing had been abandoned by then and the runner held nothing it will abandon. */
  lemma LateReportExactly(capacity: nat, bounded: bool, s: State, rest: seq<Step>)
    requires Reachable(capacity, bounded, s) && Enabled(s, Remaining) && s.stop && Run(After(s, Remaining), rest).done
    ensures After(s, Remaining).reports == s.reports + [|s.shared.queue|]
    ensures var n := Run(After(s, Remaining), rest).shared.counts.abandoned;
      var held := if s.runner.Checking? || s.runner.Abandoning? then 1 else 0; var before := s.shared.counts.abandoned;
      n == before + |s.shared.queue| + held && (n == |s.shared.queue| <==> before == 0 && held == 0)
  {
    hide Run;
    ReachableIs(capacity, bounded, s);
    StepKeeps(s, Remaining);
    StopStays(After(s, Remaining), rest);
  }

  lemma ClosedIs(s: State)
    requires Enabled(s, Remaining)
    ensures After(s, Remaining).shared.closed && After(s, Remaining).shared.queue == s.shared.queue
  {
  }

  lemma {:induction false} RunKeepsFrom(s: State, steps: seq<Step>)
    requires Inv(s)
    ensures Inv(Run(s, steps))
  {
    hide Inv;
    if steps != [] {
      RunKeepsFrom(s, steps[..|steps|-1]);
      var before := Run(s, steps[..|steps|-1]);
      if Enabled(before, steps[|steps|-1]) { StepKeeps(before, steps[|steps|-1]); }
    }
  }

  lemma AbandonedFrom(s: State, steps: seq<Step>)
    requires Inv(s) && Enabled(s, Cancel) && Run(After(s, Cancel), steps).done
    ensures Run(After(s, Cancel), steps).shared.counts.abandoned == Found(s)
  {
    hide Run;
    StepKeeps(s, Cancel);
    StopStays(After(s, Cancel), steps);
  }

  /** The queue's length at the deadline is not a bound: here it is read and reported as zero, and one record
      is abandoned. */
  lemma MoreThanQueued()
    ensures var before := Run(Started(1, false), [Write(7), Take, CloseQueue]);
      var s := Run(Started(1, false), [Write(7), Take, CloseQueue, Remaining, Cancel, Check, Abandon, Exit]);
      before.shared.queue == [] && s.done && s.reports == [0] && s.shared.counts.abandoned == 1
  {
    hide Run, After, Enabled;
    var a := Started(1, false);
    var before := OneTaken();
    var late := OneFound(before);
    RunNothing(a);
    Three(a, [], Write(7), Take, CloseQueue);
    assert [] + [Write(7), Take, CloseQueue] == [Write(7), Take, CloseQueue];
    Three(a, [Write(7), Take, CloseQueue], Remaining, Cancel, Check);
    assert [Write(7), Take, CloseQueue] + [Remaining, Cancel, Check] == [Write(7), Take, CloseQueue, Remaining, Cancel, Check];
    OneAbandoned(late);
    RunMore(a, [Write(7), Take, CloseQueue, Remaining, Cancel, Check], Abandon);
    assert [Write(7), Take, CloseQueue, Remaining, Cancel, Check] + [Abandon] == [Write(7), Take, CloseQueue, Remaining, Cancel, Check, Abandon];
    RunMore(a, [Write(7), Take, CloseQueue, Remaining, Cancel, Check, Abandon], Exit);
    assert [Write(7), Take, CloseQueue, Remaining, Cancel, Check, Abandon] + [Exit]
      == [Write(7), Take, CloseQueue, Remaining, Cancel, Check, Abandon, Exit];
  }

  lemma OneTaken() returns (s: State)
    ensures var a := Started(1, false);
      Enabled(a, Write(7)) && Enabled(After(a, Write(7)), Take) && Enabled(After(After(a, Write(7)), Take), CloseQueue)
      && s == After(After(After(a, Write(7)), Take), CloseQueue)
    ensures s.shared == Shared(true, [], Counts(1, 0, 0, 0, 0, false, false)) && s.runner == Checking && !s.stop && s.reports == []
  {
    s := After(After(After(Started(1, false), Write(7)), Take), CloseQueue);
  }

  lemma OneFound(s: State) returns (t: State)
    requires s.shared == Shared(true, [], Counts(1, 0, 0, 0, 0, false, false)) && s.runner == Checking && !s.stop && s.reports == []
    ensures Enabled(s, Remaining) && Enabled(After(s, Remaining), Cancel) && Enabled(After(After(s, Remaining), Cancel), Check)
    ensures t == After(After(After(s, Remaining), Cancel), Check)
    ensures t.shared == s.shared && t.runner == Abandoning && t.reports == [0]
  {
    t := After(After(After(s, Remaining), Cancel), Check);
  }

  lemma OneAbandoned(s: State)
    requires s.shared == Shared(true, [], Counts(1, 0, 0, 0, 0, false, false)) && s.runner == Abandoning && s.reports == [0]
    ensures Enabled(s, Abandon) && Enabled(After(s, Abandon), Exit)
    ensures var t := After(After(s, Abandon), Exit); t.done && t.reports == [0] && t.shared.counts.abandoned == 1
  {
  }

  lemma RunNothing(s: State)
    ensures Run(s, []) == s
  {
  }

  lemma Three(s: State, steps: seq<Step>, t: Step, u: Step, w: Step)
    requires var r := Run(s, steps);
      Enabled(r, t) && Enabled(After(r, t), u) && Enabled(After(After(r, t), u), w)
    ensures Run(s, steps + [t, u, w]) == After(After(After(Run(s, steps), t), u), w)
  {
    hide Run, After, Enabled;
    RunMore(s, steps, t);
    RunMore(s, steps + [t], u);
    RunMore(s, steps + [t] + [u], w);
    assert steps + [t] + [u] + [w] == steps + [t, u, w];
  }

  lemma RunMore(s: State, steps: seq<Step>, t: Step)
    ensures Run(s, steps + [t]) == if Enabled(Run(s, steps), t) then After(Run(s, steps), t) else Run(s, steps)
  {
    assert (steps + [t])[..|steps|] == steps;
  }

  // ---- callbacks ----

  function Count(calls: seq<bool>, failure: bool): nat {
    if calls == [] then 0 else Count(calls[..|calls|-1], failure) + if calls[|calls|-1] == failure then 1 else 0
  }

  lemma {:induction false} AlternatingCounts(calls: seq<bool>)
    requires Alternating(calls)
    ensures Count(calls, true) == Count(calls, false) + |calls| % 2
  {
    if calls != [] { AlternatingCounts(calls[..|calls|-1]); }
  }

  /** Failures and recoveries are reported in turn, a failure first. There is one failure more exactly when
      the sink counts as failing and nothing is still to be reported, or the other way round; and overflow
      is reported once per run of drops. */
  lemma CallbacksAlternate(capacity: nat, bounded: bool, s: State)
    requires Reachable(capacity, bounded, s)
    ensures Alternating(s.calls)
    ensures var more := Count(s.calls, true) - Count(s.calls, false);
      0 <= more <= 1 && (more == 1 <==> s.shared.counts.failing != s.runner.Reporting?)
    ensures s.overflows == DropRuns(s.writes)
  {
    ReachableIs(capacity, bounded, s);
    assert forall i :: 0 <= i < |s.calls| ==> Due(s)[i] == s.calls[i];
    AlternatingCounts(s.calls);
  }

  /** The difference does not follow `Failing` alone: while a recovery is about to be reported it is still one. */
  lemma RecoveryPending(capacity: nat, bounded: bool, s: State)
    requires Reachable(capacity, bounded, s) && s.runner == Reporting(false)
    ensures !s.shared.counts.failing && Count(s.calls, true) - Count(s.calls, false) == 1
  {
    CallbacksAlternate(capacity, bounded, s);
    ReachableIs(capacity, bounded, s);
    hide Count, CountOf, Items, GivenOf, DropRuns;
    assert Due(s)[|s.calls|] == false;
  }

  /** A run that ends there: one delivery fails, the next succeeds. */
  lemma OneAheadThoughRecovered()
    ensures var s := Run(Started(2, false),
        [Write(1), Write(2), Take, Check, InnerReturns(false), Account, Report, Take, Check, InnerReturns(true), Account]);
      s.runner == Reporting(false) && !s.shared.counts.failing && s.calls == [true]
  {
    hide Run, After, Enabled;
    var a := Started(2, false);
    RunNothing(a);
    var s := TwoWritten();
    RunMore(a, [], Write(1));
    RunMore(a, [Write(1)], Write(2));
    assert [] + [Write(1)] == [Write(1)] && [Write(1)] + [Write(2)] == [Write(1), Write(2)];
    var t := Delivers(s, false);
    Four(a, [Write(1), Write(2)], false);
    var u := Reports(t);
    RunMore(a, [Write(1), Write(2)] + [Take, Check, InnerReturns(false), Account], Report);
    var failed := [Write(1), Write(2)] + [Take, Check, InnerReturns(false), Account] + [Report];
    var w := Delivers(u, true);
    Four(a, failed, true);
    assert failed + [Take, Check, InnerReturns(true), Account] ==
      [Write(1), Write(2), Take, Check, InnerReturns(false), Account, Report, Take, Check, InnerReturns(true), Account];
  }

  lemma TwoWritten() returns (s: State)
    ensures var a := Started(2, false);
      Enabled(a, Write(1)) && Enabled(After(a, Write(1)), Write(2)) && s == After(After(a, Write(1)), Write(2))
    ensures s.runner == Receiving && !s.stop && !s.bounded && |s.shared.queue| == 2 && !s.shared.counts.failing && s.calls == []
  {
    s := After(After(Started(2, false), Write(1)), Write(2));
  }

  /** One record, taken and delivered without a write timeout. */
  predicate Deliverable(s: State) { s.runner == Receiving && !s.stop && !s.bounded && s.shared.queue != [] }

  lemma Delivers(s: State, ok: bool) returns (t: State)
    requires Deliverable(s)
    ensures Enabled(s, Take) && Enabled(After(s, Take), Check) && Enabled(After(After(s, Take), Check), InnerReturns(ok))
    ensures var r := After(After(After(s, Take), Check), InnerReturns(ok)); Enabled(r, Account) && t == After(r, Account)
    ensures t.runner == (if s.shared.counts.failing == ok then Reporting(!ok) else Receiving)
    ensures t.shared.counts.failing == !ok && t.shared.queue == s.shared.queue[1..]
      && !t.stop && !t.bounded && t.calls == s.calls
  {
    hide Marked, LastHanded, Current;
    t := After(After(After(After(s, Take), Check), InnerReturns(ok)), Account);
  }

  lemma Reports(s: State) returns (t: State)
    requires s.runner.Reporting?
    ensures Enabled(s, Report) && t == After(s, Report)
    ensures t == s.(runner := Receiving, calls := s.calls + [s.runner.failure])
  {
    t := After(s, Report);
  }

  lemma Four(a: State, steps: seq<Step>, ok: bool)
    requires Deliverable(Run(a, steps))
    ensures var s := Run(a, steps);
      Enabled(s, Take) && Enabled(After(s, Take), Check) && Enabled(After(After(s, Take), Check), InnerReturns(ok))
      && Enabled(After(After(After(s, Take), Check), InnerReturns(ok)), Account)
      && Run(a, steps + [Take, Check, InnerReturns(ok), Account]) == After(After(After(After(s, Take), Check), InnerReturns(ok)), Account)
  {
    hide Run, After, Enabled;
    var t := Delivers(Run(a, steps), ok);
    Three(a, steps, Take, Check, InnerReturns(ok));
    RunMore(a, steps + [Take, Check, InnerReturns(ok)], Account);
    assert steps + [Take, Check, InnerReturns(ok)] + [Account] == steps + [Take, Check, InnerReturns(ok), Account];
  }

  // ---- closing never waits on the inner sink ----

  /** How far each of the runner's places is from the next receive, and that from the end. */
  function Place(r: Runner): (n: nat)
    ensures n < 8
  {
    match r
    case Exited => 0 case Receiving => 1 case Reporting(_) => 2 case Abandoning => 2 case Accounting(_) => 3
    case Awaiting(_) => 4 case Calling => 4 case Handing => 5 case WaitingForPending => 6 case Checking => 7
  }

  /** How far the runner of a closed sink is from its end. */
  function Distance(s: State): nat {
    |s.shared.queue| * 8 + Place(s.runner)
  }

  predicate RunnerStep(t: Step) {
    t.Take? || t.Exit? || t.Check? || t.Abandon? || t.InnerReturns? || t.PendingReturns? || t.PendingTimesOut? || t.HandOver?
    || t.ResultArrives? || t.TimesOut? || t.Account? || t.Report?
  }

  /** Whatever the runner does brings a closed sink nearer to its end, and nothing else moves it. */
  lemma StepComesNearer(s: State, t: Step)
    requires s.shared.closed && Enabled(s, t)
    ensures After(s, t).shared.closed
    ensures if RunnerStep(t) then Distance(After(s, t)) < Distance(s) else Distance(After(s, t)) == Distance(s)
  {
    hide Distance, After, Enabled;
    StepDrains(s, t);
    if t.Take? { TakesPlace(s); } else if RunnerStep(t) { RunnerComesNearer(s, t); } else { OthersStayAway(s, t); }
    DistanceIs(s);
    DistanceIs(After(s, t));
  }

  lemma DistanceIs(s: State)
    ensures Distance(s) == |s.shared.queue| * 8 + Place(s.runner)
  {
  }

  lemma RunnerComesNearer(s: State, t: Step)
    requires Enabled(s, t) && RunnerStep(t) && !t.Take?
    ensures Place(After(s, t).runner) < Place(s.runner)
  {
    hide Marked, LastHanded, Current, Accounted;
  }

  lemma TakesPlace(s: State)
    requires Enabled(s, Take)
    ensures Place(s.runner) == 1
  {
  }

  lemma OthersStayAway(s: State, t: Step)
    requires Enabled(s, t) && !RunnerStep(t)
    ensures After(s, t).runner == s.runner
  {
    hide Offered;
  }

  /** How many steps the runner makes on a run. */
  function RunnerSteps(s: State, steps: seq<Step>): nat {
    if steps == [] then 0
    else
      var t := steps[|steps|-1];
      RunnerSteps(s, steps[..|steps|-1]) + if RunnerStep(t) && Enabled(Run(s, steps[..|steps|-1]), t) then 1 else 0
  }

  /** On every run of a closed sink, under any interleaving, the runner makes at most as many steps as it is
      away from its end; having made that many it is done. */
  lemma {:induction false} CloseIsBounded(s: State, steps: seq<Step>)
    requires Inv(s) && s.shared.closed
    ensures Inv(Run(s, steps)) && Run(s, steps).shared.closed
    ensures RunnerSteps(s, steps) + Distance(Run(s, steps)) <= Distance(s)
    ensures RunnerSteps(s, steps) == Distance(s) ==> Run(s, steps).done
  {
    hide Inv, Distance;
    if steps != [] {
      CloseIsBounded(s, steps[..|steps|-1]);
      var before, t := Run(s, steps[..|steps|-1]), steps[|steps|-1];
      if Enabled(before, t) {
        StepKeeps(before, t);
        StepComesNearer(before, t);
      }
    }
    AtTheEnd(Run(s, steps));
  }

  lemma AtTheEnd(s: State)
    requires Inv(s)
    ensures Distance(s) == 0 ==> s.done
  {
  }

  /** The next step towards the end, one that needs nothing of the inner sink: the runner's own, or the
      worker's way back to its receive. */
  function Onward(s: State): Step {
    match s.runner
    case Exited => CloseQueue
    case Receiving => if s.shared.queue != [] then Take else Exit
    case Reporting(_) => Report case Abandoning => Abandon case Accounting(_) => Account
    case Awaiting(_) => TimesOut case Calling => InnerReturns(false)
    case Handing => if s.worker.Returning? then WorkerReady else HandOver
    case WaitingForPending => PendingTimesOut case Checking => Check
  }

  /** With a write timeout the runner of a closed sink is never stuck: a step onward is always enabled, though
      the inner sink never returns; and it is the runner's own unless the worker is just coming back. */
  lemma NeverStuck(s: State)
    requires Inv(s) && s.bounded && s.shared.closed && !s.done
    ensures Enabled(s, Onward(s)) && !Onward(s).InnerReturns? && !Onward(s).WorkerReturns? && !Onward(s).WorkerSends?
    ensures if Onward(s).WorkerReady? then s.worker.Returning? && After(s, Onward(s)).worker.Idle? else RunnerStep(Onward(s))
    ensures After(s, Onward(s)).shared.closed && After(s, Onward(s)).bounded
  {
    hide Marked, CountOf, Items, GivenOf, LastHanded, Current, Accounted, DropRuns;
  }

  /** So a closed sink gets done without the inner sink ever returning again. */
  lemma {:induction false} CloseCompletes(s: State) returns (steps: seq<Step>)
    requires Inv(s) && s.bounded && s.shared.closed
    ensures Run(s, steps).done
    ensures forall t :: t in steps ==> !t.InnerReturns? && !t.WorkerReturns? && !t.WorkerSends?
    decreases Distance(s), s.worker.Returning?
  {
    hide Inv, Distance, Onward;
    if s.done {
      steps := [];
    } else {
      NeverStuck(s);
      StepComesNearer(s, Onward(s));
      StepKeeps(s, Onward(s));
      var rest := CloseCompletes(After(s, Onward(s)));
      steps := [Onward(s)] + rest;
      RunFirst(s, Onward(s), rest);
    }
  }

  lemma {:induction false} RunFirst(s: State, t: Step, rest: seq<Step>)
    requires Enabled(s, t)
    ensures Run(s, [t] + rest) == Run(After(s, t), rest)
    decreases |rest|
  {
    hide Enabled, After;
    var all := [t] + rest;
    if rest == [] {
      assert all[..0] == [] && all == [t];
    } else {
      assert all[..|all|-1] == [t] + rest[..|rest|-1];
      RunFirst(s, t, rest[..|rest|-1]);
    }
  }
}
