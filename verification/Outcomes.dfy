/** What became of each record, told from the steps of a run alone: what the inner sink answered, how each wait
    ended, which records were offered. */
module Outcomes {
  import opened Async
  import opened AsyncRuns

  // ---- what the steps say ----

  /** The steps a run made, in order. */
  function Executed(s: State, steps: seq<Step>): seq<Step> {
    if steps == [] then []
    else
      var init, t := steps[..|steps|-1], steps[|steps|-1];
      Executed(s, init) + if Enabled(Run(s, init), t) then [t] else []
  }

  /** What the calls of the inner sink returned, in the order of the calls. */
  function Answers(trace: seq<Step>): seq<bool> {
    if trace == [] then [] else Answers(trace[..|trace|-1]) + Answer(trace[|trace|-1])
  }

  function Answer(t: Step): seq<bool> {
    match t
    case InnerReturns(ok) => [ok]
    case WorkerReturns(ok) => [ok]
    case _ => []
  }

  /** How the runner's dealing with a record ended: it heard the answer, its time ran out, or it was left. */
  datatype End = Heard | Expired | Left

  /** How the records taken ended, in the order they were taken. */
  function Ends(trace: seq<Step>): seq<End> {
    if trace == [] then [] else Ends(trace[..|trace|-1]) + EndOf(trace[|trace|-1])
  }

  function EndOf(t: Step): seq<End> {
    match t
    case InnerReturns(_) => [Heard]
    case ResultArrives => [Heard]
    case TimesOut => [Expired]
    case PendingTimesOut => [Expired]
    case Abandon => [Left]
    case _ => []
  }

  /** Which call of the inner sink an entry of the log was handed over in. */
  function Call(log: seq<Entry>, i: nat): nat
    requires i <= |log|
  {
    |GivenOf(log[..i])|
  }

  // ---- the log and the steps agree ----

  /** An entry's fate is what the steps say. */
  ghost predicate Judged(log: seq<Entry>, i: nat, answers: seq<bool>, ends: seq<End>)
    requires i < |log|
  {
    && i < |ends|
    && (ends[i].Heard? ==> log[i].handed && Call(log, i) < |answers|)
    && (log[i].fate == match ends[i]
        case Heard => if answers[Call(log, i)] then Delivered else Lost
        case Expired => Lost
        case Left => Abandoned)
  }

  ghost predicate JudgedBelow(log: seq<Entry>, n: nat, answers: seq<bool>, ends: seq<End>)
    requires n <= |log|
  {
    forall i :: 0 <= i < n ==> Judged(log, i, answers, ends)
  }

  /** The runner holds a record and has not heard how it ended. */
  predicate Undecided(r: Runner) { InFlight(r) && !r.Accounting? }

  function Settling(s: State): (n: nat)
    ensures n <= |s.log|
  {
    if InFlight(s.runner) && s.log != [] then |s.log| - 1 else |s.log|
  }

  ghost predicate Tied(s: State, answers: seq<bool>, ends: seq<End>) {
    && |ends| + (if Undecided(s.runner) then 1 else 0) == |s.log|
    && JudgedBelow(s.log, Settling(s), answers, ends)
    && Called(s, answers)
    && (s.runner.Accounting? ==> Decided(s, answers, ends))
  }

  /** Where the answers are. */
  ghost predicate Called(s: State, answers: seq<bool>) {
    && |answers| + (if s.worker.Busy? || s.runner.Calling? then 1 else 0) == |s.given|
    && (s.bounded ==> s.channels == |s.given|)
    && (s.worker.Busy? ==> s.worker.channel == |answers|)
    && (s.worker.Sending? ==> s.worker.channel < |answers| && s.worker.ok == answers[s.worker.channel])
    && (s.runner.Awaiting? ==> s.runner.channel == |s.given| - 1)
    && (forall c :: c in s.results ==> c < |answers| && s.results[c] == answers[c])
  }

  ghost predicate Decided(s: State, answers: seq<bool>, ends: seq<End>)
    requires s.runner.Accounting?
  {
    && ends != []
    && (ends[|ends|-1].Heard? || (ends[|ends|-1].Expired? && !s.runner.ok))
    && (ends[|ends|-1].Heard? ==> LastHanded(s.log) && 0 < |s.given| <= |answers| && s.runner.ok == answers[|s.given|-1])
  }

  lemma JudgedStays(log: seq<Entry>, after: seq<Entry>, n: nat, answers: seq<bool>, more: seq<bool>, ends: seq<End>, later: seq<End>)
    requires n <= |log| && n <= |after| && log[..n] == after[..n]
    requires JudgedBelow(log, n, answers, ends)
    ensures JudgedBelow(after, n, answers + more, ends + later)
  {
    hide GivenOf;
    forall i | 0 <= i < n ensures Judged(after, i, answers + more, ends + later) {
      assert Judged(log, i, answers, ends);
      assert log[..n][i] == after[..n][i] && log[..n][..i] == log[..i] && after[..n][..i] == after[..i];
    }
  }

  /** The steps that leave the log's decided entries alone. */
  predicate Settles(t: Step) { t.Account? || t.Abandon? }

  lemma LogPrefix(s: State, t: Step)
    requires Inv(s) && Enabled(s, t)
    ensures Settling(s) <= |After(s, t).log| && After(s, t).log[..Settling(s)] == s.log[..Settling(s)]
    ensures Settling(After(s, t)) == if Settles(t) then |s.log| else Settling(s)
    ensures Settles(t) ==> Settling(s) == |s.log| - 1 && |After(s, t).log| == |s.log|
  {
    hide Conserved, Exclusive, Reported, Stopping, Settled, GivenOf, Accounted, Offered, Offer, LastHanded, Current;
  }

  lemma AwayWaitsCounted(s: State, t: Step, ends: seq<End>)
    requires Inv(s) && Enabled(s, t)
    requires |ends| + (if Undecided(s.runner) then 1 else 0) == |s.log|
    requires CallerStep(t) || WorkerStep(t)
    ensures |ends + EndOf(t)| + (if Undecided(After(s, t).runner) then 1 else 0) == |After(s, t).log|
  {
    hide Conserved, Exclusive, Reported, Stopping, Settled, GivenOf, Accounted, Offered, Offer, LastHanded, Current;
  }

  lemma ChannelWaitsCounted(s: State, t: Step, ends: seq<End>)
    requires Inv(s) && Enabled(s, t)
    requires |ends| + (if Undecided(s.runner) then 1 else 0) == |s.log|
    requires ChannelStep(t)
    ensures |ends + EndOf(t)| + (if Undecided(After(s, t).runner) then 1 else 0) == |After(s, t).log|
  {
    hide Conserved, Exclusive, Reported, Stopping, Settled, GivenOf, Accounted, Offered, Offer, LastHanded, Current;
  }

  lemma RunnerWaitsCounted(s: State, t: Step, ends: seq<End>)
    requires Inv(s) && Enabled(s, t)
    requires |ends| + (if Undecided(s.runner) then 1 else 0) == |s.log|
    requires !CallerStep(t) && !WorkerStep(t) && !ChannelStep(t)
    ensures |ends + EndOf(t)| + (if Undecided(After(s, t).runner) then 1 else 0) == |After(s, t).log|
  {
    hide Conserved, Exclusive, Reported, Stopping, Settled, GivenOf, Accounted, Offered, Offer, LastHanded, Current;
  }

  lemma WaitsCounted(s: State, t: Step, ends: seq<End>)
    requires Inv(s) && Enabled(s, t)
    requires |ends| + (if Undecided(s.runner) then 1 else 0) == |s.log|
    ensures |ends + EndOf(t)| + (if Undecided(After(s, t).runner) then 1 else 0) == |After(s, t).log|
  {
    hide *;
    if CallerStep(t) || WorkerStep(t) { AwayWaitsCounted(s, t, ends); } else if ChannelStep(t) { ChannelWaitsCounted(s, t, ends); } else { RunnerWaitsCounted(s, t, ends); }
  }

  lemma AwayCalledKeeps(s: State, t: Step, answers: seq<bool>)
    requires Orderly(s) && Exclusive(s) && Enabled(s, t) && Called(s, answers)
    requires CallerStep(t) || WorkerStep(t)
    ensures Called(After(s, t), answers + Answer(t))
  {
    hide Settled, GivenOf, Accounted, Offered, Offer, LastHanded, Marked;
  }

  lemma ChannelCalledKeeps(s: State, t: Step, answers: seq<bool>)
    requires Orderly(s) && Exclusive(s) && Enabled(s, t) && Called(s, answers)
    requires ChannelStep(t)
    ensures Called(After(s, t), answers + Answer(t))
  {
    hide Settled, GivenOf, Accounted, Offered, Offer, LastHanded, Marked;
  }

  lemma RunnerCalledKeeps(s: State, t: Step, answers: seq<bool>)
    requires Orderly(s) && Exclusive(s) && Enabled(s, t) && Called(s, answers)
    requires !CallerStep(t) && !WorkerStep(t) && !ChannelStep(t)
    ensures Called(After(s, t), answers + Answer(t))
  {
    hide Settled, GivenOf, Accounted, Offered, Offer, LastHanded, Marked;
  }

  lemma CalledKeeps(s: State, t: Step, answers: seq<bool>)
    requires Orderly(s) && Exclusive(s) && Enabled(s, t) && Called(s, answers)
    ensures Called(After(s, t), answers + Answer(t))
  {
    hide *;
    if CallerStep(t) || WorkerStep(t) { AwayCalledKeeps(s, t, answers); } else if ChannelStep(t) { ChannelCalledKeeps(s, t, answers); } else { RunnerCalledKeeps(s, t, answers); }
  }

  lemma AwayDecidedKeeps(s: State, t: Step, answers: seq<bool>, ends: seq<End>)
    requires Orderly(s) && Exclusive(s) && Enabled(s, t) && Called(s, answers)
    requires s.runner.Accounting? ==> Decided(s, answers, ends)
    requires CallerStep(t) || WorkerStep(t)
    ensures After(s, t).runner.Accounting? ==> Decided(After(s, t), answers + Answer(t), ends + EndOf(t))
  {
    hide Settled, GivenOf, Accounted, Offered, Offer, Marked;
  }

  lemma ChannelDecidedKeeps(s: State, t: Step, answers: seq<bool>, ends: seq<End>)
    requires Orderly(s) && Exclusive(s) && Enabled(s, t) && Called(s, answers)
    requires s.runner.Accounting? ==> Decided(s, answers, ends)
    requires ChannelStep(t)
    ensures After(s, t).runner.Accounting? ==> Decided(After(s, t), answers + Answer(t), ends + EndOf(t))
  {
    hide Settled, GivenOf, Accounted, Offered, Offer, Marked;
  }

  lemma RunnerDecidedKeeps(s: State, t: Step, answers: seq<bool>, ends: seq<End>)
    requires Orderly(s) && Exclusive(s) && Enabled(s, t) && Called(s, answers)
    requires s.runner.Accounting? ==> Decided(s, answers, ends)
    requires !CallerStep(t) && !WorkerStep(t) && !ChannelStep(t)
    ensures After(s, t).runner.Accounting? ==> Decided(After(s, t), answers + Answer(t), ends + EndOf(t))
  {
    hide Settled, GivenOf, Accounted, Offered, Offer, Marked;
  }

  lemma DecidedKeeps(s: State, t: Step, answers: seq<bool>, ends: seq<End>)
    requires Orderly(s) && Exclusive(s) && Enabled(s, t) && Called(s, answers)
    requires s.runner.Accounting? ==> Decided(s, answers, ends)
    ensures After(s, t).runner.Accounting? ==> Decided(After(s, t), answers + Answer(t), ends + EndOf(t))
  {
    hide *;
    if CallerStep(t) || WorkerStep(t) { AwayDecidedKeeps(s, t, answers, ends); } else if ChannelStep(t) { ChannelDecidedKeeps(s, t, answers, ends); } else { RunnerDecidedKeeps(s, t, answers, ends); }
  }

  lemma LastCall(log: seq<Entry>)
    requires LastHanded(log)
    ensures Call(log, |log| - 1) == |GivenOf(log)| - 1
  {
  }

  lemma AccountJudges(s: State, answers: seq<bool>, ends: seq<End>)
    requires Inv(s) && Enabled(s, Account) && Tied(s, answers, ends)
    ensures s.log != [] && |After(s, Account).log| == |s.log| && Judged(After(s, Account).log, |s.log| - 1, answers, ends)
  {
    hide Conserved, Exclusive, Reported, Stopping, Settled, GivenOf, Accounted, Called, JudgedBelow;
    var n := |s.log| - 1;
    assert After(s, Account).log[..n] == s.log[..n];
    if ends[n].Heard? { LastCall(s.log); }
  }

  lemma AbandonJudges(s: State, answers: seq<bool>, ends: seq<End>)
    requires Inv(s) && Enabled(s, Abandon) && Tied(s, answers, ends)
    ensures s.log != [] && |After(s, Abandon).log| == |s.log| && Judged(After(s, Abandon).log, |s.log| - 1, answers, ends + [Left])
  {
    hide Conserved, Exclusive, Reported, Stopping, Settled, GivenOf, Called, JudgedBelow;
  }

  lemma TiedKeeps(s: State, t: Step, answers: seq<bool>, ends: seq<End>)
    requires Inv(s) && Enabled(s, t) && Tied(s, answers, ends)
    ensures Tied(After(s, t), answers + Answer(t), ends + EndOf(t))
  {
    hide Conserved, Orderly, Exclusive, Reported, Stopping, Called, Decided, Judged, JudgedBelow, After, Enabled, InFlight;
    var u, more, later := After(s, t), answers + Answer(t), ends + EndOf(t);
    LogPrefix(s, t);
    WaitsCounted(s, t, ends);
    CalledKeeps(s, t, answers);
    DecidedKeeps(s, t, answers, ends);
    JudgedStays(s.log, u.log, Settling(s), answers, Answer(t), ends, EndOf(t));
    match t
    case Account => AccountJudges(s, answers, ends); OneMoreJudged(u.log, Settling(s), answers, ends, more, later);
    case Abandon => AbandonJudges(s, answers, ends); OneMoreJudged(u.log, Settling(s), answers, ends + [Left], more, later);
    case _ =>
  }

  lemma OneMoreJudged(log: seq<Entry>, n: nat, answers: seq<bool>, ends: seq<End>, more: seq<bool>, later: seq<End>)
    requires n + 1 == |log| && answers == more && ends == later && Judged(log, n, answers, ends) && JudgedBelow(log, n, more, later)
    ensures JudgedBelow(log, n + 1, more, later)
  {
    hide Judged;
  }

  lemma NothingTied(s: State)
    requires s.log == [] && s.given == [] && s.runner.Receiving? && s.worker.Idle? && s.results == map[] && s.channels == 0
    ensures Tied(s, [], [])
  {
  }

  lemma {:induction false} RunTied(capacity: nat, bounded: bool, steps: seq<Step>)
    requires capacity > 0
    ensures var s := Started(capacity, bounded);
      Tied(Run(s, steps), Answers(Executed(s, steps)), Ends(Executed(s, steps)))
  {
    hide After, Enabled, Inv;
    var s := Started(capacity, bounded);
    if steps != [] {
      var init, t := steps[..|steps|-1], steps[|steps|-1];
      RunTied(capacity, bounded, init);
      RunKeeps(capacity, bounded, init);
      if Enabled(Run(s, init), t) {
        hide Tied;
        TiedKeeps(Run(s, init), t, Answers(Executed(s, init)), Ends(Executed(s, init)));
        var trace := Executed(s, steps);
        assert trace == Executed(s, init) + [t] && trace[..|trace|-1] == Executed(s, init);
      } else {
        assert Executed(s, steps) == Executed(s, init);
      }
    } else {
      NothingTied(s);
    }
  }

  /** On every run: a record counts as written exactly if its own call of the inner sink returned well and the
      answer was heard before its time ran out, and as failed exactly if the call returned an error or the time
      ran out; what was left after a cancellation is abandoned. */
  lemma OutcomesExactly(capacity: nat, bounded: bool, steps: seq<Step>, i: nat)
    requires capacity > 0 && i < |Run(Started(capacity, bounded), steps).log|
    ensures var s := Run(Started(capacity, bounded), steps); var trace := Executed(Started(capacity, bounded), steps);
      (s.log[i].fate != Open ==> (
        && i < |Ends(trace)| && (Ends(trace)[i].Heard? ==> s.log[i].handed && Call(s.log, i) < |Answers(trace)|)
        && (s.log[i].fate == Delivered <==> Ends(trace)[i].Heard? && Answers(trace)[Call(s.log, i)])
        && (s.log[i].fate == Lost <==> Ends(trace)[i].Expired? || (Ends(trace)[i].Heard? && !Answers(trace)[Call(s.log, i)]))
        && (s.log[i].fate == Abandoned <==> Ends(trace)[i].Left?)))
    ensures var s := Run(Started(capacity, bounded), steps);
      s.log[i].fate == Open <==> i == |s.log| - 1 && InFlight(s.runner)
    ensures var s := Run(Started(capacity, bounded), steps); var c := s.shared.counts;
      c.written == CountOf(s.log, Delivered) && c.failed == CountOf(s.log, Lost) && c.abandoned == CountOf(s.log, Abandoned)
  {
    hide Run, Executed, Answers, Ends, Called, Decided, CountOf, GivenOf;
    RunTied(capacity, bounded, steps);
    RunKeeps(capacity, bounded, steps);
    var s := Run(Started(capacity, bounded), steps);
    var trace := Executed(Started(capacity, bounded), steps);
    if i < Settling(s) { assert Judged(s.log, i, Answers(trace), Ends(trace)); }
  }

  // ---- callbacks, from the outcomes ----

  /** The deliveries that came to an outcome, in order: whether each failed. */
  function Failures(log: seq<Entry>): seq<bool> {
    if log == [] then [] else Failures(log[..|log|-1]) + Failure(log[|log|-1].fate)
  }

  function Failure(f: Fate): seq<bool> { if f == Lost then [true] else if f == Delivered then [false] else [] }

  predicate Failed(fs: seq<bool>) { fs != [] && fs[|fs|-1] }

  /** The outcomes that differ from the one before, the first from a success. */
  function Changes(fs: seq<bool>): seq<bool> {
    if fs == [] then []
    else
      var init, last := fs[..|fs|-1], fs[|fs|-1];
      Changes(init) + if last != Failed(init) then [last] else []
  }

  ghost predicate Told(s: State) {
    Due(s) == Changes(Failures(s.log)) && s.shared.counts.failing == Failed(Failures(s.log))
  }

  lemma FailuresMarked(log: seq<Entry>, handed: bool, fate: Fate)
    requires log != [] && log[|log|-1].fate == Open
    ensures Failures(Marked(log, handed, fate)) == Failures(log) + Failure(fate)
    ensures fate == Open || fate == Abandoned ==> Failures(Marked(log, handed, fate)) == Failures(log)
  {
    hide Failures;
    var m := Marked(log, handed, fate);
    assert m[..|m|-1] == log[..|log|-1];
    FailuresOf(m);
    FailuresOf(log);
    assert Failures(log) == Failures(log[..|log|-1]);
  }

  lemma FailuresOf(log: seq<Entry>)
    requires log != []
    ensures Failures(log) == Failures(log[..|log|-1]) + Failure(log[|log|-1].fate)
  {
  }

  lemma FailuresAppended(log: seq<Entry>, e: Entry)
    requires e.fate == Open
    ensures Failures(log + [e]) == Failures(log)
  {
    assert (log + [e])[..|log|] == log;
  }

  lemma ChangesMore(fs: seq<bool>, f: bool)
    ensures Changes(fs + [f]) == Changes(fs) + (if f != Failed(fs) then [f] else []) && Failed(fs + [f]) == f
  {
    assert (fs + [f])[..|fs|] == fs;
  }

  lemma ToldKeeps(s: State, t: Step)
    requires Orderly(s) && Enabled(s, t) && Told(s)
    ensures Told(After(s, t))
  {
    hide Settled, GivenOf, Failures, Changes, Failed, Marked, LastHanded, Current;
    match t
    case Take => FailuresAppended(s.log, Entry(s.shared.queue[0], false, Open));
    case Check => if !s.stop && !s.bounded { FailuresMarked(s.log, true, Open); }
    case HandOver => FailuresMarked(s.log, true, Open);
    case Abandon => FailuresMarked(s.log, false, Abandoned);
    case Account =>
      FailuresMarked(s.log, LastHanded(s.log), if s.runner.ok then Delivered else Lost);
      ChangesMore(Failures(s.log), !s.runner.ok);
    case _ =>
  }

  lemma {:induction false} RunTold(capacity: nat, bounded: bool, steps: seq<Step>)
    requires capacity > 0
    ensures Told(Run(Started(capacity, bounded), steps))
  {
    hide After, Enabled;
    if steps != [] {
      var init, t := steps[..|steps|-1], steps[|steps|-1];
      RunTold(capacity, bounded, init);
      RunKeeps(capacity, bounded, init);
      var before := Run(Started(capacity, bounded), init);
      if Enabled(before, t) {
        hide Told;
        ToldKeeps(before, t);
      }
    }
  }

  /** The callbacks made, and the one about to be made, are the outcomes that differ from the one before; and
      the sink counts as failing exactly while the last outcome is a failure. */
  lemma CallbacksExactly(capacity: nat, bounded: bool, steps: seq<Step>)
    requires capacity > 0
    ensures var s := Run(Started(capacity, bounded), steps); var fs := Failures(s.log);
      && (if s.runner.Reporting? then s.calls + [s.runner.failure] else s.calls) == Changes(fs)
      && (s.shared.counts.failing <==> fs != [] && fs[|fs|-1])
  {
    hide Run, Failures, Changes;
    RunTold(capacity, bounded, steps);
  }

  // ---- what is taken ----

  lemma AwayStepShape(s: State, t: Step)
    requires Enabled(s, t)
    requires CallerStep(t) || WorkerStep(t)
    ensures After(s, t).shared.closed == (s.shared.closed || t == CloseQueue)
    ensures |After(s, t).log| == |s.log| + if t.Take? then 1 else 0
  {
    hide LastHanded, Current, Accounted;
  }

  lemma ChannelStepShape(s: State, t: Step)
    requires Enabled(s, t)
    requires ChannelStep(t)
    ensures After(s, t).shared.closed == (s.shared.closed || t == CloseQueue)
    ensures |After(s, t).log| == |s.log| + if t.Take? then 1 else 0
  {
    hide LastHanded, Current, Accounted;
  }

  lemma RunnerStepShape(s: State, t: Step)
    requires Enabled(s, t)
    requires !CallerStep(t) && !WorkerStep(t) && !ChannelStep(t)
    ensures After(s, t).shared.closed == (s.shared.closed || t == CloseQueue)
    ensures |After(s, t).log| == |s.log| + if t.Take? then 1 else 0
  {
    hide LastHanded, Current, Accounted;
  }

  lemma StepShape(s: State, t: Step)
    requires Enabled(s, t)
    ensures After(s, t).shared.closed == (s.shared.closed || t == CloseQueue)
    ensures |After(s, t).log| == |s.log| + if t.Take? then 1 else 0
  {
    hide *;
    if CallerStep(t) || WorkerStep(t) { AwayStepShape(s, t); } else if ChannelStep(t) { ChannelStepShape(s, t); } else { RunnerStepShape(s, t); }
  }

  lemma {:induction false} ShapeOfRun(capacity: nat, bounded: bool, steps: seq<Step>)
    ensures var s := Run(Started(capacity, bounded), steps);
      s.capacity == capacity && s.shared.closed == (CloseQueue in steps) && |s.log| == Takes(Started(capacity, bounded), steps)
  {
    hide After;
    if steps != [] {
      var init, t := steps[..|steps|-1], steps[|steps|-1];
      ShapeOfRun(capacity, bounded, init);
      var before := Run(Started(capacity, bounded), init);
      assert steps == init + [t];
      if Enabled(before, t) {
        StepShape(before, t);
        CapacityStays(before, t);
      }
    }
  }

  /** The fields a write does not touch. */
  predicate SameBut(s: State, u: State) {
    u == s.(shared := u.shared, accepted := u.accepted, writes := u.writes, overflows := u.overflows)
    && u.shared.closed == s.shared.closed
  }

  /** A write on any run. Before the sink is closed, a record for which there is room goes to the back of the
      queue and is counted, one for which there is none is refused and counted as dropped, and the first
      refusal since a record was taken is reported. After the close nothing changes. */
  lemma OfferExactly(capacity: nat, bounded: bool, steps: seq<Step>, r: Item)
    requires capacity > 0
    ensures var s := Run(Started(capacity, bounded), steps); var u := Run(Started(capacity, bounded), steps + [Write(r)]);
      var room := |s.accepted| - Takes(Started(capacity, bounded), steps) < capacity; var c := s.shared.counts;
      && SameBut(s, u)
      && (CloseQueue in steps ==> u == s && Offer(s.shared, capacity, r) == SinkClosed)
      && (CloseQueue !in steps && room ==>
          u.shared.queue == s.shared.queue + [r] && u.accepted == s.accepted + [r] && u.overflows == s.overflows
          && u.shared.counts == c.(accepted := c.accepted + 1, overflowing := false) && Offer(s.shared, capacity, r) == Taken)
      && (CloseQueue !in steps && !room ==>
          var first := s.writes == [] || s.writes[|s.writes|-1];
          u.shared.queue == s.shared.queue && u.accepted == s.accepted && u.overflows == s.overflows + (if first then 1 else 0)
          && u.shared.counts == c.(dropped := c.dropped + 1, overflowing := true) && Offer(s.shared, capacity, r) == QueueFull(first))
  {
    hide Run, CountOf, GivenOf, DropRuns, Items, InFlight, Exclusive, Orderly, Stopping;
    RunKeeps(capacity, bounded, steps);
    ShapeOfRun(capacity, bounded, steps);
    RunMore(Started(capacity, bounded), steps, Write(r));
  }
}
