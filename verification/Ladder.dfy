/** What is shed from a record that is too long, and when, by the lengths of the lines alone. */
module Ladder {
  import opened Shrink
  import opened Records
  import Decimal

  // ---- what each step leaves ----

  /** What a shortened record says it lost. */
  ghost predicate Marks(r: Record, job: bool, hops: bool, m: map<string, string>) {
    && (forall k :: k in m ==> k == "logging.truncated" || k == "logging.dropped_attrs" || k == "logging.dropped_job" || k == "logging.dropped_hops")
    && "logging.truncated" in m && m["logging.truncated"] == "true"
    && ("logging.dropped_attrs" in m <==> r.attrs != map[]) && (r.attrs != map[] ==> m["logging.dropped_attrs"] == Decimal.Num(|r.attrs|))
    && ("logging.dropped_job" in m <==> job) && (job ==> m["logging.dropped_job"] == "true")
    && ("logging.dropped_hops" in m <==> hops) && (hops ==> m["logging.dropped_hops"] == Decimal.Num(|r.identity|))
  }

  function MarksOf(r: Record, job: bool, hops: bool): (m: map<string, string>)
    ensures Marks(r, job, hops, m)
  {
    var a := map["logging.truncated" := "true"];
    var b := if r.attrs != map[] then a["logging.dropped_attrs" := Decimal.Num(|r.attrs|)] else a;
    var c := if job then b["logging.dropped_job" := "true"] else b;
    if hops then c["logging.dropped_hops" := Decimal.Num(|r.identity|)] else c
  }

  /** The marks are these and no others. */
  lemma OneMarks(r: Record, job: bool, hops: bool, m: map<string, string>)
    requires Marks(r, job, hops, m)
    ensures m == MarksOf(r, job, hops)
  {
    assert m.Keys == MarksOf(r, job, hops).Keys;
  }

  /** The record without its attributes, and without its job or its identity where those are gone. */
  function Shorn(r: Record, job: bool, hops: bool): Record {
    r.(attrs := MarksOf(r, job, hops), job := if job then "" else r.job, identity := if hops then [] else r.identity)
  }

  /** The length of a line with a message in it. */
  function Length(p: Printer, r: Record, msg: string): nat {
    |p.head(r.(msg := ""))| + |p.quote(msg)| + |p.tail(r.(msg := ""))|
  }

  function Size(p: Printer, r: Record): nat { Length(p, r, "") }

  /** The job goes where that makes the line shorter, though the mark for it is added. */
  predicate JobGoes(p: Printer, r: Record) {
    r.job != "" && Size(p, Shorn(r, true, false)) < Size(p, Shorn(r, false, false))
  }

  /** So does the identity, from what is left by then. */
  predicate HopsGo(p: Printer, r: Record) {
    r.identity != [] && Size(p, Shorn(r, JobGoes(p, r), true)) < Size(p, Shorn(r, JobGoes(p, r), false))
  }

  lemma FirstIs(r: Record)
    ensures First(r) == Shorn(r, false, false) && WithoutJob(First(r)) == Shorn(r, true, false)
  {
    assert |r.attrs| > 0 <==> r.attrs != map[];
  }

  lemma HopsIs(r: Record, job: bool)
    ensures WithoutHops(Shorn(r, job, false)) == Shorn(r, job, true)
  {
  }

  lemma FrameIs(p: Printer, r: Record)
    ensures Frame(p, r) == Size(p, r)
  {
  }

  lemma JobStageIs(p: Printer, r: Record)
    ensures JobStage(p, r) == [Shorn(r, false, false)] + if JobGoes(p, r) then [Shorn(r, true, false)] else []
  {
    hide Frame, Size, First, WithoutJob, Shorn;
    FirstIs(r);
    FrameIs(p, Shorn(r, false, false));
    FrameIs(p, Shorn(r, true, false));
  }

  /** The ladder, step by step. */
  lemma StagesExactly(p: Printer, r: Record)
    ensures Stages(p, r) ==
      [Shorn(r, false, false)] + (if JobGoes(p, r) then [Shorn(r, true, false)] else []) + (if HopsGo(p, r) then [Shorn(r, JobGoes(p, r), true)] else [])
  {
    hide Frame, Size, WithoutHops, Shorn, JobGoes, JobStage;
    JobStageIs(p, r);
    var job := JobGoes(p, r);
    HopsIs(r, job);
    FrameIs(p, Shorn(r, job, false));
    FrameIs(p, Shorn(r, job, true));
  }

  /** A record is refused exactly if no step's line fits with an empty message: the marked record's, that without
      the job where dropping it helps, and that without the identity where dropping it helps. So what could be
      written by shedding either is never refused. */
  lemma RefusedExactly(p: Printer, r: Record, max: int)
    requires Honest(p)
    ensures Truncated(p, r, max).None? <==>
      Size(p, Shorn(r, false, false)) > max && (JobGoes(p, r) ==> Size(p, Shorn(r, true, false)) > max)
      && (HopsGo(p, r) ==> Size(p, Shorn(r, JobGoes(p, r), true)) > max)
  {
    hide Stages, Frame, Size, Shorn, JobGoes, HopsGo, Honest;
    StagesExactly(p, r);
    var i := FirstShrunkIs(p, Stages(p, r), max);
    FrameIs(p, Shorn(r, false, false));
    FrameIs(p, Shorn(r, true, false));
    FrameIs(p, Shorn(r, JobGoes(p, r), true));
    var stages := Stages(p, r);
    assert stages[0] == Shorn(r, false, false);
    assert JobGoes(p, r) ==> |stages| > 1 && stages[1] == Shorn(r, true, false);
    assert HopsGo(p, r) ==> stages[|stages|-1] == Shorn(r, JobGoes(p, r), true);
    assert forall j :: 0 <= j < |stages| ==>
      stages[j] == Shorn(r, false, false) || (JobGoes(p, r) && stages[j] == Shorn(r, true, false))
      || (HopsGo(p, r) && stages[j] == Shorn(r, JobGoes(p, r), true));
  }

  // ---- how the message is shortened ----

  predicate Inside(c: char) { 0x80 <= c as int < 0xC0 }

  /** The longest start of the message, at most half of it, that does not end inside a character. */
  ghost predicate HalfOf(msg: string, h: string) {
    && h <= msg && |h| <= |msg| / 2
    && (h != "" ==> !Inside(msg[|h|]))
    && forall i :: |h| < i <= |msg| / 2 && i < |msg| ==> Inside(msg[i])
  }

  lemma HalfExactly(msg: string)
    ensures HalfOf(msg, Half(msg))
  {
  }

  /** Each message is half of the one before. */
  ghost predicate Halves(ms: seq<string>) {
    forall i :: 0 < i < |ms| ==> HalvedAt(ms, i)
  }

  ghost predicate HalvedAt(ms: seq<string>, i: nat)
    requires 0 < i < |ms|
  {
    HalfOf(ms[i-1], ms[i])
  }

  lemma {:induction false} HalvesOf(msg: string, k: nat) returns (ms: seq<string>)
    ensures |ms| == k + 1 && ms[0] == msg && Halves(ms) && forall i :: 0 <= i <= k ==> ms[i] == Halved(msg, i)
  {
    hide HalfOf, Half;
    if k == 0 {
      ms := [msg];
    } else {
      var before := HalvesOf(msg, k - 1);
      ms := before + [Halved(msg, k)];
      HalfExactly(Halved(msg, k - 1));
      forall i | 0 < i < |ms| ensures HalvedAt(ms, i) { assert i < k ==> HalvedAt(before, i); }
    }
  }

  /** Which step a line is written from: the first whose line fits with an empty message. */
  predicate FromStep(p: Printer, r: Record, max: int, job: bool, hops: bool) {
    && Size(p, Shorn(r, job, hops)) <= max
    && (job || hops ==> Size(p, Shorn(r, false, false)) > max)
    && (hops ==> (JobGoes(p, r) ==> Size(p, Shorn(r, true, false)) > max) && HopsGo(p, r) && job == JobGoes(p, r))
    && (!hops && job ==> JobGoes(p, r))
  }

  /** What is written of a record that is too long: its first step that fits, with the first of its message's
      halvings that fits there. */
  lemma WrittenExactly(p: Printer, r: Record, max: int) returns (job: bool, hops: bool, ms: seq<string>)
    requires Honest(p) && Truncated(p, r, max).Some?
    ensures FromStep(p, r, max, job, hops)
    ensures ms != [] && ms[0] == r.msg && Halves(ms)
    ensures var step, last := Shorn(r, job, hops), ms[|ms|-1];
      && Truncated(p, r, max).value == step.(msg := last) && Length(p, step, last) <= max
      && forall i :: 0 <= i < |ms| - 1 ==> Length(p, step, ms[i]) > max
  {
    hide Stages, Frame, Size, Shorn, JobGoes, HopsGo, Honest, Line, Halved, Halves, Length;
    StagesExactly(p, r);
    var i, k := TruncatedIs(p, r, max);
    var stages := Stages(p, r);
    job, hops := StepAt(p, r, stages, i);
    FrameIs(p, Shorn(r, false, false));
    FrameIs(p, Shorn(r, true, false));
    FrameIs(p, Shorn(r, JobGoes(p, r), true));
    assert i > 0 ==> Frame(p, stages[0]) > max;
    assert i > 1 ==> Frame(p, stages[1]) > max;
    ms := HalvesOf(r.msg, k);
    KeptMessage(r, job, hops);
    var step := Shorn(r, job, hops);
    forall j | 0 <= j <= k ensures Length(p, step, ms[j]) == |Line(p, step.(msg := Halved(r.msg, j)))| {
      LengthIs(p, step, ms[j]);
    }
  }

  lemma StepAt(p: Printer, r: Record, stages: seq<Record>, i: nat) returns (job: bool, hops: bool)
    requires i < |stages|
    requires stages ==
      [Shorn(r, false, false)] + (if JobGoes(p, r) then [Shorn(r, true, false)] else []) + (if HopsGo(p, r) then [Shorn(r, JobGoes(p, r), true)] else [])
    ensures stages[i] == Shorn(r, job, hops) && stages[0] == Shorn(r, false, false)
    ensures hops ==> HopsGo(p, r) && job == JobGoes(p, r) && i == (if JobGoes(p, r) then 2 else 1)
    ensures !hops && job ==> JobGoes(p, r) && i == 1
    ensures job || hops ==> i > 0
    ensures JobGoes(p, r) ==> |stages| > 1 && stages[1] == Shorn(r, true, false)
  {
    hide Size, Shorn, JobGoes, HopsGo;
    if i == 0 { job, hops := false, false; }
    else if i == 1 && JobGoes(p, r) { job, hops := true, false; }
    else { job, hops := JobGoes(p, r), true; }
  }

  lemma KeptMessage(r: Record, job: bool, hops: bool)
    ensures Shorn(r, job, hops).msg == r.msg
  {
  }

  lemma LengthIs(p: Printer, r: Record, msg: string)
    ensures Length(p, r, msg) == |Line(p, r.(msg := msg))|
  {
  }
}
