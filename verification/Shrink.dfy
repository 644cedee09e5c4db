/** Writing a record that is too long for a line: metadata is shed in stages and the message halved,
    until the line fits and says so, or nothing can. */
module Shrink {
  import opened Decimal
  import opened Records
  import opened Wrappers
  import Utf8

  /** A compact one-line printer, known only by its shape: the message is quoted between what comes before
      and after it, and a time it cannot spell is an error. */
  datatype Printer = Printer(head: Record -> string, tail: Record -> string, quote: string -> string, broken: string -> bool)

  function Line(p: Printer, r: Record): string {
    var m := r.(msg := "");
    p.head(m) + p.quote(r.msg) + p.tail(m)
  }

  function Encode(p: Printer, r: Record): Option<string> { if p.broken(r.time) then None else Some(Line(p, r)) }

  /** The line without its message. */
  function Frame(p: Printer, r: Record): nat { |Line(p, r.(msg := ""))| }

  /** No message is quoted shorter than the empty one. */
  ghost predicate Honest(p: Printer) { forall s :: |p.quote(s)| >= |p.quote("")| }

  const TRUNCATED := "logging.truncated"
  const DROPPED_ATTRS := "logging.dropped_attrs"
  const DROPPED_JOB := "logging.dropped_job"
  const DROPPED_HOPS := "logging.dropped_hops"
  const DEFAULT_MAX_LINE := 3800

  // ---- cutting ----

  /** The last character boundary at or before n. */
  function Boundary(s: string, n: nat): (m: nat)
    requires n <= |s|
    ensures m <= n && (m == 0 || m == |s| || !Utf8.Continuation(s[m]))
    ensures forall i :: m < i <= n && i < |s| ==> Utf8.Continuation(s[i])
  {
    if n == 0 || n == |s| || !Utf8.Continuation(s[n]) then n else Boundary(s, n - 1)
  }

  method Cut(s: string, length: int) returns (t: string)
    ensures s != "" && 0 <= length < |s| ==> t == s[..Boundary(s, length)]
    ensures s == "" ==> t == ""
    ensures s != "" && length >= |s| ==> t == s[..Boundary(s, |s| - 1)]
  {
    var n := length;
    if n >= |s| { n := |s| - 1; }
    while n > 0 && Utf8.Continuation(s[n])
      invariant n <= length && n < |s| && (length >= 0 && s != "" ==> n >= 0)
      invariant s != "" && length >= 0 ==> Boundary(s, n) == Boundary(s, if length < |s| then length else |s| - 1)
    {
      n := n - 1;
    }
    if n < 0 { return ""; }
    return s[..n];
  }

  function Half(msg: string): (h: string)
    ensures h <= msg && (msg != "" ==> |h| < |msg|)
  {
    if msg == "" then "" else msg[..Boundary(msg, |msg| / 2)]
  }

  /** Half a valid text is valid: no character is split. */
  lemma HalfIsValid(msg: string)
    requires Utf8.Valid(msg)
    ensures Utf8.Valid(Half(msg))
  {
    hide Utf8.Valid;
    var m := if msg == "" then 0 else Boundary(msg, |msg| / 2);
    if 0 < m { Utf8.ValidCut(msg, m); } else { Utf8.AsciiValid(""); }
  }

  function Halved(msg: string, times: nat): (h: string)
    ensures h <= msg
  {
    if times == 0 then msg else Half(Halved(msg, times - 1))
  }

  lemma {:induction false} HalvedIsValid(msg: string, times: nat)
    requires Utf8.Valid(msg)
    ensures Utf8.Valid(Halved(msg, times))
  {
    hide Utf8.Valid;
    if times > 0 {
      HalvedIsValid(msg, times - 1);
      HalfIsValid(Halved(msg, times - 1));
    }
  }

  // ---- halving until it fits ----

  /** `shrunk`: the record whose line fits first as the message is halved, the empty message last. */
  function Shrunk(p: Printer, r: Record, max: int): Option<Record>
    decreases |r.msg|
  {
    if |Line(p, r)| <= max then Some(r)
    else if r.msg == "" then None
    else Shrunk(p, r.(msg := Half(r.msg)), max)
  }

  method ShrinkMessage(p: Printer, r: Record, max: int) returns (failed: bool, line: Option<string>)
    ensures failed == p.broken(r.time)
    ensures !failed ==> line == match Shrunk(p, r, max) case None => None case Some(s) => Some(Line(p, s))
  {
    var over := r;
    while true
      invariant over.time == r.time && Shrunk(p, over, max) == Shrunk(p, r, max)
      decreases |over.msg|
    {
      var b := Encode(p, over);
      if b.None? { return true, None; }
      if |b.value| <= max { return false, b; }
      if over.msg == "" { return false, None; }
      var shorter := Cut(over.msg, |over.msg| / 2);
      over := over.(msg := shorter);
    }
  }

  /** The k-th halving fits and none before it. */
  ghost predicate FirstFit(p: Printer, r: Record, max: int, k: nat) {
    && |Line(p, r.(msg := Halved(r.msg, k)))| <= max
    && forall j :: 0 <= j < k ==> |Line(p, r.(msg := Halved(r.msg, j)))| > max
  }

  lemma HalvedStep(msg: string, k: nat)
    ensures Halved(msg, k + 1) == Half(Halved(msg, k)) && (Halved(msg, k) != "" ==> |Halved(msg, k + 1)| < |Halved(msg, k)|)
  {
    hide Half;
  }

  lemma {:induction false} ShrunkFrom(p: Printer, r: Record, max: int, k: nat) returns (n: nat)
    requires forall j :: 0 <= j < k ==> |Line(p, r.(msg := Halved(r.msg, j)))| > max
    requires Shrunk(p, r.(msg := Halved(r.msg, k)), max).Some?
    ensures FirstFit(p, r, max, n) && Shrunk(p, r.(msg := Halved(r.msg, k)), max) == Some(r.(msg := Halved(r.msg, n)))
    decreases |Halved(r.msg, k)|
  {
    hide Line, Half, Halved;
    HalvedStep(r.msg, k);
    if |Line(p, r.(msg := Halved(r.msg, k)))| <= max {
      n := k;
    } else {
      n := ShrunkFrom(p, r, max, k + 1);
    }
  }

  /** It fails exactly when the frame alone is over the cap; otherwise the message is the longest halving
      that fits. */
  lemma {:induction false} ShrunkExactly(p: Printer, r: Record, max: int)
    requires Honest(p)
    ensures Shrunk(p, r, max).None? <==> Frame(p, r) > max
    decreases |r.msg|
  {
    if r.msg == "" {
      assert r.(msg := "") == r;
    } else {
      ShrunkExactly(p, r.(msg := Half(r.msg)), max);
      assert |p.quote(r.msg)| >= |p.quote("")|;
    }
  }

  // ---- the ladder ----

  function Marked(attrs: map<string, string>, key: string, value: string): map<string, string> { attrs[key := value] }

  /** The marked record: its attributes are gone, counted. */
  function First(r: Record): Record {
    var marks := map[TRUNCATED := "true"];
    r.(attrs := if |r.attrs| > 0 then marks[DROPPED_ATTRS := Decimal.Num(|r.attrs|)] else marks)
  }

  function WithoutJob(r: Record): Record { r.(job := "", attrs := Marked(r.attrs, DROPPED_JOB, "true")) }

  function WithoutHops(r: Record): Record {
    r.(identity := [], attrs := Marked(r.attrs, DROPPED_HOPS, Decimal.Num(|r.identity|)))
  }

  function Last(stages: seq<Record>): Record
    requires stages != []
  {
    stages[|stages|-1]
  }

  /** A step is taken only if it makes the frame strictly smaller. */
  function Shed(p: Printer, stages: seq<Record>, next: Record): (t: seq<Record>)
    requires stages != []
    ensures t != [] && stages <= t
  {
    if Frame(p, next) < Frame(p, Last(stages)) then stages + [next] else stages
  }

  function JobStage(p: Printer, r: Record): (t: seq<Record>)
    ensures t != []
  {
    if r.job != "" then Shed(p, [First(r)], WithoutJob(First(r))) else [First(r)]
  }

  function Stages(p: Printer, r: Record): (t: seq<Record>)
    ensures t != []
  {
    var s := JobStage(p, r);
    if r.identity != [] then Shed(p, s, WithoutHops(Last(s))) else s
  }

  /** `degraded`, its closure's captured variables as the loop-free program it is. */
  method Degraded(p: Printer, r: Record) returns (failed: bool, stages: seq<Record>)
    ensures failed ==> p.broken(r.time)
    ensures !failed ==> stages == Stages(p, r)
    ensures !failed && p.broken(r.time) ==> r.job == "" && r.identity == []
  {
    var over := r;
    over := over.(attrs := map[TRUNCATED := "true"]);
    if |r.attrs| > 0 { over := over.(attrs := over.attrs[DROPPED_ATTRS := Decimal.Num(|r.attrs|)]); }
    stages := [over];
    failed := false;
    if over.job != "" {
      var next := over.(job := "");
      next := next.(attrs := Marked(over.attrs, DROPPED_JOB, "true"));
      var narrower;
      failed, narrower := Narrows(p, next, over);
      if failed { return; }
      if narrower { stages, over := stages + [next], next; }
    }
    if |over.identity| > 0 {
      var next := over.(attrs := Marked(over.attrs, DROPPED_HOPS, Decimal.Num(|over.identity|)));
      next := next.(identity := []);
      var narrower;
      failed, narrower := Narrows(p, next, over);
      if failed { return; }
      if narrower { stages, over := stages + [next], next; }
    }
  }

  /** Frames are compared, so that only what the step shed counts. */
  method Narrows(p: Printer, a: Record, b: Record) returns (failed: bool, narrower: bool)
    ensures failed == (p.broken(a.time) || p.broken(b.time))
    ensures !failed ==> narrower == (Frame(p, a) < Frame(p, b))
  {
    var x := Encode(p, a.(msg := ""));
    if x.None? { return true, false; }
    var y := Encode(p, b.(msg := ""));
    if y.None? { return true, false; }
    return false, |x.value| < |y.value|;
  }

  /** Every stage after the first has a strictly smaller frame: the search cannot cycle. */
  lemma StagesNarrow(p: Printer, r: Record)
    ensures |Stages(p, r)| <= 3
    ensures forall i, j :: 0 <= i < j < |Stages(p, r)| ==> Frame(p, Stages(p, r)[j]) < Frame(p, Stages(p, r)[i])
  {
  }

  /** What a shrunk record says about itself: exactly what it lost. */
  function Confession(r: Record, s: Record): map<string, string> {
    var marks := map[TRUNCATED := "true"];
    var attrs := if |r.attrs| > 0 then marks[DROPPED_ATTRS := Decimal.Num(|r.attrs|)] else marks;
    var job := if s.job != r.job then attrs[DROPPED_JOB := "true"] else attrs;
    if s.identity != r.identity then job[DROPPED_HOPS := Decimal.Num(|r.identity|)] else job
  }

  /** The shrunk record is the original but for its message and for what it names as dropped. */
  ghost predicate Confessed(r: Record, s: Record) {
    && s.attrs == Confession(r, s)
    && (s.job == r.job || s.job == "") && (s.identity == r.identity || s.identity == [])
    && s.schema == r.schema && s.time == r.time && s.level == r.level
  }

  lemma FirstConfesses(r: Record)
    ensures Confessed(r, First(r)) && First(r).msg == r.msg
    ensures r.job != "" ==> Confessed(r, WithoutJob(First(r)))
  {
  }

  lemma HopsConfess(r: Record, s: Record)
    requires Confessed(r, s) && s.identity == r.identity && r.identity != []
    ensures Confessed(r, WithoutHops(s))
  {
  }

  lemma StagesConfess(p: Printer, r: Record)
    ensures forall s :: s in Stages(p, r) ==> Confessed(r, s) && s.msg == r.msg
  {
    hide Confessed, Frame;
    FirstConfesses(r);
    var js := JobStage(p, r);
    assert forall s :: s in js ==> s == First(r) || (r.job != "" && s == WithoutJob(First(r)));
    assert Last(js) in js;
    if r.identity != [] { HopsConfess(r, Last(js)); }
    assert forall s :: s in Stages(p, r) ==> s in js || (r.identity != [] && s == WithoutHops(Last(js)));
  }

  // ---- the whole search ----

  /** The first stage that can be made to fit. */
  function FirstShrunk(p: Printer, stages: seq<Record>, max: int): Option<Record> {
    if stages == [] then None
    else if Shrunk(p, stages[0], max).Some? then Shrunk(p, stages[0], max)
    else FirstShrunk(p, stages[1..], max)
  }

  function Truncated(p: Printer, r: Record, max: int): Option<Record> { FirstShrunk(p, Stages(p, r), max) }

  datatype Outcome = Fits(line: string) | Failed | OverCap

  method Truncate(p: Printer, r: Record, max: int) returns (o: Outcome)
    ensures o == if p.broken(r.time) then Failed
      else match Truncated(p, r, max) case None => OverCap case Some(s) => Fits(Line(p, s))
  {
    StagesConfess(p, r);
    var failed, stages := Degraded(p, r);
    if failed { return Failed; }
    ghost var all := stages;
    assert all[0..] == all;
    for i := 0 to |stages|
      invariant FirstShrunk(p, stages[i..], max) == Truncated(p, r, max)
      invariant i > 0 ==> !p.broken(r.time)
    {
      assert stages[i] in stages && stages[i..][1..] == stages[i+1..];
      var err, line := ShrinkMessage(p, stages[i], max);
      if err { return Failed; }
      if line.Some? { return Fits(line.value); }
    }
    return OverCap;
  }

  lemma {:induction false} ShrunkFits(p: Printer, r: Record, max: int)
    ensures Shrunk(p, r, max).Some? ==> |Line(p, Shrunk(p, r, max).value)| <= max
    decreases |r.msg|
  {
    hide Line;
    if |Line(p, r)| > max && r.msg != "" { ShrunkFits(p, r.(msg := Half(r.msg)), max); }
  }

  lemma {:induction false} SearchFits(p: Printer, stages: seq<Record>, max: int)
    ensures FirstShrunk(p, stages, max).Some? ==> |Line(p, FirstShrunk(p, stages, max).value)| <= max
  {
    hide Line, Shrunk;
    if stages != [] {
      ShrunkFits(p, stages[0], max);
      SearchFits(p, stages[1..], max);
    }
  }

  /** `FileSink.Write`, up to the system call: the line it writes, which is never over the cap. */
  method LineToWrite(p: Printer, r: Record, maxLine: int) returns (o: Outcome)
    ensures o.Fits? ==> |o.line| <= if maxLine <= 0 then 3800 else maxLine
    ensures var max := if maxLine <= 0 then 3800 else maxLine;
      o == if p.broken(r.time) then Failed
        else if |Line(p, r)| <= max then Fits(Line(p, r))
        else match Truncated(p, r, max) case None => OverCap case Some(s) => Fits(Line(p, s))
  {
    var b := Encode(p, r);
    if b.None? { return Failed; }
    var max := maxLine;
    if max <= 0 { max := DEFAULT_MAX_LINE; }
    SearchFits(p, Stages(p, r), max);
    if |b.value| > max { o := Truncate(p, r, max); } else { o := Fits(b.value); }
  }

  lemma {:induction false} FirstShrunkIs(p: Printer, stages: seq<Record>, max: int) returns (i: nat)
    requires Honest(p)
    ensures i <= |stages| && (i < |stages| <==> FirstShrunk(p, stages, max).Some?)
    ensures forall j :: 0 <= j < i ==> Frame(p, stages[j]) > max
    ensures i < |stages| ==> Frame(p, stages[i]) <= max && FirstShrunk(p, stages, max) == Shrunk(p, stages[i], max)
  {
    if stages == [] {
      i := 0;
    } else {
      ShrunkExactly(p, stages[0], max);
      if Shrunk(p, stages[0], max).Some? {
        i := 0;
      } else {
        var k := FirstShrunkIs(p, stages[1..], max);
        i := k + 1;
        assert forall j :: 0 <= j < k ==> stages[1..][j] == stages[j+1];
        forall j | 0 <= j < i ensures Frame(p, stages[j]) > max { if j > 0 { assert stages[j] == stages[1..][j-1]; } }
      }
    }
  }

  /** What a shrunk line is: within the cap, naming exactly what was dropped, from the first stage whose
      frame fits, its message the longest halving that fits there and valid if the original was. */
  lemma TruncatedIs(p: Printer, r: Record, max: int) returns (i: nat, k: nat)
    requires Honest(p) && Truncated(p, r, max).Some?
    ensures var s := Truncated(p, r, max).value; var stages := Stages(p, r);
      && |Line(p, s)| <= max && Confessed(r, s) && s.msg <= r.msg && (Utf8.Valid(r.msg) ==> Utf8.Valid(s.msg))
      && i < |stages| && Frame(p, stages[i]) <= max && (forall j :: 0 <= j < i ==> Frame(p, stages[j]) > max)
      && s == stages[i].(msg := Halved(r.msg, k)) && FirstFit(p, stages[i], max, k)
  {
    hide Utf8.Valid, Stages, Line, Honest;
    i := FirstShrunkIs(p, Stages(p, r), max);
    StagesConfess(p, r);
    var stage := Stages(p, r)[i];
    assert stage in Stages(p, r);
    k := ShrunkFrom(p, stage, max, 0);
    if Utf8.Valid(r.msg) { HalvedIsValid(r.msg, k); }
  }

  /** A cap is refused exactly when even the last stage's frame is over it; then nothing is written. */
  lemma OverCapExactly(p: Printer, r: Record, max: int)
    requires Honest(p)
    ensures Truncated(p, r, max).None? <==> Frame(p, Last(Stages(p, r))) > max
  {
    hide Stages, Honest;
    var i := FirstShrunkIs(p, Stages(p, r), max);
    StagesNarrow(p, r);
  }
}
