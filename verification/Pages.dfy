/** What a page of history is, from the bytes of the file: where its lines are, when it is full, which pages a
    client refuses, which observers wait. */
module Pages {
  import opened Records
  import opened Messages
  import opened Cursor
  import opened History
  import opened Paging
  import opened Observers
  import opened Wrappers
  import Decimal

  // ---- lines ----

  /** Splitting is what it should be: nothing is lost, no line is empty, a line feed ends a line and is nowhere
      else in it, and only the last line may lack one. */
  ghost predicate Split(t: string, ls: seq<string>) {
    && Joined(ls) == t
    && (forall i :: 0 <= i < |ls| ==> ls[i] != "" && forall j :: 0 <= j < |ls[i]| - 1 ==> ls[i][j] != '\n')
    && (forall i :: 0 <= i < |ls| - 1 ==> ls[i][|ls[i]|-1] == '\n')
  }

  function Joined(ls: seq<string>): string { if ls == [] then "" else ls[0] + Joined(ls[1..]) }

  lemma {:induction false} EndOfLine(b: string, i: nat, limit: nat)
    requires i < limit <= |b|
    ensures var e := LineEnd(b, i, limit);
      i < e <= limit && (forall j :: i <= j < e - 1 ==> b[j] != '\n') && (b[e-1] == '\n' || e == limit)
    decreases limit - i
  {
    if b[i] != '\n' && i + 1 < limit { EndOfLine(b, i + 1, limit); }
  }

  lemma NothingAfter(t: string, e: nat)
    requires e <= |t| && Lines(t[e..]) != []
    ensures e < |t|
  {
    if e == |t| { NoLines(); }
  }

  lemma {:induction false} LinesExactly(t: string)
    ensures Split(t, Lines(t))
    decreases |t|
  {
    hide LineEnd, Lines;
    if t == "" {
      NoLines();
    } else {
      var e := LineEnd(t, 0, |t|);
      EndOfLine(t, 0, |t|);
      LinesUnfold(t);
      LinesExactly(t[e..]);
      var ls, rest := Lines(t), Lines(t[e..]);
      assert ls[0] == t[..e] && ls[1..] == rest;
      if |ls| > 1 { NothingAfter(t, e); }
      forall i | 0 <= i < |ls| - 1 ensures ls[i][|ls[i]|-1] == '\n' {
        if i > 0 { assert ls[i] == rest[i-1]; }
      }
      forall i | 0 <= i < |ls| ensures ls[i] != "" && forall j :: 0 <= j < |ls[i]| - 1 ==> ls[i][j] != '\n' {
        if i > 0 { assert ls[i] == rest[i-1]; }
      }
    }
  }

  // ---- when a page is full ----

  /** What records weigh: the lengths of their encodings. */
  function Weight(rs: seq<Record>): nat {
    if rs == [] then 0 else Weigh(rs[0]) + Weight(rs[1..])
  }

  function Weigh(r: Record): nat { match Encode(r) case Given(text) => |text| case Refusal(_, _) => 0 }

  lemma {:induction false} WeightMore(rs: seq<Record>, r: Record)
    ensures Weight(rs + [r]) == Weight(rs) + Weigh(r)
  {
    hide Weigh;
    if rs == [] {
      assert [] + [r] == [r];
    } else {
      WeightMore(rs[1..], r);
      assert (rs + [r])[1..] == rs[1..] + [r];
    }
  }

  lemma {:induction false} SumIsWeight(rs: seq<Record>)
    requires EncodableRecords(rs)
    ensures Sum(rs) == Weight(rs)
  {
    hide Encodable, Encode, Weigh, Size;
    if rs != [] {
      var init, last := rs[..|rs|-1], rs[|rs|-1];
      assert last in rs && forall r :: r in init ==> r in rs;
      SumIsWeight(init);
      WeightMore(init, last);
      SizeIs(last);
      WeighIs(last);
      assert init + [last] == rs;
    }
  }

  lemma WeighIs(r: Record)
    requires Encode(r).Given?
    ensures Weigh(r) == |Encode(r).value|
  {
    hide Encode;
  }

  /** No more fits: the file ends here, the records are as many as asked for, or the line here is a record that
      would weigh too much with the others. */
  ghost predicate Full(b: string, to: nat, rs: seq<Record>, maxRecords: int, maxBytes: int) {
    || to == |b|
    || |rs| == maxRecords
    || (to < |b| && NextTooHeavy(b, to, rs, maxBytes))
  }

  ghost predicate NextTooHeavy(b: string, to: nat, rs: seq<Record>, maxBytes: int)
    requires to < |b|
  {
    && Lines(b[to..]) != []
    && var line := Lines(b[to..])[0];
      |line| <= 65536 && line != "" && line[|line|-1] == '\n' && Decode(line).Given? && Weight(rs) + Weigh(Decode(line).value) > maxBytes
  }

  lemma HeavyIs(b: string, to: nat, rs: seq<Record>, maxBytes: int)
    requires to < |b| && LineAt(b, to).Walked? && Weight(rs) + Weigh(LineAt(b, to).records[0]) > maxBytes
    ensures NextTooHeavy(b, to, rs, maxBytes)
  {
    hide LineAt, Lines, Decode, Weigh, Weight;
    LineExactly(b, to);
    LinesExactly(b[to..]);
  }

  lemma {:induction false} GatherFills(b: string, offset: nat, acc: seq<Record>, used: nat, maxRecords: nat, maxBytes: nat)
    requires offset <= |b| && AllSound(acc) && used == Sum(acc) && |acc| <= maxRecords && used <= maxBytes
    requires Gather(b, offset, acc, used, maxRecords, maxBytes).Walked?
    ensures var w := Gather(b, offset, acc, used, maxRecords, maxBytes); Full(b, w.offset, w.records, maxRecords, maxBytes)
    decreases |b| - offset
  {
    hide LineAt, Size, Encodable, CleanRecord, Sum, AllSound, NextTooHeavy, EncodableRecords, Weight, Weigh, Encode;
    if offset < |b| && |acc| < maxRecords {
      var r := LineAt(b, offset).records[0];
      assert LineAt(b, offset).records == [r];
      if used + Size(r) <= maxBytes {
        SumMore(acc, r);
        GatherFills(b, LineAt(b, offset).offset, acc + [r], used + Size(r), maxRecords, maxBytes);
      } else {
        AllSoundIs(acc);
        SumIsWeight(acc);
        SizeIs(r);
        WeighIs(r);
        HeavyIs(b, offset, acc, maxBytes);
      }
    }
  }

  /** A page goes from its cursor to where the file ends, the record budget is used up, or the next line would
      exceed the byte budget; and it never holds more than either. */
  lemma PageIsFull(epoch: string, disk: Disk, cursor: string, maxRecords: int, maxBytes: int) returns (from: nat, to: nat)
    requires ReadPage(epoch, disk, cursor, maxRecords, maxBytes).outcome == "page"
    ensures var p := ReadPage(epoch, disk, cursor, maxRecords, maxBytes);
      && 1 <= maxRecords <= 256 && 1 <= maxBytes <= 65536
      && OffsetOf(epoch, cursor) == Some(from) && from <= to <= |disk.bytes| && p.next == epoch + ":" + Decimal.Num(to) && p.atEnd == (to == |disk.bytes|)
      && Reads(disk.bytes[from..to], p.records) && |p.records| <= maxRecords && Weight(p.records) <= maxBytes
      && Full(disk.bytes, to, p.records, maxRecords, maxBytes)
  {
    hide OffsetOf, Gather, Reads, Sum, AllSound, Full, EncodableRecords, Weight;
    from := OffsetOf(epoch, cursor).value;
    var w := Gather(disk.bytes, from, [], 0, maxRecords, maxBytes);
    if w.Stuck? { StuckWords(disk.bytes, from, [], 0, maxRecords, maxBytes); }
    to := w.offset;
    NothingSummed();
    GatherIs(disk.bytes, from, [], 0, maxRecords, maxBytes);
    assert w.records[0..] == w.records;
    GatherFills(disk.bytes, from, [], 0, maxRecords, maxBytes);
    AllSoundIs(w.records);
    SumIsWeight(w.records);
  }

  // ---- which answers a client refuses ----

  /** A client refuses a page asked for beyond the limits, one with more records or bytes than it asked for, one
      without a cursor to go on from, one with records that would be read again, and an empty one that is not the
      end; and of the refusals those that hold records, move the cursor or claim the end. */
  lemma RefusedPages(p: Page, cursor: string, maxRecords: int, maxBytes: int)
    requires EncodableRecords(p.records)
    ensures !Acceptable(p, cursor, maxRecords, maxBytes) <==>
      if p.outcome == "page" then
        || maxRecords < 1 || maxRecords > 256 || maxBytes < 1 || maxBytes > 65536
        || |p.records| > maxRecords || Weight(p.records) > maxBytes
        || p.next == "" || (p.records != [] && p.next == cursor) || (p.records == [] && !p.atEnd)
      else p.records != [] || p.next != cursor || p.atEnd
  {
    hide Sum, Weight, EncodableRecords;
    SumIsWeight(p.records);
  }

  // ---- who waits ----

  /** What an observer finds when there is nothing behind its cursor and the file can be read. */
  ghost predicate AtTheEnd(s: Hub, ask: Ask, path: Path) {
    && 1 <= ask.maxRecords <= 256 && 1 <= ask.maxBytes <= 65536
    && !s.fileClosed && path.open && path.info && path.same
    && OffsetOf(s.epoch, ask.cursor) == Some(|s.bytes|) && (s.bytes == "" || s.bytes[|s.bytes|-1] == '\n')
  }

  lemma EmptyPageExactly(s: Hub, ask: Ask, path: Path)
    ensures var p := PageNow(s, ask, path);
      p.outcome == "page" && p.records == [] && p.atEnd <==> AtTheEnd(s, ask, path)
  {
    hide OffsetOf, Gather;
    var p := PageNow(s, ask, path);
    if Waits(p) { WaitsAtEnd(s, ask, path); ReadableNow(s, ask, path); }
    if AtTheEnd(s, ask, path) { NothingGathered(s.bytes, ask.maxRecords, ask.maxBytes); }
  }

  lemma ReadableNow(s: Hub, ask: Ask, path: Path)
    requires PageNow(s, ask, path).outcome == "page"
    ensures path.open && path.info && path.same
  {
    hide OffsetOf, Gather;
  }

  lemma NothingGathered(b: string, maxRecords: nat, maxBytes: nat)
    ensures Gather(b, |b|, [], 0, maxRecords, maxBytes) == Walked([], |b|)
  {
    hide LineAt, Size, Encodable, CleanRecord;
  }

  /** An observer is registered exactly if it has time left, its page is empty and at the end, and one of the 32
      places is free; then it waits on the channel the next write or the close will close. Nothing else moves. */
  lemma ObserveExactly(s: Hub, id: nat, ask: Ask, waitMs: int, path: Path)
    requires Observers.Inv(s) && id !in s.observers
    ensures Observers.Enabled(s, Observe(id, ask, waitMs, path))
    ensures var u := Observers.After(s, Observe(id, ask, waitMs, path)); var p := PageNow(s, ask, path);
      && (id in u.observers <==> 0 < waitMs <= 30000 && p.outcome == "page" && p.records == [] && p.atEnd && |s.observers| < 32)
      && (id in u.observers <==> 0 < waitMs <= 30000 && AtTheEnd(s, ask, path) && |s.observers| < 32)
      && (id in u.observers ==> u.changed.Some? && u.observers[id] == Observer(ask, u.changed.value, |s.bytes|, Waiting))
      && (s.changed.Some? ==> u.changed == s.changed)
      && u.observers - {id} == s.observers && u.bytes == s.bytes && u.closed == s.closed && u.fileClosed == s.fileClosed
  {
    hide OffsetOf, PageNow, AtTheEnd, Tracked, Observers.After;
    EmptyPageExactly(s, ask, path);
    ObservedIs(s, id, ask, waitMs, path);
    assert s.observers - {id} == s.observers;
  }

  lemma ObservedIs(s: Hub, id: nat, ask: Ask, waitMs: int, path: Path)
    requires id !in s.observers
    ensures Observers.Enabled(s, Observe(id, ask, waitMs, path))
    ensures Observers.After(s, Observe(id, ask, waitMs, path)) ==
      if waitMs < 0 || waitMs > 30000 then s
      else if Waits(PageNow(s, ask, path)) && waitMs > 0 && s.waiters < 32 then Registered(Captured(s), id, ask)
      else Captured(s)
  {
    hide PageNow, Waits, Registered;
    SamePage(s, ask, path);
  }

  /** Making the channel changes no page. */
  lemma SamePage(s: Hub, ask: Ask, path: Path)
    ensures PageNow(Captured(s), ask, path) == PageNow(s, ask, path)
  {
    hide ReadPage;
  }

  /** The last step of an observer on a run. */
  function LastOf(s: Hub, steps: seq<Step>, id: nat): Option<Step> {
    if steps == [] then None
    else
      var init, t := steps[..|steps|-1], steps[|steps|-1];
      if Observers.Enabled(Observers.Run(s, init), t) && Of(t, id) then Some(t) else LastOf(s, init, id)
  }

  predicate Of(t: Step, id: nat) {
    match t
    case Write(_, _) => false
    case Close => false
    case _ => t.id == id
  }

  ghost predicate PhaseOf(phase: Phase, t: Step) {
    match t
    case Observe(_, _, _, _) => phase == Waiting
    case Wake(_) => phase == Woken
    case Expire(_) => phase == Woken
    case Cancel(_) => phase == Leaving
    case Reread(_, _) => phase == Leaving
    case _ => false
  }

  lemma PhaseKept(s: Hub, t: Step, id: nat)
    requires Observers.Enabled(s, t) && id in Observers.After(s, t).observers
    ensures Of(t, id) ==> PhaseOf(Observers.After(s, t).observers[id].phase, t)
    ensures !Of(t, id) ==> id in s.observers && Observers.After(s, t).observers[id] == s.observers[id]
  {
    hide PageNow, Waits;
  }

  /** Where an observer is, from its own last step: it waits from its first read, a change or its time wakes it, and
      it leaves only once it has read again or its context has ended. */
  lemma {:induction false} ObserverExactly(epoch: string, bytes: string, steps: seq<Step>, id: nat)
    requires id in Observers.Run(Opened(epoch, bytes), steps).observers
    ensures var t := LastOf(Opened(epoch, bytes), steps, id);
      t.Some? && PhaseOf(Observers.Run(Opened(epoch, bytes), steps).observers[id].phase, t.value)
  {
    hide PhaseOf, Of, Observers.After, Observers.Enabled;
    var init, t := steps[..|steps|-1], steps[|steps|-1];
    var before := Observers.Run(Opened(epoch, bytes), init);
    if Observers.Enabled(before, t) { PhaseKept(before, t, id); }
    if !(Observers.Enabled(before, t) && Of(t, id)) { ObserverExactly(epoch, bytes, init, id); }
  }
}
