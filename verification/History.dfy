/** Bounded history over a file that only grows: what a page is, and what following pages comes to. */
module History {
  import opened Decimal
  import opened Records
  import opened Messages
  import opened Readers
  import opened Cursor
  import opened Wrappers

  // ---- the reference: split at line feeds and decode ----

  /** Where the line starting at i ends: behind its line feed, or at the limit if it has none before. */
  function LineEnd(b: string, i: nat, limit: nat): (e: nat)
    requires i <= limit <= |b|
    ensures i <= e <= limit && (i < limit ==> i < e)
    ensures e < limit ==> b[e-1] == '\n'
    decreases limit - i
  {
    if i == limit then i else if b[i] == '\n' then i + 1 else LineEnd(b, i + 1, limit)
  }

  /** The lines of a text, each with its line feed; what follows the last line feed is a line of its own. */
  function Lines(b: string): (ls: seq<string>) {
    if b == "" then [] else
      var e := LineEnd(b, 0, |b|);
      [b[..e]] + Lines(b[e..])
  }

  predicate Ended(b: string) { b == "" || b[|b|-1] == '\n' }

  /** The text is whole lines, and these are the records they spell. */
  predicate Reads(b: string, rs: seq<Record>) {
    Ended(b) && |Lines(b)| == |rs| && forall i :: 0 <= i < |rs| ==> Decode(Lines(b)[i]) == Given(rs[i])
  }

  lemma {:induction false} LineEndShift(b: string, k: nat, i: nat, limit: nat)
    requires k <= i <= limit <= |b|
    ensures LineEnd(b, i, limit) == k + LineEnd(b[k..limit], i - k, limit - k)
    decreases limit - i
  {
    if i < limit && b[i] != '\n' { LineEndShift(b, k, i + 1, limit); }
  }

  /** A line feed found within a smaller limit is found within a larger one. */
  lemma {:induction false} LineEndWithin(b: string, i: nat, limit: nat, more: nat)
    requires i < limit <= more <= |b| && b[LineEnd(b, i, limit)-1] == '\n'
    ensures LineEnd(b, i, more) == LineEnd(b, i, limit)
    decreases limit - i
  {
    if b[i] != '\n' { LineEndWithin(b, i + 1, limit, more); }
  }

  /** One line and what follows it. */
  lemma LinesAre(a: string, c: string)
    requires a != "" && a[|a|-1] == '\n' && LineEnd(a, 0, |a|) == |a|
    ensures Lines(a + c) == [a] + Lines(c)
  {
    var t := a + c;
    LineEndInside(a, c, 0);
    assert t[..|a|] == a && t[|a|..] == c;
  }

  lemma {:induction false} LineEndInside(a: string, c: string, i: nat)
    requires i < |a| && a[|a|-1] == '\n'
    ensures LineEnd(a + c, i, |a + c|) == LineEnd(a, i, |a|)
    decreases |a| - i
  {
    if a[i] != '\n' { LineEndInside(a, c, i + 1); }
  }

  lemma {:induction false} LinesConcat(a: string, c: string)
    requires Ended(a)
    ensures Lines(a + c) == Lines(a) + Lines(c)
    decreases |a|
  {
    if a == "" {
      assert a + c == c;
    } else {
      var e := LineEnd(a, 0, |a|);
      var t := a + c;
      LineEndInside(a, c, 0);
      assert t[..e] == a[..e] && t[e..] == a[e..] + c;
      LinesConcat(a[e..], c);
    }
  }

  lemma ReadsConcat(a: string, rs: seq<Record>, c: string, ss: seq<Record>)
    requires Reads(a, rs) && Reads(c, ss)
    ensures Reads(a + c, rs + ss)
  {
    hide Lines, Decode, Ended;
    LinesConcat(a, c);
    EndedConcat(a, c);
    var ls, ts := Lines(a) + Lines(c), rs + ss;
    forall i | 0 <= i < |ts| ensures Decode(ls[i]) == Given(ts[i]) {
      if i < |rs| { assert ls[i] == Lines(a)[i]; } else { assert ls[i] == Lines(c)[i-|rs|]; }
    }
  }

  lemma EndedConcat(a: string, c: string)
    requires Ended(a) && Ended(c)
    ensures Ended(a + c)
  {
  }

  /** A text spells at most one sequence of records. */
  lemma ReadsOnce(b: string, rs: seq<Record>, ss: seq<Record>)
    requires Reads(b, rs) && Reads(b, ss)
    ensures rs == ss
  {
    forall i | 0 <= i < |rs| ensures rs[i] == ss[i] {
      assert Given(rs[i]) == Decode(Lines(b)[i]) == Given(ss[i]);
    }
  }

  lemma NothingReads()
    ensures Reads("", [])
  {
  }

  lemma OneLineReads(line: string, r: Record)
    requires line != "" && line[|line|-1] == '\n' && LineEnd(line, 0, |line|) == |line| && Decode(line) == Given(r)
    ensures Reads(line, [r])
  {
    hide Decode;
    LinesAre(line, "");
    assert line + "" == line;
    assert Lines("") == [];
  }

  // ---- a page ----

  const MAX_RECORDS := 256
  const MAX_BYTES := 65536
  const LINE_LIMIT := 65536

  /** What a record counts against the byte budget: its encoding, however the line spelled it. */
  function Size(r: Record): nat
    requires Encodable(r)
  {
    |Encode(r).value|
  }

  function Sum(rs: seq<Record>): (n: nat)
    requires forall r :: r in rs ==> Encodable(r)
  {
    if rs == [] then 0 else
      assert rs[|rs|-1] in rs && forall r :: r in rs[..|rs|-1] ==> r in rs;
      Sum(rs[..|rs|-1]) + Size(rs[|rs|-1])
  }

  datatype Walk = Walked(records: seq<Record>, offset: nat) | Stuck(outcome: string)

  /** One line of the file at the offset, if it is one the reader takes. */
  function LineAt(b: string, offset: nat): (l: Walk)
    requires offset < |b|
    ensures l.Walked? ==> |l.records| == 1 && offset < l.offset <= |b| && Encodable(l.records[0]) && CleanRecord(l.records[0])
  {
    hide Decode, Encodable, CleanRecord;
    var limit := if |b| - offset < LINE_LIMIT + 1 then |b| else offset + LINE_LIMIT + 1;
    var e := LineEnd(b, offset, limit);
    if e - offset > LINE_LIMIT then Stuck("record_too_large")
    else if b[e-1] != '\n' then Stuck("corrupt")
    else match Decode(b[offset..e])
      case Refusal(_, _) => Stuck("corrupt")
      case Given(r) =>
        DecodedIsSound(b[offset..e]);
        Walked([r], e)
  }

  /** The read loop, from what it has gathered so far. */
  function Gather(b: string, offset: nat, acc: seq<Record>, used: nat, maxRecords: nat, maxBytes: nat): (w: Walk)
    requires offset <= |b|
    decreases |b| - offset
  {
    hide LineAt, Size, Encodable, CleanRecord;
    if offset == |b| || |acc| >= maxRecords then Walked(acc, offset)
    else
      var l := LineAt(b, offset);
      if l.Stuck? then l
      else if used + Size(l.records[0]) > maxBytes then
        if acc == [] then Stuck("record_too_large") else Walked(acc, offset)
      else Gather(b, l.offset, acc + l.records, used + Size(l.records[0]), maxRecords, maxBytes)
  }

  /** What the operating system answers about the file: the open handle, the path opened again, and
      whether both are one file. */
  datatype Disk = Disk(stat: bool, open: bool, info: bool, same: bool, bytes: string)

  predicate InLimits(maxRecords: int, maxBytes: int) {
    1 <= maxRecords <= MAX_RECORDS && 1 <= maxBytes <= MAX_BYTES
  }

  function Refusing(outcome: string, cursor: string): Page { Page(outcome, [], cursor, false) }

  /** `readHistoryLocked`, for a sink that has its epoch. */
  function ReadPage(epoch: string, disk: Disk, cursor: string, maxRecords: int, maxBytes: int): Page {
    var o := OffsetOf(epoch, cursor);
    if !InLimits(maxRecords, maxBytes) then Refusing("invalid_request", cursor)
    else if o.None? then Refusing("gap", cursor)
    else if !disk.stat || !disk.open || !disk.info then Refusing("unavailable", cursor)
    else if !disk.same || o.value > |disk.bytes| then Refusing("gap", cursor)
    else if o.value > 0 && disk.bytes[o.value-1] != '\n' then Refusing("gap", cursor)
    else match Gather(disk.bytes, o.value, [], 0, maxRecords, maxBytes)
      case Stuck(outcome) => Refusing(outcome, cursor)
      case Walked(rs, offset) => Page("page", rs, Spelled(epoch, offset), offset == |disk.bytes|)
  }

  // ---- what the loop gathers ----

  lemma LineReads(b: string, offset: nat)
    requires offset < |b| && LineAt(b, offset).Walked?
    ensures var l := LineAt(b, offset); Reads(b[offset..l.offset], l.records) && b[l.offset-1] == '\n'
  {
    hide *;
    LineMoves(b, offset);
    var l := LineAt(b, offset);
    var line := b[offset..l.offset];
    LineIs(b, offset);
    LineEndShift(b, offset, offset, l.offset);
    assert line[|line|-1] == b[l.offset-1];
    OneLineReads(line, l.records[0]);
    assert l.records == [l.records[0]];
  }

  lemma LineMoves(b: string, offset: nat)
    requires offset < |b| && LineAt(b, offset).Walked?
    ensures var l := LineAt(b, offset); |l.records| == 1 && offset < l.offset <= |b|
  {
    hide LineAt;
  }

  lemma LineIs(b: string, offset: nat)
    requires offset < |b| && LineAt(b, offset).Walked?
    ensures var l := LineAt(b, offset);
      b[l.offset-1] == '\n' && LineEnd(b, offset, l.offset) == l.offset && Decode(b[offset..l.offset]) == Given(l.records[0])
  {
    hide Decode, LineEnd, Encodable, CleanRecord;
    LineEndTight(b, offset, if |b| - offset < LINE_LIMIT + 1 then |b| else offset + LINE_LIMIT + 1);
  }

  /** A line ends where it ends, looked at alone. */
  lemma {:induction false} LineEndTight(b: string, i: nat, limit: nat)
    requires i < limit <= |b|
    ensures LineEnd(b, i, LineEnd(b, i, limit)) == LineEnd(b, i, limit)
    decreases limit - i
  {
    if b[i] != '\n' && i + 1 < limit { LineEndTight(b, i + 1, limit); }
  }

  ghost predicate AllSound(rs: seq<Record>) { forall r :: r in rs ==> Encodable(r) && CleanRecord(r) }

  lemma SumMore(rs: seq<Record>, r: Record)
    requires AllSound(rs) && Encodable(r) && CleanRecord(r)
    ensures AllSound(rs + [r]) && Sum(rs + [r]) == Sum(rs) + Size(r)
  {
    hide Size, Encodable, CleanRecord;
    assert (rs + [r])[..|rs|] == rs;
  }

  /** The loop takes whole lines, keeps both budgets, and stops for a reason. */
  lemma {:induction false} GatherIs(b: string, offset: nat, acc: seq<Record>, used: nat, maxRecords: nat, maxBytes: nat)
    requires offset <= |b| && AllSound(acc) && used == Sum(acc) && |acc| <= maxRecords && used <= maxBytes
    requires Gather(b, offset, acc, used, maxRecords, maxBytes).Walked?
    ensures var w := Gather(b, offset, acc, used, maxRecords, maxBytes);
      && offset <= w.offset <= |b| && acc <= w.records && AllSound(w.records)
      && Reads(b[offset..w.offset], w.records[|acc|..])
      && |w.records| <= maxRecords && Sum(w.records) <= maxBytes
      && (w.offset == offset <==> w.records == acc)
      && (w.offset == |b| || w.records != [] || maxRecords == 0)
    decreases |b| - offset
  {
    hide LineAt, Size, Encodable, CleanRecord, Reads, Sum, AllSound;
    var w := Gather(b, offset, acc, used, maxRecords, maxBytes);
    assert b[offset..offset] == "" && acc[|acc|..] == [];
    NothingReads();
    if offset < |b| && |acc| < maxRecords {
      var l := LineAt(b, offset);
      var r := l.records[0];
      assert l.records == [r];
      if used + Size(r) <= maxBytes {
        SumMore(acc, r);
        GatherIs(b, l.offset, acc + [r], used + Size(r), maxRecords, maxBytes);
        LineReads(b, offset);
        ReadsConcat(b[offset..l.offset], [r], b[l.offset..w.offset], w.records[|acc|+1..]);
        assert b[offset..l.offset] + b[l.offset..w.offset] == b[offset..w.offset];
        assert [r] + w.records[|acc|+1..] == w.records[|acc|..];
      }
    }
  }

  // ---- every page ----

  /** From one offset to another a page is exactly what the file holds there, within both budgets. */
  ghost predicate Serves(p: Page, epoch: string, bytes: string, from: nat, to: nat, maxRecords: int, maxBytes: int) {
    && from <= to <= |bytes| && p.next == Spelled(epoch, to) && Reads(bytes[from..to], p.records)
    && AllSound(p.records) && |p.records| <= maxRecords && Sum(p.records) <= maxBytes
    && (p.records == [] <==> to == from) && (p.atEnd <==> to == |bytes|) && (p.records == [] ==> p.atEnd)
  }

  /** A page, or one of the six refusals, which hold no records and leave the cursor where it was. */
  lemma PageIs(epoch: string, disk: Disk, cursor: string, maxRecords: int, maxBytes: int)
    ensures var p := ReadPage(epoch, disk, cursor, maxRecords, maxBytes);
      if p.outcome == "page" then
        && InLimits(maxRecords, maxBytes) && OffsetOf(epoch, cursor).Some? && OffsetOf(epoch, cursor).value <= |disk.bytes|
        && Ended(disk.bytes[..OffsetOf(epoch, cursor).value])
        && exists to: nat :: Serves(p, epoch, disk.bytes, OffsetOf(epoch, cursor).value, to, maxRecords, maxBytes)
      else p == Refusing(p.outcome, cursor) && p.outcome in Outcomes()
  {
    hide OffsetOf, Gather, Reads, Sum, AllSound, Spelled;
    var o := OffsetOf(epoch, cursor);
    var p := ReadPage(epoch, disk, cursor, maxRecords, maxBytes);
    if InLimits(maxRecords, maxBytes) && o.Some? && o.value <= |disk.bytes| {
      var w := Gather(disk.bytes, o.value, [], 0, maxRecords, maxBytes);
      if w.Walked? {
        NothingSummed();
        GatherIs(disk.bytes, o.value, [], 0, maxRecords, maxBytes);
        assert w.records[0..] == w.records;
        if p.outcome == "page" { assert Serves(p, epoch, disk.bytes, o.value, w.offset, maxRecords, maxBytes); }
      } else {
        StuckWords(disk.bytes, o.value, [], 0, maxRecords, maxBytes);
      }
    }
  }

  lemma NothingSummed()
    ensures AllSound([]) && Sum([]) == 0
  {
  }

  lemma {:induction false} StuckWords(b: string, offset: nat, acc: seq<Record>, used: nat, maxRecords: nat, maxBytes: nat)
    requires offset <= |b| && Gather(b, offset, acc, used, maxRecords, maxBytes).Stuck?
    ensures Gather(b, offset, acc, used, maxRecords, maxBytes).outcome in ["corrupt", "record_too_large"]
    decreases |b| - offset
  {
    hide Decode, LineEnd, Size, Encodable, CleanRecord;
    var l := LineAt(b, offset);
    if l.Walked? && used + Size(l.records[0]) <= maxBytes {
      StuckWords(b, l.offset, acc + l.records, used + Size(l.records[0]), maxRecords, maxBytes);
    }
  }

  // ---- following pages over a growing file ----

  datatype Call = Call(disk: Disk, maxRecords: int, maxBytes: int)
  datatype Progress = Progress(cursor: string, records: seq<Record>)

  /** A reader that starts with the empty cursor and follows `next`. */
  function Followed(epoch: string, calls: seq<Call>): Progress {
    if calls == [] then Progress("", [])
    else
      var was, c := Followed(epoch, calls[..|calls|-1]), calls[|calls|-1];
      var p := ReadPage(epoch, c.disk, was.cursor, c.maxRecords, c.maxBytes);
      Progress(p.next, was.records + p.records)
  }

  /** Between calls anything may have been appended. */
  ghost predicate Growing(calls: seq<Call>) {
    && (forall i, j :: 0 <= i < j < |calls| ==> calls[i].disk.bytes <= calls[j].disk.bytes)
    && (forall i :: 0 <= i < |calls| ==> |calls[i].disk.bytes| <= MAX_I64)
  }

  /** The reader has got exactly the records of the file up to its cursor. */
  ghost predicate CaughtUp(epoch: string, bytes: string, f: Progress) {
    || f == Progress("", [])
    || exists o: nat :: ReadUpTo(epoch, bytes, f, o)
  }

  ghost predicate ReadUpTo(epoch: string, bytes: string, f: Progress, o: nat) {
    o <= |bytes| && f.cursor == Spelled(epoch, o) && Reads(bytes[..o], f.records)
  }

  /** Paging is complete and exact over every interleaving of appends and reads, whatever the budgets
      and refusals on the way: no gap, no repeat, no reordering. */
  lemma {:induction false} FollowedIsExact(epoch: string, calls: seq<Call>)
    requires ':' !in epoch && calls != [] && Growing(calls)
    ensures CaughtUp(epoch, calls[|calls|-1].disk.bytes, Followed(epoch, calls))
  {
    var n := |calls| - 1;
    var c := calls[n];
    var was := Followed(epoch, calls[..n]);
    if n > 0 {
      FollowedIsExact(epoch, calls[..n]);
      assert calls[..n][n-1] == calls[n-1];
      StillCaughtUp(epoch, calls[n-1].disk.bytes, c.disk.bytes, was);
    }
    CatchUp(epoch, c, was);
  }

  lemma StillCaughtUp(epoch: string, bytes: string, more: string, f: Progress)
    requires bytes <= more && CaughtUp(epoch, bytes, f)
    ensures CaughtUp(epoch, more, f)
  {
    hide Reads;
    if f != Progress("", []) {
      var o: nat :| ReadUpTo(epoch, bytes, f, o);
      assert more[..o] == bytes[..o];
      assert ReadUpTo(epoch, more, f, o);
    }
  }

  lemma CatchUp(epoch: string, c: Call, was: Progress)
    requires ':' !in epoch && |c.disk.bytes| <= MAX_I64 && CaughtUp(epoch, c.disk.bytes, was)
    ensures var p := ReadPage(epoch, c.disk, was.cursor, c.maxRecords, c.maxBytes);
      CaughtUp(epoch, c.disk.bytes, Progress(p.next, was.records + p.records))
  {
    hide ReadPage, Reads, OffsetOf, Spelled;
    var b := c.disk.bytes;
    PageIs(epoch, c.disk, was.cursor, c.maxRecords, c.maxBytes);
    var p := ReadPage(epoch, c.disk, was.cursor, c.maxRecords, c.maxBytes);
    if p.outcome != "page" {
      assert was.records + p.records == was.records;
    } else {
      var from: nat := OffsetOf(epoch, was.cursor).value;
      var to: nat :| Serves(p, epoch, b, from, to, c.maxRecords, c.maxBytes);
      if was == Progress("", []) {
        FromTheStart(epoch);
        NothingReads();
        assert b[..0] == "";
      } else {
        var o: nat :| ReadUpTo(epoch, b, was, o);
        OffsetExactly(epoch, was.cursor, o);
      }
      ReadsConcat(b[..from], was.records, b[from..to], p.records);
      assert b[..from] + b[from..to] == b[..to];
      assert ReadUpTo(epoch, b, Progress(p.next, was.records + p.records), to);
    }
  }

  lemma FromTheStart(epoch: string)
    ensures OffsetOf(epoch, "") == Some(0)
  {
  }

  // ---- and it gets everywhere ----

  /** Lines a reader with this byte budget is never refused at. */
  predicate Servable(b: string, maxBytes: nat) {
    Ended(b) && forall i :: 0 <= i < |Lines(b)| ==> ServableLine(Lines(b)[i], maxBytes)
  }

  predicate ServableLine(line: string, maxBytes: nat) {
    |line| <= LINE_LIMIT && Decode(line).Given? && Encodable(Decode(line).value) && Size(Decode(line).value) <= maxBytes
  }

  lemma ServableSplits(t: string, maxBytes: nat)
    requires t != "" && Servable(t, maxBytes)
    ensures var e := LineEnd(t, 0, |t|); t[e-1] == '\n' && ServableLine(t[..e], maxBytes) && Servable(t[e..], maxBytes)
  {
    hide ServableLine, LineEnd;
    var e := LineEnd(t, 0, |t|);
    EndedLine(t, 0);
    var ls := Lines(t[e..]);
    assert Lines(t) == [t[..e]] + ls;
    assert Lines(t)[0] == t[..e];
    forall i | 0 <= i < |ls| ensures ServableLine(ls[i], maxBytes) { assert Lines(t)[i+1] == ls[i]; }
  }

  /** The first line of a servable rest is taken. */
  lemma FirstServed(b: string, offset: nat, maxBytes: nat)
    requires offset < |b| && Servable(b[offset..], maxBytes)
    ensures var l := LineAt(b, offset);
      l.Walked? && Size(l.records[0]) <= maxBytes && Servable(b[l.offset..], maxBytes)
  {
    hide Decode, Encodable, CleanRecord, Size, LineEnd, Servable;
    var t := b[offset..];
    var e := LineEnd(t, 0, |t|);
    ServableSplits(t, maxBytes);
    LineEndShift(b, offset, offset, |b|);
    assert b[offset..|b|] == t;
    assert b[offset..offset+e] == t[..e] && b[offset+e..] == t[e..] && b[offset+e-1] == t[e-1];
    LineEndNear(b, offset, if |b| - offset < LINE_LIMIT + 1 then |b| else offset + LINE_LIMIT + 1, |b|);
  }

  lemma {:induction false} EndedLine(t: string, i: nat)
    requires i < |t| && t[|t|-1] == '\n'
    ensures t[LineEnd(t, i, |t|)-1] == '\n'
    decreases |t| - i
  {
    if t[i] != '\n' { EndedLine(t, i + 1); }
  }

  lemma {:induction false} LineEndNear(b: string, i: nat, limit: nat, more: nat)
    requires i < limit <= more <= |b| && LineEnd(b, i, more) <= limit
    ensures LineEnd(b, i, limit) == LineEnd(b, i, more)
    decreases limit - i
  {
    if b[i] != '\n' && i + 1 < limit { LineEndNear(b, i + 1, limit, more); }
  }

  lemma {:induction false} GatherServes(b: string, offset: nat, acc: seq<Record>, used: nat, maxRecords: nat, maxBytes: nat)
    requires offset <= |b| && Servable(b[offset..], maxBytes) && (acc == [] ==> used == 0)
    ensures var w := Gather(b, offset, acc, used, maxRecords, maxBytes);
      w.Walked? && w.offset <= |b| && Servable(b[w.offset..], maxBytes) && (offset < |b| && acc == [] && maxRecords > 0 ==> w.offset > offset)
      && w.offset >= offset
    decreases |b| - offset
  {
    hide LineAt, Size, Encodable, CleanRecord, Servable;
    if offset < |b| && |acc| < maxRecords {
      FirstServed(b, offset, maxBytes);
      var l := LineAt(b, offset);
      if used + Size(l.records[0]) <= maxBytes {
        GatherServes(b, l.offset, acc + l.records, used + Size(l.records[0]), maxRecords, maxBytes);
      }
    }
  }

  /** Everything from an offset on, page after page; each page moves the offset nearer to the end. */
  function Drain(b: string, offset: nat, maxRecords: nat, maxBytes: nat): seq<Record>
    requires offset <= |b|
    decreases |b| - offset
  {
    var w := Gather(b, offset, [], 0, maxRecords, maxBytes);
    if w.Stuck? || w.offset <= offset || w.offset > |b| then [] else w.records + Drain(b, w.offset, maxRecords, maxBytes)
  }

  /** On a file that stands still, pages of any size within the limits together hold every record. */
  lemma {:induction false} DrainIsComplete(b: string, offset: nat, maxRecords: nat, maxBytes: nat)
    requires offset <= |b| && Servable(b[offset..], maxBytes) && InLimits(maxRecords, maxBytes)
    ensures Reads(b[offset..], Drain(b, offset, maxRecords, maxBytes))
    decreases |b| - offset
  {
    hide Servable, Reads, Gather, Sum, AllSound;
    var w := Gather(b, offset, [], 0, maxRecords, maxBytes);
    GatherServes(b, offset, [], 0, maxRecords, maxBytes);
    if offset == |b| {
      assert b[offset..] == "";
      NothingReads();
    } else {
      NothingSummed();
      GatherIs(b, offset, [], 0, maxRecords, maxBytes);
      assert w.records[0..] == w.records;
      DrainIsComplete(b, w.offset, maxRecords, maxBytes);
      ReadsConcat(b[offset..w.offset], w.records, b[w.offset..], Drain(b, w.offset, maxRecords, maxBytes));
      assert b[offset..w.offset] + b[w.offset..] == b[offset..];
    }
  }

  /** Every call finds the same file, whole and servable within the call's budget. */
  ghost predicate Still(b: string, calls: seq<Call>) {
    forall i :: 0 <= i < |calls| ==> var c := calls[i];
      c.disk == Disk(true, true, true, true, b) && InLimits(c.maxRecords, c.maxBytes) && Servable(b, c.maxBytes)
  }

  /** What is left behind a line boundary is servable, and its lines are those not read. */
  lemma RestServable(b: string, o: nat, rs: seq<Record>, maxBytes: nat)
    requires o <= |b| && Servable(b, maxBytes) && Reads(b[..o], rs)
    ensures Servable(b[o..], maxBytes) && |Lines(b)| == |rs| + |Lines(b[o..])|
    ensures o < |b| ==> |rs| < |Lines(b)|
  {
    hide ServableLine, LineEnd, Decode;
    assert b[..o] + b[o..] == b;
    LinesConcat(b[..o], b[o..]);
    var ls := Lines(b[o..]);
    forall i | 0 <= i < |ls| ensures ServableLine(ls[i], maxBytes) { assert Lines(b)[|rs|+i] == ls[i]; }
    if o < |b| { assert b[o..][|b|-o-1] == b[|b|-1]; }
  }

  /** One more call on the file that stands still: the end, or at least one record more. */
  lemma StillStep(epoch: string, b: string, c: Call, was: Progress, o: nat) returns (to: nat)
    requires ':' !in epoch && |b| <= MAX_I64 && Still(b, [c]) && ((was == Progress("", []) && o == 0) || ReadUpTo(epoch, b, was, o))
    ensures var p := ReadPage(epoch, c.disk, was.cursor, c.maxRecords, c.maxBytes);
      ReadUpTo(epoch, b, Progress(p.next, was.records + p.records), to) && (to == |b| || (o < |b| && p.records != []))
  {
    hide Reads, Servable, OffsetOf, Spelled, Gather, Sum, AllSound, ReadPage, Lines, LineAt;
    assert Still(b, [c]) ==> [c][0] == c;
    if was == Progress("", []) {
      FromTheStart(epoch);
      NothingReads();
      assert b[..0] == "";
    } else {
      OffsetExactly(epoch, was.cursor, o);
    }
    RestServable(b, o, was.records, c.maxBytes);
    GatherServes(b, o, [], 0, c.maxRecords, c.maxBytes);
    NothingSummed();
    GatherIs(b, o, [], 0, c.maxRecords, c.maxBytes);
    var w := Gather(b, o, [], 0, c.maxRecords, c.maxBytes);
    assert w.records[0..] == w.records;
    BoundaryEnds(b, o, was.records);
    ReadsConcat(b[..o], was.records, b[o..w.offset], w.records);
    assert b[..o] + b[o..w.offset] == b[..w.offset];
    PageThere(epoch, b, was.cursor, o, c.maxRecords, c.maxBytes);
    to := w.offset;
  }

  /** The page a readable file gives at a line boundary. */
  lemma PageThere(epoch: string, b: string, cursor: string, o: nat, maxRecords: int, maxBytes: int)
    requires OffsetOf(epoch, cursor) == Some(o) && o <= |b| && (o > 0 ==> b[o-1] == '\n') && InLimits(maxRecords, maxBytes)
    requires Gather(b, o, [], 0, maxRecords, maxBytes).Walked?
    ensures var w := Gather(b, o, [], 0, maxRecords, maxBytes);
      ReadPage(epoch, Disk(true, true, true, true, b), cursor, maxRecords, maxBytes) == Page("page", w.records, Spelled(epoch, w.offset), w.offset == |b|)
  {
    hide OffsetOf, Gather, Spelled;
  }

  lemma BoundaryEnds(b: string, o: nat, rs: seq<Record>)
    requires o <= |b| && Reads(b[..o], rs)
    ensures o > 0 ==> b[o-1] == '\n'
  {
    if o > 0 { assert b[..o][o-1] == b[o-1]; }
  }

  lemma {:induction false} StillFollowed(epoch: string, b: string, calls: seq<Call>) returns (o: nat)
    requires ':' !in epoch && |b| <= MAX_I64 && Still(b, calls) && calls != []
    ensures ReadUpTo(epoch, b, Followed(epoch, calls), o) && (o == |b| || |Followed(epoch, calls).records| >= |calls|)
  {
    hide ReadUpTo, ReadPage, Servable;
    var n := |calls| - 1;
    var was := Followed(epoch, calls[..n]);
    o := 0;
    if n > 0 { o := StillFollowed(epoch, b, calls[..n]); }
    assert Still(b, [calls[n]]);
    o := StillStep(epoch, b, calls[n], was, o);
  }

  /** A reader that follows next from the empty cursor over a file that stands still has reached the end, and
      has read the file's records, every one once and in order, after at most one call a line, whatever the
      budgets. */
  lemma FollowingReachesTheEnd(epoch: string, b: string, calls: seq<Call>)
    requires ':' !in epoch && |b| <= MAX_I64 && Still(b, calls) && calls != [] && |calls| >= |Lines(b)|
    ensures var f := Followed(epoch, calls);
      f.cursor == Spelled(epoch, |b|) && Reads(b, f.records) && forall rs :: Reads(b, rs) ==> rs == f.records
  {
    hide Spelled, Servable, Followed, Reads;
    var f := Followed(epoch, calls);
    var o := StillFollowed(epoch, b, calls);
    assert Servable(b, calls[0].maxBytes);
    RestServable(b, o, f.records, calls[0].maxBytes);
    assert b[..|b|] == b;
    forall rs | Reads(b, rs) ensures rs == f.records { ReadsOnce(b, rs, f.records); }
  }
}
