/** The history call itself, the client's check of what comes back, and that the two agree. */
module Paging {
  import opened Decimal
  import opened Records
  import opened Messages
  import opened Readers
  import opened Cursor
  import opened Wrappers
  import opened History
  import opened Exchange
  import opened Envelope
  import Timestamp
  import Utf8

  // ---- the provider ----

  class FileHistory {
    /** Chosen once, by the first call within limits; empty until then. */
    var epoch: string

    constructor ()
      ensures epoch == ""
    {
      epoch := "";
    }

    method Read(disk: Disk, entropy: Option<string>, cursor: string, maxRecords: int64, maxBytes: int64) returns (p: Page)
      modifies this
      ensures epoch == if InLimits(maxRecords as int, maxBytes as int) && old(epoch) == "" && entropy.Some? then entropy.value else old(epoch)
      ensures p == if !InLimits(maxRecords as int, maxBytes as int) then Refusing("invalid_request", cursor)
                   else if old(epoch) == "" && entropy.None? then Refusing("unavailable", cursor)
                   else ReadPage(epoch, disk, cursor, maxRecords as int, maxBytes as int)
    {
      hide Gather, OffsetOf, Spelled;
      if maxRecords < 1 || maxRecords > 256 || maxBytes < 1 || maxBytes > 65536 { return Refusing("invalid_request", cursor); }
      if epoch == "" {
        if entropy.None? { return Refusing("unavailable", cursor); }
        epoch := entropy.value;
      }
      var from := OffsetOf(epoch, cursor);
      if from.None? { return Refusing("gap", cursor); }
      var offset: nat := from.value;
      if !disk.stat || !disk.open || !disk.info { return Refusing("unavailable", cursor); }
      if !disk.same || offset > |disk.bytes| { return Refusing("gap", cursor); }
      if offset > 0 && disk.bytes[offset-1] != '\n' { return Refusing("gap", cursor); }
      var walk := ReadLines(disk.bytes, offset, maxRecords as nat, maxBytes as nat);
      if walk.Stuck? { return Refusing(walk.outcome, cursor); }
      p := Page("page", walk.records, Spelled(epoch, walk.offset), walk.offset == |disk.bytes|);
    }
  }

  lemma LineAtIs(b: string, offset: nat)
    requires offset < |b|
    ensures var limit := if |b| - offset < LINE_LIMIT + 1 then |b| else offset + LINE_LIMIT + 1;
      var e := LineEnd(b, offset, limit);
      LineAt(b, offset) == if e - offset > LINE_LIMIT then Stuck("record_too_large") else if b[e-1] != '\n' then Stuck("corrupt")
        else if Decode(b[offset..e]).Refusal? then Stuck("corrupt") else Walked([Decode(b[offset..e]).value], e)
  {
    hide LineEnd, Decode, Encodable, CleanRecord;
  }

  /** One line, read no further than a line may be long, decoded and measured. */
  method ReadLine(b: string, offset: nat) returns (l: Walk, size: nat)
    requires offset < |b|
    ensures l == LineAt(b, offset) && (l.Walked? ==> size == Size(l.records[0]))
  {
    hide LineEnd, LineAt, Decode, Encodable, CleanRecord, Size, Encode;
    size := 0;
    LineAtIs(b, offset);
    var remaining := if |b| - offset < 65537 then |b| - offset else 65537;
    var end := LineEnd(b, offset, offset + remaining);
    if end - offset > 65536 { return Stuck("record_too_large"), 0; }
    if b[end-1] != '\n' { return Stuck("corrupt"), 0; }
    var record := DecodeRecord(b[offset..end]);
    if record.Refusal? { return Stuck("corrupt"), 0; }
    DecodedIsSound(b[offset..end]);
    var bytes := EncodeRecord(record.value);
    SizeIs(record.value);
    return Walked([record.value], end), |bytes.value|;
  }

  /** The read loop. */
  method ReadLines(b: string, start: nat, maxRecords: nat, maxBytes: nat) returns (w: Walk)
    requires start <= |b|
    ensures w == Gather(b, start, [], 0, maxRecords, maxBytes)
  {
    hide LineAt, Encodable, CleanRecord, Size;
    var offset, records, used: nat := start, [], 0;
    while offset < |b| && |records| < maxRecords
      invariant offset <= |b|
      invariant Gather(b, start, [], 0, maxRecords, maxBytes) == Gather(b, offset, records, used, maxRecords, maxBytes)
      decreases |b| - offset
    {
      var l, size := ReadLine(b, offset);
      if l.Stuck? { return l; }
      if used + size > maxBytes {
        if records == [] { return Stuck("record_too_large"); }
        return Walked(records, offset);
      }
      records, used, offset := records + l.records, used + size, l.offset;
    }
    return Walked(records, offset);
  }

  lemma SizeIs(r: Record)
    requires Encodable(r)
    ensures Encode(r).Given? && Size(r) == |Encode(r).value|
  {
  }

  // ---- the client's check ----

  predicate EncodableRecords(rs: seq<Record>) { forall r :: r in rs ==> Encodable(r) }

  /** What a client may rely on in an answer to its call. */
  predicate Acceptable(p: Page, cursor: string, maxRecords: int, maxBytes: int)
    requires EncodableRecords(p.records)
  {
    if p.outcome == "page" then
      && InLimits(maxRecords, maxBytes) && |p.records| <= maxRecords && Sum(p.records) <= maxBytes
      && p.next != "" && (p.records != [] ==> p.next != cursor) && (p.records == [] ==> p.atEnd)
    else p.records == [] && p.next == cursor && !p.atEnd
  }

  /** `validateHistoryPage`. A page that was decoded can be encoded, which is all it asks of its caller. */
  method ValidateHistoryPage(p: Page, cursor: string, maxRecords: int64, maxBytes: int64) returns (ok: bool)
    requires EncodableRecords(p.records)
    ensures ok == Acceptable(p, cursor, maxRecords as int, maxBytes as int)
  {
    hide Encodable, Size, Encode;
    if p.outcome == "page" {
      var size := 0;
      for i := 0 to |p.records|
        invariant EncodableRecords(p.records[..i]) && size == Sum(p.records[..i])
      {
        assert p.records[i] in p.records;
        assert p.records[..i+1][..i] == p.records[..i];
        var bytes := EncodeRecord(p.records[i]);
        SizeIs(p.records[i]);
        size := size + |bytes.value|;
      }
      assert p.records[..|p.records|] == p.records;
      ok := !(maxRecords < 1 || maxRecords > 256 || maxBytes < 1 || maxBytes > 65536 || |p.records| > maxRecords as int
        || size > maxBytes as int || p.next == "" || (|p.records| > 0 && p.next == cursor) || (!p.atEnd && |p.records| == 0));
    } else {
      ok := !(|p.records| != 0 || p.next != cursor || p.atEnd);
    }
  }

  // ---- the two agree ----

  /** Both ends measure a record by its encoding, which decoding does not change. */
  lemma {:induction false} SumNormalised(rs: seq<Record>)
    requires EncodableRecords(rs)
    ensures EncodableRecords(AllNormalised(rs)) && Sum(AllNormalised(rs)) == Sum(rs)
  {
    hide Encodable, Encode, Normalised;
    if rs != [] {
      var init, last := rs[..|rs|-1], rs[|rs|-1];
      assert last in rs && forall r :: r in init ==> r in rs;
      SumNormalised(init);
      EncodeNormalised(last);
      var ns := AllNormalised(rs);
      assert ns[..|rs|-1] == AllNormalised(init) && ns[|rs|-1] == Normalised(last);
      assert ns == AllNormalised(init) + [Normalised(last)];
    }
  }

  lemma AllSoundIs(rs: seq<Record>)
    requires AllSound(rs)
    ensures EncodableRecords(rs) && forall i :: 0 <= i < |rs| ==> Encodable(rs[i]) && CleanRecord(rs[i])
  {
  }

  /** Every page a sink makes is one its clients accept, normalised by the journey or not. */
  lemma ServerPagesAccepted(epoch: string, disk: Disk, cursor: string, maxRecords: int, maxBytes: int)
    requires ':' !in epoch
    ensures var p := ReadPage(epoch, disk, cursor, maxRecords, maxBytes);
      && EncodableRecords(p.records) && EncodableRecords(NormalisedPage(p).records)
      && Acceptable(p, cursor, maxRecords, maxBytes) && Acceptable(NormalisedPage(p), cursor, maxRecords, maxBytes)
  {
    hide ReadPage, OffsetOf, Spelled, Reads, Sum, AllSound, EncodableRecords;
    PageIs(epoch, disk, cursor, maxRecords, maxBytes);
    var p := ReadPage(epoch, disk, cursor, maxRecords, maxBytes);
    if p.outcome == "page" {
      var from: nat := OffsetOf(epoch, cursor).value;
      var to: nat :| Serves(p, epoch, disk.bytes, from, to, maxRecords, maxBytes);
      AllSoundIs(p.records);
      SpelledIsNot(epoch, cursor, from, to);
    } else {
      NothingSummed();
      AllSoundIs([]);
    }
    SumNormalised(p.records);
  }

  lemma SpelledIsNot(epoch: string, cursor: string, from: nat, to: nat)
    requires ':' !in epoch && OffsetOf(epoch, cursor) == Some(from)
    ensures Spelled(epoch, to) != "" && (to != from ==> Spelled(epoch, to) != cursor)
  {
    hide OffsetOf;
    if cursor != "" {
      OffsetExactly(epoch, cursor, from);
      if Spelled(epoch, to) == cursor { SpelledOnce(epoch, from, to); }
    }
  }

  /** A sink's own name: what `hex.EncodeToString` can give. */
  predicate EpochText(epoch: string) { ':' !in epoch && Utf8.Valid(epoch) }

  lemma OutcomesAreUtf8(o: string)
    requires o in Outcomes()
    ensures Utf8.Valid(o)
  {
    hide Utf8.Valid;
    Utf8.AsciiValid(o);
  }

  lemma SpelledIsUtf8(epoch: string, offset: nat)
    requires Utf8.Valid(epoch)
    ensures Utf8.Valid(Spelled(epoch, offset))
  {
    hide Utf8.Valid;
    NumIsDigits(offset);
    Timestamp.DigitsAreAscii(Decimal.Num(offset));
    Utf8.AsciiValid(Decimal.Num(offset));
    Utf8.AsciiValid(":");
    Utf8.ValidConcat(epoch, ":");
    Utf8.ValidConcat(epoch + ":", Decimal.Num(offset));
  }

  /** Every page a sink makes can travel. */
  lemma ServerPagesTravel(epoch: string, disk: Disk, cursor: string, maxRecords: int, maxBytes: int)
    requires EpochText(epoch) && Utf8.Valid(cursor)
    ensures var p := ReadPage(epoch, disk, cursor, maxRecords, maxBytes); EncodablePage(p) && CleanPage(p)
  {
    hide ReadPage, OffsetOf, Spelled, Reads, Sum, AllSound, Utf8.Valid, Encodable, CleanRecord;
    PageIs(epoch, disk, cursor, maxRecords, maxBytes);
    var p := ReadPage(epoch, disk, cursor, maxRecords, maxBytes);
    if p.outcome == "page" {
      var to: nat :| Serves(p, epoch, disk.bytes, OffsetOf(epoch, cursor).value, to, maxRecords, maxBytes);
      AllSoundIs(p.records);
      SpelledIsUtf8(epoch, to);
    }
    OutcomesAreUtf8(p.outcome);
  }

  function Sink(epoch: string, disk: Disk): Provider {
    (cursor: string, maxRecords: int64, maxBytes: int64) => Good(ReadPage(epoch, disk, cursor, maxRecords as int, maxBytes as int))
  }

  /** The call over frames: the client is given the sink's page, its times normalised, and accepts it. */
  lemma HistoryTravels(epoch: string, disk: Disk, cursor: string, maxRecords: int64, maxBytes: int64)
    requires EpochText(epoch) && Utf8.Valid(cursor)
    ensures var p := ReadPage(epoch, disk, cursor, maxRecords as int, maxBytes as int);
      && AskedFor(frame => Exchanged(Sink(epoch, disk), frame), cursor, maxRecords, maxBytes) == Good(NormalisedPage(p))
      && EncodableRecords(NormalisedPage(p).records) && Acceptable(NormalisedPage(p), cursor, maxRecords as int, maxBytes as int)
      && NormalisedPage(p).next == p.next && Utf8.Valid(p.next)
  {
    hide ReadPage, AskedFor, Exchanged, Utf8.Valid, EncodableRecords, Acceptable, EncodablePage;
    ServerPagesTravel(epoch, disk, cursor, maxRecords as int, maxBytes as int);
    ServerPagesAccepted(epoch, disk, cursor, maxRecords as int, maxBytes as int);
    PageTravels(Sink(epoch, disk), cursor, maxRecords, maxBytes);
  }

  ghost predicate Int64Limits(calls: seq<Call>) {
    forall i :: 0 <= i < |calls| ==> MIN_I64 <= calls[i].maxRecords <= MAX_I64 && MIN_I64 <= calls[i].maxBytes <= MAX_I64
  }

  /** A client that follows pages over frames, keeping only what it accepts. */
  ghost function ClientFollowed(epoch: string, calls: seq<Call>): Progress
    requires Int64Limits(calls)
  {
    if calls == [] then Progress("", [])
    else
      var was, c := ClientFollowed(epoch, calls[..|calls|-1]), calls[|calls|-1];
      match AskedFor(frame => Exchanged(Sink(epoch, c.disk), frame), was.cursor, c.maxRecords as int64, c.maxBytes as int64)
      case Fail(_) => was
      case Good(p) =>
        if EncodableRecords(p.records) && Acceptable(p, was.cursor, c.maxRecords, c.maxBytes)
        then Progress(p.next, was.records + p.records) else was
  }

  /** End to end: a client following pages over frames has, at every point, exactly the records of the
      file up to its cursor, each with its time normalised. */
  lemma {:induction false} ClientHasTheHistory(epoch: string, calls: seq<Call>)
    requires EpochText(epoch) && Int64Limits(calls)
    ensures var f := Followed(epoch, calls);
      ClientFollowed(epoch, calls) == Progress(f.cursor, AllNormalised(f.records)) && Utf8.Valid(f.cursor)
  {
    hide ReadPage, AskedFor, Exchanged, Utf8.Valid, EncodableRecords, Acceptable, Normalised;
    if calls == [] {
      NothingIsUtf8();
      assert AllNormalised([]) == [];
    } else {
      var c := calls[|calls|-1];
      ClientHasTheHistory(epoch, calls[..|calls|-1]);
      var f := Followed(epoch, calls[..|calls|-1]);
      HistoryTravels(epoch, c.disk, f.cursor, c.maxRecords as int64, c.maxBytes as int64);
      var p := ReadPage(epoch, c.disk, f.cursor, c.maxRecords, c.maxBytes);
      assert AllNormalised(f.records) + AllNormalised(p.records) == AllNormalised(f.records + p.records);
    }
  }

  /** And it gets everywhere: on a file that stands still, whole and servable, after at most one call a line
      it has every record of the file. */
  lemma ClientReadsItAll(epoch: string, b: string, calls: seq<Call>, rs: seq<Record>)
    requires EpochText(epoch) && |b| <= MAX_I64 && Still(b, calls) && calls != [] && |calls| >= |Lines(b)| && Reads(b, rs)
    ensures Int64Limits(calls) && ClientFollowed(epoch, calls) == Progress(Spelled(epoch, |b|), AllNormalised(rs))
  {
    hide Spelled, Servable, Followed, ClientFollowed, Reads, Lines, Normalised, Utf8.Valid;
    assert Int64Limits(calls);
    FollowingReachesTheEnd(epoch, b, calls);
    ClientHasTheHistory(epoch, calls);
  }

  lemma NothingIsUtf8()
    ensures Utf8.Valid("")
  {
    Utf8.AsciiValid("");
  }

  // ---- why a page is refused ----

  /** The cursor names a line boundary of the file. */
  ghost predicate AtBoundary(epoch: string, bytes: string, cursor: string) {
    exists o: nat :: o <= |bytes| && o <= MAX_I64 && Ended(bytes[..o]) && Names(epoch, cursor, o)
  }

  /** One of the sink's own cursors, as it spells them, or the empty one. */
  ghost predicate Own(epoch: string, cursor: string) {
    cursor == "" || exists o: nat :: o <= MAX_I64 && Names(epoch, cursor, o)
  }

  predicate Names(epoch: string, cursor: string, o: nat) { if cursor == "" then o == 0 else cursor == Spelled(epoch, o) }

  lemma OwnExactly(epoch: string, bytes: string, cursor: string)
    requires ':' !in epoch
    ensures Own(epoch, cursor) <==> OffsetOf(epoch, cursor).Some?
    ensures AtBoundary(epoch, bytes, cursor) <==> var f := OffsetOf(epoch, cursor); f.Some? && f.value <= |bytes| && Ended(bytes[..f.value])
  {
    hide OffsetOf, Ended, Spelled;
    FromTheStart(epoch);
    var found := OffsetOf(epoch, cursor);
    if cursor != "" {
      forall o: nat | Names(epoch, cursor, o) && o <= MAX_I64 ensures found == Some(o) { OffsetExactly(epoch, cursor, o); }
      if found.Some? { OffsetExactly(epoch, cursor, found.value); }
    }
    if found.Some? { assert Names(epoch, cursor, found.value); }
  }

  /** Limits first, then whose cursor it is, then whether the file can be read, then whether it is still the
      one the cursor was issued for. */
  lemma RefusalsExactly(epoch: string, disk: Disk, cursor: string, maxRecords: int, maxBytes: int)
    requires ':' !in epoch
    ensures var p := ReadPage(epoch, disk, cursor, maxRecords, maxBytes); var readable := disk.stat && disk.open && disk.info;
      && (p.outcome == "invalid_request" <==> !InLimits(maxRecords, maxBytes))
      && (p.outcome == "unavailable" <==> InLimits(maxRecords, maxBytes) && Own(epoch, cursor) && !readable)
      && (p.outcome == "gap" <==> InLimits(maxRecords, maxBytes) && (if Own(epoch, cursor) then readable && !(disk.same && AtBoundary(epoch, disk.bytes, cursor)) else true))
  {
    hide OffsetOf, Gather, Spelled, Own, AtBoundary;
    OwnExactly(epoch, disk.bytes, cursor);
    var o := OffsetOf(epoch, cursor);
    if InLimits(maxRecords, maxBytes) && o.Some? && o.value <= |disk.bytes| {
      assert o.value > 0 ==> disk.bytes[..o.value][o.value-1] == disk.bytes[o.value-1];
      if Gather(disk.bytes, o.value, [], 0, maxRecords, maxBytes).Stuck? { StuckWords(disk.bytes, o.value, [], 0, maxRecords, maxBytes); }
    }
  }

  lemma LinesUnfold(t: string)
    requires t != ""
    ensures Lines(t) == [t[..LineEnd(t, 0, |t|)]] + Lines(t[LineEnd(t, 0, |t|)..])
  {
    hide LineEnd;
  }

  lemma FirstLine(t: string)
    requires t != ""
    ensures var e := LineEnd(t, 0, |t|); Lines(t) != [] && Lines(t)[0] == t[..e] && (Ended(t[..e]) <==> t[e-1] == '\n')
  {
    hide LineEnd, Lines;
    LinesUnfold(t);
  }

  /** Looking no further than a line may be long gives the same verdict as looking to the end. */
  lemma LineByEnd(b: string, offset: nat)
    requires offset < |b|
    ensures var e := LineEnd(b, offset, |b|);
      LineAt(b, offset) ==
        if e - offset > LINE_LIMIT then Stuck("record_too_large")
        else if b[e-1] != '\n' || Decode(b[offset..e]).Refusal? then Stuck("corrupt")
        else Walked([Decode(b[offset..e]).value], e)
  {
    hide Decode, LineEnd, LineAt, Lines, Ended, Encodable, CleanRecord, Encode;
    LineAtIs(b, offset);
    var limit := if |b| - offset < LINE_LIMIT + 1 then |b| else offset + LINE_LIMIT + 1;
    if LineEnd(b, offset, |b|) <= limit { LineEndNear(b, offset, limit, |b|); } else { LineEndFar(b, offset, limit, |b|); }
  }

  /** The next line as the reference has it decides: over the limit, unfinished or undecodable, or taken. */
  lemma LineExactly(b: string, offset: nat)
    requires offset < |b|
    ensures Lines(b[offset..]) != []
    ensures var line := Lines(b[offset..])[0];
      LineAt(b, offset) ==
        if |line| > LINE_LIMIT then Stuck("record_too_large")
        else if !Ended(line) || Decode(line).Refusal? then Stuck("corrupt")
        else Walked([Decode(line).value], offset + |line|)
  {
    hide *;
    var t := b[offset..];
    var e := LineEnd(t, 0, |t|);
    FirstLine(t);
    LineEndShift(b, offset, offset, |b|);
    assert b[offset..|b|] == t;
    assert b[offset..offset+e] == t[..e] && b[offset+e-1] == t[e-1];
    LineByEnd(b, offset);
  }

  lemma {:induction false} LineEndFar(b: string, i: nat, limit: nat, more: nat)
    requires i < limit <= more <= |b| && LineEnd(b, i, more) > limit
    ensures LineEnd(b, i, limit) == limit
    decreases limit - i
  {
    if b[i] != '\n' && i + 1 < limit { LineEndFar(b, i + 1, limit, more); }
  }

  /** Between two offsets the file holds whole lines, none over the line limit, that spell these records. */
  ghost predicate Taken(b: string, from: nat, to: nat, rs: seq<Record>) {
    from <= to <= |b| && Reads(b[from..to], rs) && Short(b[from..to])
  }

  predicate Short(t: string) { forall i :: 0 <= i < |Lines(t)| ==> |Lines(t)[i]| <= LINE_LIMIT }

  lemma TakenNothing(b: string, at: nat)
    requires at <= |b|
    ensures Taken(b, at, at, [])
  {
    assert b[at..at] == "";
  }

  lemma TakenOne(b: string, offset: nat)
    requires offset < |b| && LineAt(b, offset).Walked?
    ensures Taken(b, offset, LineAt(b, offset).offset, LineAt(b, offset).records)
  {
    hide *;
    LineMoves(b, offset);
    LineReads(b, offset);
    LineIs(b, offset);
    var e := LineAt(b, offset).offset;
    LineEndShift(b, offset, offset, e);
    LineIsShort(b, offset);
    OneShort(b[offset..e]);
    TakenIs(b, offset, e, LineAt(b, offset).records);
  }

  lemma TakenIs(b: string, from: nat, to: nat, rs: seq<Record>)
    requires from <= to <= |b|
    ensures Taken(b, from, to, rs) <==> Reads(b[from..to], rs) && Short(b[from..to])
  {
    hide Reads, Short;
  }

  lemma OneShort(t: string)
    requires t != "" && LineEnd(t, 0, |t|) == |t| <= LINE_LIMIT
    ensures Short(t)
  {
    hide Lines, LineEnd;
    LinesUnfold(t);
    assert t[..|t|] == t && t[|t|..] == "";
    NoLines();
  }

  lemma NoLines()
    ensures Lines("") == []
  {
  }

  lemma LineIsShort(b: string, offset: nat)
    requires offset < |b| && LineAt(b, offset).Walked?
    ensures LineAt(b, offset).offset - offset <= LINE_LIMIT
  {
    hide LineAt, Decode, LineEnd;
    LineAtIs(b, offset);
  }

  lemma TakenMore(b: string, from: nat, mid: nat, rs: seq<Record>, to: nat, ss: seq<Record>)
    requires Taken(b, from, mid, rs) && Taken(b, mid, to, ss)
    ensures Taken(b, from, to, rs + ss)
  {
    hide Reads, Lines;
    assert b[from..mid] + b[mid..to] == b[from..to];
    ReadsConcat(b[from..mid], rs, b[mid..to], ss);
    ReadsEnds(b[from..mid], rs);
    LinesConcat(b[from..mid], b[mid..to]);
    ShortConcat(b[from..mid], b[mid..to]);
  }

  lemma ReadsEnds(t: string, rs: seq<Record>)
    requires Reads(t, rs)
    ensures Ended(t) && |Lines(t)| == |rs| && forall i :: 0 <= i < |rs| ==> Decode(Lines(t)[i]) == Given(rs[i])
  {
    hide Decode;
  }

  lemma ShortConcat(t: string, u: string)
    requires Short(t) && Short(u) && Lines(t + u) == Lines(t) + Lines(u)
    ensures Short(t + u)
  {
    hide Lines;
    var ls := Lines(t + u);
    forall i | 0 <= i < |ls| ensures |ls[i]| <= LINE_LIMIT {
      if i < |Lines(t)| { assert ls[i] == Lines(t)[i]; } else { assert ls[i] == Lines(u)[i-|Lines(t)|]; }
    }
  }

  /** The first of the lines taken is the one the reader finds there. */
  lemma FirstTaken(b: string, from: nat, to: nat, rs: seq<Record>)
    requires Taken(b, from, to, rs) && rs != []
    ensures from < to && LineAt(b, from).Walked? && LineAt(b, from).records == [rs[0]] && from < LineAt(b, from).offset <= to
    ensures Taken(b, LineAt(b, from).offset, to, rs[1..])
  {
    hide *;
    SomethingTaken(b, from, to, rs);
    TakenIs(b, from, to, rs);
    var t := b[from..to];
    var e := LineEnd(t, 0, |t|);
    FirstOfBoth(t, b[to..], rs);
    Glued(b, from, to, e);
    LineExactly(b, from);
    TailTaken(t, e, rs);
    TakenIs(b, from + e, to, rs[1..]);
  }

  lemma SomethingTaken(b: string, from: nat, to: nat, rs: seq<Record>)
    requires Taken(b, from, to, rs) && rs != []
    ensures from < to <= |b| && b[from..to] != ""
  {
    hide Decode, Lines, Short;
    LinesOf(b[from..to]);
  }

  lemma Glued(b: string, from: nat, to: nat, e: nat)
    requires from <= from + e <= to <= |b|
    ensures b[from..to] + b[to..] == b[from..] && b[from+e..to] == b[from..to][e..] && |b[from..to][..e]| == e
  {
  }

  lemma FirstOfBoth(t: string, rest: string, rs: seq<Record>)
    requires t != "" && Reads(t, rs) && Short(t)
    ensures var e := LineEnd(t, 0, |t|);
      && rs != [] && Lines(t) == [t[..e]] + Lines(t[e..]) && Lines(t + rest) != [] && Lines(t + rest)[0] == t[..e]
      && Ended(t[..e]) && |t[..e]| <= LINE_LIMIT && Decode(t[..e]) == Given(rs[0])
  {
    hide Reads, Lines, LineEnd, Decode, Ended;
    ReadsEnds(t, rs);
    LinesUnfold(t);
    LinesConcat(t, rest);
    LastByte(t, LineEnd(t, 0, |t|));
    assert Lines(t)[0] == t[..LineEnd(t, 0, |t|)];
  }

  /** The first line of an ended text is ended. */
  lemma LastByte(t: string, e: nat)
    requires t != "" && Ended(t) && e == LineEnd(t, 0, |t|)
    ensures Ended(t[..e])
  {
    hide LineEnd;
    EndedLine(t, 0);
    assert t[..e][e-1] == t[e-1];
  }

  lemma TailTaken(t: string, e: nat, rs: seq<Record>)
    requires rs != [] && Reads(t, rs) && Short(t) && 0 < e <= |t| && Lines(t) == [t[..e]] + Lines(t[e..])
    ensures Reads(t[e..], rs[1..]) && Short(t[e..])
  {
    hide Lines, Decode;
    var ls := Lines(t[e..]);
    forall i | 0 <= i < |ls| ensures Decode(ls[i]) == Given(rs[1..][i]) && |ls[i]| <= LINE_LIMIT {
      assert Lines(t)[i+1] == ls[i] && rs[1..][i] == rs[i+1];
    }
    if e < |t| { assert t[e..][|t|-e-1] == t[|t|-1]; }
  }

  lemma {:induction false} SumGrows(rs: seq<Record>, ss: seq<Record>)
    requires AllSound(rs + ss)
    ensures AllSound(rs) && Sum(rs) <= Sum(rs + ss)
    decreases |ss|
  {
    hide Size, Encodable, CleanRecord;
    assert forall r :: r in rs ==> r in rs + ss;
    if ss == [] {
      assert rs + ss == rs;
    } else {
      var init := ss[..|ss|-1];
      assert (rs + ss)[..|rs+ss|-1] == rs + init;
      assert forall r :: r in rs + init ==> r in rs + ss;
      SumGrows(rs, init);
    }
  }

  /** From what has been gathered, the lines up to `at` are taken within both budgets, and the one there is why
      the page is refused: it is too long, unfinished or undecodable, or it is the first and over the byte budget. */
  ghost predicate StuckAt(b: string, offset: nat, acc: seq<Record>, maxRecords: nat, maxBytes: nat, at: nat, rs: seq<Record>, outcome: string) {
    && at < |b| && Taken(b, offset, at, rs) && |acc + rs| < maxRecords && AllSound(acc + rs) && Sum(acc + rs) <= maxBytes
    && (LineAt(b, at) == Stuck(outcome)
        || (acc + rs == [] && LineAt(b, at).Walked? && Size(LineAt(b, at).records[0]) > maxBytes && outcome == "record_too_large"))
  }

  lemma {:induction false} WhyStuck(b: string, offset: nat, acc: seq<Record>, used: nat, maxRecords: nat, maxBytes: nat)
    returns (at: nat, rs: seq<Record>)
    requires offset <= |b| && AllSound(acc) && used == Sum(acc) && |acc| <= maxRecords && used <= maxBytes
    requires Gather(b, offset, acc, used, maxRecords, maxBytes).Stuck?
    ensures StuckAt(b, offset, acc, maxRecords, maxBytes, at, rs, Gather(b, offset, acc, used, maxRecords, maxBytes).outcome)
    decreases |b| - offset
  {
    hide LineAt, Size, Encodable, CleanRecord, Taken, Sum, AllSound;
    TakenNothing(b, offset);
    NothingSummed();
    at, rs := offset, [];
    assert acc + rs == acc;
    var l := LineAt(b, offset);
    if l.Walked? && used + Size(l.records[0]) <= maxBytes {
      var r := l.records[0];
      assert l.records == [r];
      SumMore(acc, r);
      at, rs := WhyStuck(b, l.offset, acc + [r], used + Size(r), maxRecords, maxBytes);
      TakenOne(b, offset);
      TakenMore(b, offset, l.offset, [r], at, rs);
      assert acc + [r] + rs == acc + ([r] + rs);
      rs := [r] + rs;
    }
  }

  lemma {:induction false} StuckThere(b: string, offset: nat, acc: seq<Record>, used: nat, maxRecords: nat, maxBytes: nat,
    at: nat, rs: seq<Record>, outcome: string)
    requires offset <= |b| && StuckAt(b, offset, acc, maxRecords, maxBytes, at, rs, outcome) && used == Sum(acc)
    ensures Gather(b, offset, acc, used, maxRecords, maxBytes) == Stuck(outcome)
    decreases |rs|
  {
    hide LineAt, Size, Encodable, CleanRecord, Sum, AllSound, Taken;
    NothingSummed();
    if rs == [] {
      TakenEmpty(b, offset, at);
      assert acc + rs == acc;
    } else {
      FirstTaken(b, offset, at, rs);
      var l, r := LineAt(b, offset), rs[0];
      assert [r] + rs[1..] == rs && acc + [r] + rs[1..] == acc + rs;
      SumGrows(acc + [r], rs[1..]);
      SoundParts(acc, r);
      SumMore(acc, r);
      TakenWithin(b, offset, at, rs);
      StuckThere(b, l.offset, acc + [r], used + Size(r), maxRecords, maxBytes, at, rs[1..], outcome);
    }
  }

  lemma TakenEmpty(b: string, from: nat, to: nat)
    requires Taken(b, from, to, [])
    ensures from == to
  {
    hide Decode, LineEnd, Lines;
    LinesOf(b[from..to]);
  }

  lemma LinesOf(t: string)
    ensures Lines(t) == [] <==> t == ""
  {
    hide LineEnd;
  }

  lemma TakenWithin(b: string, from: nat, to: nat, rs: seq<Record>)
    requires Taken(b, from, to, rs)
    ensures from <= to <= |b|
  {
  }

  lemma SoundParts(acc: seq<Record>, r: Record)
    requires AllSound(acc + [r])
    ensures AllSound(acc) && Encodable(r) && CleanRecord(r)
  {
    assert r in acc + [r] && forall x :: x in acc ==> x in acc + [r];
  }

  /** A page is refused for a line exactly if the lines before it are all taken within both budgets and it is
      too long, unfinished or undecodable, or it is the first and over the byte budget. */
  lemma StuckExactly(b: string, offset: nat, maxRecords: nat, maxBytes: nat, outcome: string)
    requires offset <= |b| && 1 <= maxRecords
    ensures Gather(b, offset, [], 0, maxRecords, maxBytes) == Stuck(outcome) <==>
      exists at, rs :: StuckAt(b, offset, [], maxRecords, maxBytes, at, rs, outcome)
  {
    hide Gather, StuckAt;
    NothingSummed();
    if Gather(b, offset, [], 0, maxRecords, maxBytes) == Stuck(outcome) {
      var at, rs := WhyStuck(b, offset, [], 0, maxRecords, maxBytes);
    }
    forall at, rs | StuckAt(b, offset, [], maxRecords, maxBytes, at, rs, outcome)
      ensures Gather(b, offset, [], 0, maxRecords, maxBytes) == Stuck(outcome)
    {
      StuckThere(b, offset, [], 0, maxRecords, maxBytes, at, rs, outcome);
    }
  }

  /** So the two refusals that a line causes have their exact condition on the page too. */
  lemma LineRefusalsExactly(epoch: string, disk: Disk, cursor: string, maxRecords: int, maxBytes: int, outcome: string)
    requires ':' !in epoch && outcome in ["corrupt", "record_too_large"]
    ensures ReadPage(epoch, disk, cursor, maxRecords, maxBytes).outcome == outcome <==>
      InLimits(maxRecords, maxBytes) && disk.stat && disk.open && disk.info && disk.same && AtBoundary(epoch, disk.bytes, cursor)
      && OffsetOf(epoch, cursor).Some? && exists at, rs :: StuckAt(disk.bytes, OffsetOf(epoch, cursor).value, [], maxRecords, maxBytes, at, rs, outcome)
  {
    hide OffsetOf, Gather, Spelled, Own, AtBoundary, StuckAt;
    OwnExactly(epoch, disk.bytes, cursor);
    var o := OffsetOf(epoch, cursor);
    if InLimits(maxRecords, maxBytes) && o.Some? && o.value <= |disk.bytes| {
      assert o.value > 0 ==> disk.bytes[..o.value][o.value-1] == disk.bytes[o.value-1];
      StuckExactly(disk.bytes, o.value, maxRecords, maxBytes, outcome);
    }
  }
}
