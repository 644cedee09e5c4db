/** The endpoints: a client's call, the dispatcher's answer, and what the two do together. */
module Service {
  import opened Decimal
  import opened Timestamp
  import opened Schema
  import opened Printer
  import opened RoundTrip
  import opened Readers
  import opened Records
  import opened Messages
  import opened Envelope
  import Writers
  import Utf8

  /** `servicePayload`: the envelope and its version, the arguments still opaque. */
  function ServicePayload(frame: string): (r: Outcome<seq<Val>>)
    ensures r.Good? ==> |r.value| == 4 && r.value[1].Str? && r.value[2].Str? && r.value[3].Str?
  {
    RawEnvelope();
    match Whole(FrameKind(Raw), frame, 0)
    case Refusal(w, o) => Fail(Wire(w, o))
    case Given(v) =>
      FrameFields(v);
      if v.fs[0] != Num(1) then Fail(Dispatch("unknown_version")) else Good(v.fs)
  }

  lemma FrameFields(v: Val)
    requires Typed(FrameKind(Raw), v)
    ensures |v.fs| == 4 && v.fs[0].Num? && v.fs[1].Str? && v.fs[2].Str? && v.fs[3].Str?
  {
    forall i | 0 <= i < 4 ensures Typed(FrameKind(Raw).s.fields[i].kind, v.fs[i]) { }
  }

  /** The arguments of a frame, decoded where they stood: one level deep. */
  function ArgumentsOf(k: Kind, frame: string, service: string, name: string): (r: Outcome<Val>)
    requires WfKind(k)
    ensures r.Good? ==> Typed(k, r.value)
  {
    hide Typed, WfKind;
    match ServicePayload(frame)
    case Fail(f) => Fail(f)
    case Good(fs) =>
      if fs[1].s != service then Fail(Dispatch("unknown_service"))
      else if fs[2].s != name then Fail(Dispatch("unknown_method"))
      else Judged(Whole(k, fs[3].s, 1))
  }

  // ---- one-way calls ----

  /** A client's call up to the transport: the frame it hands over, already checked as its receiver will. */
  function Posted(k: Kind, v: Val, service: string, name: string): Outcome<string>
    requires Typed(k, v)
  {
    var w := Blocked(k, v);
    if w != [] then Fail(Wire(w[0], 0))
    else
      var frame := FrameText(service, name, Print(k, v, 1));
      Checked(frame)
  }

  /** A client reads its own frame before it lets it go. */
  function Checked(frame: string): Outcome<string> {
    match ServicePayload(frame) case Fail(f) => Fail(f) case Good(_) => Good(frame)
  }

  ghost predicate Sane(k: Kind, service: string, name: string) {
    k.Object? && Plain(k, 8) && Utf8.Valid(service) && Utf8.Valid(name)
  }

  /** The transport is reached exactly when nothing blocks the encoder and every string is UTF-8;
      the dispatcher then decodes the arguments as sent, their times normalised. */
  lemma PostedExactly(k: Kind, v: Val, service: string, name: string)
    requires Typed(k, v) && Sane(k, service, name)
    ensures WfKind(k)
    ensures var p := Posted(k, v, service, name);
      && (p.Good? <==> Blocked(k, v) == [] && Clean(k, v))
      && (Blocked(k, v) != [] ==> p == Fail(Wire(Blocked(k, v)[0], 0)))
      && (p.Good? ==> p.value == FrameText(service, name, Print(k, v, 1)) && ArgumentsOf(k, p.value, service, name) == Good(Norm(k, v)))
  {
    hide Whole, Print, Norm, Typed, Clean, FrameKind, FrameText, Height, NoRaw, Utf8.Valid;
    if Blocked(k, v) == [] { EnvelopeExactly(service, name, true, k, v); }
  }

  const SINK := "abstraction.logging/sink@1"
  const READER := "abstraction.logging/reader@1"

  lemma NamesAreSane()
    ensures Sane(WriteArguments(), SINK, "Write") && Sane(ReadArguments(), READER, "Read") && Sane(ReadResult(), READER, "Read")
  {
    hide Utf8.Valid, RecordKind, PageKind, Plain, WriteArguments, ReadArguments, ReadResult;
    TablesAreObjects();
    ArgumentTables();
    PlainMore(WriteArguments(), 4);
    PlainMore(ReadArguments(), 1);
    PlainMore(ReadResult(), 6);
    NamesAreUtf8();
  }

  lemma NamesAreUtf8()
    ensures Utf8.Valid(SINK) && Utf8.Valid(READER) && Utf8.Valid("Write") && Utf8.Valid("Read")
  {
    hide Utf8.Valid;
    Utf8.AsciiValid(SINK);
    Utf8.AsciiValid(READER);
    Utf8.AsciiValid("Write");
    Utf8.AsciiValid("Read");
  }

  lemma TablesAreObjects()
    ensures WriteArguments().Object? && ReadArguments().Object? && ReadResult().Object?
  {
  }

  lemma PlainMore(k: Kind, h: nat)
    requires Plain(k, h) && h <= 8
    ensures Plain(k, 8) && WfKind(k)
  {
  }

  function WriteVal(r: Record): (v: Val)
    ensures Typed(WriteArguments(), v)
  {
    Obj([RecordVal(r)])
  }

  function WriteOf(v: Val): (r: Record)
    requires Typed(WriteArguments(), v)
    ensures WriteVal(r) == v
  {
    assert Typed(WriteArguments().s.fields[0].kind, v.fs[0]);
    assert v.fs == [v.fs[0]];
    RecordOf(v.fs[0])
  }

  lemma WriteIs(r: Record)
    ensures Norm(WriteArguments(), WriteVal(r)) == WriteVal(Normalised(r))
    ensures Blocked(WriteArguments(), WriteVal(r)) == Blocked(RecordKind(), RecordVal(r))
    ensures Clean(WriteArguments(), WriteVal(r)) <==> CleanRecord(r)
  {
    hide RecordKind, CleanRecord, RecordVal;
    RecordNorm(r);
    RecordClean(r);
    var k, v := WriteArguments(), WriteVal(r);
    assert Norm(k, v).fs == [Norm(RecordKind(), RecordVal(r))];
    assert BlockedFrom(k, v, 1) == [];
    assert Clean(k.s.fields[0].kind, v.fs[0]) <==> CleanRecord(r);
  }

  /** `SinkClient.Write`: the frame that reaches the transport, or the refusal the caller gets. */
  function Sent(r: Record): Outcome<string> { Posted(WriteArguments(), WriteVal(r), SINK, "Write") }

  /** `SinkDispatcher.WriteFrame`: the record its handler is called with, or the refusal. */
  function Received(frame: string): Outcome<Record> {
    hide *;
    SaneIs();
    match ArgumentsOf(WriteArguments(), frame, SINK, "Write")
    case Good(v) => Good(WriteOf(v))
    case Fail(f) => Fail(f)
  }

  /** End to end: a record reaches the transport if and only if its schema is 1, its time is an
      instant that can be written and all its strings are UTF-8; and what reaches the transport
      reaches the handler, as the record submitted with its time normalised. */
  lemma Delivered(r: Record)
    ensures Sent(r).Good? <==> Encodable(r) && CleanRecord(r)
    ensures r.schema != 1 ==> Sent(r) == Fail(Wire(BadSchema, 0))
    ensures r.schema == 1 && Normalized(r.time) == "" ==> Sent(r) == Fail(Wire(BadTimestamp, 0))
    ensures Sent(r).Good? ==> Received(Sent(r).value) == Good(Normalised(r))
  {
    hide Posted, ArgumentsOf, WriteArguments, Normalized, CleanRecord, RecordVal, WriteVal, Sane, RecordKind;
    NamesAreSane();
    SaneIs();
    PostedExactly(WriteArguments(), WriteVal(r), SINK, "Write");
    WriteIs(r);
    RecordBlocked(r);
    if Sent(r).Good? { OneWrite(WriteOf(WriteVal(Normalised(r))), Normalised(r)); }
  }

  lemma SaneIs()
    ensures WfKind(WriteArguments()) && WfKind(ReadArguments()) && WfKind(ReadResult())
  {
    NamesAreSane();
  }

  lemma OneWrite(a: Record, b: Record)
    requires WriteVal(a) == WriteVal(b)
    ensures a == b
  {
    hide RecordVal;
    assert WriteVal(a).fs[0] == WriteVal(b).fs[0];
    OneRecord(a, b);
  }

  /** Whatever a dispatcher hands over can be sent on, and arrives the same again: relaying settles. */
  lemma Relayed(frame: string)
    requires Received(frame).Good?
    ensures var r := Received(frame).value;
      Sent(r).Good? && Received(Sent(r).value) == Good(Normalised(r)) && Sent(Normalised(r)) == Sent(r)
  {
    hide Posted, Sent, Received, Normalized, CleanRecord;
    var r := Received(frame).value;
    ReceivedIsSound(frame);
    Delivered(r);
    SentNormalised(r);
  }

  lemma ReceivedIsSound(frame: string)
    requires Received(frame).Good?
    ensures Encodable(Received(frame).value) && CleanRecord(Received(frame).value)
  {
    hide Whole, ServicePayload, WriteArguments, Typed, Normalized, RecordVal, Clean, Blocked, CleanRecord, WfKind, WriteVal;
    SaneIs();
    var fs := ServicePayload(frame).value;
    WholeIsSound(WriteArguments(), fs[3].s, 1);
    var r := Received(frame).value;
    WriteIs(r);
    RecordBlocked(r);
  }

  lemma SentNormalised(r: Record)
    requires Encodable(r) && CleanRecord(r)
    ensures Sent(Normalised(r)) == Sent(r)
  {
    hide Print, WriteArguments, Typed, Normalized, RecordVal, Clean, Blocked, WriteVal, CleanRecord, FrameText, ServicePayload;
    SaneIs();
    WriteIs(r);
    RecordBlocked(r);
    WriteIs(Normalised(r));
    EncodeNormalised(r);
    RecordBlocked(Normalised(r));
    PrintAgain(WriteArguments(), WriteVal(r), 1);
  }

  /** The provider behind the dispatcher: it keeps what it is given and answers as it likes. */
  class Handler {
    var written: seq<Record>
    var answer: Outcome<()>

    constructor ()
      ensures written == []
    {
      written, answer := [], Good(());
    }

    method Write(r: Record) returns (o: Outcome<()>)
      modifies this`written
      ensures written == old(written) + [r] && o == answer
    {
      written := written + [r];
      o := answer;
    }
  }

  class SinkDispatcher {
    const handler: Handler

    constructor (h: Handler)
      ensures handler == h
    {
      handler := h;
    }

    method WriteFrame(frame: string) returns (o: Outcome<()>)
      modifies handler`written
      ensures match Received(frame)
              case Good(r) => handler.written == old(handler.written) + [r] && o == handler.answer
              case Fail(f) => handler.written == old(handler.written) && o == Fail(f)
    {
      NamesAreSane();
      RawEnvelope();
      SaneIs();
      var payload := ReadPayload(frame);
      if payload.Fail? { return Fail(payload.fault); }
      var fs := payload.value;
      if fs[1].s != SINK { return Fail(Dispatch("unknown_service")); }
      if fs[2].s != "Write" { return Fail(Dispatch("unknown_method")); }
      var arguments := ReadWhole(WriteArguments(), fs[3].s, 1);
      if arguments.Refusal? { return Fail(Wire(arguments.word, arguments.offset)); }
      o := handler.Write(WriteOf(arguments.value));
    }
  }

  /** `servicePayload`, with the reader. */
  method ReadPayload(frame: string) returns (o: Outcome<seq<Val>>)
    ensures o == ServicePayload(frame)
  {
    RawEnvelope();
    var a := ReadWhole(FrameKind(Raw), frame, 0);
    if a.Refusal? { return Fail(Wire(a.word, a.offset)); }
    FrameFields(a.value);
    if a.value.fs[0] != Num(1) { return Fail(Dispatch("unknown_version")); }
    return Good(a.value.fs);
  }

  /** A client whose transport is a dispatcher in the same process. */
  class SinkClient {
    const transport: SinkDispatcher

    constructor (t: SinkDispatcher)
      ensures transport == t
    {
      transport := t;
    }

    method Write(r: Record) returns (o: Outcome<()>)
      modifies transport.handler`written
      ensures Encodable(r) && CleanRecord(r) ==>
        transport.handler.written == old(transport.handler.written) + [Normalised(r)] && o == transport.handler.answer
      ensures !(Encodable(r) && CleanRecord(r)) ==> transport.handler.written == old(transport.handler.written) && o.Fail?
    {
      hide Posted, Encodable, CleanRecord, RecordVal, WriteVal, Typed, WfKind, Received, Sent, FrameText, ServicePayload, WriteArguments, Writers.Wrote;
      Delivered(r);
      SentExactly(r);
      var arguments := Writers.Write(WriteArguments(), WriteVal(r), "", 1);
      if arguments.Refusal? { return Fail(Wire(arguments.word, arguments.offset)); }
      var frame := EncodeFrame(SINK, "Write", arguments.value);
      var checked := ReadPayload(frame);
      if checked.Fail? { return Fail(checked.fault); }
      o := transport.WriteFrame(frame);
    }
  }

  /** `encOAServiceFrame` around arguments already encoded. */
  method EncodeFrame(service: string, name: string, arguments: string) returns (frame: string)
    ensures frame == FrameText(service, name, arguments)
  {
    hide Print, Typed, Norm, Blocked, WfKind;
    RawEnvelope();
    EnvelopeIsSteady();
    EnvelopeTyped(service, name, true, Raw, Str(arguments));
    SteadyStays(FrameKind(Raw), FrameVal(service, name, Str(arguments)));
    var a := Writers.Write(FrameKind(Raw), FrameVal(service, name, Str(arguments)), "", 0);
    frame := a.value;
  }

  lemma SentExactly(r: Record)
    ensures WfKind(WriteArguments()) && Typed(WriteArguments(), WriteVal(r))
    ensures forall a :: Writers.Wrote(a, WriteArguments(), WriteVal(r), "", 1) ==>
      if a.Refusal? then !(Encodable(r) && CleanRecord(r)) else Sent(r) == Checked(FrameText(SINK, "Write", a.value))
  {
    hide Normalized, CleanRecord, Print, RecordVal, WriteVal, WriteArguments, ServicePayload, FrameText, Typed, WfKind, Sent;
    SaneIs();
    WriteIs(r);
    RecordBlocked(r);
    SentIs(r);
    var text := Print(WriteArguments(), WriteVal(r), 1);
    assert "" + text == text;
  }

  lemma SentIs(r: Record)
    ensures Blocked(WriteArguments(), WriteVal(r)) == [] ==>
      Sent(r) == Checked(FrameText(SINK, "Write", Print(WriteArguments(), WriteVal(r), 1)))
  {
    hide Print, RecordVal, WriteVal, WriteArguments, ServicePayload, FrameText, Typed;
  }
}
