/** Calls with an answer: the history reader's client, dispatcher and reply frames. */
module Exchange {
  import opened Decimal
  import opened Lexer
  import opened Schema
  import opened Parser
  import opened Printer
  import opened Spoiled
  import opened Readers
  import opened Records
  import opened Messages
  import opened Envelope
  import opened Service
  import opened Timestamp
  import Utf8

  function ReadVal(cursor: string, maxRecords: int64, maxBytes: int64): (v: Val)
    ensures Typed(ReadArguments(), v)
  {
    Obj([Str(cursor), Num(maxRecords as int), Num(maxBytes as int)])
  }

  function ResultVal(p: Page): (v: Val)
    ensures Typed(ReadResult(), v)
  {
    Obj([PageVal(p)])
  }

  function ResultOf(v: Val): (p: Page)
    requires Typed(ReadResult(), v)
    ensures ResultVal(p) == v
  {
    assert Typed(ReadResult().s.fields[0].kind, v.fs[0]);
    assert v.fs == [v.fs[0]];
    PageOf(v.fs[0])
  }

  function ErrorKind(): Kind { Object(Struct([Need("code", Text), Need("message", Text)], false, Free)) }

  function ErrorVal(code: string, message: string): (v: Val)
    ensures Typed(ErrorKind(), v)
  {
    Obj([Str(code), Str(message)])
  }

  function WordText(w: Word): string {
    match w
    case Malformed => "malformed" case BadString => "bad_string" case NumberSpelling => "number_spelling"
    case WrongType => "wrong_type" case BadTimestamp => "bad_timestamp" case DepthExceeded => "depth_exceeded"
    case DuplicateField => "duplicate_field" case UnknownField => "unknown_field" case MissingField => "missing_field"
    case BadSchema => "bad_schema" case BadEnum => "bad_enum" case TrailingBytes => "trailing_bytes"
  }

  /** What a dispatcher tells of an error, in `serviceReply`. */
  function Code(f: Fault): string {
    match f
    case Failed(c, _) => if c != "" then c else "handler_error"
    case Dispatch(c) => c
    case Wire(w, _) => WordText(w)
  }

  function Message(f: Fault): string { if f.Failed? then f.message else "" }

  /** `serviceReply`: a reply frame, checked before it is visible. */
  function Replied(service: string, name: string, a: Outcome<string>): Outcome<string> {
    RawEnvelope();
    var payload := match a case Good(p) => p case Fail(f) => Print(ErrorKind(), ErrorVal(Code(f), Message(f)), 1);
    var frame := ReplyText(service, name, a.Good?, payload);
    match Parse(ReplyKind(Raw), frame, Ws(frame, 0), 0)
    case Ok(_, _) => Good(frame)
    case Refused(w, at) => Fail(Wire(w, at))
  }

  /** `invokeRead`: the handler's page, encoded and checked; a page that cannot travel is an invalid result. */
  function Payload(answer: Outcome<Page>): Outcome<string> {
    SaneIs();
    match answer
    case Fail(f) => Fail(f)
    case Good(p) =>
      if Blocked(ReadResult(), ResultVal(p)) != [] then Fail(Failed("invalid_result", ""))
      else
        var text := Print(ReadResult(), ResultVal(p), 1);
        if Whole(ReadResult(), text, 1).Refusal? then Fail(Failed("invalid_result", "")) else Good(text)
  }

  type Provider = (string, int64, int64) -> Outcome<Page>

  /** `HistoryReaderDispatcher.ExchangeFrame`. */
  function Exchanged(h: Provider, frame: string): Outcome<string> {
    SaneIs();
    match ServicePayload(frame)
    case Fail(f) => Fail(f)
    case Good(fs) =>
      match ArgumentsOf(ReadArguments(), frame, READER, "Read")
      case Fail(f) => Replied(fs[1].s, fs[2].s, Fail(f))
      case Good(v) => Replied(fs[1].s, fs[2].s, Payload(Asked(h, v)))
  }

  function Asked(h: Provider, v: Val): Outcome<Page>
    requires Typed(ReadArguments(), v)
  {
    AskedShape(v);
    h(v.fs[0].s, v.fs[1].n as int64, v.fs[2].n as int64)
  }

  lemma AskedShape(v: Val)
    requires Typed(ReadArguments(), v)
    ensures |v.fs| == 3 && v.fs[0].Str? && Word64(v.fs[1]) && Word64(v.fs[2])
  {
    forall i | 0 <= i < 3 ensures Typed(ReadArguments().s.fields[i].kind, v.fs[i]) { }
  }

  /** `serviceResponse`: the payload of the reply to this call, or its error. */
  function Response(frame: string, service: string, name: string): Outcome<string> {
    hide *;
    RawEnvelope();
    ErrorTable();
    match Whole(ReplyKind(Raw), frame, 0)
    case Refusal(w, o) => Fail(Wire(w, o))
    case Given(v) =>
      ReplyFields(v);
      if v.fs[0] != Num(1) then Fail(Dispatch("unknown_version"))
      else if v.fs[1].s != service || v.fs[2].s != name then Fail(Dispatch("mismatched_response"))
      else if v.fs[3].b then Good(v.fs[4].s)
      else match Whole(ErrorKind(), v.fs[4].s, 1)
        case Refusal(w, o) => Fail(Wire(w, o))
        case Given(e) =>
          ErrorFields(e);
          if e.fs[0].s == "" then Fail(Dispatch("invalid_error")) else Fail(Failed(e.fs[0].s, e.fs[1].s))
  }

  lemma ReplyFields(v: Val)
    requires Typed(ReplyKind(Raw), v)
    ensures v.Obj? && |v.fs| == 5 && v.fs[0].Num? && v.fs[1].Str? && v.fs[2].Str? && v.fs[3].Bool? && v.fs[4].Str?
  {
    forall i | 0 <= i < 5 ensures Typed(ReplyKind(Raw).s.fields[i].kind, v.fs[i]) { }
  }

  lemma ErrorFields(v: Val)
    requires Typed(ErrorKind(), v)
    ensures v.Obj? && |v.fs| == 2 && v.fs[0].Str? && v.fs[1].Str?
  {
    forall i | 0 <= i < 2 ensures Typed(ErrorKind().s.fields[i].kind, v.fs[i]) { }
  }

  lemma ErrorTable()
    ensures Plain(ErrorKind(), 8) && WfKind(ErrorKind())
  {
    hide Utf8.Valid, PlainField, Plain;
    Leaf(Text);
    forall f | f in ErrorKind().s.fields ensures PlainField(f, 0) { FieldIsPlain(f, 0); }
    TableIsPlain(ErrorKind().s, 0);
    PlainMore(ErrorKind(), 1);
  }

  /** `HistoryReaderClient.Read` over a transport. */
  function AskedFor(exchange: string -> Outcome<string>, cursor: string, maxRecords: int64, maxBytes: int64): Outcome<Page> {
    SaneIs();
    match Posted(ReadArguments(), ReadVal(cursor, maxRecords, maxBytes), READER, "Read")
    case Fail(f) => Fail(f)
    case Good(frame) =>
      match exchange(frame)
      case Fail(f) => Fail(f)
      case Good(reply) =>
        match Response(reply, READER, "Read")
        case Fail(f) => Fail(f)
        case Good(payload) =>
          match Whole(ReadResult(), payload, 1)
          case Refusal(w, o) => Fail(Wire(w, o))
          case Given(v) => Good(ResultOf(v))
  }

  // ---- what the two ends do together ----

  lemma ArgumentsAreSteady()
    ensures Steady(ReadArguments()) && Steady(ErrorKind())
  {
  }

  lemma ReadIs(cursor: string, maxRecords: int64, maxBytes: int64)
    ensures var v := ReadVal(cursor, maxRecords, maxBytes);
      && Norm(ReadArguments(), v) == v && Blocked(ReadArguments(), v) == []
      && (Clean(ReadArguments(), v) <==> Utf8.Valid(cursor))
  {
    hide Utf8.Valid;
    var k, v := ReadArguments(), ReadVal(cursor, maxRecords, maxBytes);
    ArgumentsAreSteady();
    hide Norm, Blocked, Clean, Typed, Steady;
    SteadyStays(k, v);
    FlatClean(k, v);
    assert k.s.fields[0].kind.Text? && v.fs[0].s == cursor;
  }

  lemma ErrorIs(code: string, message: string)
    ensures var v := ErrorVal(code, message);
      && Norm(ErrorKind(), v) == v && Blocked(ErrorKind(), v) == []
      && (Clean(ErrorKind(), v) <==> Utf8.Valid(code) && Utf8.Valid(message))
  {
    hide Utf8.Valid;
    var k, v := ErrorKind(), ErrorVal(code, message);
    ArgumentsAreSteady();
    hide Norm, Blocked, Clean, Typed, Steady;
    SteadyStays(k, v);
    FlatClean(k, v);
    assert k.s.fields[0].kind.Text? && v.fs[0].s == code && k.s.fields[1].kind.Text? && v.fs[1].s == message;
  }

  lemma ResultIs(p: Page)
    ensures Norm(ReadResult(), ResultVal(p)) == ResultVal(NormalisedPage(p))
    ensures Blocked(ReadResult(), ResultVal(p)) == [] <==> EncodablePage(p)
    ensures Clean(ReadResult(), ResultVal(p)) <==> CleanPage(p)
  {
    hide PageKind, CleanPage, EncodablePage, PageVal;
    PageNorm(p);
    PageClean(p);
    PageBlocked(p);
    var k, v := ReadResult(), ResultVal(p);
    assert Norm(k, v).fs == [Norm(PageKind(), PageVal(p))];
    assert BlockedFrom(k, v, 1) == [];
    assert Clean(k.s.fields[0].kind, v.fs[0]) <==> CleanPage(p);
  }

  lemma OneResult(a: Page, b: Page)
    requires ResultVal(a) == ResultVal(b)
    ensures a == b
  {
    hide PageVal;
    assert ResultVal(a).fs[0] == ResultVal(b).fs[0];
    OnePage(a, b);
  }

  /** A reply frame around a printed body: its receiver has the body's text again, or its sender is refused. */
  lemma ReplyArrives(ok: bool, k: Kind, v: Val)
    requires Fitting(k, v)
    ensures WfKind(ReplyKind(Raw)) && WfKind(k) && Typed(k, v)
    ensures var text := Print(k, v, 1); var frame := ReplyText(READER, "Read", ok, text);
      if Clean(k, v) then
        && Parse(ReplyKind(Raw), frame, Ws(frame, 0), 0).Ok? && Whole(k, text, 1) == Given(Norm(k, v))
        && Whole(ReplyKind(Raw), frame, 0) == Given(ReplyVal(READER, "Read", ok, Str(text)))
      else Parse(ReplyKind(Raw), frame, Ws(frame, 0), 0).Refused?
  {
    hide *;
    NamesAreUtf8();
    EnvelopeExactly(READER, "Read", ok, k, v);
    var text := Print(k, v, 1);
    WholeOk(ReplyKind(Raw), ReplyText(READER, "Read", ok, text), 0);
    if !Clean(k, v) { NoReply(ok, k, v); }
  }

  lemma WholeOk(k: Kind, text: string, depth: nat)
    requires WfKind(k)
    ensures Whole(k, text, depth).Given? ==> Parse(k, text, Ws(text, 0), depth).Ok?
  {
  }

  lemma NoReply(ok: bool, k: Kind, v: Val)
    requires Fitting(k, v) && WfKind(k) && Typed(k, v) && !Clean(k, v) && WfKind(ReplyKind(Raw))
    ensures var frame := ReplyText(READER, "Read", ok, Print(k, v, 1)); Parse(ReplyKind(Raw), frame, Ws(frame, 0), 0).Refused?
  {
    hide *;
    NamesAreUtf8();
    var frame := ReplyText(READER, "Read", ok, Print(k, v, 1));
    EnvelopeSendable(READER, "Read", ok, k, v);
    Pasted(READER, "Read", ok, k, v);
    var full := ReplyVal(READER, "Read", ok, v);
    TextsAre(READER, "Read", ok, "");
    SendableIs(ReplyKind(k), full, 0);
    NewlineIsBlank();
    Alone(ReplyKind(k), full, 0, "");
    assert frame + "" == frame;
    PrintedSkipped(ReplyKind(k), full, frame, 0, 0, 0);
    if Parse(ReplyKind(Raw), frame, 0, 0).Ok? { SkipFollows(ReplyKind(Raw), frame, 0, 0); }
  }

  /** A checked reply, read by its client. */
  lemma GoodReply(text: string)
    requires WfKind(ReplyKind(Raw))
    requires var frame := ReplyText(READER, "Read", true, text);
      && Parse(ReplyKind(Raw), frame, Ws(frame, 0), 0).Ok?
      && Whole(ReplyKind(Raw), frame, 0) == Given(ReplyVal(READER, "Read", true, Str(text)))
    ensures var r := Replied(READER, "Read", Good(text)); r.Good? && Response(r.value, READER, "Read") == Good(text)
  {
    hide Whole, Parse, Print, Typed, ReplyText, WfKind, ErrorKind;
  }

  lemma PayloadIs(p: Page)
    ensures WfKind(ReadResult())
    ensures var text := Print(ReadResult(), ResultVal(p), 1);
      Payload(Good(p)) == if Blocked(ReadResult(), ResultVal(p)) == [] && Whole(ReadResult(), text, 1).Given? then Good(text)
        else Fail(Failed("invalid_result", ""))
  {
    hide Whole, Print, Typed, Blocked, ReadResult, ResultVal, WfKind;
    SaneIs();
  }

  /** A page that can travel is answered with a frame its client takes it from. */
  lemma PageReplied(p: Page)
    requires EncodablePage(p) && CleanPage(p)
    ensures WfKind(ReadResult())
    ensures var a := Payload(Good(p));
      && a.Good? && Replied(READER, "Read", a).Good? && Response(Replied(READER, "Read", a).value, READER, "Read") == a
      && Whole(ReadResult(), a.value, 1) == Given(ResultVal(NormalisedPage(p)))
  {
    hide *;
    PayloadIs(p);
    RawEnvelope();
    ResultIs(p);
    FittingResult(p);
    ReplyArrives(true, ReadResult(), ResultVal(p));
    GoodReply(Print(ReadResult(), ResultVal(p), 1));
  }

  lemma FittingResult(p: Page)
    requires EncodablePage(p)
    ensures Fitting(ReadResult(), ResultVal(p))
  {
    hide ReadResult, ResultVal, EncodablePage, Typed, Blocked;
    NamesAreSane();
    ResultIs(p);
  }

  /** A page that cannot travel is an invalid result. */
  lemma PageRefused(p: Page)
    requires !(EncodablePage(p) && CleanPage(p))
    ensures Payload(Good(p)) == Fail(Failed("invalid_result", ""))
  {
    hide *;
    PayloadIs(p);
    ResultIs(p);
    NamesAreUtf8();
    if EncodablePage(p) {
      FittingResult(p);
      EnvelopeExactly(READER, "Read", true, ReadResult(), ResultVal(p));
    }
  }

  /** A provider's error reaches the client under its own code and message, if they can be spelled. */
  lemma ErrorReplied(f: Fault)
    ensures var r := Replied(READER, "Read", Fail(f));
      if Utf8.Valid(Code(f)) && Utf8.Valid(Message(f)) then
        && r.Good?
        && Response(r.value, READER, "Read") == if Code(f) == "" then Fail(Dispatch("invalid_error")) else Fail(Failed(Code(f), Message(f)))
      else r.Fail?
  {
    hide Whole, Parse, Print, Norm, Typed, Clean, Blocked, ReplyText, ErrorKind, Code, Message, Utf8.Valid;
    ErrorTable();
    RawEnvelope();
    ErrorIs(Code(f), Message(f));
    ErrorIsObject();
    ReplyArrives(false, ErrorKind(), ErrorVal(Code(f), Message(f)));
  }

  lemma ErrorIsObject()
    ensures ErrorKind().Object?
  {
  }

  /** The dispatcher's handler is asked exactly what the client was asked. */
  lemma Asking(h: Provider, cursor: string, maxRecords: int64, maxBytes: int64)
    requires Utf8.Valid(cursor)
    ensures WfKind(ReadArguments())
    ensures var p := Posted(ReadArguments(), ReadVal(cursor, maxRecords, maxBytes), READER, "Read");
      p.Good? && Exchanged(h, p.value) == Replied(READER, "Read", Payload(h(cursor, maxRecords, maxBytes)))
  {
    hide Payload, Replied, Typed, Whole, Print, FrameText, ReadArguments, Clean, Norm, Blocked, Utf8.Valid, Sane;
    NamesAreSane();
    SaneIs();
    var v := ReadVal(cursor, maxRecords, maxBytes);
    ReadIs(cursor, maxRecords, maxBytes);
    PostedExactly(ReadArguments(), v, READER, "Read");
    PostedIs(v, Posted(ReadArguments(), v, READER, "Read").value);
  }

  lemma PostedIs(v: Val, frame: string)
    requires WfKind(ReadArguments()) && ArgumentsOf(ReadArguments(), frame, READER, "Read") == Good(v)
    ensures ServicePayload(frame).Good? && ServicePayload(frame).value[1].s == READER && ServicePayload(frame).value[2].s == "Read"
  {
    hide Whole, ServicePayload, ReadArguments;
  }

  lemma WordsAreUtf8()
    ensures Utf8.Valid("invalid_result") && Utf8.Valid("")
  {
    hide Utf8.Valid;
    Utf8.AsciiValid("invalid_result");
    Utf8.AsciiValid("");
  }

  /** What the client makes of a reply. */
  lemma AskedForIs(exchange: string -> Outcome<string>, cursor: string, maxRecords: int64, maxBytes: int64)
    ensures WfKind(ReadArguments()) && WfKind(ReadResult())
    ensures var p := Posted(ReadArguments(), ReadVal(cursor, maxRecords, maxBytes), READER, "Read");
      AskedFor(exchange, cursor, maxRecords, maxBytes) ==
        if p.Fail? then Fail(p.fault)
        else if exchange(p.value).Fail? then Fail(exchange(p.value).fault)
        else var r := Response(exchange(p.value).value, READER, "Read");
          if r.Fail? then Fail(r.fault)
          else match Whole(ReadResult(), r.value, 1) case Refusal(w, o) => Fail(Wire(w, o)) case Given(v) => Good(ResultOf(v))
  {
    hide Posted, Response, Whole, Typed, ReadArguments, ReadResult, WfKind, Sound;
    SaneIs();
  }

  /** A history call, end to end over frames: the provider is asked with the caller's own arguments;
      its page comes back whole, its times normalised, or as an invalid result if it cannot travel;
      its error comes back under its own code and message. */
  lemma PageTravels(h: Provider, cursor: string, maxRecords: int64, maxBytes: int64)
    requires Utf8.Valid(cursor)
    ensures var r := AskedFor(frame => Exchanged(h, frame), cursor, maxRecords, maxBytes);
      match h(cursor, maxRecords, maxBytes)
      case Good(p) => r == if EncodablePage(p) && CleanPage(p) then Good(NormalisedPage(p)) else Fail(Failed("invalid_result", ""))
      case Fail(f) => r.Fail? && (Utf8.Valid(Code(f)) && Utf8.Valid(Message(f)) && Code(f) != "" ==> r == Fail(Failed(Code(f), Message(f))))
  {
    hide *;
    Asking(h, cursor, maxRecords, maxBytes);
    AskedForIs(frame => Exchanged(h, frame), cursor, maxRecords, maxBytes);
    match h(cursor, maxRecords, maxBytes) {
      case Good(p) =>
        if EncodablePage(p) && CleanPage(p) {
          PageReplied(p);
          OneResult(ResultOf(ResultVal(NormalisedPage(p))), NormalisedPage(p));
        } else {
          PageRefused(p);
          WordsAreUtf8();
          CodeIs("invalid_result", "");
          ErrorReplied(Failed("invalid_result", ""));
        }
      case Fail(f) =>
        PayloadFails(f);
        ErrorReplied(f);
    }
  }

  lemma CodeIs(code: string, message: string)
    requires code != ""
    ensures Code(Failed(code, message)) == code && Message(Failed(code, message)) == message
  {
  }

  lemma PayloadFails(f: Fault)
    ensures Payload(Fail(f)) == Fail(f)
  {
  }

  /** A cursor that is not UTF-8 never leaves the client. */
  lemma BadCursor(exchange: string -> Outcome<string>, cursor: string, maxRecords: int64, maxBytes: int64)
    requires !Utf8.Valid(cursor)
    ensures AskedFor(exchange, cursor, maxRecords, maxBytes).Fail?
  {
    hide *;
    NamesAreSane();
    ReadIs(cursor, maxRecords, maxBytes);
    PostedExactly(ReadArguments(), ReadVal(cursor, maxRecords, maxBytes), READER, "Read");
    AskedForIs(exchange, cursor, maxRecords, maxBytes);
  }
}
