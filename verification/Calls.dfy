/** The history reader's two ends with the reader and the writer: client, dispatcher and reply frames. */
module Calls {
  import opened Decimal
  import opened Schema
  import opened Parser
  import opened Printer
  import opened Readers
  import opened Records
  import opened Messages
  import opened Envelope
  import opened Service
  import opened Exchange
  import Writers
  import Utf8

  /** An encoder's text, or the word it panics with. */
  method Encoded(k: Kind, v: Val, depth: nat) returns (a: Answer<string>)
    requires WfKind(k) && Typed(k, v)
    ensures a == if Blocked(k, v) != [] then Refusal(Blocked(k, v)[0], 0) else Given(Print(k, v, depth))
  {
    hide Print, Blocked, Typed, WfKind;
    a := Writers.Write(k, v, "", depth);
    assert "" + Print(k, v, depth) == Print(k, v, depth);
  }

  /** A value without times and rules is never refused. */
  method EncodedSteady(k: Kind, v: Val, depth: nat) returns (text: string)
    requires WfKind(k) && Typed(k, v) && Steady(k)
    ensures text == Print(k, v, depth)
  {
    hide Print, Blocked, Typed, WfKind, Steady, Norm;
    SteadyStays(k, v);
    var a := Encoded(k, v, depth);
    text := a.value;
  }

  /** `encOAServiceReply` around a payload already encoded. */
  method EncodeReply(service: string, name: string, ok: bool, payload: string) returns (frame: string)
    ensures frame == ReplyText(service, name, ok, payload)
  {
    hide Print, Typed, WfKind, Steady;
    RawEnvelope();
    EnvelopeIsSteady();
    EnvelopeTyped(service, name, ok, Raw, Str(payload));
    frame := EncodedSteady(ReplyKind(Raw), ReplyVal(service, name, ok, Str(payload)), 0);
  }

  /** `serviceReply`: the frame is read once before it is visible, its end not looked at. */
  method Reply(service: string, name: string, a: Outcome<string>) returns (o: Outcome<string>)
    ensures o == Replied(service, name, a)
  {
    hide Print, Typed, WfKind, Steady, Parse, Code, Message, ErrorKind, ReplyKind, ReplyText;
    RawEnvelope();
    ErrorTable();
    ArgumentsAreSteady();
    var payload;
    if a.Good? { payload := a.value; } else { payload := EncodedSteady(ErrorKind(), ErrorVal(Code(a.fault), Message(a.fault)), 1); }
    var frame := EncodeReply(service, name, a.Good?, payload);
    var r := new Reader(frame, 0);
    r.SkipBlanks();
    var v := r.Decode(ReplyKind(Raw));
    if v.Refusal? { return Fail(Wire(v.word, v.offset)); }
    return Good(frame);
  }

  class HistoryDispatcher {
    const handler: Provider

    constructor (h: Provider)
      ensures handler == h
    {
      handler := h;
    }

    /** `invokeRead`: the page is encoded, and read back before it is believed. */
    method Invoke(arguments: Val) returns (o: Outcome<string>)
      requires Typed(ReadArguments(), arguments)
      ensures o == Payload(Asked(handler, arguments))
    {
      hide Print, Blocked, Typed, WfKind, Whole, ReadResult, ReadArguments, ResultVal;
      SaneIs();
      var answer := Asked(handler, arguments);
      if answer.Fail? { return Fail(answer.fault); }
      var text := Encoded(ReadResult(), ResultVal(answer.value), 1);
      if text.Refusal? { return Fail(Failed("invalid_result", "")); }
      var again := ReadWhole(ReadResult(), text.value, 1);
      if again.Refusal? { return Fail(Failed("invalid_result", "")); }
      return Good(text.value);
    }

    method ExchangeFrame(frame: string) returns (o: Outcome<string>)
      ensures o == Exchanged(handler, frame)
    {
      hide Print, Typed, WfKind, Whole, ReadArguments, Payload, Asked, Replied, ServicePayload;
      SaneIs();
      var payload := ReadPayload(frame);
      if payload.Fail? { return Fail(payload.fault); }
      var service, name := payload.value[1].s, payload.value[2].s;
      if service != READER { o := Reply(service, name, Fail(Dispatch("unknown_service"))); return; }
      if name != "Read" { o := Reply(service, name, Fail(Dispatch("unknown_method"))); return; }
      var arguments := ReadWhole(ReadArguments(), payload.value[3].s, 1);
      if arguments.Refusal? { o := Reply(service, name, Fail(Wire(arguments.word, arguments.offset))); return; }
      var result := Invoke(arguments.value);
      o := Reply(service, name, result);
    }
  }

  /** `serviceResponse`. */
  method ReadResponse(frame: string, service: string, name: string) returns (o: Outcome<string>)
    ensures o == Response(frame, service, name)
  {
    hide Typed, WfKind, Whole, ReplyKind, ErrorKind;
    RawEnvelope();
    ErrorTable();
    var reply := ReadWhole(ReplyKind(Raw), frame, 0);
    if reply.Refusal? { return Fail(Wire(reply.word, reply.offset)); }
    ReplyFields(reply.value);
    var fs := reply.value.fs;
    if fs[0] != Num(1) { return Fail(Dispatch("unknown_version")); }
    if fs[1].s != service || fs[2].s != name { return Fail(Dispatch("mismatched_response")); }
    if fs[3].b { return Good(fs[4].s); }
    var error := ReadWhole(ErrorKind(), fs[4].s, 1);
    if error.Refusal? { return Fail(Wire(error.word, error.offset)); }
    ErrorFields(error.value);
    if error.value.fs[0].s == "" { return Fail(Dispatch("invalid_error")); }
    return Fail(Failed(error.value.fs[0].s, error.value.fs[1].s));
  }

  /** A client whose transport is a dispatcher in the same process. */
  class HistoryClient {
    const transport: HistoryDispatcher

    constructor (t: HistoryDispatcher)
      ensures transport == t
    {
      transport := t;
    }

    method Read(cursor: string, maxRecords: int64, maxBytes: int64) returns (o: Outcome<Page>)
      ensures o == AskedFor(frame => Exchanged(transport.handler, frame), cursor, maxRecords, maxBytes)
      ensures Utf8.Valid(cursor) ==>
        match transport.handler(cursor, maxRecords, maxBytes)
        case Good(p) => o == if EncodablePage(p) && CleanPage(p) then Good(NormalisedPage(p)) else Fail(Failed("invalid_result", ""))
        case Fail(f) => o.Fail? && (Utf8.Valid(Code(f)) && Utf8.Valid(Message(f)) && Code(f) != "" ==> o == Fail(Failed(Code(f), Message(f))))
    {
      o := Call(cursor, maxRecords, maxBytes);
      if Utf8.Valid(cursor) {
        hide *;
        PageTravels(transport.handler, cursor, maxRecords, maxBytes);
      }
    }

    /** Request, exchange, response and result, each checked before the next. */
    method Call(cursor: string, maxRecords: int64, maxBytes: int64) returns (o: Outcome<Page>)
      ensures o == AskedFor(frame => Exchanged(transport.handler, frame), cursor, maxRecords, maxBytes)
    {
      hide Print, Typed, WfKind, Whole, ReadArguments, ReadResult, Posted, Response, Exchanged, FrameText, ServicePayload, Steady, Sound;
      AskedForIs(frame => Exchanged(transport.handler, frame), cursor, maxRecords, maxBytes);
      ArgumentsAreSteady();
      ReadPosted(cursor, maxRecords, maxBytes);
      var arguments := EncodedSteady(ReadArguments(), ReadVal(cursor, maxRecords, maxBytes), 1);
      var frame := EncodeFrame(READER, "Read", arguments);
      var checked := ReadPayload(frame);
      if checked.Fail? { return Fail(checked.fault); }
      var reply := transport.ExchangeFrame(frame);
      if reply.Fail? { return Fail(reply.fault); }
      var payload := ReadResponse(reply.value, READER, "Read");
      if payload.Fail? { return Fail(payload.fault); }
      var result := ReadWhole(ReadResult(), payload.value, 1);
      if result.Refusal? { return Fail(Wire(result.word, result.offset)); }
      return Good(ResultOf(result.value));
    }
  }

  lemma ReadPosted(cursor: string, maxRecords: int64, maxBytes: int64)
    ensures var v := ReadVal(cursor, maxRecords, maxBytes);
      Posted(ReadArguments(), v, READER, "Read") == Checked(FrameText(READER, "Read", Print(ReadArguments(), v, 1)))
  {
    hide Print, FrameText, Checked, ReadArguments, Blocked;
    ReadIs(cursor, maxRecords, maxBytes);
  }
}
