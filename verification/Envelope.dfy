/** Envelopes: a frame's arguments and a reply's payload travel as raw bytes between known fields, and
    are cut out again by the skipper. */
module Envelope {
  import opened Decimal
  import opened Lexer
  import opened Schema
  import opened Parser
  import opened Printer
  import opened RoundTrip
  import opened Spoiled
  import opened Readers
  import opened Records
  import opened Messages
  import Utf8

  /** What a call can fail with: a refusal of the codec, or a dispatcher's own word. */
  datatype Fault = Wire(word: Word, offset: nat) | Dispatch(code: string) | Failed(code: string, message: string)
  datatype Outcome<+T> = Good(value: T) | Fail(fault: Fault)

  function Judged<T>(a: Answer<T>): Outcome<T> {
    match a case Given(v) => Good(v) case Refusal(w, o) => Fail(Wire(w, o))
  }

  // ---- envelopes ----

  /** The values of a frame and of a reply, around a body of whatever kind. */
  function FrameVal(service: string, name: string, body: Val): Val { Obj([Num(1), Str(service), Str(name), body]) }
  function ReplyVal(service: string, name: string, ok: bool, body: Val): Val { Obj([Num(1), Str(service), Str(name), Bool(ok), body]) }

  lemma EnvelopeTyped(service: string, name: string, ok: bool, k: Kind, body: Val)
    requires Typed(k, body)
    ensures Typed(FrameKind(k), FrameVal(service, name, body)) && Typed(ReplyKind(k), ReplyVal(service, name, ok, body))
  {
  }

  function FrameText(service: string, name: string, arguments: string): string {
    EnvelopeTyped(service, name, true, Raw, Str(arguments));
    Print(FrameKind(Raw), FrameVal(service, name, Str(arguments)), 0)
  }

  function ReplyText(service: string, name: string, ok: bool, payload: string): string {
    EnvelopeTyped(service, name, ok, Raw, Str(payload));
    Print(ReplyKind(Raw), ReplyVal(service, name, ok, Str(payload)), 0)
  }

  /** The bytes do not tell whether the body was printed in place or pasted in. */
  lemma Pasted(service: string, name: string, ok: bool, k: Kind, body: Val)
    requires Typed(k, body)
    ensures Typed(FrameKind(k), FrameVal(service, name, body)) && Typed(ReplyKind(k), ReplyVal(service, name, ok, body))
    ensures FrameText(service, name, Print(k, body, 1)) == Print(FrameKind(k), FrameVal(service, name, body), 0)
    ensures ReplyText(service, name, ok, Print(k, body, 1)) == Print(ReplyKind(k), ReplyVal(service, name, ok, body), 0)
  {
    EnvelopeTyped(service, name, ok, k, body);
    PastedFrame(service, name, k, body);
    PastedReply(service, name, ok, k, body);
  }

  lemma PastedFrame(service: string, name: string, k: Kind, body: Val)
    requires Typed(k, body) && Typed(FrameKind(k), FrameVal(service, name, body))
    ensures FrameText(service, name, Print(k, body, 1)) == Print(FrameKind(k), FrameVal(service, name, body), 0)
  {
    hide Typed, Quoted, Utf8.Valid, FieldLines, Pad;
    var text := Str(Print(k, body, 1));
    EnvelopeTyped(service, name, true, Raw, text);
    FieldsAgain(FrameKind(Raw), FrameVal(service, name, text), FrameKind(k), FrameVal(service, name, body), 1, 1);
  }

  lemma PastedReply(service: string, name: string, ok: bool, k: Kind, body: Val)
    requires Typed(k, body) && Typed(ReplyKind(k), ReplyVal(service, name, ok, body))
    ensures ReplyText(service, name, ok, Print(k, body, 1)) == Print(ReplyKind(k), ReplyVal(service, name, ok, body), 0)
  {
    hide Typed, Quoted, Utf8.Valid, FieldLines, Pad;
    var text := Str(Print(k, body, 1));
    EnvelopeTyped(service, name, ok, Raw, text);
    FieldsAgain(ReplyKind(Raw), ReplyVal(service, name, ok, text), ReplyKind(k), ReplyVal(service, name, ok, body), 1, 1);
  }

  /** Printed arguments are what the skipper walks, wherever they stand. */
  lemma PrintedCuts(k: Kind, v: Val, depth: nat, d: nat)
    requires k.Object? && Sendable(k, v, depth) && Clean(k, v)
    ensures CutsExactly(Print(k, v, d), depth)
  {
    hide Skip, Print, Typed, Clean, Sendable, WfKind;
    SendableIs(k, v, depth);
    var t := Print(k, v, d);
    ObjectText(k, v, d);
    forall buf: string, pos: nat | Here(buf, pos, t) && !Clings(At(buf, pos + |t|)) ensures Skip(buf, pos, depth) == Ok((), pos + |t|) {
      PrintedSkipped(k, v, buf, pos, depth, d);
    }
  }

  /** An envelope around a printed body: read back whole if every string in the body is UTF-8, and refused if one is not. */
  lemma Enclosed(e: Kind, raw: Val, t: Kind, full: Val)
    requires e.Object? && t.Object? && WfKind(e) && Typed(e, raw) && Sendable(t, full, 0)
    requires Print(e, raw, 0) == Print(t, full, 0)
    requires Clean(t, full) ==> Printed(e, raw, 0) && Norm(e, raw) == raw
    ensures if Clean(t, full) then Whole(e, Print(e, raw, 0), 0) == Given(raw) else Whole(e, Print(e, raw, 0), 0).Refusal?
  {
    hide *;
    SendableIs(t, full, 0);
    NewlineIsBlank();
    var text := Print(e, raw, 0);
    assert text + "" == text;
    if Clean(t, full) {
      WholePrinted(e, raw, 0, 0, "");
    } else {
      Alone(t, full, 0, "");
      PrintedSkipped(t, full, text, 0, 0, 0);
      WholeRefused(e, text, 0);
    }
  }

  lemma EnvelopeIsSteady()
    ensures Steady(FrameKind(Raw)) && Steady(ReplyKind(Raw))
  {
  }

  /** A body that can be sent. */
  ghost predicate Fitting(k: Kind, v: Val) { k.Object? && Plain(k, 8) && Sendable(k, v, 1) }

  lemma FrameClean(service: string, name: string, k: Kind, v: Val)
    requires Typed(FrameKind(k), FrameVal(service, name, v)) && Typed(k, v) && Utf8.Valid(service) && Utf8.Valid(name)
    ensures Clean(FrameKind(k), FrameVal(service, name, v)) <==> Clean(k, v)
  {
    hide Utf8.Valid, Typed;
    var e, f := FrameKind(k), FrameVal(service, name, v);
    if Clean(e, f) { assert Clean(e.s.fields[3].kind, f.fs[3]); }
  }

  lemma ReplyClean(service: string, name: string, ok: bool, k: Kind, v: Val)
    requires Typed(ReplyKind(k), ReplyVal(service, name, ok, v)) && Typed(k, v) && Utf8.Valid(service) && Utf8.Valid(name)
    ensures Clean(ReplyKind(k), ReplyVal(service, name, ok, v)) <==> Clean(k, v)
  {
    hide Utf8.Valid, Typed;
    var e, f := ReplyKind(k), ReplyVal(service, name, ok, v);
    if Clean(e, f) { assert Clean(e.s.fields[4].kind, f.fs[4]); }
  }

  lemma EnvelopeSendable(service: string, name: string, ok: bool, k: Kind, v: Val)
    requires Fitting(k, v) && Utf8.Valid(service) && Utf8.Valid(name)
    ensures Sendable(FrameKind(k), FrameVal(service, name, v), 0) && Sendable(ReplyKind(k), ReplyVal(service, name, ok, v), 0)
    ensures Clean(FrameKind(k), FrameVal(service, name, v)) <==> Clean(k, v)
    ensures Clean(ReplyKind(k), ReplyVal(service, name, ok, v)) <==> Clean(k, v)
  {
    hide Utf8.Valid, Clean, WfKind, NoRaw, Height, FrameKind, ReplyKind;
    EnvelopeTable(k, 8);
    EnvelopeTyped(service, name, ok, k, v);
    EnvelopeBlocked(service, name, ok, k, v);
    FrameClean(service, name, k, v);
    ReplyClean(service, name, ok, k, v);
  }

  lemma EnvelopeBlocked(service: string, name: string, ok: bool, k: Kind, v: Val)
    requires Typed(k, v) && Blocked(k, v) == []
    requires Typed(FrameKind(k), FrameVal(service, name, v)) && Typed(ReplyKind(k), ReplyVal(service, name, ok, v))
    ensures Blocked(FrameKind(k), FrameVal(service, name, v)) == [] && Blocked(ReplyKind(k), ReplyVal(service, name, ok, v)) == []
  {
    hide Typed, Blocked;
    var e, f := FrameKind(k), FrameVal(service, name, v);
    FieldsTyped(e, f);
    forall i | 0 <= i < 3 ensures Blocked(e.s.fields[i].kind, f.fs[i]) == [] { LeafBlocked(e.s.fields[i].kind, f.fs[i]); }
    FieldsBlocked(e, f);
    var g, h := ReplyKind(k), ReplyVal(service, name, ok, v);
    FieldsTyped(g, h);
    forall i | 0 <= i < 4 ensures Blocked(g.s.fields[i].kind, h.fs[i]) == [] { LeafBlocked(g.s.fields[i].kind, h.fs[i]); }
    FieldsBlocked(g, h);
  }

  lemma FieldsTyped(k: Kind, v: Val)
    requires k.Object? && Typed(k, v)
    ensures v.Obj? && |v.fs| == |k.s.fields| && forall i :: 0 <= i < |v.fs| ==> Typed(k.s.fields[i].kind, v.fs[i])
  {
  }

  lemma LeafBlocked(k: Kind, v: Val)
    requires Typed(k, v) && !k.Time? && !k.Many? && !k.Object?
    ensures Blocked(k, v) == []
  {
  }

  lemma FieldsBlocked(k: Kind, v: Val)
    requires k.Object? && Typed(k, v) && k.s.rule.Free?
    requires forall i :: 0 <= i < |v.fs| ==> Blocked(k.s.fields[i].kind, v.fs[i]) == []
    ensures Blocked(k, v) == []
  {
    BlockedFromNone(k, v, 0);
  }

  lemma EnvelopeFits(service: string, name: string, ok: bool, text: string)
    requires CutsExactly(text, 1)
    requires Typed(FrameKind(Raw), FrameVal(service, name, Str(text))) && Typed(ReplyKind(Raw), ReplyVal(service, name, ok, Str(text)))
    ensures Fits(FrameKind(Raw), FrameVal(service, name, Str(text)), 0) && Fits(ReplyKind(Raw), ReplyVal(service, name, ok, Str(text)), 0)
  {
    hide CutsExactly, Typed;
  }

  lemma EnvelopePrinted(service: string, name: string, ok: bool, text: string)
    requires Utf8.Valid(service) && Utf8.Valid(name) && CutsExactly(text, 1)
    ensures Printed(FrameKind(Raw), FrameVal(service, name, Str(text)), 0)
    ensures Printed(ReplyKind(Raw), ReplyVal(service, name, ok, Str(text)), 0)
  {
    hide Utf8.Valid, Typed, Fits, Blocked, WfKind, Height, Steady, CutsExactly, Clean;
    RawEnvelope();
    RawHeights();
    RawIsClean(text);
    EnvelopeIsSteady();
    EnvelopeTyped(service, name, ok, Raw, Str(text));
    EnvelopeFits(service, name, ok, text);
    FrameClean(service, name, Raw, Str(text));
    ReplyClean(service, name, ok, Raw, Str(text));
    SteadyStays(FrameKind(Raw), FrameVal(service, name, Str(text)));
    SteadyStays(ReplyKind(Raw), ReplyVal(service, name, ok, Str(text)));
  }

  lemma RawIsClean(text: string)
    ensures Typed(Raw, Str(text)) && Clean(Raw, Str(text))
  {
  }

  lemma RawHeights()
    ensures Height(FrameKind(Raw)) == 1 && Height(ReplyKind(Raw)) == 1
  {
  }

  /** What arrives when a body is pasted into an envelope: the envelope, its body cut to the byte, and
      the body's value decoded from there; or, if one string is not UTF-8, nothing. */
  lemma EnvelopeExactly(service: string, name: string, ok: bool, k: Kind, v: Val)
    requires Fitting(k, v) && Utf8.Valid(service) && Utf8.Valid(name)
    ensures WfKind(FrameKind(Raw)) && WfKind(ReplyKind(Raw)) && WfKind(k) && Typed(k, v)
    ensures var text := Print(k, v, 1);
      if Clean(k, v) then
        && Whole(FrameKind(Raw), FrameText(service, name, text), 0) == Given(FrameVal(service, name, Str(text)))
        && Whole(ReplyKind(Raw), ReplyText(service, name, ok, text), 0) == Given(ReplyVal(service, name, ok, Str(text)))
        && Whole(k, text, 1) == Given(Norm(k, v))
      else
        && Whole(FrameKind(Raw), FrameText(service, name, text), 0).Refusal?
        && Whole(ReplyKind(Raw), ReplyText(service, name, ok, text), 0).Refusal?
        && Whole(k, text, 1).Refusal?
  {
    hide *;
    RawEnvelope();
    FittingIs(k, v);
    var text := Print(k, v, 1);
    EnvelopeSendable(service, name, ok, k, v);
    Pasted(service, name, ok, k, v);
    EnvelopeTyped(service, name, ok, Raw, Str(text));
    TextsAre(service, name, ok, text);
    EnvelopeIsSteady();
    SteadyStays(FrameKind(Raw), FrameVal(service, name, Str(text)));
    SteadyStays(ReplyKind(Raw), ReplyVal(service, name, ok, Str(text)));
    if Clean(k, v) {
      PrintedCuts(k, v, 1, 1);
      EnvelopePrinted(service, name, ok, text);
    }
    Enclosed(FrameKind(Raw), FrameVal(service, name, Str(text)), FrameKind(k), FrameVal(service, name, v));
    Enclosed(ReplyKind(Raw), ReplyVal(service, name, ok, Str(text)), ReplyKind(k), ReplyVal(service, name, ok, v));
    NewlineIsBlank();
    assert text + "" == text;
    WholeExactly(k, v, 1, 1, "");
  }

  lemma FittingIs(k: Kind, v: Val)
    requires Fitting(k, v)
    ensures k.Object? && WfKind(k) && Typed(k, v) && Sendable(k, v, 1)
  {
  }

  lemma TextsAre(service: string, name: string, ok: bool, text: string)
    ensures FrameKind(Raw).Object? && ReplyKind(Raw).Object? && forall k :: FrameKind(k).Object? && ReplyKind(k).Object?
    ensures Typed(FrameKind(Raw), FrameVal(service, name, Str(text))) && Typed(ReplyKind(Raw), ReplyVal(service, name, ok, Str(text)))
    ensures FrameText(service, name, text) == Print(FrameKind(Raw), FrameVal(service, name, Str(text)), 0)
    ensures ReplyText(service, name, ok, text) == Print(ReplyKind(Raw), ReplyVal(service, name, ok, Str(text)), 0)
  {
    EnvelopeTyped(service, name, ok, Raw, Str(text));
  }
}
