/** What a text must hold to be a record, a page, a frame or a reply: the members each decoder takes and demands,
    by name, and what it answers to a frame that is not for it. */
module Demands {
  import opened Decimal
  import opened Timestamp
  import opened Lexer
  import opened Schema
  import opened Parser
  import opened Tokens
  import opened Grammar
  import opened Objects
  import opened Structs
  import opened Readers
  import opened Records
  import opened Messages
  import opened Envelope
  import opened Service
  import opened Exchange

  // ---- a list of fields against the members of a text ----

  predicate Takes(f: Field, buf: string, depth: nat, x: Span, v: Val) {
    WfKind(f.kind) && x.from <= |buf| && Parse(f.kind, buf, x.from, depth) == Ok(v, x.to)
  }

  ghost predicate Listed(fields: seq<Field>, key: string) { exists j :: 0 <= j < |fields| && fields[j].name == key }

  /** The member's field takes its value; a member of another name is skipped whole, or not wanted. */
  ghost predicate Wants(fields: seq<Field>, grant: bool, buf: string, depth: nat, m: Entry) {
    if Listed(fields, m.key) then exists j, v :: 0 <= j < |fields| && fields[j].name == m.key && Takes(fields[j], buf, depth, m.value, v)
    else grant && m.value.from <= |buf| && Skip(buf, m.value.from, depth) == Ok((), m.value.to)
  }

  /** Every member is wanted, and none of the fields' names stands twice. */
  ghost predicate Wanted(fields: seq<Field>, grant: bool, buf: string, depth: nat, es: seq<Entry>) {
    && (forall i :: 0 <= i < |es| ==> Wants(fields, grant, buf, depth, es[i]))
    && (forall i, j :: 0 <= i < j < |es| && es[i].key == es[j].key ==> !Listed(fields, es[i].key))
  }

  /** Each field has its member's value; one that is not required may be absent, and is then its kind's zero. */
  ghost predicate Gives(fields: seq<Field>, buf: string, depth: nat, es: seq<Entry>, fs: seq<Val>) {
    |fs| == |fields| && forall j :: 0 <= j < |fields| ==> GivesOne(fields[j], buf, depth, es, fs[j])
  }

  ghost predicate GivesOne(f: Field, buf: string, depth: nat, es: seq<Entry>, v: Val) {
    if HasKey(es, f.name) then forall i :: 0 <= i < |es| && es[i].key == f.name ==> Takes(f, buf, depth, es[i].value, v)
    else !f.required && v == Zero(f.kind)
  }

  lemma ListedIs(s: Struct, key: string)
    requires WfStruct(s)
    ensures Listed(s.fields, key) <==> IndexOf(s.fields, key) < |s.fields|
    ensures forall j :: 0 <= j < |s.fields| && s.fields[j].name == key ==> IndexOf(s.fields, key) == j
  {
    hide IndexOf;
    IndexExactly(s, key, 0);
    forall j | 0 <= j < |s.fields| && s.fields[j].name == key ensures IndexOf(s.fields, key) == j { IndexExactly(s, key, j); }
    if Knows(s, key) {
      var j: nat :| Names(s, j, key);
    }
  }

  lemma WantsIs(s: Struct, buf: string, depth: nat, m: Entry)
    requires WfStruct(s)
    ensures Right(s, buf, depth, m) <==> Wants(s.fields, s.grant, buf, depth, m)
  {
    hide IndexOf, Parse, Skip, WfKind, Listed;
    ListedIs(s, m.key);
    var j := IndexOf(s.fields, m.key);
    if j < |s.fields| {
      FieldsAreWf(s, j);
      if Right(s, buf, depth, m) {
        assert Takes(s.fields[j], buf, depth, m.value, Parse(s.fields[j].kind, buf, m.value.from, depth).value);
      }
    }
  }

  lemma WantedIs(s: Struct, buf: string, depth: nat, es: seq<Entry>)
    requires WfStruct(s)
    ensures AllRight(s, buf, depth, es) <==> Wanted(s.fields, s.grant, buf, depth, es)
  {
    hide IndexOf, Right, Wants, Listed;
    forall m ensures Right(s, buf, depth, m) <==> Wants(s.fields, s.grant, buf, depth, m) { WantsIs(s, buf, depth, m); }
    forall key ensures Listed(s.fields, key) <==> IndexOf(s.fields, key) < |s.fields| { ListedIs(s, key); }
  }

  lemma GivesIs(s: Struct, buf: string, depth: nat, es: seq<Entry>, fs: seq<Val>)
    requires WfStruct(s)
    ensures Complete(s, es) && FieldsAre(s, buf, depth, es, fs) <==> Gives(s.fields, buf, depth, es, fs)
  {
    hide Parse, HasKey;
    if |fs| == |s.fields| {
      forall j | 0 <= j < |s.fields|
        ensures GivesOne(s.fields[j], buf, depth, es, fs[j]) <==>
          (s.fields[j].required ==> HasKey(es, s.fields[j].name)) && FieldIs(s, buf, depth, es, j, fs[j])
      {
        GivesOneIs(s, buf, depth, es, j, fs[j]);
      }
    }
  }

  lemma GivesOneIs(s: Struct, buf: string, depth: nat, es: seq<Entry>, j: nat, v: Val)
    requires WfStruct(s) && j < |s.fields|
    ensures GivesOne(s.fields[j], buf, depth, es, v) <==>
      (s.fields[j].required ==> HasKey(es, s.fields[j].name)) && FieldIs(s, buf, depth, es, j, v)
  {
    hide Parse, WfKind;
    FieldsAreWf(s, j);
    var f := s.fields[j];
    assert forall m :: MemberValue(s, buf, depth, m, j, v) <==> Takes(f, buf, depth, m.value, v);
  }

  /** The whole text, blanks around it. */
  ghost predicate Holds(fields: seq<Field>, grant: bool, text: string, depth: nat, a: nat, b: nat, es: seq<Entry>) {
    && Gap(text, 0, a) && Grammar.ObjectText(text, a, b, es) && Gap(text, b, |text|) && Wanted(fields, grant, text, depth + 1, es)
  }

  /** The text is an object of wanted members, and these are its fields. */
  ghost predicate Spells(fields: seq<Field>, grant: bool, text: string, depth: nat, fs: seq<Val>) {
    exists a, b, es :: Holds(fields, grant, text, depth, a, b, es) && Gives(fields, text, depth + 1, es, fs)
  }

  lemma ObjectStarts(buf: string, a: nat, b: nat, es: seq<Entry>)
    requires Grammar.ObjectText(buf, a, b, es)
    ensures a < b <= |buf| && Solid(buf, a)
  {
    hide Members, Gap;
  }

  lemma GapToEnd(text: string, b: nat)
    requires b <= |text|
    ensures Ws(text, b) <= |text| && (Gap(text, b, |text|) <==> Ws(text, b) == |text|)
  {
    WsExactly(text, b, |text|);
    WsIsGap(text, b);
  }

  lemma WholeIs(k: Kind, text: string, depth: nat, a: nat, v: Val)
    requires WfKind(k) && Ws(text, 0) == a
    ensures a <= |text|
    ensures var r := Parse(k, text, a, depth); Whole(k, text, depth) == Given(v) <==> r.Ok? && r.value == v && Gap(text, r.pos, |text|)
    ensures Parse(k, text, a, depth).Refused? ==> Whole(k, text, depth) == Refusal(Parse(k, text, a, depth).word, Parse(k, text, a, depth).at)
  {
    hide Parse, WfKind, Gap, Ws, Sound;
    var r := Parse(k, text, a, depth);
    if r.Ok? { GapToEnd(text, r.pos); }
  }

  /** A text decodes exactly if it is an object whose members are wanted, that has every required field and keeps
      the rule about the first; and the value is its members'. */
  lemma WholeExactly(s: Struct, text: string, depth: nat, fs: seq<Val>)
    requires WfStruct(s)
    ensures Whole(Object(s), text, depth) == Given(Obj(fs)) <==>
      depth < 64 && fs != [] && RuleKept(s.rule, fs[0]) && Spells(s.fields, s.grant, text, depth, fs)
  {
    hide Gives, FieldsAre, Complete, RuleKept, Parse, Gap, Grammar.ObjectText, Wanted, AllRight, Ws, WfKind, Whole;
    var a0 := Ws(text, 0);
    WsIsGap(text, 0);
    WholeIs(Object(s), text, depth, a0, Obj(fs));
    if Whole(Object(s), text, depth) == Given(Obj(fs)) {
      var b := Parse(Object(s), text, a0, depth).pos;
      ObjectExactly(s, text, a0, b, depth, fs);
      var es :| Accepts(s, text, a0, b, depth, es, fs);
      WantedIs(s, text, depth + 1, es);
      GivesIs(s, text, depth + 1, es, fs);
      assert Holds(s.fields, s.grant, text, depth, a0, b, es);
    }
    forall a, b, es | depth < 64 && Holds(s.fields, s.grant, text, depth, a, b, es) && Gives(s.fields, text, depth + 1, es, fs)
        && fs != [] && RuleKept(s.rule, fs[0])
      ensures Whole(Object(s), text, depth) == Given(Obj(fs))
    {
      ObjectStarts(text, a, b, es);
      WsThere(text, 0, a);
      WantedIs(s, text, depth + 1, es);
      GivesIs(s, text, depth + 1, es, fs);
      assert Accepts(s, text, a, b, depth, es, fs);
      ObjectExactly(s, text, a, b, depth, fs);
    }
  }

  /** With all its members wanted and a required one absent it is refused at its end for that. */
  lemma WholeLacking(s: Struct, text: string, depth: nat, a: nat, b: nat, es: seq<Entry>, j: nat)
    requires WfStruct(s) && depth < 64 && Holds(s.fields, s.grant, text, depth, a, b, es)
    requires j < |s.fields| && s.fields[j].required && !HasKey(es, s.fields[j].name)
    ensures Whole(Object(s), text, depth) == Refusal(MissingField, b)
  {
    hide Parse, Gap, Grammar.ObjectText, Wanted, AllRight, Ws, WfKind, Whole, HasKey;
    ObjectStarts(text, a, b, es);
    WsThere(text, 0, a);
    WantedIs(s, text, depth + 1, es);
    WholeIs(Object(s), text, depth, a, Obj([]));
    ObjectJudged(s, text, a, b, depth, es);
  }

  /** An object that breaks the rule about its first field is refused at its end for that. */
  lemma WholeUnruly(s: Struct, text: string, depth: nat, a: nat, b: nat, es: seq<Entry>, fs: seq<Val>)
    requires WfStruct(s) && depth < 64 && Holds(s.fields, s.grant, text, depth, a, b, es) && Gives(s.fields, text, depth + 1, es, fs)
    requires fs != [] && !RuleKept(s.rule, fs[0])
    ensures Whole(Object(s), text, depth) == Refusal(if s.rule.Equals? then BadSchema else BadEnum, b)
  {
    hide Parse, Gap, Grammar.ObjectText, Wanted, AllRight, Ws, WfKind, Whole, Gives, FieldsAre, Complete, RuleKept;
    ObjectStarts(text, a, b, es);
    WsThere(text, 0, a);
    WantedIs(s, text, depth + 1, es);
    GivesIs(s, text, depth + 1, es, fs);
    WholeIs(Object(s), text, depth, a, Obj([]));
    ObjectJudged(s, text, a, b, depth, es);
    var gs :| FieldsAre(s, text, depth + 1, es, gs) && Parse(Object(s), text, a, depth) == Judgement(s, gs, b);
    FieldsOnce(s, text, depth + 1, es, fs, gs);
    RuleBroken(s, fs, b);
  }

  lemma RuleBroken(s: Struct, fs: seq<Val>, b: nat)
    requires fs != [] && !RuleKept(s.rule, fs[0])
    ensures Judgement(s, fs, b) == Refused(if s.rule.Equals? then BadSchema else BadEnum, b)
  {
  }

  // ---- the tables, name by name ----

  function Word64(): Kind { Int(-0x8000_0000_0000_0000, 0x7FFF_FFFF_FFFF_FFFF) }
  function Word32(): Kind { Int(-0x8000_0000, 0x7FFF_FFFF) }

  function AttestationFields(): seq<Field> {
    [Field("by", Text, true), Field("verified", Flag, true), Field("hop", Word64(), true), Field("program", Text, false),
     Field("host", Text, false), Field("user", Text, false), Field("exe", Text, false), Field("uid", Word64(), true),
     Field("gid", Word64(), true), Field("pid", Word64(), true), Field("key", Text, false), Field("mac", Text, false)]
  }

  function RecordFields(): seq<Field> {
    [Field("schema", Word64(), true), Field("time", Time, true), Field("level", Word64(), true), Field("msg", Text, true),
     Field("identity", Many(Object(Struct(AttestationFields(), true, Free))), false), Field("job", Text, false), Field("attrs", Pairs, false)]
  }

  function PageFields(): seq<Field> {
    [Field("outcome", Text, true), Field("records", Many(Object(Struct(RecordFields(), true, Equals(1)))), true),
     Field("next", Text, true), Field("at_end", Flag, true)]
  }

  function FrameFields(): seq<Field> {
    [Field("version", Word32(), true), Field("service", Text, true), Field("method", Text, true), Field("arguments", Raw, true)]
  }

  function ReplyFieldsOf(): seq<Field> {
    [Field("version", Word32(), true), Field("service", Text, true), Field("method", Text, true), Field("ok", Flag, true),
     Field("payload", Raw, true)]
  }

  const OUTCOMES: seq<string> := ["page", "gap", "unavailable", "invalid_request", "record_too_large", "corrupt", "unsupported"]

  lemma RecordTableIs()
    ensures RecordKind() == Object(Struct(RecordFields(), true, Equals(1))) && WfKind(RecordKind())
    ensures AttestationKind() == Object(Struct(AttestationFields(), true, Free)) && WfKind(AttestationKind())
  {
    hide WfKind;
    RecordTable();
    AttestationTable();
  }

  lemma PageTableIs()
    ensures ReadResult() == Object(Struct([Field("value", Object(Struct(PageFields(), false, OneOf(OUTCOMES))), true)], false, Free))
    ensures PageKind() == Object(Struct(PageFields(), false, OneOf(OUTCOMES)))
    ensures WfKind(ReadResult())
  {
    hide WfKind, RecordKind;
    RecordTableIs();
    SaneIs();
  }

  lemma ArgumentTableIs()
    ensures WriteArguments() == Object(Struct([Field("record", Object(Struct(RecordFields(), true, Equals(1))), true)], false, Free))
    ensures ReadArguments() ==
      Object(Struct([Field("cursor", Text, true), Field("max_records", Word64(), true), Field("max_bytes", Word64(), true)], false, Free))
    ensures WfKind(WriteArguments()) && WfKind(ReadArguments())
  {
    hide WfKind, RecordKind;
    RecordTableIs();
    SaneIs();
  }

  lemma EnvelopeTableIs()
    ensures FrameKind(Raw) == Object(Struct(FrameFields(), false, Free)) && WfKind(FrameKind(Raw))
    ensures ReplyKind(Raw) == Object(Struct(ReplyFieldsOf(), false, Free)) && WfKind(ReplyKind(Raw))
    ensures ErrorKind() == Object(Struct([Field("code", Text, true), Field("message", Text, true)], false, Free)) && WfKind(ErrorKind())
  {
    hide WfKind;
    RawEnvelope();
    ErrorTable();
  }

  // ---- records ----

  function FieldsOf(r: Record): seq<Val> {
    [Num(r.schema as int), Str(r.time), Num(r.level as int), Str(r.msg), List(AttestationVals(r.identity)), Str(r.job), Map(r.attrs)]
  }

  /** A text decodes to a record exactly if it is an object of its members: schema, time, level and msg, each once,
      and identity, job and attrs at most once, other names skipped; the schema 1. */
  lemma DecodeExactly(text: string, r: Record)
    ensures Decode(text) == Given(r) <==> r.schema == 1 && Spells(RecordFields(), true, text, 0, FieldsOf(r))
  {
    hide Whole, Spells, RecordKind, RecordFields, AttestationVals, WfKind, Typed, Sound;
    RecordTableIs();
    RecordLayout(r);
    var s := Struct(RecordFields(), true, Equals(1));
    WholeExactly(s, text, 0, FieldsOf(r));
    DecodedIs(text, r);
  }

  lemma DecodedIs(text: string, r: Record)
    ensures WfKind(RecordKind())
    ensures Decode(text) == Given(r) <==> Whole(RecordKind(), text, 0) == Given(RecordVal(r))
  {
    hide Whole, RecordKind, RecordVal, WfKind, Typed, Sound;
    RecordTableIs();
    match Whole(RecordKind(), text, 0)
    case Given(v) => if v == RecordVal(r) { OneRecord(RecordOf(v), r); }
    case Refusal(_, _) =>
  }

  /** A text right in everything else is refused at the object's end if one of the four is absent, and if the
      schema is another. */
  lemma DecodeLacking(text: string, a: nat, b: nat, es: seq<Entry>)
    requires Holds(RecordFields(), true, text, 0, a, b, es)
    ensures !HasKey(es, "schema") || !HasKey(es, "time") || !HasKey(es, "level") || !HasKey(es, "msg") ==> Decode(text) == Refusal(MissingField, b)
    ensures forall fs :: Gives(RecordFields(), text, 1, es, fs) && fs != [] && fs[0] != Num(1) ==> Decode(text) == Refusal(BadSchema, b)
  {
    hide Whole, Holds, Gives, RecordKind, HasKey, WfKind, Typed, Sound;
    RecordTableIs();
    var s := Struct(RecordFields(), true, Equals(1));
    if !HasKey(es, "schema") { WholeLacking(s, text, 0, a, b, es, 0); }
    if !HasKey(es, "time") { WholeLacking(s, text, 0, a, b, es, 1); }
    if !HasKey(es, "level") { WholeLacking(s, text, 0, a, b, es, 2); }
    if !HasKey(es, "msg") { WholeLacking(s, text, 0, a, b, es, 3); }
    forall fs | Gives(RecordFields(), text, 1, es, fs) && fs != [] && fs[0] != Num(1) ensures Decode(text) == Refusal(BadSchema, b) {
      WholeUnruly(s, text, 0, a, b, es, fs);
    }
  }

  // ---- frames ----

  /** What the reader of a frame asks of it: four members and no others, the arguments any value at all. */
  ghost predicate FrameSpells(frame: string, version: int, service: string, name: string, arguments: string) {
    Spells(FrameFields(), false, frame, 0, [Num(version), Str(service), Str(name), Str(arguments)])
  }

  lemma FrameRead(frame: string, version: int, service: string, name: string, arguments: string)
    ensures WfKind(FrameKind(Raw))
    ensures FrameSpells(frame, version, service, name, arguments) <==>
      Whole(FrameKind(Raw), frame, 0) == Given(Obj([Num(version), Str(service), Str(name), Str(arguments)]))
  {
    hide Whole, Spells, FrameKind, WfKind, Sound;
    EnvelopeTableIs();
    WholeExactly(Struct(FrameFields(), false, Free), frame, 0, [Num(version), Str(service), Str(name), Str(arguments)]);
  }

  /** A frame is opened exactly if it is spelled so and its version is 1. */
  lemma FrameExactly(frame: string, service: string, name: string, arguments: string)
    ensures ServicePayload(frame) == Good([Num(1), Str(service), Str(name), Str(arguments)]) <==> FrameSpells(frame, 1, service, name, arguments)
  {
    hide Whole, FrameSpells, FrameKind, WfKind, Sound, Typed;
    FrameRead(frame, 1, service, name, arguments);
    match Whole(FrameKind(Raw), frame, 0)
    case Given(v) => FrameFields4(v);
    case Refusal(_, _) =>
  }

  lemma FrameFields4(v: Val)
    requires Typed(FrameKind(Raw), v)
    ensures v.Obj? && |v.fs| == 4
  {
    Service.FrameFields(v);
  }

  /** A frame of another version, for another service or another method is refused for that, in this order, and
      no record comes of it, so no handler is called; otherwise its arguments decide. */
  lemma FrameJudged(frame: string, version: int, service: string, name: string, arguments: string)
    requires FrameSpells(frame, version, service, name, arguments)
    ensures Received(frame) == if version != 1 then Fail(Dispatch("unknown_version"))
      else if service != "abstraction.logging/sink@1" then Fail(Dispatch("unknown_service"))
      else if name != "Write" then Fail(Dispatch("unknown_method"))
      else RecordArgument(arguments)
  {
    hide Whole, FrameSpells, FrameKind, WfKind, Sound, Typed, WriteArguments, WriteOf;
    SaneIs();
    FrameRead(frame, version, service, name, arguments);
  }

  function RecordArgument(arguments: string): Outcome<Record> {
    hide Whole, WfKind, Sound, Typed, WriteArguments;
    SaneIs();
    match Whole(WriteArguments(), arguments, 1)
    case Given(v) => Good(WriteOf(v))
    case Refusal(w, o) => Fail(Wire(w, o))
  }

  /** The arguments of a write: one member, the record, two levels down. */
  lemma ArgumentExactly(arguments: string, r: Record)
    ensures RecordArgument(arguments) == Good(r) <==>
      Spells([Field("record", Object(Struct(RecordFields(), true, Equals(1))), true)], false, arguments, 1, [RecordVal(r)])
  {
    hide Whole, Spells, WfKind, Sound, Typed, WriteArguments, RecordVal, RecordFields;
    ArgumentTableIs();
    var fields := [Field("record", Object(Struct(RecordFields(), true, Equals(1))), true)];
    WholeExactly(Struct(fields, false, Free), arguments, 1, [RecordVal(r)]);
    match Whole(WriteArguments(), arguments, 1)
    case Given(v) => if v == WriteVal(r) { OneWrite(WriteOf(v), r); }
    case Refusal(_, _) =>
  }

  /** A reader's dispatcher refuses the same way, without asking its provider, whatever that is: another version
      has no reply, another service or method an error reply. */
  lemma ExchangeJudged(h: Provider, frame: string, version: int, service: string, name: string, arguments: string)
    requires FrameSpells(frame, version, service, name, arguments)
    ensures version != 1 ==> Exchanged(h, frame) == Fail(Dispatch("unknown_version"))
    ensures version == 1 && service != "abstraction.logging/reader@1" ==>
      Exchanged(h, frame) == Replied(service, name, Fail(Dispatch("unknown_service")))
    ensures version == 1 && service == "abstraction.logging/reader@1" && name != "Read" ==>
      Exchanged(h, frame) == Replied(service, name, Fail(Dispatch("unknown_method")))
  {
    hide Whole, FrameSpells, FrameKind, WfKind, Sound, Typed, ReadArguments, Replied, Payload, Asked;
    SaneIs();
    FrameRead(frame, version, service, name, arguments);
  }

  // ---- replies ----

  ghost predicate ReplySpells(frame: string, version: int, service: string, name: string, ok: bool, payload: string) {
    Spells(ReplyFieldsOf(), false, frame, 0, [Num(version), Str(service), Str(name), Bool(ok), Str(payload)])
  }

  ghost predicate ErrorSpells(payload: string, code: string, message: string) {
    Spells([Field("code", Text, true), Field("message", Text, true)], false, payload, 1, [Str(code), Str(message)])
  }

  lemma ReplyRead(frame: string, version: int, service: string, name: string, ok: bool, payload: string)
    ensures WfKind(ReplyKind(Raw))
    ensures ReplySpells(frame, version, service, name, ok, payload) <==>
      Whole(ReplyKind(Raw), frame, 0) == Given(Obj([Num(version), Str(service), Str(name), Bool(ok), Str(payload)]))
  {
    hide Whole, Spells, ReplyKind, WfKind, Sound;
    EnvelopeTableIs();
    WholeExactly(Struct(ReplyFieldsOf(), false, Free), frame, 0, [Num(version), Str(service), Str(name), Bool(ok), Str(payload)]);
  }

  lemma ErrorRead(payload: string, code: string, message: string)
    ensures WfKind(ErrorKind())
    ensures ErrorSpells(payload, code, message) <==> Whole(ErrorKind(), payload, 1) == Given(Obj([Str(code), Str(message)]))
  {
    hide Whole, Spells, ErrorKind, WfKind, Sound;
    EnvelopeTableIs();
    WholeExactly(Struct([Field("code", Text, true), Field("message", Text, true)], false, Free), payload, 1, [Str(code), Str(message)]);
  }

  /** A client takes a reply of its own version, service and method alone; one that is well gives its payload, one
      that is not its error's code and message, and an error without a code is none. */
  lemma ReplyJudged(frame: string, version: int, service: string, name: string, ok: bool, payload: string, of: string, asked: string)
    requires ReplySpells(frame, version, service, name, ok, payload)
    ensures version != 1 ==> Response(frame, of, asked) == Fail(Dispatch("unknown_version"))
    ensures version == 1 && (service != of || name != asked) ==> Response(frame, of, asked) == Fail(Dispatch("mismatched_response"))
    ensures version == 1 && service == of && name == asked && ok ==> Response(frame, of, asked) == Good(payload)
    ensures version == 1 && service == of && name == asked && !ok ==>
      forall code, message :: ErrorSpells(payload, code, message) ==>
        Response(frame, of, asked) == if code == "" then Fail(Dispatch("invalid_error")) else Fail(Failed(code, message))
  {
    hide Whole, ReplySpells, ErrorSpells, ReplyKind, ErrorKind, WfKind, Sound, Typed;
    EnvelopeTableIs();
    ReplyRead(frame, version, service, name, ok, payload);
    forall code, message | ErrorSpells(payload, code, message)
      ensures Whole(ErrorKind(), payload, 1) == Given(Obj([Str(code), Str(message)]))
    {
      ErrorRead(payload, code, message);
    }
  }

  // ---- pages ----

  /** A result decodes to a page exactly if it holds one value, an object of a page's four members and no others,
      its outcome one of the seven. */
  lemma ResultExactly(payload: string, p: Page)
    ensures WfKind(ReadResult())
    ensures Whole(ReadResult(), payload, 1) == Given(ResultVal(p)) <==>
      Spells([Field("value", Object(Struct(PageFields(), false, OneOf(OUTCOMES))), true)], false, payload, 1, [PageVal(p)])
  {
    hide Whole, Spells, ReadResult, WfKind, Sound, Typed, PageVal, PageFields;
    PageTableIs();
    WholeExactly(Struct([Field("value", Object(Struct(PageFields(), false, OneOf(OUTCOMES))), true)], false, Free), payload, 1, [PageVal(p)]);
  }

  /** The arguments of a read. */
  lemma RequestExactly(arguments: string, cursor: string, maxRecords: int64, maxBytes: int64)
    ensures WfKind(ReadArguments())
    ensures Whole(ReadArguments(), arguments, 1) == Given(ReadVal(cursor, maxRecords, maxBytes)) <==>
      Spells([Field("cursor", Text, true), Field("max_records", Word64(), true), Field("max_bytes", Word64(), true)], false, arguments, 1,
        [Str(cursor), Num(maxRecords as int), Num(maxBytes as int)])
  {
    hide Whole, Spells, ReadArguments, WfKind, Sound, Typed;
    ArgumentTableIs();
    var fields := [Field("cursor", Text, true), Field("max_records", Word64(), true), Field("max_bytes", Word64(), true)];
    WholeExactly(Struct(fields, false, Free), arguments, 1, [Str(cursor), Num(maxRecords as int), Num(maxBytes as int)]);
  }
}
