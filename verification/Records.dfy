/** The messages of the logging definition: their tables, their values, and what is on the wire. */
module Records {
  import opened Decimal
  import opened Timestamp
  import opened Schema
  import opened RoundTrip
  import opened Readers
  import Utf8

  datatype Attestation = Attestation(attester: string, verified: bool, hop: int64, program: string, host: string, user: string,
    exe: string, uid: int64, gid: int64, pid: int64, key: string, mac: string)
  datatype Record = Record(schema: int64, time: string, level: int64, msg: string, identity: seq<Attestation>, job: string,
    attrs: map<string, string>)
  datatype Page = Page(outcome: string, records: seq<Record>, next: string, atEnd: bool)

  // ---- tables ----

  function Need(name: string, kind: Kind): Field { Field(name, kind, true) }
  function May(name: string, kind: Kind): Field { Field(name, kind, false) }
  function I64(): Kind { Int(MIN_I64, MAX_I64) }
  function I32(): Kind { Int(-0x8000_0000, 0x7FFF_FFFF) }

  function AttestationKind(): Kind {
    Object(Struct([Need("by", Text), Need("verified", Flag), Need("hop", I64()), May("program", Text), May("host", Text),
      May("user", Text), May("exe", Text), Need("uid", I64()), Need("gid", I64()), Need("pid", I64()),
      May("key", Text), May("mac", Text)], true, Free))
  }

  function RecordKind(): Kind {
    Object(Struct([Need("schema", I64()), Need("time", Time), Need("level", I64()), Need("msg", Text),
      May("identity", Many(AttestationKind())), May("job", Text), May("attrs", Pairs)], true, Equals(1)))
  }

  function Outcomes(): seq<string> {
    ["page", "gap", "unavailable", "invalid_request", "record_too_large", "corrupt", "unsupported"]
  }

  function PageKind(): Kind {
    Object(Struct([Need("outcome", Text), Need("records", Many(RecordKind())), Need("next", Text), Need("at_end", Flag)],
      false, OneOf(Outcomes())))
  }

  function WriteArguments(): Kind { Object(Struct([Need("record", RecordKind())], false, Free)) }

  function ReadArguments(): Kind {
    Object(Struct([Need("cursor", Text), Need("max_records", I64()), Need("max_bytes", I64())], false, Free))
  }

  function ReadResult(): Kind { Object(Struct([Need("value", PageKind())], false, Free)) }

  /** A service frame; its arguments are opaque to the reader of the frame. */
  function FrameKind(arguments: Kind): Kind {
    Object(Struct([Need("version", I32()), Need("service", Text), Need("method", Text), Need("arguments", arguments)], false, Free))
  }

  function ReplyKind(payload: Kind): Kind {
    Object(Struct([Need("version", I32()), Need("service", Text), Need("method", Text), Need("ok", Flag), Need("payload", payload)],
      false, Free))
  }

  // ---- the tables are ones the codec handles ----

  /** Nothing opaque, nothing too deep. */
  predicate Plain(k: Kind, h: nat) { WfKind(k) && NoRaw(k) && Height(k) <= h }

  predicate PlainField(f: Field, h: nat) {
    Plain(f.kind, h) && (f.required || Optional(f.kind)) && Utf8.Valid(f.name)
  }

  lemma FieldIsPlain(f: Field, h: nat)
    requires Plain(f.kind, h) && (f.required || Optional(f.kind)) && Ascii(f.name)
    ensures PlainField(f, h)
  {
    Utf8.AsciiValid(f.name);
  }

  lemma TableIsPlain(s: Struct, h: nat)
    requires s.fields != [] && s.fields[0].required && Distinct(s.fields)
    requires (s.rule.Equals? ==> s.fields[0].kind.Int?) && (s.rule.OneOf? ==> s.fields[0].kind.Text?)
    requires forall f :: f in s.fields ==> PlainField(f, h)
    ensures Plain(Object(s), h + 1)
  {
    hide Distinct, Utf8.Valid;
    TallestBelow(s.fields, h);
  }

  lemma {:induction false} TallestBelow(fields: seq<Field>, h: nat)
    requires forall f :: f in fields ==> Height(f.kind) <= h
    ensures Tallest(fields) <= h
  {
    if fields != [] { TallestBelow(fields[1..], h); }
  }

  lemma AttestationDistinct()
    ensures Distinct(AttestationKind().s.fields)
  {
  }

  lemma AttestationTable()
    ensures Plain(AttestationKind(), 1)
  {
    hide Utf8.Valid, PlainField, Distinct, Plain, Ascii;
    AttestationDistinct();
    AttestationLeaves();
    AttestationNames();
    forall f | f in AttestationKind().s.fields ensures PlainField(f, 0) {
      Leaf(f.kind);
      FieldIsPlain(f, 0);
    }
    TableIsPlain(AttestationKind().s, 0);
  }

  lemma AttestationLeaves()
    ensures forall f :: f in AttestationKind().s.fields ==> (f.kind.Text? || f.kind.Flag? || f.kind == I64()) && (f.required || f.kind.Text?)
  {
  }

  lemma AttestationNames()
    ensures forall f :: f in AttestationKind().s.fields ==> Ascii(f.name)
  {
    hide Ascii;
    var fs := AttestationKind().s.fields;
    assert |fs| == 12;
    NamesAreAscii();
    assert fs[0].name == "by" && fs[1].name == "verified" && fs[2].name == "hop" && fs[3].name == "program" && fs[4].name == "host"
      && fs[5].name == "user" && fs[6].name == "exe" && fs[7].name == "uid" && fs[8].name == "gid" && fs[9].name == "pid"
      && fs[10].name == "key" && fs[11].name == "mac";
    assert forall i :: 0 <= i < 12 ==> Ascii(fs[i].name);
  }

  lemma NamesAreAscii()
    ensures Ascii("by") && Ascii("verified") && Ascii("hop") && Ascii("program") && Ascii("host") && Ascii("user")
    ensures Ascii("exe") && Ascii("uid") && Ascii("gid") && Ascii("pid") && Ascii("key") && Ascii("mac")
  {
  }

  lemma Leaf(k: Kind)
    requires k.Text? || k.Flag? || k.Time? || k == I64() || k == I32()
    ensures forall h: nat :: Plain(k, h)
  {
  }

  lemma Holder(k: Kind, h: nat)
    requires Plain(k, h)
    ensures Plain(Many(k), h + 1) && Plain(Pairs, h + 1)
  {
  }

  lemma RecordDistinct()
    ensures Distinct(RecordKind().s.fields) && Distinct(WriteArguments().s.fields)
  {
  }

  lemma RecordTable()
    ensures Plain(RecordKind(), 3)
  {
    hide Utf8.Valid, PlainField, Distinct, AttestationKind, Plain;
    AttestationTable();
    Holder(AttestationKind(), 1);
    RecordDistinct();
    forall f | f in RecordKind().s.fields ensures PlainField(f, 2) {
      if !f.kind.Many? && !f.kind.Pairs? { Leaf(f.kind); }
      FieldIsPlain(f, 2);
    }
    TableIsPlain(RecordKind().s, 2);
  }

  /** A table of one field. */
  lemma Wrapper(name: string, k: Kind, h: nat)
    requires Plain(k, h) && Ascii(name)
    ensures Plain(Object(Struct([Need(name, k)], false, Free)), h + 1)
  {
    hide Utf8.Valid, PlainField, Plain;
    FieldIsPlain(Need(name, k), h);
    TableIsPlain(Struct([Need(name, k)], false, Free), h);
  }

  lemma PageDistinct()
    ensures Distinct(PageKind().s.fields) && Distinct(ReadArguments().s.fields)
  {
  }

  lemma PageTable()
    ensures Plain(PageKind(), 5)
  {
    hide Utf8.Valid, PlainField, Distinct, RecordKind, Plain;
    RecordTable();
    Holder(RecordKind(), 3);
    PageDistinct();
    forall f | f in PageKind().s.fields ensures PlainField(f, 4) {
      if !f.kind.Many? { Leaf(f.kind); }
      FieldIsPlain(f, 4);
    }
    TableIsPlain(PageKind().s, 4);
  }

  lemma ArgumentTables()
    ensures Plain(WriteArguments(), 4) && Plain(ReadArguments(), 1) && Plain(ReadResult(), 6)
  {
    hide Utf8.Valid, PlainField, Distinct, RecordKind, PageKind, Plain;
    RecordTable();
    Wrapper("record", RecordKind(), 3);
    PageTable();
    Wrapper("value", PageKind(), 5);
    PageDistinct();
    forall f | f in ReadArguments().s.fields ensures PlainField(f, 0) {
      Leaf(f.kind);
      FieldIsPlain(f, 0);
    }
    TableIsPlain(ReadArguments().s, 0);
  }

  lemma EnvelopeDistinct(k: Kind)
    ensures Distinct(FrameKind(k).s.fields) && Distinct(ReplyKind(k).s.fields)
  {
  }

  /** An envelope around arguments of a plain kind is plain. */
  lemma EnvelopeTable(k: Kind, h: nat)
    requires Plain(k, h)
    ensures Plain(FrameKind(k), h + 1) && Plain(ReplyKind(k), h + 1)
  {
    hide Utf8.Valid, PlainField, Distinct, Plain;
    EnvelopeDistinct(k);
    forall f | f in FrameKind(k).s.fields + ReplyKind(k).s.fields ensures PlainField(f, h) {
      if f.kind != k { Leaf(f.kind); }
      FieldIsPlain(f, h);
    }
    forall f | f in FrameKind(k).s.fields ensures PlainField(f, h) { assert f in FrameKind(k).s.fields + ReplyKind(k).s.fields; }
    forall f | f in ReplyKind(k).s.fields ensures PlainField(f, h) { assert f in FrameKind(k).s.fields + ReplyKind(k).s.fields; }
    TableIsPlain(FrameKind(k).s, h);
    TableIsPlain(ReplyKind(k).s, h);
  }

  /** With raw arguments it is well formed too. */
  lemma RawEnvelope()
    ensures WfKind(FrameKind(Raw)) && WfKind(ReplyKind(Raw))
  {
    hide Utf8.Valid, PlainField, Distinct, Plain;
    Leaf(Text);
    EnvelopeTable(Text, 0);
    EnvelopeDistinct(Raw);
    WfOther(FrameKind(Text).s, FrameKind(Raw).s);
    WfOther(ReplyKind(Text).s, ReplyKind(Raw).s);
  }

  lemma WfOther(a: Struct, b: Struct)
    requires Plain(Object(a), 1) && |a.fields| == |b.fields| > 0 && Distinct(b.fields) && a.rule == b.rule == Free
    requires forall i :: 0 <= i < |a.fields| ==> b.fields[i] == a.fields[i] || b.fields[i] == a.fields[i].(kind := Raw, required := true)
    ensures WfKind(Object(b))
  {
    forall f | f in b.fields ensures WfKind(f.kind) && (f.required || Optional(f.kind)) && Utf8.Valid(f.name) {
      var i :| 0 <= i < |b.fields| && b.fields[i] == f;
      assert a.fields[i] in a.fields;
    }
  }

  // ---- messages as values of their tables ----

  function AttestationVal(a: Attestation): (v: Val)
    ensures Typed(AttestationKind(), v)
  {
    var v := Obj([Str(a.attester), Bool(a.verified), Num(a.hop as int), Str(a.program), Str(a.host), Str(a.user), Str(a.exe),
      Num(a.uid as int), Num(a.gid as int), Num(a.pid as int), Str(a.key), Str(a.mac)]);
    AttestationTyped(v.fs);
    v
  }

  ghost predicate AttestationShape(fs: seq<Val>) {
    && |fs| == 12 && fs[0].Str? && fs[1].Bool? && Word64(fs[2]) && fs[3].Str? && fs[4].Str? && fs[5].Str? && fs[6].Str?
    && Word64(fs[7]) && Word64(fs[8]) && Word64(fs[9]) && fs[10].Str? && fs[11].Str?
  }

  predicate Word64(v: Val) { v.Num? && MIN_I64 <= v.n <= MAX_I64 }

  lemma AttestationTyped(fs: seq<Val>)
    ensures Typed(AttestationKind(), Obj(fs)) <==> AttestationShape(fs)
  {
    hide Typed, AttestationShape;
    var k := AttestationKind();
    ObjectTyped(k, fs);
    if |fs| == 12 && forall i :: 0 <= i < 12 ==> Typed(k.s.fields[i].kind, fs[i]) { TypedShape(fs); }
    if AttestationShape(fs) { ShapeTyped(fs); }
  }

  lemma ObjectTyped(k: Kind, fs: seq<Val>)
    requires k.Object?
    ensures Typed(k, Obj(fs)) <==> |fs| == |k.s.fields| && forall i :: 0 <= i < |fs| ==> Typed(k.s.fields[i].kind, fs[i])
  {
  }

  predicate LeafShape(k: Kind, v: Val) {
    match k case Text | Time | Raw => v.Str? case Flag => v.Bool? case Pairs => v.Map? case _ => Word64(v)
  }

  lemma LeafTyped(k: Kind, v: Val)
    requires k.Text? || k.Time? || k.Flag? || k.Pairs? || k == I64()
    ensures Typed(k, v) <==> LeafShape(k, v)
  {
  }

  lemma TypedShape(fs: seq<Val>)
    requires |fs| == 12 && forall i :: 0 <= i < 12 ==> Typed(AttestationKind().s.fields[i].kind, fs[i])
    ensures AttestationShape(fs)
  {
    hide Typed, Word64;
    var f := AttestationKind().s.fields;
    forall i | 0 <= i < 12
      ensures (f[i].kind.Text? ==> fs[i].Str?) && (f[i].kind.Flag? ==> fs[i].Bool?) && (f[i].kind == I64() ==> Word64(fs[i]))
    {
      LeafTyped(f[i].kind, fs[i]);
    }
    assert f[0].kind == f[3].kind == f[4].kind == f[5].kind == f[6].kind == f[10].kind == f[11].kind == Text && f[1].kind == Flag;
    assert f[2].kind == f[7].kind == f[8].kind == f[9].kind == I64();
  }

  lemma ShapeTyped(fs: seq<Val>)
    requires AttestationShape(fs)
    ensures |fs| == |AttestationKind().s.fields| && forall i :: 0 <= i < |fs| ==> Typed(AttestationKind().s.fields[i].kind, fs[i])
  {
    hide Typed, Word64;
    var f := AttestationKind().s.fields;
    forall i | 0 <= i < 12 ensures Typed(f[i].kind, fs[i]) { LeafTyped(f[i].kind, fs[i]); }
  }

  function AttestationOf(v: Val): (a: Attestation)
    requires Typed(AttestationKind(), v)
    ensures AttestationVal(a) == v
  {
    AttestationTyped(v.fs);
    var f := v.fs;
    Attestation(f[0].s, f[1].b, f[2].n as int64, f[3].s, f[4].s, f[5].s, f[6].s,
      f[7].n as int64, f[8].n as int64, f[9].n as int64, f[10].s, f[11].s)
  }

  function AttestationVals(xs: seq<Attestation>): (vs: seq<Val>)
    ensures |vs| == |xs| && TypedAll(AttestationKind(), vs)
  {
    if xs == [] then [] else [AttestationVal(xs[0])] + AttestationVals(xs[1..])
  }

  lemma {:induction false} AttestationAt(xs: seq<Attestation>, i: nat)
    requires i < |xs|
    ensures AttestationVals(xs)[i] == AttestationVal(xs[i])
  {
    hide AttestationVal, Typed, AttestationKind;
    if i > 0 { AttestationAt(xs[1..], i - 1); }
  }

  function AttestationsOf(vs: seq<Val>): (xs: seq<Attestation>)
    requires TypedAll(AttestationKind(), vs)
    ensures AttestationVals(xs) == vs
  {
    hide AttestationVal, Typed, AttestationKind;
    if vs == [] then [] else
      assert vs[0] in vs && forall x :: x in vs[1..] ==> x in vs;
      var xs := [AttestationOf(vs[0])] + AttestationsOf(vs[1..]);
      assert xs[1..] == AttestationsOf(vs[1..]);
      assert vs == [vs[0]] + vs[1..];
      xs
  }

  lemma OneAttestation(a: Attestation, b: Attestation)
    requires AttestationVal(a) == AttestationVal(b)
    ensures a == b
  {
    var f, g := AttestationVal(a).fs, AttestationVal(b).fs;
    assert forall i :: 0 <= i < 12 ==> f[i] == g[i];
  }

  lemma {:induction false} OneIdentity(xs: seq<Attestation>, ys: seq<Attestation>)
    requires AttestationVals(xs) == AttestationVals(ys)
    ensures xs == ys
  {
    hide AttestationVal, Typed, AttestationKind, AttestationVals;
    forall i | 0 <= i < |xs| ensures xs[i] == ys[i] {
      AttestationAt(xs, i);
      AttestationAt(ys, i);
      OneAttestation(xs[i], ys[i]);
    }
  }

  function RecordVal(r: Record): (v: Val)
    ensures Typed(RecordKind(), v)
  {
    var fs := [Num(r.schema as int), Str(r.time), Num(r.level as int), Str(r.msg), List(AttestationVals(r.identity)), Str(r.job),
      Map(r.attrs)];
    RecordTyped(fs);
    Obj(fs)
  }

  predicate RecordShape(fs: seq<Val>) {
    && |fs| == 7 && Word64(fs[0]) && fs[1].Str? && Word64(fs[2]) && fs[3].Str?
    && fs[4].List? && TypedAll(AttestationKind(), fs[4].vs) && fs[5].Str? && fs[6].Map?
  }

  lemma RecordTyped(fs: seq<Val>)
    ensures Typed(RecordKind(), Obj(fs)) <==> RecordShape(fs)
  {
    hide AttestationKind, Typed, Word64, TypedAll;
    var k := RecordKind();
    ObjectTyped(k, fs);
    if |fs| == 7 {
      forall i | 0 <= i < 7 && i != 4 ensures Typed(k.s.fields[i].kind, fs[i]) <==> LeafShape(k.s.fields[i].kind, fs[i]) {
        LeafTyped(k.s.fields[i].kind, fs[i]);
      }
      ListTyped(AttestationKind(), fs[4]);
      if Typed(k, Obj(fs)) {
        assert Typed(k.s.fields[0].kind, fs[0]) && Typed(k.s.fields[1].kind, fs[1]) && Typed(k.s.fields[2].kind, fs[2])
          && Typed(k.s.fields[3].kind, fs[3]) && Typed(k.s.fields[4].kind, fs[4]) && Typed(k.s.fields[5].kind, fs[5])
          && Typed(k.s.fields[6].kind, fs[6]);
      }
    }
  }

  lemma ListTyped(e: Kind, v: Val)
    ensures Typed(Many(e), v) <==> v.List? && TypedAll(e, v.vs)
  {
  }

  lemma RecordShaped(v: Val)
    requires Typed(RecordKind(), v)
    ensures v.Obj? && RecordShape(v.fs)
  {
    RecordTyped(v.fs);
  }

  function RecordOf(v: Val): (r: Record)
    requires Typed(RecordKind(), v)
    ensures RecordVal(r) == v
  {
    hide AttestationVals, AttestationKind, RecordKind, Typed;
    RecordShaped(v);
    var f := v.fs;
    var r := Record(f[0].n as int64, f[1].s, f[2].n as int64, f[3].s, AttestationsOf(f[4].vs), f[5].s, f[6].m);
    assert RecordVal(r).fs == f;
    r
  }

  lemma OneRecord(a: Record, b: Record)
    requires RecordVal(a) == RecordVal(b)
    ensures a == b
  {
    hide AttestationVals;
    var f, g := RecordVal(a).fs, RecordVal(b).fs;
    assert forall i :: 0 <= i < 7 ==> f[i] == g[i];
    OneIdentity(a.identity, b.identity);
  }

  function RecordVals(rs: seq<Record>): (vs: seq<Val>)
    ensures |vs| == |rs| && TypedAll(RecordKind(), vs)
  {
    if rs == [] then [] else [RecordVal(rs[0])] + RecordVals(rs[1..])
  }

  function RecordsOf(vs: seq<Val>): (rs: seq<Record>)
    requires TypedAll(RecordKind(), vs)
    ensures RecordVals(rs) == vs
  {
    hide RecordVal, Typed, RecordKind, RecordVals;
    if vs == [] then
      MoreRecords([], []);
      []
    else
      assert vs[0] in vs && forall x :: x in vs[1..] ==> x in vs;
      var r, rest := RecordOf(vs[0]), RecordsOf(vs[1..]);
      MoreRecords([r], rest);
      assert vs == [vs[0]] + vs[1..];
      [r] + rest
  }

  lemma MoreRecords(first: seq<Record>, rest: seq<Record>)
    requires |first| <= 1
    ensures RecordVals([]) == [] && RecordVals(first + rest) == (if first == [] then [] else [RecordVal(first[0])]) + RecordVals(rest)
  {
    hide RecordVal, Typed, RecordKind;
    if first == [] { assert first + rest == rest; } else { assert (first + rest)[1..] == rest; }
  }

  lemma {:induction false} RecordAt(rs: seq<Record>, i: nat)
    requires i < |rs|
    ensures RecordVals(rs)[i] == RecordVal(rs[i])
  {
    hide RecordVal, Typed, RecordKind;
    if i > 0 { RecordAt(rs[1..], i - 1); }
  }

  lemma OneHistory(a: seq<Record>, b: seq<Record>)
    requires RecordVals(a) == RecordVals(b)
    ensures a == b
  {
    hide RecordVal, Typed, RecordKind, RecordVals;
    forall i | 0 <= i < |a| ensures a[i] == b[i] {
      RecordAt(a, i);
      RecordAt(b, i);
      OneRecord(a[i], b[i]);
    }
  }

  function PageVal(p: Page): (v: Val)
    ensures Typed(PageKind(), v)
  {
    var fs := [Str(p.outcome), List(RecordVals(p.records)), Str(p.next), Bool(p.atEnd)];
    PageTyped(fs);
    Obj(fs)
  }

  predicate PageShape(fs: seq<Val>) {
    |fs| == 4 && fs[0].Str? && fs[1].List? && TypedAll(RecordKind(), fs[1].vs) && fs[2].Str? && fs[3].Bool?
  }

  lemma PageTyped(fs: seq<Val>)
    ensures Typed(PageKind(), Obj(fs)) <==> PageShape(fs)
  {
    hide RecordKind;
    var k := PageKind();
    assert |k.s.fields| == 4;
    if Typed(k, Obj(fs)) {
      forall i | 0 <= i < 4 ensures Typed(k.s.fields[i].kind, fs[i]) { }
    }
  }

  lemma PageShaped(v: Val)
    requires Typed(PageKind(), v)
    ensures v.Obj? && PageShape(v.fs)
  {
    PageTyped(v.fs);
  }

  function PageOf(v: Val): (p: Page)
    requires Typed(PageKind(), v)
    ensures PageVal(p) == v
  {
    hide RecordVals, RecordKind, PageKind, Typed;
    PageShaped(v);
    var p := Page(v.fs[0].s, RecordsOf(v.fs[1].vs), v.fs[2].s, v.fs[3].b);
    assert PageVal(p).fs == v.fs;
    p
  }

  lemma OnePage(a: Page, b: Page)
    requires PageVal(a) == PageVal(b)
    ensures a == b
  {
    hide RecordVals;
    var f, g := PageVal(a).fs, PageVal(b).fs;
    assert forall i :: 0 <= i < 4 ==> f[i] == g[i];
    OneHistory(a.records, b.records);
  }

  // ---- what normalising, cleanliness and refusal come to ----

  /** No times and no rules: such a value is written as it is. */
  predicate Steady(k: Kind) {
    match k
    case Time => false
    case Many(e) => Steady(e)
    case Object(s) => s.rule.Free? && forall f :: f in s.fields ==> Steady(f.kind)
    case _ => true
  }

  lemma {:induction false} SteadyStays(k: Kind, v: Val)
    requires Steady(k) && Typed(k, v)
    ensures Norm(k, v) == v && Blocked(k, v) == []
    decreases k
  {
    match k
    case Many(e) =>
      forall i | 0 <= i < |v.vs| ensures Norm(e, v.vs[i]) == v.vs[i] && Blocked(e, v.vs[i]) == [] { SteadyStays(e, v.vs[i]); }
      BlockedInNone(k, v.vs);
      assert Norm(k, v).vs == v.vs;
    case Object(s) =>
      forall i | 0 <= i < |v.fs| ensures Norm(s.fields[i].kind, v.fs[i]) == v.fs[i] && Blocked(s.fields[i].kind, v.fs[i]) == [] {
        assert s.fields[i] in s.fields;
        SteadyStays(s.fields[i].kind, v.fs[i]);
      }
      BlockedFromNone(k, v, 0);
      assert Norm(k, v).fs == v.fs;
    case _ =>
  }

  lemma AttestationIsSteady()
    ensures Steady(AttestationKind())
  {
    forall f | f in AttestationKind().s.fields ensures Steady(f.kind) { }
  }

  function Normalised(r: Record): Record { r.(time := Normalized(r.time)) }

  /** A record's table and value, field by field. */
  lemma RecordLayout(r: Record)
    ensures RecordKind().Object? && RecordVal(r).Obj?
    ensures var f := RecordKind().s.fields;
      |f| == 7 && f[0].kind == f[2].kind == I64() && f[1].kind == Time && f[3].kind == f[5].kind == Text
      && f[4].kind == Many(AttestationKind()) && f[6].kind == Pairs && I64().Int?
    ensures RecordVal(r).fs == [Num(r.schema as int), Str(r.time), Num(r.level as int), Str(r.msg), List(AttestationVals(r.identity)),
      Str(r.job), Map(r.attrs)]
  {
    hide AttestationKind, AttestationVals, Typed;
  }

  lemma NormFields(k: Kind, v: Val)
    requires k.Object? && Typed(k, v)
    ensures |v.fs| == |k.s.fields| && forall i :: 0 <= i < |v.fs| ==> Typed(k.s.fields[i].kind, v.fs[i])
    ensures Norm(k, v).Obj? && |Norm(k, v).fs| == |v.fs| && forall i :: 0 <= i < |v.fs| ==> Norm(k, v).fs[i] == Norm(k.s.fields[i].kind, v.fs[i])
  {
  }

  lemma LeafNorm(k: Kind, v: Val)
    requires Typed(k, v) && !k.Many? && !k.Object?
    ensures Norm(k, v) == if k.Time? then Str(Normalized(v.s)) else v
  {
  }

  lemma RecordNorm(r: Record)
    ensures Norm(RecordKind(), RecordVal(r)) == RecordVal(Normalised(r))
  {
    hide AttestationKind, AttestationVals, Normalized, Typed, Norm, RecordKind, RecordVal, Steady, Blocked, I64;
    AttestationIsSteady();
    var k, v := RecordKind(), RecordVal(r);
    RecordLayout(r);
    RecordLayout(Normalised(r));
    NormFields(k, v);
    var f, n := k.s.fields, Norm(k, v);
    SteadyList(r.identity);
    LeafNorm(f[0].kind, v.fs[0]);
    LeafNorm(f[1].kind, v.fs[1]);
    LeafNorm(f[2].kind, v.fs[2]);
    LeafNorm(f[3].kind, v.fs[3]);
    LeafNorm(f[5].kind, v.fs[5]);
    LeafNorm(f[6].kind, v.fs[6]);
    assert n.fs == RecordVal(Normalised(r)).fs;
  }

  lemma SteadyList(xs: seq<Attestation>)
    ensures var k := Many(AttestationKind()); var v := List(AttestationVals(xs)); Typed(k, v) && Norm(k, v) == v && Blocked(k, v) == []
  {
    hide AttestationKind, AttestationVals, Norm, Blocked;
    AttestationIsSteady();
    SteadyStays(Many(AttestationKind()), List(AttestationVals(xs)));
  }

  /** The word `encRecord` refuses a record with. */
  lemma RecordBlocked(r: Record)
    ensures Blocked(RecordKind(), RecordVal(r)) ==
      if r.schema != 1 then [BadSchema] else if Normalized(r.time) == "" then [BadTimestamp] else []
  {
    hide AttestationKind, AttestationVals, Normalized;
    AttestationIsSteady();
    var k, v := RecordKind(), RecordVal(r);
    SteadyStays(Many(AttestationKind()), v.fs[4]);
    forall i | 2 <= i < 7 ensures Blocked(k.s.fields[i].kind, v.fs[i]) == [] { }
    BlockedFromNone(k, v, 2);
    assert BlockedFrom(k, v, 1) == Blocked(Time, v.fs[1]);
    assert BlockedFrom(k, v, 0) == BlockedFrom(k, v, 1);
  }
}
