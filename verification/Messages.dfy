/** Whole messages: `Encode`, `Decode`, and what they are to each other. */
module Messages {
  import opened Decimal
  import opened Timestamp
  import opened Lexer
  import opened Schema
  import opened Parser
  import opened Printer
  import opened RoundTrip
  import opened Spoiled
  import opened Readers
  import opened Records
  import Writers
  import Utf8

  /** One value and nothing else but blanks. A value cut out of a frame starts one level deep. */
  function Whole(k: Kind, text: string, depth: nat): (a: Answer<Val>)
    requires WfKind(k)
    ensures a.Given? ==> Typed(k, a.value) && Sound(k, a.value)
  {
    var r := Parse(k, text, Ws(text, 0), depth);
    if r.Refused? then Refusal(r.word, r.at)
    else
      ParsedIsSound(k, text, Ws(text, 0), depth);
      var e := Ws(text, r.pos);
      if e < |text| then Refusal(TrailingBytes, e) else Given(r.value)
  }

  method ReadWhole(k: Kind, text: string, depth: nat) returns (a: Answer<Val>)
    requires WfKind(k)
    ensures a == Whole(k, text, depth)
  {
    var r := new Reader(text, depth);
    r.SkipBlanks();
    a := r.Decode(k);
    if a.Refusal? { return; }
    r.SkipBlanks();
    if r.pos < |r.buf| { return Refusal(TrailingBytes, r.pos); }
  }

  lemma ObjectText(k: Kind, v: Val, d: nat)
    requires k.Object? && Typed(k, v)
    ensures Print(k, v, d) != "" && Print(k, v, d)[0] == '{'
  {
  }

  lemma BlanksEnd(buf: string, p: nat, t: string)
    requires Blanks(t) && Here(buf, p, t) && |buf| == p + |t|
    ensures Ws(buf, p) == |buf| && !Clings(At(buf, p))
    decreases |t|
  {
    if t != "" {
      HereAt(buf, p, t, 0);
      assert t == t[..1] + t[1..];
      HereSplit(buf, p, t[..1], t[1..]);
      BlanksEnd(buf, p + 1, t[1..]);
    }
  }

  /** A printed object and blanks, standing alone. */
  lemma Alone(k: Kind, v: Val, d: nat, end: string)
    requires k.Object? && Typed(k, v) && Blanks(end)
    ensures var t := Print(k, v, d); var text := t + end;
      Here(text, 0, t) && Ws(text, 0) == 0 && Ws(text, |t|) == |text| && !Clings(At(text, |t|))
  {
    hide Print, Typed, Clings;
    ObjectText(k, v, d);
    var t := Print(k, v, d);
    var text := t + end;
    assert text[0..|text|] == text;
    HereSplit(text, 0, t, end);
    BlanksEnd(text, |t|, end);
  }

  lemma WholePrinted(k: Kind, v: Val, depth: nat, d: nat, end: string)
    requires k.Object? && Printed(k, v, depth) && Blanks(end)
    ensures Whole(k, Print(k, v, d) + end, depth) == Given(Norm(k, v))
  {
    hide *;
    PrintedIs(k, v, depth);
    var t := Print(k, v, d);
    Alone(k, v, d, end);
    PrintedRead(k, v, t + end, 0, depth, d);
    WholeTaken(k, t + end, depth);
  }

  /** A printed value is read back exactly if its strings are UTF-8; otherwise it is refused. */
  lemma WholeExactly(k: Kind, v: Val, depth: nat, d: nat, end: string)
    requires k.Object? && Sendable(k, v, depth) && Blanks(end)
    ensures Clean(k, v) ==> Whole(k, Print(k, v, d) + end, depth) == Given(Norm(k, v))
    ensures !Clean(k, v) ==> Whole(k, Print(k, v, d) + end, depth).Refusal?
  {
    hide *;
    SendableIs(k, v, depth);
    var t := Print(k, v, d);
    Alone(k, v, d, end);
    if Clean(k, v) {
      WholePrinted(k, v, depth, d, end);
    } else {
      PrintedSkipped(k, v, t + end, 0, depth, d);
      WholeRefused(k, t + end, depth);
    }
  }

  lemma WholeTaken(k: Kind, text: string, depth: nat)
    requires WfKind(k) && Ws(text, 0) == 0 && Parse(k, text, 0, depth).Ok? && Ws(text, Parse(k, text, 0, depth).pos) == |text|
    ensures Whole(k, text, depth) == Given(Parse(k, text, 0, depth).value)
  {
    ParsedIsSound(k, text, 0, depth);
  }

  lemma WholeRefused(k: Kind, text: string, depth: nat)
    requires WfKind(k) && Ws(text, 0) == 0 && Skip(text, 0, depth).Refused?
    ensures Whole(k, text, depth).Refusal?
  {
    if Parse(k, text, 0, depth).Ok? { SkipFollows(k, text, 0, depth); }
  }

  // ---- printing is insensitive to normalising first ----

  /** A value and its normal form are printed alike. */
  lemma {:induction false} PrintAgain(k: Kind, v: Val, d: nat)
    requires WfKind(k) && Typed(k, v) && Blocked(k, v) == []
    ensures Print(k, Norm(k, v), d) == Print(k, v, d)
    decreases k, 2, 0
  {
    match k
    case Time => NormalizedFixpoint(v.s);
    case Many(e) =>
      if v.vs != [] {
        hide WfKind, Print, ItemLines;
        ListAgain(k, v, d);
      }
    case Object(s) => ObjectAgain(k, v, d);
    case _ =>
  }

  lemma {:induction false} ListAgain(k: Kind, v: Val, d: nat)
    requires k.Many? && WfKind(k) && Typed(k, v) && Blocked(k, v) == [] && v.vs != []
    ensures Print(k, Norm(k, v), d) == Print(k, v, d)
    decreases k, 1, 0
  {
    var n := Norm(k, v);
    forall i | 0 <= i < |v.vs| ensures Print(k.elem, n.vs[i], d + 1) == Print(k.elem, v.vs[i], d + 1) {
      BlockedElsewhere(k, v.vs, i);
      PrintAgain(k.elem, v.vs[i], d + 1);
    }
    ItemsAgain(k, n.vs[1..], v.vs[1..], d + 1);
  }

  lemma {:induction false} ItemsAgain(k: Kind, us: seq<Val>, vs: seq<Val>, d: nat)
    requires k.Many? && TypedAll(k.elem, us) && TypedAll(k.elem, vs) && |us| == |vs|
    requires forall i :: 0 <= i < |vs| ==> Print(k.elem, us[i], d) == Print(k.elem, vs[i], d)
    ensures ItemLines(k, us, d) == ItemLines(k, vs, d)
    decreases |vs|
  {
    hide Typed;
    if vs != [] {
      assert Print(k.elem, us[0], d) == Print(k.elem, vs[0], d);
      ItemsAgain(k, us[1..], vs[1..], d);
    }
  }

  lemma PresentAgain(f: Field, v: Val)
    requires (f.required || Optional(f.kind)) && Typed(f.kind, v)
    ensures Present(f, Norm(f.kind, v)) <==> Present(f, v)
  {
  }

  lemma {:induction false} ObjectAgain(k: Kind, v: Val, d: nat)
    requires k.Object? && WfKind(k) && Typed(k, v) && Blocked(k, v) == []
    ensures Print(k, Norm(k, v), d) == Print(k, v, d)
    decreases k, 1, 0
  {
    var n := Norm(k, v);
    forall i | 0 <= i < |v.fs|
      ensures Print(k.s.fields[i].kind, n.fs[i], d + 1) == Print(k.s.fields[i].kind, v.fs[i], d + 1)
      ensures Present(k.s.fields[i], n.fs[i]) <==> Present(k.s.fields[i], v.fs[i])
    {
      BlockedLater(k, v, 0, i);
      assert k.s.fields[i] in k.s.fields;
      PrintAgain(k.s.fields[i].kind, v.fs[i], d + 1);
      PresentAgain(k.s.fields[i], v.fs[i]);
    }
    FieldsAgain(k, n, k, v, 1, d + 1);
  }

  /** Two objects whose fields are printed alike, from field i on. */
  lemma {:induction false} FieldsAgain(k: Kind, u: Val, l: Kind, v: Val, i: nat, d: nat)
    requires k.Object? && l.Object? && Typed(k, u) && Typed(l, v) && |u.fs| == |v.fs| && i <= |v.fs|
    requires forall j :: i <= j < |v.fs| ==> k.s.fields[j].name == l.s.fields[j].name
    requires forall j :: i <= j < |v.fs| ==> Present(k.s.fields[j], u.fs[j]) == Present(l.s.fields[j], v.fs[j])
    requires forall j :: i <= j < |v.fs| ==> Print(k.s.fields[j].kind, u.fs[j], d) == Print(l.s.fields[j].kind, v.fs[j], d)
    ensures FieldLines(k, u, i, d) == FieldLines(l, v, i, d)
    decreases |v.fs| - i
  {
    hide Print, Present;
    if i < |v.fs| { FieldsAgain(k, u, l, v, i + 1, d); }
  }

  // ---- records ----

  predicate CleanAttestation(a: Attestation) {
    && Utf8.Valid(a.attester) && Utf8.Valid(a.program) && Utf8.Valid(a.host) && Utf8.Valid(a.user) && Utf8.Valid(a.exe)
    && Utf8.Valid(a.key) && Utf8.Valid(a.mac)
  }

  /** Every string of the record but its time is UTF-8. */
  predicate CleanRecord(r: Record) {
    Utf8.Valid(r.msg) && Utf8.Valid(r.job) && ValidPairs(r.attrs) && forall i :: 0 <= i < |r.identity| ==> CleanAttestation(r.identity[i])
  }

  /** An object without containers: its texts decide. */
  lemma FlatClean(k: Kind, v: Val)
    requires k.Object? && Typed(k, v)
    requires forall i :: 0 <= i < |v.fs| ==> k.s.fields[i].kind.Text? || k.s.fields[i].kind.Int? || k.s.fields[i].kind.Flag?
    ensures forall i :: 0 <= i < |v.fs| && k.s.fields[i].kind.Text? ==> v.fs[i].Str?
    ensures Clean(k, v) <==> forall i :: 0 <= i < |v.fs| && k.s.fields[i].kind.Text? ==> Utf8.Valid(v.fs[i].s)
  {
    hide Utf8.Valid;
    forall i | 0 <= i < |v.fs| ensures Clean(k.s.fields[i].kind, v.fs[i]) <==> (k.s.fields[i].kind.Text? ==> Utf8.Valid(v.fs[i].s)) { }
  }

  lemma AttestationClean(a: Attestation)
    ensures Clean(AttestationKind(), AttestationVal(a)) <==> CleanAttestation(a)
  {
    hide Utf8.Valid, Typed, Clean;
    var k, v := AttestationKind(), AttestationVal(a);
    FlatClean(k, v);
    assert |v.fs| == 12;
    if Clean(k, v) {
      assert forall i :: 0 <= i < 12 && k.s.fields[i].kind.Text? ==> Utf8.Valid(v.fs[i].s);
      assert k.s.fields[0].kind.Text? && k.s.fields[3].kind.Text? && k.s.fields[4].kind.Text? && k.s.fields[5].kind.Text?
        && k.s.fields[6].kind.Text? && k.s.fields[10].kind.Text? && k.s.fields[11].kind.Text?;
    }
  }

  lemma IdentityClean(xs: seq<Attestation>)
    ensures Clean(Many(AttestationKind()), List(AttestationVals(xs))) <==> forall i :: 0 <= i < |xs| ==> CleanAttestation(xs[i])
  {
    hide AttestationKind, AttestationVal, CleanAttestation;
    var k, vs := AttestationKind(), AttestationVals(xs);
    forall i | 0 <= i < |xs| ensures vs[i] == AttestationVal(xs[i]) && (Clean(k, vs[i]) <==> CleanAttestation(xs[i])) {
      AttestationAt(xs, i);
      AttestationClean(xs[i]);
    }
    if Clean(Many(k), List(vs)) { forall i | 0 <= i < |xs| ensures CleanAttestation(xs[i]) { assert vs[i] in vs; } }
  }

  lemma RecordClean(r: Record)
    ensures Clean(RecordKind(), RecordVal(r)) <==> CleanRecord(r)
  {
    hide *;
    RecordLayout(r);
    IdentityClean(r.identity);
    var k, v := RecordKind(), RecordVal(r);
    ObjectClean(k, v);
    var f := k.s.fields;
    LeafClean(f[0].kind, v.fs[0]);
    LeafClean(f[1].kind, v.fs[1]);
    LeafClean(f[2].kind, v.fs[2]);
    LeafClean(f[3].kind, v.fs[3]);
    LeafClean(f[5].kind, v.fs[5]);
    LeafClean(f[6].kind, v.fs[6]);
    CleanRecordIs(r);
    assert Clean(k, v) <==> Clean(f[3].kind, v.fs[3]) && Clean(f[4].kind, v.fs[4]) && Clean(f[5].kind, v.fs[5]) && Clean(f[6].kind, v.fs[6]);
  }

  lemma CleanRecordIs(r: Record)
    ensures CleanRecord(r) <==> Utf8.Valid(r.msg) && Utf8.Valid(r.job) && ValidPairs(r.attrs) && forall i :: 0 <= i < |r.identity| ==> CleanAttestation(r.identity[i])
  {
  }

  lemma ObjectClean(k: Kind, v: Val)
    requires k.Object? && Typed(k, v)
    ensures |v.fs| == |k.s.fields| && forall i :: 0 <= i < |v.fs| ==> Typed(k.s.fields[i].kind, v.fs[i])
    ensures Clean(k, v) <==> forall i :: 0 <= i < |v.fs| ==> Clean(k.s.fields[i].kind, v.fs[i])
  {
  }

  lemma LeafClean(k: Kind, v: Val)
    requires Typed(k, v) && !k.Many? && !k.Object?
    ensures Clean(k, v) <==> (k.Text? && v.Str? ==> Utf8.Valid(v.s)) && (k.Pairs? && v.Map? ==> ValidPairs(v.m))
  {
    hide Utf8.Valid, ValidPairs;
  }

  /** A record its encoder takes. */
  predicate Encodable(r: Record) { r.schema == 1 && Normalized(r.time) != "" }

  function Encode(r: Record): Answer<string> {
    if r.schema != 1 then Refusal(BadSchema, 0)
    else if Normalized(r.time) == "" then Refusal(BadTimestamp, 0)
    else Given(Print(RecordKind(), RecordVal(r), 0) + "\n")
  }

  function Decode(text: string): Answer<Record> {
    RecordTable();
    match Whole(RecordKind(), text, 0)
    case Given(v) => Given(RecordOf(v))
    case Refusal(w, o) => Refusal(w, o)
  }

  /** `Decode` and `Encode` with the reader and the writer. */
  method DecodeRecord(text: string) returns (a: Answer<Record>)
    ensures a == Decode(text)
  {
    hide Whole, Sound, Typed;
    RecordTable();
    var v := ReadWhole(RecordKind(), text, 0);
    a := if v.Given? then Given(RecordOf(v.value)) else Refusal(v.word, v.offset);
  }

  method EncodeRecord(r: Record) returns (a: Answer<string>)
    ensures a == Encode(r)
  {
    hide Print, Normalized, Blocked, Typed;
    RecordTable();
    RecordBlocked(r);
    a := Writers.Write(RecordKind(), RecordVal(r), "", 0);
    assert "" + Print(RecordKind(), RecordVal(r), 0) == Print(RecordKind(), RecordVal(r), 0);
    if a.Given? { a := Given(a.value + "\n"); }
  }

  lemma RecordSendable(r: Record)
    requires Encodable(r)
    ensures Sendable(RecordKind(), RecordVal(r), 0)
  {
    hide AttestationKind, Normalized;
    RecordTable();
    RecordBlocked(r);
  }

  /** The round trip: a record that can be encoded is decoded as itself with its time normalised
      if all its strings are UTF-8, and is refused by its own decoder if they are not. */
  lemma DecodeEncode(r: Record)
    requires Encodable(r)
    ensures if CleanRecord(r) then Decode(Encode(r).value) == Given(Normalised(r)) else Decode(Encode(r).value).Refusal?
  {
    hide *;
    RecordSendable(r);
    EncodeIs(r);
    RecordIsObject();
    NewlineIsBlank();
    WholeExactly(RecordKind(), RecordVal(r), 0, 0, "\n");
    RecordClean(r);
    RecordNorm(r);
    DecodeIs(Print(RecordKind(), RecordVal(r), 0) + "\n");
    if CleanRecord(r) { OneRecord(RecordOf(RecordVal(Normalised(r))), Normalised(r)); }
  }

  /** A continuation byte alone is a message that is encoded without complaint and refused when read back. */
  lemma LoneByteIsRefused(r: Record)
    requires r == Record(1, MIDNIGHT, 0, [0x80 as char], [], "", map[])
    ensures Encode(r).Given? && Decode(Encode(r).value).Refusal?
  {
    hide Print, Whole;
    MidnightIsAnInstant();
    assert !Utf8.Valid(r.msg) by { assert !Utf8.CharAt(r.msg, 0, Utf8.Announced(r.msg[0])); }
    DecodeEncode(r);
  }

  lemma RecordIsObject()
    ensures RecordKind().Object? && WfKind(RecordKind())
  {
    RecordTable();
  }

  lemma NewlineIsBlank()
    ensures Blanks("\n") && Blanks("")
  {
  }

  lemma EncodeIs(r: Record)
    requires Encodable(r)
    ensures Encode(r) == Given(Print(RecordKind(), RecordVal(r), 0) + "\n")
  {
  }

  lemma DecodeIs(text: string)
    requires WfKind(RecordKind())
    ensures Decode(text) == match Whole(RecordKind(), text, 0) case Given(v) => Given(RecordOf(v)) case Refusal(w, o) => Refusal(w, o)
  {
  }

  /** A decoded record can be encoded, and its strings are UTF-8. */
  lemma DecodedIsSound(text: string)
    requires Decode(text).Given?
    ensures Encodable(Decode(text).value) && CleanRecord(Decode(text).value)
  {
    hide *;
    RecordIsObject();
    DecodeIs(text);
    var r := Decode(text).value;
    WholeIsSound(RecordKind(), text, 0);
    RecordBlocked(r);
    EncodableIs(r);
    RecordClean(r);
  }

  lemma EncodableIs(r: Record)
    ensures Encodable(r) <==> r.schema == 1 && Normalized(r.time) != ""
  {
  }

  lemma WholeIsSound(k: Kind, text: string, depth: nat)
    requires WfKind(k) && Whole(k, text, depth).Given?
    ensures Typed(k, Whole(k, text, depth).value) && Clean(k, Whole(k, text, depth).value) && Blocked(k, Whole(k, text, depth).value) == []
  {
  }

  /** Encoding depends on the instant alone, so normalising first changes nothing. */
  lemma EncodeNormalised(r: Record)
    requires Encodable(r)
    ensures Encodable(Normalised(r)) && Normalised(Normalised(r)) == Normalised(r) && Encode(Normalised(r)) == Encode(r)
  {
    hide Print, AttestationKind, Normalized;
    RecordTable();
    RecordBlocked(r);
    NormalizedFixpoint(r.time);
    PrintAgain(RecordKind(), RecordVal(r), 0);
    RecordNorm(r);
  }

  /** After one pass the bytes no longer change: what a decoder accepted is encoded, decoded and
      encoded again to the same bytes. */
  lemma EncodeSettles(text: string)
    requires Decode(text).Given?
    ensures var bytes := Encode(Decode(text).value);
      bytes.Given? && Decode(bytes.value).Given? && Encode(Decode(bytes.value).value) == bytes
  {
    hide Print, Whole, Normalized;
    DecodedIsSound(text);
    var r := Decode(text).value;
    DecodeEncode(r);
    EncodeNormalised(r);
  }

  // ---- pages ----

  function AllNormalised(rs: seq<Record>): (ns: seq<Record>)
    ensures |ns| == |rs|
  {
    seq(|rs|, i requires 0 <= i < |rs| => Normalised(rs[i]))
  }

  function NormalisedPage(p: Page): Page { p.(records := AllNormalised(p.records)) }

  lemma RecordsNorm(rs: seq<Record>)
    ensures Norm(Many(RecordKind()), List(RecordVals(rs))) == List(RecordVals(AllNormalised(rs)))
  {
    hide RecordKind, RecordVal, RecordVals;
    var vs, ns := RecordVals(rs), RecordVals(AllNormalised(rs));
    forall i | 0 <= i < |rs| ensures Norm(RecordKind(), vs[i]) == ns[i] {
      RecordAt(rs, i);
      RecordAt(AllNormalised(rs), i);
      RecordNorm(rs[i]);
    }
    assert Norm(Many(RecordKind()), List(vs)).vs == ns;
  }

  lemma PageNorm(p: Page)
    ensures Norm(PageKind(), PageVal(p)) == PageVal(NormalisedPage(p))
  {
    hide RecordKind, RecordVals, Normalised;
    RecordsNorm(p.records);
    var n := Norm(PageKind(), PageVal(p));
    assert |n.fs| == 4;
    assert forall i :: 0 <= i < 4 ==> n.fs[i] == PageVal(NormalisedPage(p)).fs[i];
  }

  predicate EncodablePage(p: Page) {
    p.outcome in Outcomes() && forall i :: 0 <= i < |p.records| ==> Encodable(p.records[i])
  }

  predicate CleanPage(p: Page) {
    Utf8.Valid(p.outcome) && Utf8.Valid(p.next) && forall i :: 0 <= i < |p.records| ==> CleanRecord(p.records[i])
  }

  lemma RecordsBlocked(rs: seq<Record>)
    ensures BlockedIn(Many(RecordKind()), RecordVals(rs)) == [] <==> forall i :: 0 <= i < |rs| ==> Encodable(rs[i])
  {
    hide RecordKind, RecordVal, RecordVals, Normalized;
    var k, vs := Many(RecordKind()), RecordVals(rs);
    forall i | 0 <= i < |rs| ensures Blocked(k.elem, vs[i]) == [] <==> Encodable(rs[i]) {
      RecordAt(rs, i);
      RecordBlocked(rs[i]);
    }
    if BlockedIn(k, vs) == [] {
      forall i | 0 <= i < |rs| ensures Encodable(rs[i]) { BlockedElsewhere(k, vs, i); }
    } else if forall i :: 0 <= i < |rs| ==> Encodable(rs[i]) {
      BlockedInNone(k, vs);
    }
  }

  lemma PageBlocked(p: Page)
    ensures Blocked(PageKind(), PageVal(p)) == [] <==> EncodablePage(p)
  {
    hide RecordKind, RecordVals, Encodable;
    RecordsBlocked(p.records);
    var k, v := PageKind(), PageVal(p);
    assert Blocked(k.s.fields[1].kind, v.fs[1]) == BlockedIn(Many(RecordKind()), RecordVals(p.records));
    forall i | 0 <= i < 4 && i != 1 ensures Blocked(k.s.fields[i].kind, v.fs[i]) == [] { }
    BlockedFromNone(k, v, 2);
    assert BlockedFrom(k, v, 0) == BlockedFrom(k, v, 1) == Blocked(k.s.fields[1].kind, v.fs[1]);
  }

  lemma RecordsClean(rs: seq<Record>)
    ensures Clean(Many(RecordKind()), List(RecordVals(rs))) <==> forall i :: 0 <= i < |rs| ==> CleanRecord(rs[i])
  {
    hide RecordKind, RecordVal, CleanRecord;
    var k, vs := RecordKind(), RecordVals(rs);
    forall i | 0 <= i < |rs| ensures vs[i] == RecordVal(rs[i]) && (Clean(k, vs[i]) <==> CleanRecord(rs[i])) {
      RecordAt(rs, i);
      RecordClean(rs[i]);
    }
    if Clean(Many(k), List(vs)) { forall i | 0 <= i < |rs| ensures CleanRecord(rs[i]) { assert vs[i] in vs; } }
  }

  lemma PageClean(p: Page)
    ensures Clean(PageKind(), PageVal(p)) <==> CleanPage(p)
  {
    hide RecordKind, RecordVals, CleanRecord, Utf8.Valid;
    RecordsClean(p.records);
    var k, v := PageKind(), PageVal(p);
    assert |v.fs| == 4;
    assert Clean(k, v) <==> forall i :: 0 <= i < 4 ==> Clean(k.s.fields[i].kind, v.fs[i]);
    assert Clean(k, v) ==> Clean(k.s.fields[0].kind, v.fs[0]) && Clean(k.s.fields[1].kind, v.fs[1]) && Clean(k.s.fields[2].kind, v.fs[2]);
  }
}
