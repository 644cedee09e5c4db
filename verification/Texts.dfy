/** What is on the wire, written out: the names, order and layout of every message, not by way of the tables. */
module Texts {
  import opened Decimal
  import opened Timestamp
  import opened Lexer
  import opened Schema
  import opened Parser
  import opened Printer
  import opened RoundTrip
  import opened Records
  import opened Messages
  import opened Readers
  import opened Envelope
  import opened Service
  import opened Exchange
  import Writers

  // ---- layout ----

  /** One line of an object: its key, its value, and whether it is written. */
  datatype Row = Row(name: string, text: string, written: bool)

  function LineOf(r: Row, d: nat): string { Pad(d) + (Quoted(r.name) + ": " + r.text) }

  function RowLines(rows: seq<Row>, d: nat): string {
    if rows == [] then "" else (if rows[0].written then ",\n" + LineOf(rows[0], d) else "") + RowLines(rows[1..], d)
  }

  /** An object, two blanks a level, its first line always written. */
  function Braced(rows: seq<Row>, d: nat): string
    requires rows != []
  {
    "{\n" + LineOf(rows[0], d + 1) + RowLines(rows[1..], d + 1) + "\n" + Pad(d) + "}"
  }

  function ItemLinesOf(texts: seq<string>, d: nat): string {
    if texts == [] then "" else ",\n" + Pad(d) + texts[0] + ItemLinesOf(texts[1..], d)
  }

  function Bracketed(texts: seq<string>, d: nat): string {
    if texts == [] then "[]" else "[\n" + Pad(d + 1) + texts[0] + ItemLinesOf(texts[1..], d + 1) + "\n" + Pad(d) + "]"
  }

  function YesNo(b: bool): string { if b then "true" else "false" }

  // ---- what a string looks like ----

  /** A byte within quotes: the two that must be escaped, the five controls with a letter, the other controls
      with four lower-case hex digits, and every other byte as it is. */
  lemma EscapesExactly(c: char)
    ensures EscByte(c) == (
      if c as int == 34 then "\\\"" else if c as int == 92 then "\\\\" else if c as int == 8 then "\\b"
      else if c as int == 9 then "\\t" else if c as int == 10 then "\\n" else if c as int == 12 then "\\f" else if c as int == 13 then "\\r"
      else if c as int < 32 then "\\u00" + ["0123456789abcdef"[c as int / 16], "0123456789abcdef"[c as int % 16]]
      else [c])
  {
    if c as int < 32 {
      HexDigitIs(c as int / 16);
      HexDigitIs(c as int % 16);
    }
  }

  lemma HexDigitIs(v: int)
    requires 0 <= v < 16
    ensures HexDigit(v) == "0123456789abcdef"[v]
  {
    assert v == 0 || v == 1 || v == 2 || v == 3 || v == 4 || v == 5 || v == 6 || v == 7
      || v == 8 || v == 9 || v == 10 || v == 11 || v == 12 || v == 13 || v == 14 || v == 15;
  }

  predicate Printable(s: string) { forall i :: 0 <= i < |s| ==> s[i] as int >= 32 && s[i] as int != 34 && s[i] as int != 92 }

  lemma {:induction false} PrintableIsPlain(s: string)
    requires Printable(s)
    ensures Escaped(s) == s && Quoted(s) == "\"" + s + "\""
  {
    if s != "" {
      PrintableIsPlain(s[1..]);
      assert [s[0]] + s[1..] == s;
    }
  }

  /** The texts agree up to n, where a ends or has the smaller byte. */
  predicate Before(a: string, b: string, n: nat) {
    n <= |a| && n < |b| && a[..n] == b[..n] && (n == |a| || a[n] < b[n])
  }

  lemma BeforeStep(a: string, b: string, n: nat)
    requires a != "" && b != ""
    ensures Before(a, b, n + 1) <==> a[0] == b[0] && Before(a[1..], b[1..], n)
  {
    if n + 1 <= |a| && n + 1 < |b| {
      assert a[..n+1] == [a[0]] + a[1..][..n] && b[..n+1] == [b[0]] + b[1..][..n];
    }
  }

  /** Byte order: the first byte that differs decides, and a prefix comes first. */
  lemma {:induction false} ByteOrder(a: string, b: string)
    ensures Less(a, b) <==> exists n: nat :: Before(a, b, n)
    decreases |a|
  {
    if a == "" {
      assert b != "" ==> Before(a, b, 0);
    } else if b != "" {
      ByteOrder(a[1..], b[1..]);
      forall n: nat ensures Before(a, b, n + 1) <==> a[0] == b[0] && Before(a[1..], b[1..], n) { BeforeStep(a, b, n); }
      assert Before(a, b, 0) <==> a[0] < b[0];
      if a[0] == b[0] && Less(a[1..], b[1..]) {
        var n: nat :| Before(a[1..], b[1..], n);
        assert Before(a, b, n + 1);
      }
      forall n: nat | Before(a, b, n) && n > 0 ensures a[0] == b[0] && Less(a[1..], b[1..]) { BeforeStep(a, b, n - 1); }
    }
  }

  // ---- an object of the tables is its rows ----

  ghost predicate RowsOf(k: Kind, v: Val, rows: seq<Row>, d: nat)
    requires k.Object? && Typed(k, v)
  {
    |rows| == |v.fs| && forall i :: 0 <= i < |rows| ==> RowOf(k, v, i, rows[i], d)
  }

  ghost predicate RowOf(k: Kind, v: Val, i: nat, r: Row, d: nat)
    requires k.Object? && Typed(k, v) && i < |v.fs|
  {
    r.name == k.s.fields[i].name && r.written == Present(k.s.fields[i], v.fs[i]) && (r.written ==> r.text == Print(k.s.fields[i].kind, v.fs[i], d + 1))
  }

  lemma {:induction false} RowLinesAre(k: Kind, v: Val, rows: seq<Row>, i: nat, d: nat)
    requires k.Object? && Typed(k, v) && RowsOf(k, v, rows, d) && i <= |rows|
    ensures FieldLines(k, v, i, d + 1) == RowLines(rows[i..], d + 1)
    decreases |rows| - i
  {
    hide Print, Quoted, Pad, Present, Typed;
    if i < |rows| {
      assert RowOf(k, v, i, rows[i], d);
      assert rows[i..][0] == rows[i] && rows[i..][1..] == rows[i+1..];
      RowLinesAre(k, v, rows, i + 1, d);
      Writers.LinesPrinted(k, v, i, d + 1);
    }
  }

  lemma ObjectIsBraced(k: Kind, v: Val, rows: seq<Row>, d: nat)
    requires k.Object? && Typed(k, v) && RowsOf(k, v, rows, d) && rows != [] && rows[0].written
    ensures Print(k, v, d) == Braced(rows, d)
  {
    hide Quoted, Pad, FieldLines, Present, Typed;
    assert RowOf(k, v, 0, rows[0], d);
    RowLinesAre(k, v, rows, 1, d);
    FirstPrinted(k, v, d);
    Tail(LineOf(rows[0], d + 1), RowLines(rows[1..], d + 1), Pad(d), "}");
  }

  lemma FirstPrinted(k: Kind, v: Val, d: nat)
    requires k.Object? && Typed(k, v) && |v.fs| > 0
    ensures v.Obj? && |v.fs| == |k.s.fields| && Typed(k.s.fields[0].kind, v.fs[0])
    ensures Print(k, v, d) == "{\n" + (Pad(d + 1) + (Quoted(k.s.fields[0].name) + ": " + Print(k.s.fields[0].kind, v.fs[0], d + 1)))
      + FieldLines(k, v, 1, d + 1) + ("\n" + Pad(d) + "}")
  {
    hide Quoted, Pad, FieldLines;
  }

  lemma Tail(e: string, l: string, pad: string, shut: string)
    ensures "{\n" + e + l + ("\n" + pad + shut) == "{\n" + e + l + "\n" + pad + shut
  {
  }

  lemma {:induction false} ItemLinesAre(k: Kind, vs: seq<Val>, texts: seq<string>, d: nat)
    requires k.Many? && TypedAll(k.elem, vs) && |texts| == |vs|
    requires forall i :: 0 <= i < |vs| ==> texts[i] == Print(k.elem, vs[i], d)
    ensures ItemLines(k, vs, d) == ItemLinesOf(texts, d)
    decreases |vs|
  {
    hide Print, Pad, Typed;
    if vs != [] {
      ItemLinesAre(k, vs[1..], texts[1..], d);
      Assoc(",\n", Pad(d), texts[0]);
    }
  }

  lemma ListIsBracketed(k: Kind, v: Val, texts: seq<string>, d: nat)
    requires k.Many? && Typed(k, v) && |texts| == |v.vs|
    requires forall i :: 0 <= i < |texts| ==> Typed(k.elem, v.vs[i]) && texts[i] == Print(k.elem, v.vs[i], d + 1)
    ensures Print(k, v, d) == Bracketed(texts, d)
  {
    hide Pad, Closing, ItemLines;
    if texts != [] {
      Writers.ListPrinted(k, v, d);
      ItemLinesAre(k, v.vs[1..], texts[1..], d + 1);
      ListTail(Pad(d + 1), texts[0], ItemLinesOf(texts[1..], d + 1), Pad(d));
      ClosingIs(d, ']');
    }
  }

  lemma ClosingIs(d: nat, shut: char)
    ensures Closing(d, shut) == "\n" + Pad(d) + [shut]
  {
  }

  lemma ListTail(pad: string, e: string, l: string, p: string)
    ensures "[\n" + (pad + e) + (l + ("\n" + p + "]")) == "[\n" + pad + e + l + "\n" + p + "]"
  {
  }

  // ---- the messages ----

  function AttestationRows(a: Attestation): seq<Row> {
    [Row("by", Quoted(a.attester), true), Row("verified", YesNo(a.verified), true), Row("hop", Decimal.Num(a.hop as int), true),
     Row("program", Quoted(a.program), a.program != ""), Row("host", Quoted(a.host), a.host != ""),
     Row("user", Quoted(a.user), a.user != ""), Row("exe", Quoted(a.exe), a.exe != ""),
     Row("uid", Decimal.Num(a.uid as int), true), Row("gid", Decimal.Num(a.gid as int), true), Row("pid", Decimal.Num(a.pid as int), true),
     Row("key", Quoted(a.key), a.key != ""), Row("mac", Quoted(a.mac), a.mac != "")]
  }

  function AttestationText(a: Attestation, d: nat): string { Braced(AttestationRows(a), d) }

  function IdentityText(xs: seq<Attestation>, d: nat): string {
    Bracketed(seq(|xs|, i requires 0 <= i < |xs| => AttestationText(xs[i], d + 1)), d)
  }

  function AttrsText(m: map<string, string>, d: nat): string {
    var ks := SortedKeys(m.Keys);
    if ks == [] then "{}" else
      assert forall k :: k in ks ==> k in m;
      Braced(seq(|ks|, i requires 0 <= i < |ks| => Row(ks[i], Quoted(m[ks[i]]), true)), d)
  }

  function RecordRows(r: Record, d: nat): seq<Row> {
    [Row("schema", Decimal.Num(r.schema as int), true), Row("time", Quoted(Normalized(r.time)), true),
     Row("level", Decimal.Num(r.level as int), true), Row("msg", Quoted(r.msg), true),
     Row("identity", IdentityText(r.identity, d + 1), r.identity != []), Row("job", Quoted(r.job), r.job != ""),
     Row("attrs", AttrsText(r.attrs, d + 1), r.attrs != map[])]
  }

  function RecordText(r: Record, d: nat): string { Braced(RecordRows(r, d), d) }

  function RecordTexts(rs: seq<Record>, d: nat): (ts: seq<string>)
    ensures |ts| == |rs|
  {
    seq(|rs|, i requires 0 <= i < |rs| => RecordText(rs[i], d))
  }

  function PageRows(p: Page, d: nat): seq<Row> {
    [Row("outcome", Quoted(p.outcome), true),
     Row("records", Bracketed(RecordTexts(p.records, d + 2), d + 1), true),
     Row("next", Quoted(p.next), true), Row("at_end", YesNo(p.atEnd), true)]
  }

  function PageText(p: Page, d: nat): string { Braced(PageRows(p, d), d) }

  lemma AttestationPrinted(a: Attestation, d: nat)
    ensures Print(AttestationKind(), AttestationVal(a), d) == AttestationText(a, d)
  {
    hide Quoted, Pad, Decimal.Num, Braced, Print, Typed, RowOf, AttestationVal;
    var k, v, rows := AttestationKind(), AttestationVal(a), AttestationRows(a);
    AttestationLayout(a);
    FirstRows(a, d);
    LastRows(a, d);
    forall i | 0 <= i < 12 ensures RowOf(k, v, i, rows[i], d) { assert i < 6 || i >= 6; }
    ObjectIsBraced(k, v, rows, d);
  }

  lemma FirstRows(a: Attestation, d: nat)
    ensures Typed(AttestationKind(), AttestationVal(a)) && |AttestationVal(a).fs| == 12
    ensures forall i :: 0 <= i < 6 ==> RowOf(AttestationKind(), AttestationVal(a), i, AttestationRows(a)[i], d)
  {
    hide Quoted, Decimal.Num, Print, Typed, RowOf, AttestationVal;
    AttestationLayout(a);
    TextRow(a, 0, d);
    OtherRow(a, 1, d);
    OtherRow(a, 2, d);
    TextRow(a, 3, d);
    TextRow(a, 4, d);
    TextRow(a, 5, d);
  }

  lemma LastRows(a: Attestation, d: nat)
    ensures Typed(AttestationKind(), AttestationVal(a)) && |AttestationVal(a).fs| == 12
    ensures forall i :: 6 <= i < 12 ==> RowOf(AttestationKind(), AttestationVal(a), i, AttestationRows(a)[i], d)
  {
    hide Quoted, Decimal.Num, Print, Typed, RowOf, AttestationVal;
    AttestationLayout(a);
    TextRow(a, 6, d);
    OtherRow(a, 7, d);
    OtherRow(a, 8, d);
    OtherRow(a, 9, d);
    TextRow(a, 10, d);
    TextRow(a, 11, d);
  }

  lemma TextRow(a: Attestation, i: nat, d: nat)
    requires i in [0, 3, 4, 5, 6, 10, 11]
    ensures Typed(AttestationKind(), AttestationVal(a)) && |AttestationVal(a).fs| == 12
    ensures RowOf(AttestationKind(), AttestationVal(a), i, AttestationRows(a)[i], d)
  {
    hide Quoted, Decimal.Num, Print, Typed, RowOf, AttestationVal;
    var k, v := AttestationKind(), AttestationVal(a);
    AttestationLayout(a);
    FieldTyped(k, v, i);
    LeafPrinted(k.s.fields[i].kind, v.fs[i], d + 1);
    LeafRow(k, v, i, AttestationRows(a)[i], d);
  }

  lemma OtherRow(a: Attestation, i: nat, d: nat)
    requires i in [1, 2, 7, 8, 9]
    ensures Typed(AttestationKind(), AttestationVal(a)) && |AttestationVal(a).fs| == 12
    ensures RowOf(AttestationKind(), AttestationVal(a), i, AttestationRows(a)[i], d)
  {
    hide Quoted, Decimal.Num, Print, Typed, RowOf, AttestationVal;
    var k, v := AttestationKind(), AttestationVal(a);
    AttestationLayout(a);
    FieldTyped(k, v, i);
    LeafPrinted(k.s.fields[i].kind, v.fs[i], d + 1);
    LeafRow(k, v, i, AttestationRows(a)[i], d);
  }

  /** A field that is a string, a number or a flag, as a row. */
  lemma LeafRow(k: Kind, v: Val, i: nat, r: Row, d: nat)
    requires k.Object? && Typed(k, v) && i < |v.fs| && |v.fs| == |k.s.fields| && Typed(k.s.fields[i].kind, v.fs[i])
    requires r.name == k.s.fields[i].name && r.text == Print(k.s.fields[i].kind, v.fs[i], d + 1)
    requires r.written == (k.s.fields[i].required || v.fs[i] != Zero(k.s.fields[i].kind))
    ensures RowOf(k, v, i, r, d)
  {
    hide Print, Typed;
  }

  lemma AttestationLayout(a: Attestation)
    ensures AttestationVal(a).Obj? && AttestationVal(a).fs == [Str(a.attester), Bool(a.verified), Schema.Num(a.hop as int), Str(a.program),
      Str(a.host), Str(a.user), Str(a.exe), Schema.Num(a.uid as int), Schema.Num(a.gid as int), Schema.Num(a.pid as int), Str(a.key), Str(a.mac)]
  {
    hide Typed;
  }

  lemma FieldTyped(k: Kind, v: Val, i: nat)
    requires k.Object? && Typed(k, v) && i < |v.fs|
    ensures |v.fs| == |k.s.fields| && Typed(k.s.fields[i].kind, v.fs[i])
  {
  }

  lemma LeafPrinted(k: Kind, v: Val, d: nat)
    requires Typed(k, v)
    ensures k.Text? ==> v.Str? && Print(k, v, d) == Quoted(v.s)
    ensures k.Time? ==> v.Str? && Print(k, v, d) == Quoted(Normalized(v.s))
    ensures k.Raw? ==> v.Str? && Print(k, v, d) == v.s
    ensures k.Int? ==> v.Num? && Print(k, v, d) == Decimal.Num(v.n)
    ensures k.Flag? ==> v.Bool? && Print(k, v, d) == YesNo(v.b)
    ensures k.Pairs? ==> v.Map? && Print(k, v, d) == PrintPairs(v.m, d)
  {
    hide Quoted, Normalized, PrintPairs, Decimal.Num;
  }

  lemma IdentityPrinted(xs: seq<Attestation>, d: nat)
    ensures Typed(Many(AttestationKind()), List(AttestationVals(xs)))
    ensures Print(Many(AttestationKind()), List(AttestationVals(xs)), d) == IdentityText(xs, d)
  {
    hide AttestationKind, AttestationVal, AttestationVals, AttestationText, Print, Bracketed;
    var vs := AttestationVals(xs);
    var texts := seq(|xs|, i requires 0 <= i < |xs| => AttestationText(xs[i], d + 1));
    forall i | 0 <= i < |xs| ensures Typed(AttestationKind(), vs[i]) && texts[i] == Print(AttestationKind(), vs[i], d + 1) {
      AttestationAt(xs, i);
      AttestationPrinted(xs[i], d + 1);
    }
    ListIsBracketed(Many(AttestationKind()), List(vs), texts, d);
  }

  lemma {:induction false} PairLinesAre(ks: seq<string>, m: map<string, string>, d: nat)
    requires forall k :: k in ks ==> k in m
    ensures PairLines(ks, m, d) == RowLines(PairRows(ks, m), d)
  {
    hide Quoted, Pad;
    if ks != [] {
      assert ks[0] in ks && forall k :: k in ks[1..] ==> k in ks;
      PairLinesAre(ks[1..], m, d);
      assert PairRows(ks, m)[1..] == PairRows(ks[1..], m);
    }
  }

  function PairRows(ks: seq<string>, m: map<string, string>): seq<Row>
    requires forall k :: k in ks ==> k in m
  {
    seq(|ks|, i requires 0 <= i < |ks| => assert ks[i] in ks; Row(ks[i], Quoted(m[ks[i]]), true))
  }

  /** What is printed between the braces of a map that is not empty. */
  lemma PairsPrinted(m: map<string, string>, ks: seq<string>, d: nat)
    requires ks == SortedKeys(m.Keys) && ks != []
    ensures forall k :: k in ks ==> k in m
    ensures PrintPairs(m, d) == "{\n" + LineOf(Row(ks[0], Quoted(m[ks[0]]), true), d + 1) + PairLines(ks[1..], m, d + 1) + Closing(d, '}')
  {
    hide Quoted, Pad, Closing, PairLines, SortedKeys;
    KeysThere(m);
    PairsSpelled(m, d);
  }

  lemma PairsSpelled(m: map<string, string>, d: nat)
    requires SortedKeys(m.Keys) != []
    ensures SortedKeys(m.Keys)[0] in m
    ensures var ks := SortedKeys(m.Keys);
      PrintPairs(m, d) == "{\n" + (Pad(d + 1) + (Quoted(ks[0]) + ": " + Quoted(m[ks[0]]))) + PairLines(ks[1..], m, d + 1) + Closing(d, '}')
  {
    hide Quoted, Pad, Closing, PairLines;
  }

  lemma KeysThere(m: map<string, string>)
    ensures forall k :: k in SortedKeys(m.Keys) ==> k in m
  {
  }

  lemma AttrsBraced(m: map<string, string>, d: nat)
    ensures forall k :: k in SortedKeys(m.Keys) ==> k in m
    ensures AttrsText(m, d) == if SortedKeys(m.Keys) == [] then "{}" else Braced(PairRows(SortedKeys(m.Keys), m), d)
  {
    hide Quoted, Pad, Braced, SortedKeys;
    KeysThere(m);
    if SortedKeys(m.Keys) != [] {
      var ks := SortedKeys(m.Keys);
      assert seq(|ks|, i requires 0 <= i < |ks| => Row(ks[i], Quoted(m[ks[i]]), true)) == PairRows(ks, m);
    }
  }

  lemma AttrsPrinted(m: map<string, string>, d: nat)
    ensures PrintPairs(m, d) == AttrsText(m, d)
  {
    hide Quoted, Pad, PairLines, LineOf, Closing, RowLines, AttrsText, PrintPairs, SortedKeys;
    var ks := SortedKeys(m.Keys);
    AttrsBraced(m, d);
    if ks == [] {
      NothingPrinted(m, d);
    } else {
      PairsPrinted(m, ks, d);
      var rows := PairRows(ks, m);
      PairLinesAre(ks[1..], m, d + 1);
      assert rows[1..] == PairRows(ks[1..], m);
      ClosingIs(d, '}');
      Tail(LineOf(rows[0], d + 1), RowLines(rows[1..], d + 1), Pad(d), "}");
    }
  }

  lemma NothingPrinted(m: map<string, string>, d: nat)
    requires SortedKeys(m.Keys) == []
    ensures PrintPairs(m, d) == "{}"
  {
  }

  lemma NoAttrs(m: map<string, string>)
    ensures m == map[] <==> m.Keys == {}
  {
  }

  lemma RecordPrinted(r: Record, d: nat)
    ensures Print(RecordKind(), RecordVal(r), d) == RecordText(r, d)
  {
    hide Quoted, Pad, Decimal.Num, Braced, Print, Typed, Normalized, AttestationKind, AttestationVals, PrintPairs, IdentityText, AttrsText, RecordVal;
    var k, v, rows := RecordKind(), RecordVal(r), RecordRows(r, d);
    RecordLayout(r);
    IdentityPrinted(r.identity, d + 1);
    AttrsPrinted(r.attrs, d + 1);
    IdentityPresent(r.identity);
    forall i | 0 <= i < 7 ensures RowOf(k, v, i, rows[i], d) {
      FieldTyped(k, v, i);
      LeafPrinted(k.s.fields[i].kind, v.fs[i], d + 1);
    }
    ObjectIsBraced(k, v, rows, d);
  }

  lemma IdentityPresent(xs: seq<Attestation>)
    ensures List(AttestationVals(xs)) == Zero(Many(AttestationKind())) <==> xs == []
  {
    hide AttestationKind, AttestationVal;
  }

  /** `Encode`: the record's text, name by name, and a line feed. */
  lemma EncodedText(r: Record)
    requires Encodable(r)
    ensures Encode(r) == Given(RecordText(r, 0) + "\n")
  {
    hide Normalized, Print;
    RecordPrinted(r, 0);
  }

  lemma RecordsPrinted(rs: seq<Record>, d: nat)
    ensures Typed(Many(RecordKind()), List(RecordVals(rs)))
    ensures Print(Many(RecordKind()), List(RecordVals(rs)), d) == Bracketed(RecordTexts(rs, d + 1), d)
  {
    hide RecordKind, RecordVal, RecordVals, RecordText, Print, Bracketed;
    var vs := RecordVals(rs);
    var texts := RecordTexts(rs, d + 1);
    forall i | 0 <= i < |rs| ensures Typed(RecordKind(), vs[i]) && texts[i] == Print(RecordKind(), vs[i], d + 1) {
      RecordAt(rs, i);
      RecordPrinted(rs[i], d + 1);
    }
    ListIsBracketed(Many(RecordKind()), List(vs), texts, d);
  }

  lemma PagePrinted(p: Page, d: nat)
    ensures Print(PageKind(), PageVal(p), d) == PageText(p, d)
  {
    hide Quoted, Pad, Braced, Print, Typed, RecordKind, RecordVals, RecordTexts, Bracketed;
    var k, v, rows := PageKind(), PageVal(p), PageRows(p, d);
    RecordsPrinted(p.records, d + 1);
    assert |v.fs| == 4;
    forall i | 0 <= i < 4 ensures RowOf(k, v, i, rows[i], d) {
      FieldTyped(k, v, i);
      LeafPrinted(k.s.fields[i].kind, v.fs[i], d + 1);
    }
    ObjectIsBraced(k, v, rows, d);
  }

  // ---- arguments, frames and replies ----

  lemma WritePrinted(r: Record, d: nat)
    ensures Print(WriteArguments(), WriteVal(r), d) == Braced([Row("record", RecordText(r, d + 1), true)], d)
  {
    hide Quoted, Pad, Braced, RecordKind, RecordVal, RecordText, Print, Typed;
    var k, v, rows := WriteArguments(), WriteVal(r), [Row("record", RecordText(r, d + 1), true)];
    RecordPrinted(r, d + 1);
    assert |v.fs| == 1;
    assert RowOf(k, v, 0, rows[0], d);
    ObjectIsBraced(k, v, rows, d);
  }

  lemma ReadPrinted(cursor: string, maxRecords: int64, maxBytes: int64, d: nat)
    ensures Print(ReadArguments(), ReadVal(cursor, maxRecords, maxBytes), d) ==
      Braced([Row("cursor", Quoted(cursor), true), Row("max_records", Decimal.Num(maxRecords as int), true),
        Row("max_bytes", Decimal.Num(maxBytes as int), true)], d)
  {
    hide Quoted, Pad, Decimal.Num, Braced, Print, Typed;
    var k, v := ReadArguments(), ReadVal(cursor, maxRecords, maxBytes);
    var rows := [Row("cursor", Quoted(cursor), true), Row("max_records", Decimal.Num(maxRecords as int), true),
      Row("max_bytes", Decimal.Num(maxBytes as int), true)];
    assert |v.fs| == 3;
    forall i | 0 <= i < 3 ensures RowOf(k, v, i, rows[i], d) {
      FieldTyped(k, v, i);
      LeafPrinted(k.s.fields[i].kind, v.fs[i], d + 1);
    }
    ObjectIsBraced(k, v, rows, d);
  }

  lemma ResultPrinted(p: Page, d: nat)
    ensures Print(ReadResult(), ResultVal(p), d) == Braced([Row("value", PageText(p, d + 1), true)], d)
  {
    hide Quoted, Pad, Braced, PageKind, PageVal, PageText, Print, Typed;
    var k, v, rows := ReadResult(), ResultVal(p), [Row("value", PageText(p, d + 1), true)];
    PagePrinted(p, d + 1);
    assert |v.fs| == 1;
    assert RowOf(k, v, 0, rows[0], d);
    ObjectIsBraced(k, v, rows, d);
  }

  lemma ErrorPrinted(code: string, message: string, d: nat)
    ensures Print(ErrorKind(), ErrorVal(code, message), d) == Braced([Row("code", Quoted(code), true), Row("message", Quoted(message), true)], d)
  {
    hide Quoted, Pad, Braced, Print, Typed;
    var k, v, rows := ErrorKind(), ErrorVal(code, message), [Row("code", Quoted(code), true), Row("message", Quoted(message), true)];
    assert |v.fs| == 2;
    forall i | 0 <= i < 2 ensures RowOf(k, v, i, rows[i], d) {
      FieldTyped(k, v, i);
      LeafPrinted(k.s.fields[i].kind, v.fs[i], d + 1);
    }
    ObjectIsBraced(k, v, rows, d);
  }

  function FrameLayout(service: string, name: string, arguments: string): string {
    Braced([Row("version", "1", true), Row("service", Quoted(service), true), Row("method", Quoted(name), true),
      Row("arguments", arguments, true)], 0)
  }

  function ReplyLayout(service: string, name: string, ok: bool, payload: string): string {
    Braced([Row("version", "1", true), Row("service", Quoted(service), true), Row("method", Quoted(name), true),
      Row("ok", YesNo(ok), true), Row("payload", payload, true)], 0)
  }

  /** The envelope of a call, version 1. */
  lemma FrameWritten(service: string, name: string, arguments: string)
    ensures FrameText(service, name, arguments) == FrameLayout(service, name, arguments)
  {
    hide Quoted, Pad, Braced, Print, Typed;
    var k, v := FrameKind(Raw), FrameVal(service, name, Str(arguments));
    EnvelopeTyped(service, name, true, Raw, Str(arguments));
    var rows := [Row("version", "1", true), Row("service", Quoted(service), true), Row("method", Quoted(name), true),
      Row("arguments", arguments, true)];
    NumOne();
    forall i | 0 <= i < 4 ensures RowOf(k, v, i, rows[i], 0) {
      FieldTyped(k, v, i);
      LeafPrinted(k.s.fields[i].kind, v.fs[i], 1);
    }
    ObjectIsBraced(k, v, rows, 0);
  }

  lemma NumOne()
    ensures Decimal.Num(1) == "1"
  {
    assert Digits(0) == "" && Digits(1) == Digits(0) + [DigitChar(1)];
  }

  lemma ReplyWritten(service: string, name: string, ok: bool, payload: string)
    ensures ReplyText(service, name, ok, payload) == ReplyLayout(service, name, ok, payload)
  {
    hide Quoted, Pad, Braced, Print, Typed;
    var k, v := ReplyKind(Raw), ReplyVal(service, name, ok, Str(payload));
    EnvelopeTyped(service, name, ok, Raw, Str(payload));
    var rows := [Row("version", "1", true), Row("service", Quoted(service), true), Row("method", Quoted(name), true),
      Row("ok", YesNo(ok), true), Row("payload", payload, true)];
    NumOne();
    forall i | 0 <= i < 5 ensures RowOf(k, v, i, rows[i], 0) {
      FieldTyped(k, v, i);
      LeafPrinted(k.s.fields[i].kind, v.fs[i], 1);
    }
    ObjectIsBraced(k, v, rows, 0);
  }

  /** What the sink's client hands to its transport. */
  lemma SentText(r: Record)
    requires Sent(r).Good?
    ensures Sent(r).value == FrameLayout("abstraction.logging/sink@1", "Write", Braced([Row("record", RecordText(r, 2), true)], 1))
  {
    hide Quoted, Pad, Braced, RecordText, Print, WriteArguments, WriteVal, Typed, Posted, FrameLayout, FrameText;
    NamesAreSane();
    PostedExactly(WriteArguments(), WriteVal(r), SINK, "Write");
    WritePrinted(r, 1);
    FrameWritten(SINK, "Write", Print(WriteArguments(), WriteVal(r), 1));
  }

  /** The code a dispatcher tells of an error: the handler's own or a stand-in, the dispatcher's word, or the
      codec's word for what it refused. */
  ghost predicate Tells(f: Fault, code: string) {
    match f
    case Failed(c, _) => if c == "" then code == "handler_error" else code == c
    case Dispatch(c) => code == c
    case Wire(w, _) =>
      && (w == Malformed ==> code == "malformed") && (w == BadString ==> code == "bad_string")
      && (w == NumberSpelling ==> code == "number_spelling") && (w == WrongType ==> code == "wrong_type")
      && (w == BadTimestamp ==> code == "bad_timestamp") && (w == DepthExceeded ==> code == "depth_exceeded")
      && (w == DuplicateField ==> code == "duplicate_field") && (w == UnknownField ==> code == "unknown_field")
      && (w == MissingField ==> code == "missing_field") && (w == BadSchema ==> code == "bad_schema")
      && (w == BadEnum ==> code == "bad_enum") && (w == TrailingBytes ==> code == "trailing_bytes")
  }

  lemma TellsIs(f: Fault)
    ensures Tells(f, Code(f))
  {
  }

  /** An error's reply, written out: not well, its code, and the handler's message or none. */
  lemma ErrorReplyText(service: string, name: string, f: Fault)
    requires Replied(service, name, Fail(f)).Good?
    ensures Tells(f, Code(f))
    ensures Replied(service, name, Fail(f)).value == ReplyLayout(service, name, false,
      Braced([Row("code", Quoted(Code(f)), true), Row("message", Quoted(if f.Failed? then f.message else ""), true)], 1))
  {
    hide Quoted, Pad, Braced, Print, Typed, Code, Tells, ReplyText, ReplyLayout, Parse, ReplyKind, ErrorKind;
    TellsIs(f);
    ErrorPrinted(Code(f), Message(f), 1);
    ReplyWritten(service, name, false, Print(ErrorKind(), ErrorVal(Code(f), Message(f)), 1));
  }
}
