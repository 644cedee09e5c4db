/** The encoders: each appends its text to the bytes written so far. */
module Writers {
  import opened Decimal
  import opened Timestamp
  import opened Lexer
  import opened Schema
  import opened Printer
  import opened Readers
  import opened RoundTrip

  lemma EscapedStep(out: string, s: string, i: nat)
    requires i < |s|
    ensures out + Escaped(s[i..]) == out + EscByte(s[i]) + Escaped(s[i+1..])
  {
    assert s[i..][1..] == s[i+1..];
    Assoc(out, EscByte(s[i]), Escaped(s[i+1..]));
  }

  /** `esc`: byte by byte. */
  method Esc(out: string, s: string) returns (r: string)
    ensures r == out + Quoted(s)
  {
    r := out + "\"";
    assert s[0..] == s;
    for i := 0 to |s|
      invariant r + Escaped(s[i..]) == out + "\"" + Escaped(s)
    {
      EscapedStep(r, s, i);
      r := r + EscByte(s[i]);
    }
    assert s[|s|..] == "";
    r := r + "\"";
    Assoc(out, "\"" + Escaped(s), "\"");
    Assoc(out, "\"", Escaped(s));
  }

  lemma MoreFollows(out: string, e: string, e': string, l: string, c: string)
    ensures out + (e + (",\n" + e' + l) + c) == out + e + "," + "\n" + (e' + l + c)
  {
  }

  lemma LastFollows(out: string, e: string, pad: string, c: string)
    ensures out + (e + "" + ("\n" + pad + c)) == out + e + "" + "\n" + (pad + c)
  {
  }

  lemma EntryParts(out: string, pad: string, q: string, v: string)
    ensures out + (pad + (q + ": " + v)) == out + pad + q + ": " + v
  {
  }

  /** What is still to be written of a map whose keys before i are written. */
  ghost function PairsLeft(ks: seq<string>, m: map<string, string>, i: nat, depth: nat): string
    requires i <= |ks| && forall k :: k in ks ==> k in m
  {
    if i == |ks| then Pad(depth) + "}" else
      assert ks[i] in ks && forall k :: k in ks[i+1..] ==> k in ks;
      Entry(ks[i], Quoted(m[ks[i]]), depth + 1) + PairLines(ks[i+1..], m, depth + 1) + Closing(depth, '}')
  }

  lemma PairsStep(out: string, ks: seq<string>, m: map<string, string>, i: nat, depth: nat)
    requires i < |ks| && forall k :: k in ks ==> k in m
    ensures ks[i] in m
    ensures out + PairsLeft(ks, m, i, depth) ==
      out + Pad(depth + 1) + Quoted(ks[i]) + ": " + Quoted(m[ks[i]]) + (if i + 1 < |ks| then "," else "") + "\n" + PairsLeft(ks, m, i + 1, depth)
  {
    hide Quoted, Pad;
    assert ks[i] in ks && forall k :: k in ks[i+1..] ==> k in ks;
    var e := Entry(ks[i], Quoted(m[ks[i]]), depth + 1);
    EntryParts(out, Pad(depth + 1), Quoted(ks[i]), Quoted(m[ks[i]]));
    if i + 1 < |ks| {
      assert ks[i+1..][1..] == ks[i+2..];
      MoreFollows(out, e, Entry(ks[i+1], Quoted(m[ks[i+1]]), depth + 1), PairLines(ks[i+2..], m, depth + 1), Closing(depth, '}'));
    } else {
      LastFollows(out, e, Pad(depth), "}");
    }
  }

  /** `strmap`. */
  method StrMap(out: string, m: map<string, string>, depth: nat) returns (r: string)
    ensures r == out + PrintPairs(m, depth)
  {
    hide PairsLeft, PrintPairs, Quoted, Pad;
    var keys := KeysInOrder(m);
    PairsEnd(keys, m, depth);
    if keys == [] { return out + "{}"; }
    r := out + "{\n";
    PairsBegin(out, keys, m, depth);
    for i := 0 to |keys|
      invariant r + PairsLeft(keys, m, i, depth) == out + PrintPairs(m, depth)
    {
      PairsStep(r, keys, m, i, depth);
      r := r + Pad(depth + 1);
      r := Esc(r, keys[i]);
      r := r + ": ";
      r := Esc(r, m[keys[i]]);
      if i + 1 < |keys| { r := r + ","; }
      r := r + "\n";
    }
    Assoc(r, Pad(depth), "}");
    r := r + Pad(depth) + "}";
  }

  lemma PairsEnd(ks: seq<string>, m: map<string, string>, depth: nat)
    requires ks == SortedKeys(m.Keys)
    ensures (forall k :: k in ks ==> k in m) && PairsLeft(ks, m, |ks|, depth) == Pad(depth) + "}"
    ensures ks == [] ==> PrintPairs(m, depth) == "{}"
  {
    hide Pad;
  }

  lemma PairsBegin(out: string, ks: seq<string>, m: map<string, string>, depth: nat)
    requires ks == SortedKeys(m.Keys) && ks != []
    ensures (forall k :: k in ks ==> k in m) && out + "{\n" + PairsLeft(ks, m, 0, depth) == out + PrintPairs(m, depth)
  {
    hide Quoted, Entry, PairLines, Closing, SortedKeys;
    assert ks[0] in ks && forall k :: k in ks[1..] ==> k in ks;
    var e, l, c := Entry(ks[0], Quoted(m[ks[0]]), depth + 1), PairLines(ks[1..], m, depth + 1), Closing(depth, '}');
    Opened(out, e, l, c);
  }

  lemma Opened(out: string, e: string, l: string, c: string)
    ensures out + "{\n" + (e + l + c) == out + ("{\n" + e + l + c)
  {
  }

  // ---- every kind ----

  /** An encoder's answer: the text, or the word it panics with before anything is visible. */
  predicate Wrote(a: Answer<string>, k: Kind, v: Val, out: string, depth: nat)
    requires Typed(k, v)
  {
    a == if Blocked(k, v) != [] then Refusal(Blocked(k, v)[0], 0) else Given(out + Print(k, v, depth))
  }

  method Write(k: Kind, v: Val, out: string, depth: nat) returns (a: Answer<string>)
    requires WfKind(k) && Typed(k, v)
    ensures Wrote(a, k, v, out, depth)
    decreases k, 1
  {
    match k {
      case Text => var r := Esc(out, v.s); a := Given(r);
      case Raw => a := Given(out + v.s);
      case Time =>
        var t := NormalizedTimestamp(v.s);
        if t == "" { return Refusal(BadTimestamp, 0); }
        var r := Esc(out, t);
        a := Given(r);
      case Int(min, max) => var r := AppendNum(out, v.n as int64); a := Given(r);
      case Flag => a := Given(out + if v.b then "true" else "false");
      case Pairs => var r := StrMap(out, v.m, depth); a := Given(r);
      case Many(_) => a := EncList(k, v, out, depth);
      case Object(_) => a := EncObject(k, v, out, depth);
    }
  }

  ghost function ItemsLeft(k: Kind, vs: seq<Val>, i: nat, depth: nat): string
    requires k.Many? && TypedAll(k.elem, vs) && i <= |vs|
  {
    if i == |vs| then Pad(depth) + "]" else
      assert forall x :: x in vs[i+1..] ==> x in vs;
      Pad(depth + 1) + Print(k.elem, vs[i], depth + 1) + ItemLines(k, vs[i+1..], depth + 1) + Closing(depth, ']')
  }

  lemma ItemsStep(out: string, k: Kind, vs: seq<Val>, i: nat, depth: nat)
    requires k.Many? && TypedAll(k.elem, vs) && i < |vs|
    ensures Typed(k.elem, vs[i])
    ensures out + ItemsLeft(k, vs, i, depth) ==
      out + Pad(depth + 1) + Print(k.elem, vs[i], depth + 1) + (if i + 1 < |vs| then "," else "") + "\n" + ItemsLeft(k, vs, i + 1, depth)
  {
    hide Print, Pad, Typed;
    assert vs[i] in vs && forall x :: x in vs[i+1..] ==> x in vs;
    var e := Pad(depth + 1) + Print(k.elem, vs[i], depth + 1);
    Assoc(out, Pad(depth + 1), Print(k.elem, vs[i], depth + 1));
    if i + 1 < |vs| {
      assert vs[i+1..][1..] == vs[i+2..] && vs[i+1..][0] == vs[i+1];
      assert vs[i+1] in vs && forall x :: x in vs[i+2..] ==> x in vs;
      MoreFollows(out, e, Pad(depth + 1) + Print(k.elem, vs[i+1], depth + 1), ItemLines(k, vs[i+2..], depth + 1), Closing(depth, ']'));
    } else {
      LastFollows(out, e, Pad(depth), "]");
    }
  }

  lemma ItemsBegin(out: string, k: Kind, v: Val, depth: nat)
    requires k.Many? && Typed(k, v) && v.vs != []
    ensures TypedAll(k.elem, v.vs) && out + "[\n" + ItemsLeft(k, v.vs, 0, depth) == out + Print(k, v, depth)
  {
    hide Pad, Print, ItemLines, Closing;
    var rest := ItemLines(k, v.vs[1..], depth + 1) + Closing(depth, ']');
    ListPrinted(k, v, depth);
    var item := Pad(depth + 1) + Print(k.elem, v.vs[0], depth + 1);
    Assoc(item, ItemLines(k, v.vs[1..], depth + 1), Closing(depth, ']'));
    Assoc(out, "[\n", item + rest);
    Assoc("[\n", item, rest);
  }

  lemma ListPrinted(k: Kind, v: Val, depth: nat)
    requires k.Many? && Typed(k, v) && v.vs != []
    ensures TypedAll(k.elem, v.vs) && TypedAll(k.elem, v.vs[1..]) && Typed(k.elem, v.vs[0])
    ensures Print(k, v, depth) ==
      "[\n" + (Pad(depth + 1) + Print(k.elem, v.vs[0], depth + 1)) + (ItemLines(k, v.vs[1..], depth + 1) + Closing(depth, ']'))
  {
    hide Pad, Closing, ItemLines;
    Assoc("[\n" + (Pad(depth + 1) + Print(k.elem, v.vs[0], depth + 1)), ItemLines(k, v.vs[1..], depth + 1), Closing(depth, ']'));
  }

  /** What the elements from i on have to say about a refusal. */
  lemma BlockedTail(k: Kind, vs: seq<Val>, i: nat)
    requires k.Many? && TypedAll(k.elem, vs) && i < |vs|
    ensures TypedAll(k.elem, vs[i..]) && TypedAll(k.elem, vs[i+1..]) && Typed(k.elem, vs[i])
    ensures BlockedIn(k, vs[i..]) == if Blocked(k.elem, vs[i]) != [] then Blocked(k.elem, vs[i]) else BlockedIn(k, vs[i+1..])
  {
    hide Blocked, Typed;
    assert forall x :: x in vs[i..] ==> x in vs;
    assert vs[i] in vs && vs[i..][0] == vs[i] && vs[i..][1..] == vs[i+1..];
  }

  /** `encList`. */
  method EncList(k: Kind, v: Val, out: string, depth: nat) returns (a: Answer<string>)
    requires k.Many? && WfKind(k) && Typed(k, v)
    ensures Wrote(a, k, v, out, depth)
    decreases k, 0
  {
    hide ItemsLeft, Pad, Typed, Print, ItemLines, Blocked, BlockedIn, WfKind;
    ListIs(k, v, depth);
    if v.vs == [] { return Given(out + "[]"); }
    var r := out + "[\n";
    ItemsBegin(out, k, v, depth);
    assert v.vs[0..] == v.vs;
    for i := 0 to |v.vs|
      invariant TypedAll(k.elem, v.vs[i..]) && BlockedIn(k, v.vs[i..]) == Blocked(k, v)
      invariant r + ItemsLeft(k, v.vs, i, depth) == out + Print(k, v, depth)
    {
      BlockedTail(k, v.vs, i);
      ItemsStep(r, k, v.vs, i, depth);
      r := r + Pad(depth + 1);
      var e := Write(k.elem, v.vs[i], r, depth + 1);
      if e.Refusal? { return e; }
      r := e.value;
      if i + 1 < |v.vs| { r := r + ","; }
      r := r + "\n";
    }
    NoItemsLeft(k, v.vs, depth);
    Assoc(r, Pad(depth), "]");
    a := Given(r + Pad(depth) + "]");
  }

  lemma ListIs(k: Kind, v: Val, depth: nat)
    requires k.Many? && WfKind(k) && Typed(k, v)
    ensures WfKind(k.elem) && v.List? && TypedAll(k.elem, v.vs) && Blocked(k, v) == BlockedIn(k, v.vs)
    ensures v.vs == [] ==> Print(k, v, depth) == "[]" && Blocked(k, v) == []
  {
  }

  lemma NoItemsLeft(k: Kind, vs: seq<Val>, depth: nat)
    requires k.Many? && TypedAll(k.elem, vs)
    ensures ItemsLeft(k, vs, |vs|, depth) == Pad(depth) + "]" && BlockedIn(k, vs[|vs|..]) == []
  {
  }

  /** The encoder of a struct: its rule, then the fields that are present, in table order. */
  method EncObject(k: Kind, v: Val, out: string, depth: nat) returns (a: Answer<string>)
    requires k.Object? && WfKind(k) && Typed(k, v)
    ensures Wrote(a, k, v, out, depth)
    decreases k, 0
  {
    hide Pad, Quoted, Present, FieldLines, Blocked, BlockedFrom, Print, Typed, WfKind;
    ObjectIs(k, v, 0);
    RuleFirst(k, v);
    if !Obeys(k.s.rule, v.fs[0]) { return Refusal(if k.s.rule.Equals? then BadSchema else BadEnum, 0); }
    var r := out + "{";
    FieldsBegin(out, k, v, depth);
    for i := 0 to |v.fs|
      invariant BlockedFrom(k, v, i) == Blocked(k, v)
      invariant r + (if i == 0 then Print(k, v, depth)[1..] else FieldLines(k, v, i, depth + 1) + Closing(depth, '}')) == out + Print(k, v, depth)
    {
      ObjectIs(k, v, i);
      FieldsStep(r, k, v, i, depth);
      var f := k.s.fields[i];
      if Present(f, v.fs[i]) {
        if i > 0 { r := r + ","; }
        r := r + "\n" + Pad(depth + 1);
        r := Esc(r, f.name);
        r := r + ": ";
        var e := Write(f.kind, v.fs[i], r, depth + 1);
        if e.Refusal? { return e; }
        r := e.value;
      }
    }
    ObjectEnds(r, k, v, depth);
    a := Given(r + "\n" + Pad(depth) + "}");
  }

  lemma ObjectIs(k: Kind, v: Val, i: nat)
    requires k.Object? && WfKind(k) && Typed(k, v)
    ensures v.Obj? && |v.fs| == |k.s.fields| > 0
    ensures i < |v.fs| ==> WfKind(k.s.fields[i].kind) && Typed(k.s.fields[i].kind, v.fs[i])
    ensures i < |v.fs| && !Present(k.s.fields[i], v.fs[i]) ==> i > 0 && Blocked(k.s.fields[i].kind, v.fs[i]) == []
  {
    if i < |v.fs| {
      assert k.s.fields[i] in k.s.fields;
      if Optional(k.s.fields[i].kind) { AbsentUnblocked(k.s.fields[i].kind, v.fs[i]); }
    }
  }

  lemma AbsentUnblocked(k: Kind, v: Val)
    requires Optional(k) && Typed(k, v)
    ensures v == Zero(k) ==> Blocked(k, v) == []
  {
  }

  lemma RuleFirst(k: Kind, v: Val)
    requires k.Object? && Typed(k, v) && |v.fs| > 0
    ensures Blocked(k, v) == if !Obeys(k.s.rule, v.fs[0]) then (if k.s.rule.Equals? then [BadSchema] else [BadEnum]) else BlockedFrom(k, v, 0)
  {
  }

  lemma FieldsBegin(out: string, k: Kind, v: Val, depth: nat)
    requires k.Object? && Typed(k, v) && |v.fs| > 0
    ensures Print(k, v, depth) != "" && out + "{" + Print(k, v, depth)[1..] == out + Print(k, v, depth)
  {
    hide Pad, Quoted;
  }

  lemma FieldsStep(out: string, k: Kind, v: Val, i: nat, depth: nat)
    requires k.Object? && Typed(k, v) && i < |v.fs| && (i == 0 ==> Present(k.s.fields[i], v.fs[i]))
    ensures BlockedFrom(k, v, i) ==
      if Blocked(k.s.fields[i].kind, v.fs[i]) != [] then Blocked(k.s.fields[i].kind, v.fs[i]) else BlockedFrom(k, v, i + 1)
    ensures i > 0 && !Present(k.s.fields[i], v.fs[i]) ==> FieldLines(k, v, i, depth + 1) == FieldLines(k, v, i + 1, depth + 1)
    ensures Print(k, v, depth) != ""
    ensures Present(k.s.fields[i], v.fs[i]) ==>
      out + (if i == 0 then Print(k, v, depth)[1..] else FieldLines(k, v, i, depth + 1) + Closing(depth, '}')) ==
      out + (if i > 0 then "," else "") + "\n" + Pad(depth + 1) + Quoted(k.s.fields[i].name) + ": "
        + Print(k.s.fields[i].kind, v.fs[i], depth + 1) + (FieldLines(k, v, i + 1, depth + 1) + Closing(depth, '}'))
  {
    hide Pad, Quoted, Present, Print, FieldLines, Blocked, Closing;
    ObjectPrinted(k, v, depth);
    if i > 0 { LinesPrinted(k, v, i, depth + 1); }
    if Present(k.s.fields[i], v.fs[i]) {
      var q, value := Quoted(k.s.fields[i].name), Print(k.s.fields[i].kind, v.fs[i], depth + 1);
      var l := FieldLines(k, v, i + 1, depth + 1);
      if i == 0 {
        FirstParts(out, Pad(depth + 1), q, value, l, Closing(depth, '}'));
      } else {
        NextParts(out, Pad(depth + 1), q, value, l, Closing(depth, '}'));
      }
    }
  }

  /** The text of an object behind its brace. */
  lemma ObjectPrinted(k: Kind, v: Val, depth: nat)
    requires k.Object? && Typed(k, v) && |v.fs| > 0
    ensures v.Obj? && |v.fs| == |k.s.fields| && Typed(k.s.fields[0].kind, v.fs[0])
    ensures var value := Print(k.s.fields[0].kind, v.fs[0], depth + 1);
      Print(k, v, depth) != "" && Print(k, v, depth)[1..] ==
        "\n" + (Pad(depth + 1) + (Quoted(k.s.fields[0].name) + ": " + value)) + FieldLines(k, v, 1, depth + 1) + Closing(depth, '}')
  {
    hide Pad, Quoted, Closing, FieldLines;
    var e := Entry(k.s.fields[0].name, Print(k.s.fields[0].kind, v.fs[0], depth + 1), depth + 1);
    BraceOff(e, FieldLines(k, v, 1, depth + 1), Closing(depth, '}'));
  }

  lemma BraceOff(e: string, l: string, c: string)
    ensures ("{\n" + e + l + c)[1..] == "\n" + e + l + c
  {
    assert "{\n" + e + l + c == "{" + ("\n" + e + l + c);
  }

  lemma LinesPrinted(k: Kind, v: Val, i: nat, depth: nat)
    requires k.Object? && Typed(k, v) && i < |v.fs|
    ensures v.Obj? && |v.fs| == |k.s.fields| && Typed(k.s.fields[i].kind, v.fs[i])
    ensures FieldLines(k, v, i, depth) ==
      if Present(k.s.fields[i], v.fs[i])
      then ",\n" + (Pad(depth) + (Quoted(k.s.fields[i].name) + ": " + Print(k.s.fields[i].kind, v.fs[i], depth))) + FieldLines(k, v, i + 1, depth)
      else FieldLines(k, v, i + 1, depth)
  {
    hide Pad, Quoted, Present, Print;
  }

  lemma FirstParts(out: string, pad: string, q: string, v: string, l: string, c: string)
    ensures out + ("\n" + (pad + (q + ": " + v)) + l + c) == out + "" + "\n" + pad + q + ": " + v + (l + c)
  {
    Assoc(out + "\n" + (pad + (q + ": " + v)), l, c);
    EntryParts(out + "\n", pad, q, v);
  }

  lemma NextParts(out: string, pad: string, q: string, v: string, l: string, c: string)
    ensures out + (",\n" + (pad + (q + ": " + v)) + l + c) == out + "," + "\n" + pad + q + ": " + v + (l + c)
  {
    Assoc(out + ",\n" + (pad + (q + ": " + v)), l, c);
    EntryParts(out + ",\n", pad, q, v);
  }

  lemma ObjectEnds(out: string, k: Kind, v: Val, depth: nat)
    requires k.Object? && Typed(k, v) && |v.fs| > 0
    ensures BlockedFrom(k, v, |v.fs|) == []
    ensures out + (FieldLines(k, v, |v.fs|, depth + 1) + Closing(depth, '}')) == out + "\n" + Pad(depth) + "}"
  {
    hide Pad;
  }
}
