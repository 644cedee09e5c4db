/** A value with a string that is not UTF-8 is printed without complaint; the skipper then refuses
    the text, so a frame holding it never leaves the client. */
module Spoiled {
  import opened Decimal
  import opened Lexer
  import opened Schema
  import opened Parser
  import opened Printer
  import opened RoundTrip
  import Utf8

  /** Everything `Printed` asks for except that the strings be UTF-8. */
  ghost predicate Sendable(k: Kind, v: Val, depth: nat) {
    WfKind(k) && Typed(k, v) && NoRaw(k) && Blocked(k, v) == [] && depth + Height(k) <= DEPTH_LIMIT
  }

  ghost predicate SendableAll(e: Kind, vs: seq<Val>, depth: nat) { forall x :: x in vs ==> Sendable(e, x, depth) }

  predicate CleanAll(e: Kind, vs: seq<Val>)
    requires TypedAll(e, vs)
  {
    forall x :: x in vs ==> Clean(e, x)
  }

  lemma SendableIs(k: Kind, v: Val, depth: nat)
    requires Sendable(k, v, depth)
    ensures WfKind(k) && Typed(k, v) && Fits(k, v, depth)
    ensures Clean(k, v) ==> Printed(k, v, depth)
  {
    NoRawFits(k, v, depth);
  }

  // ---- the skipper, step by step ----

  /** What `skipContainer` does after an item. */
  function SkipRest(buf: string, pos: nat, depth: nat, open: char): Parsed<()>
    requires pos <= |buf|
  {
    match After(buf, pos, Shutter(open))
    case More(p) => SkipItems(buf, p, depth, open)
    case Shut(p) => Ok((), p)
    case Bad(p) => Refused(Malformed, p)
  }

  lemma SkipMore(buf: string, pos: nat, depth: nat, open: char)
    requires pos <= |buf| && After(buf, pos, Shutter(open)).More?
    ensures SkipRest(buf, pos, depth, open) == SkipItems(buf, After(buf, pos, Shutter(open)).pos, depth, open)
  {
  }

  lemma Shutters()
    ensures Shutter('[') == ']' && Shutter('{') == '}'
  {
  }

  lemma SkipOpens(buf: string, pos: nat, depth: nat, at: nat)
    requires pos < |buf| && (buf[pos] == '[' || buf[pos] == '{') && Ws(buf, pos + 1) == at < |buf|
    requires buf[at] != ']' && buf[at] != '}' && depth < DEPTH_LIMIT
    ensures Skip(buf, pos, depth) == SkipItems(buf, at, depth + 1, buf[pos])
  {
  }

  lemma SkipElement(buf: string, p: nat, depth: nat)
    requires p <= |buf|
    ensures var s := Skip(buf, Ws(buf, p), depth);
      if s.Ok? then SkipItems(buf, p, depth, '[') == SkipRest(buf, s.pos, depth, '[') else SkipItems(buf, p, depth, '[').Refused?
  {
  }

  lemma SkipMember(buf: string, p: nat, depth: nat)
    requires p <= |buf|
    ensures KeyAt(buf, p).Refused? ==> SkipItems(buf, p, depth, '{').Refused?
    ensures KeyAt(buf, p).Ok? ==> var s := Skip(buf, KeyAt(buf, p).pos, depth);
      if s.Ok? then SkipItems(buf, p, depth, '{') == SkipRest(buf, s.pos, depth, '{') else SkipItems(buf, p, depth, '{').Refused?
  {
  }

  lemma SkipString(buf: string, pos: nat, s: string, depth: nat)
    requires Here(buf, pos, Quoted(s))
    ensures if Utf8.Valid(s) then Skip(buf, pos, depth) == Ok((), pos + |Quoted(s)|) else Skip(buf, pos, depth).Refused?
  {
    hide Utf8.Valid, Quoted;
    QuotedOpens(s);
    HereAt(buf, pos, Quoted(s), 0);
    QuotedRead(buf, pos, s);
  }

  // ---- every kind ----

  /** The skipper walks a printed value exactly if all its strings are UTF-8, and otherwise refuses it. */
  lemma {:induction false} PrintedSkipped(k: Kind, v: Val, buf: string, pos: nat, depth: nat, d: nat)
    requires Sendable(k, v, depth)
    requires Here(buf, pos, Print(k, v, d)) && !Clings(At(buf, pos + |Print(k, v, d)|))
    ensures Clean(k, v) ==> Skip(buf, pos, depth) == Ok((), pos + |Print(k, v, d)|)
    ensures !Clean(k, v) ==> Skip(buf, pos, depth).Refused?
    decreases k, 5, 0
  {
    if Clean(k, v) {
      SendableIs(k, v, depth);
      PrintedRead(k, v, buf, pos, depth, d);
      SkipFollows(k, buf, pos, depth);
    } else {
      SpoiledRefused(k, v, buf, pos, depth, d);
    }
  }

  lemma {:induction false} SpoiledRefused(k: Kind, v: Val, buf: string, pos: nat, depth: nat, d: nat)
    requires Sendable(k, v, depth) && !Clean(k, v)
    requires Here(buf, pos, Print(k, v, d)) && !Clings(At(buf, pos + |Print(k, v, d)|))
    ensures Skip(buf, pos, depth).Refused?
    decreases k, 4, 0
  {
    match k
    case Text => SkipString(buf, pos, v.s, depth);
    case Pairs => SpoiledMap(v.m, buf, pos, depth, d);
    case Many(e) => SpoiledList(k, v, buf, pos, depth, d);
    case Object(s) => SpoiledObject(k, v, buf, pos, depth, d);
    case _ =>
  }

  // ---- maps ----

  lemma SpoiledPair(buf: string, p: nat, key: string, val: string, depth: nat)
    requires p <= |buf| && Here(buf, Ws(buf, p), Quoted(key) + ": " + Quoted(val))
    ensures Ws(buf, p) + |Quoted(key) + ": " + Quoted(val)| <= |buf|
    ensures if Utf8.Valid(key) && Utf8.Valid(val)
      then SkipItems(buf, p, depth, '{') == SkipRest(buf, Ws(buf, p) + |Quoted(key) + ": " + Quoted(val)|, depth, '{')
      else SkipItems(buf, p, depth, '{').Refused?
  {
    hide *;
    SkipMember(buf, p, depth);
    QuotedOpens(val);
    HereEnds(buf, Ws(buf, p), Quoted(key) + ": " + Quoted(val));
    assert |Quoted(key) + ": " + Quoted(val)| == |Quoted(key)| + 2 + |Quoted(val)|;
    if Utf8.Valid(key) {
      EntryRead(buf, p, key, Quoted(val));
      SkipString(buf, Ws(buf, p) + |Quoted(key)| + 2, val, depth);
    } else {
      Assoc(Quoted(key), ": ", Quoted(val));
      BadKey(buf, p, key, ": " + Quoted(val));
    }
  }

  lemma BadKey(buf: string, p: nat, key: string, rest: string)
    requires p <= |buf| && !Utf8.Valid(key) && Here(buf, Ws(buf, p), Quoted(key) + rest)
    ensures KeyAt(buf, p).Refused?
  {
    hide Utf8.Valid, Quoted;
    HereSplit(buf, Ws(buf, p), Quoted(key), rest);
    QuotedRead(buf, Ws(buf, p), key);
  }

  predicate SpoiledIn(ks: seq<string>, m: map<string, string>)
    requires forall k :: k in ks ==> k in m
  {
    exists k :: k in ks && !(Utf8.Valid(k) && Utf8.Valid(m[k]))
  }

  lemma SpoiledLater(ks: seq<string>, m: map<string, string>)
    requires (forall k :: k in ks ==> k in m) && SpoiledIn(ks, m)
    ensures ks != [] && ks[0] in m && (forall k :: k in ks[1..] ==> k in m)
    ensures Utf8.Valid(ks[0]) && Utf8.Valid(m[ks[0]]) ==> SpoiledIn(ks[1..], m)
  {
    hide Utf8.Valid;
    var bad :| bad in ks && !(Utf8.Valid(bad) && Utf8.Valid(m[bad]));
    assert ks[0] in ks;
    assert forall k :: k in ks[1..] ==> k in ks;
    assert bad == ks[0] || bad in ks[1..];
  }

  lemma SpoiledKeys(m: map<string, string>)
    requires !ValidPairs(m)
    ensures var ks := SortedKeys(m.Keys); (forall k :: k in ks ==> k in m) && SpoiledIn(ks, m)
  {
    hide Utf8.Valid;
    var bad :| bad in m && !(Utf8.Valid(bad) && Utf8.Valid(m[bad]));
    assert bad in SortedKeys(m.Keys);
  }

  lemma {:induction false} SpoiledPairs(ks: seq<string>, m: map<string, string>, buf: string, pos: nat, depth: nat, d: nat)
    requires (forall k :: k in ks ==> k in m) && SpoiledIn(ks, m)
    requires Here(buf, pos, PairLines(ks, m, d + 1) + Closing(d, '}'))
    ensures SkipRest(buf, pos, depth, '{').Refused?
    decreases |ks|
  {
    hide *;
    SpoiledLater(ks, m);
    var key, val := ks[0], m[ks[0]];
    PairStep(ks, m, buf, pos, d);
    Shutters();
    SkipMore(buf, pos, depth, '{');
    SpoiledPair(buf, pos + 1, key, val, depth);
    if Utf8.Valid(key) && Utf8.Valid(val) {
      SpoiledPairs(ks[1..], m, buf, pos + 2 + 2 * (d + 1) + |Quoted(key) + ": " + Quoted(val)|, depth, d);
    }
  }

  lemma PairStep(ks: seq<string>, m: map<string, string>, buf: string, pos: nat, d: nat)
    requires ks != [] && (forall k :: k in ks ==> k in m) && ks[0] in m
    requires Here(buf, pos, PairLines(ks, m, d + 1) + Closing(d, '}'))
    ensures forall k :: k in ks[1..] ==> k in m
    ensures var item := Quoted(ks[0]) + ": " + Quoted(m[ks[0]]); var q := pos + 2 + 2 * (d + 1) + |item|;
      && After(buf, pos, '}') == More(pos + 1) && Ws(buf, pos + 1) == pos + 2 + 2 * (d + 1)
      && Here(buf, pos + 2 + 2 * (d + 1), item) && Here(buf, q, PairLines(ks[1..], m, d + 1) + Closing(d, '}'))
  {
    hide After, Here, Quoted, Ws;
    forall k | k in ks[1..] ensures k in m { assert k in ks; }
    var item := Quoted(ks[0]) + ": " + Quoted(m[ks[0]]);
    var line, tail := ",\n" + (Pad(d + 1) + item), PairLines(ks[1..], m, d + 1);
    Assoc(line, tail, Closing(d, '}'));
    HereSplit(buf, pos, line, tail + Closing(d, '}'));
    QuotedOpens(ks[0]);
    AfterComma(buf, pos, d + 1, item, '}');
  }

  lemma SpoiledMap(m: map<string, string>, buf: string, pos: nat, depth: nat, d: nat)
    requires !ValidPairs(m) && depth < DEPTH_LIMIT && Here(buf, pos, PrintPairs(m, d))
    ensures Skip(buf, pos, depth).Refused?
  {
    hide *;
    SpoiledKeys(m);
    var ks := SortedKeys(m.Keys);
    SpoiledLater(ks, m);
    var key, val := ks[0], m[ks[0]];
    MapBegins(ks, m, buf, pos, d);
    var item := Quoted(key) + ": " + Quoted(val);
    var at := pos + 2 + 2 * (d + 1);
    SkipOpens(buf, pos, depth, at);
    WsStays(buf, at);
    QuoteIsNoBlank();
    SpoiledPair(buf, at, key, val, depth + 1);
    if Utf8.Valid(key) && Utf8.Valid(val) {
      SpoiledPairs(ks[1..], m, buf, at + |item|, depth + 1, d);
    }
  }

  lemma PairsText(ks: seq<string>, m: map<string, string>, d: nat)
    requires ks == SortedKeys(m.Keys) && ks != []
    ensures ks[0] in m && forall k :: k in ks[1..] ==> k in m
    ensures var item := Quoted(ks[0]) + ": " + Quoted(m[ks[0]]);
      PrintPairs(m, d) == "{" + "\n" + (Pad(d + 1) + item) + (PairLines(ks[1..], m, d + 1) + Closing(d, '}'))
  {
    hide Quoted;
    assert ks[0] in ks;
    forall k | k in ks[1..] ensures k in m { assert k in ks; }
    var item := Quoted(ks[0]) + ": " + Quoted(m[ks[0]]);
    assert "{\n" == "{" + "\n";
    Assoc("{\n" + (Pad(d + 1) + item), PairLines(ks[1..], m, d + 1), Closing(d, '}'));
  }

  lemma MapBegins(ks: seq<string>, m: map<string, string>, buf: string, pos: nat, d: nat)
    requires ks == SortedKeys(m.Keys) && ks != [] && Here(buf, pos, PrintPairs(m, d))
    ensures ks[0] in m && forall k :: k in ks[1..] ==> k in m
    ensures var item := Quoted(ks[0]) + ": " + Quoted(m[ks[0]]); var at := pos + 2 + 2 * (d + 1);
      && at < |buf| && buf[pos] == '{' && Ws(buf, pos + 1) == at && buf[at] == '"'
      && Here(buf, at, item) && Here(buf, at + |item|, PairLines(ks[1..], m, d + 1) + Closing(d, '}'))
  {
    hide *;
    PairsText(ks, m, d);
    var item := Quoted(ks[0]) + ": " + Quoted(m[ks[0]]);
    var tail := PairLines(ks[1..], m, d + 1);
    QuotedOpens(ks[0]);
    QuoteIsNoBlank();
    OpeningRead(buf, pos, "{", d + 1, item, tail + Closing(d, '}'));
  }

  // ---- lists ----

  lemma SendableElements(k: Kind, v: Val, depth: nat)
    requires k.Many? && Sendable(k, v, depth)
    ensures TypedAll(k.elem, v.vs) && SendableAll(k.elem, v.vs, depth + 1) && depth < DEPTH_LIMIT
    ensures !Clean(k, v) ==> !CleanAll(k.elem, v.vs)
  {
    forall x | x in v.vs ensures Sendable(k.elem, x, depth + 1) {
      var i :| 0 <= i < |v.vs| && v.vs[i] == x;
      BlockedElsewhere(k, v.vs, i);
    }
  }

  lemma SendableTail(e: Kind, vs: seq<Val>, depth: nat)
    requires TypedAll(e, vs) && SendableAll(e, vs, depth) && !CleanAll(e, vs)
    ensures vs != [] && Sendable(e, vs[0], depth) && TypedAll(e, vs[1..]) && SendableAll(e, vs[1..], depth)
    ensures Clean(e, vs[0]) ==> !CleanAll(e, vs[1..])
  {
    assert vs[0] in vs;
    forall x | x in vs[1..] ensures Typed(e, x) && Sendable(e, x, depth) { assert x in vs; }
    assert forall x :: x in vs ==> x == vs[0] || x in vs[1..];
  }

  lemma {:induction false} SpoiledItems(k: Kind, vs: seq<Val>, buf: string, pos: nat, depth: nat, d: nat)
    requires k.Many? && TypedAll(k.elem, vs) && SendableAll(k.elem, vs, depth + 1) && !CleanAll(k.elem, vs)
    requires Here(buf, pos, ItemLines(k, vs, d + 1) + Closing(d, ']'))
    ensures SkipRest(buf, pos, depth + 1, '[').Refused?
    decreases k, 2, |vs|
  {
    hide *;
    SendableTail(k.elem, vs, depth + 1);
    SendableIs(k.elem, vs[0], depth + 1);
    var item := Print(k.elem, vs[0], d + 1);
    var q := pos + 2 + 2 * (d + 1) + |item|;
    ItemLinesUnfold(k, vs, d + 1);
    var line, lines := ",\n" + (Pad(d + 1) + item), ItemLines(k, vs[1..], d + 1);
    Assoc(line, lines, Closing(d, ']'));
    HereSplit(buf, pos, line, lines + Closing(d, ']'));
    TailStarts(buf, pos + |line|, lines, d, ']');
    PrintStarts(k.elem, vs[0], d + 1, depth + 1);
    AfterComma(buf, pos, d + 1, item, ']');
    Shutters();
    SkipMore(buf, pos, depth + 1, '[');
    SkipElement(buf, pos + 1, depth + 1);
    PrintedSkipped(k.elem, vs[0], buf, pos + 2 + 2 * (d + 1), depth + 1, d + 1);
    if Clean(k.elem, vs[0]) { SpoiledItems(k, vs[1..], buf, q, depth, d); }
  }

  lemma {:induction false} SpoiledList(k: Kind, v: Val, buf: string, pos: nat, depth: nat, d: nat)
    requires k.Many? && Sendable(k, v, depth) && !Clean(k, v)
    requires Here(buf, pos, Print(k, v, d)) && !Clings(At(buf, pos + |Print(k, v, d)|))
    ensures Skip(buf, pos, depth).Refused?
    decreases k, 3, 0
  {
    SendableElements(k, v, depth);
    SendableTail(k.elem, v.vs, depth + 1);
    ListShape(k, v, d);
    hide *;
    SpoiledListText(k, v.vs, buf, pos, depth, d);
  }

  lemma {:induction false} SpoiledListText(k: Kind, vs: seq<Val>, buf: string, pos: nat, depth: nat, d: nat)
    requires k.Many? && TypedAll(k.elem, vs) && SendableAll(k.elem, vs, depth + 1) && !CleanAll(k.elem, vs)
    requires depth < DEPTH_LIMIT && Here(buf, pos, ListText(k, vs, d))
    ensures Skip(buf, pos, depth).Refused?
    decreases k, 2, |vs| + 1
  {
    hide *;
    SendableTail(k.elem, vs, depth + 1);
    SendableIs(k.elem, vs[0], depth + 1);
    ListTextIs(k, vs, d);
    var item, lines := Print(k.elem, vs[0], d + 1), ItemLines(k, vs[1..], d + 1);
    var at := pos + 2 + 2 * (d + 1);
    PrintStarts(k.elem, vs[0], d + 1, depth + 1);
    ItemStarts(k.elem, vs[0], d + 1, depth + 1);
    OpeningRead(buf, pos, "[", d + 1, item, lines + Closing(d, ']'));
    SkipOpens(buf, pos, depth, at);
    WsStays(buf, at);
    ItemLinesStart(k, vs[1..], d + 1);
    TailStarts(buf, at + |item|, lines, d, ']');
    SkipElement(buf, at, depth + 1);
    PrintedSkipped(k.elem, vs[0], buf, at, depth + 1, d + 1);
    if Clean(k.elem, vs[0]) { SpoiledItems(k, vs[1..], buf, at + |item|, depth, d); }
  }

  // ---- objects ----

  /** Some field at or after i holds a string that is not UTF-8. */
  predicate SpoiledFrom(k: Kind, v: Val, i: nat)
    requires k.Object? && Typed(k, v)
  {
    exists j :: i <= j < |v.fs| && !Clean(k.s.fields[j].kind, v.fs[j])
  }

  lemma SpoiledStarts(k: Kind, v: Val, i: nat)
    requires k.Object? && Typed(k, v) && i <= |v.fs| && SpoiledFrom(k, v, i)
    ensures i < |v.fs|
  {
  }

  lemma SendableField(k: Kind, v: Val, i: nat, depth: nat)
    requires k.Object? && Sendable(k, v, depth) && i < |v.fs|
    ensures |v.fs| == |k.s.fields| && Typed(k, v) && Sendable(k.s.fields[i].kind, v.fs[i], depth + 1) && depth < DEPTH_LIMIT
    ensures Utf8.Valid(k.s.fields[i].name)
    ensures !Present(k.s.fields[i], v.fs[i]) ==> Clean(k.s.fields[i].kind, v.fs[i])
    ensures SpoiledFrom(k, v, i) && Clean(k.s.fields[i].kind, v.fs[i]) ==> SpoiledFrom(k, v, i + 1)
  {
    var f := k.s.fields[i];
    assert f in k.s.fields;
    FieldHeight(k.s.fields, i);
    BlockedLater(k, v, 0, i);
    if !Present(f, v.fs[i]) { ZeroIsSound(f.kind); }
  }

  lemma LinesUnfold(k: Kind, v: Val, i: nat, d: nat)
    requires k.Object? && Typed(k, v) && i < |v.fs|
    ensures !Present(k.s.fields[i], v.fs[i]) ==> FieldLines(k, v, i, d) == FieldLines(k, v, i + 1, d)
    ensures Present(k.s.fields[i], v.fs[i]) ==>
      FieldLines(k, v, i, d) == ",\n" + (Pad(d) + Item(k, v, i, d)) + FieldLines(k, v, i + 1, d)
    ensures Item(k, v, i, d) != "" && Item(k, v, i, d)[0] == '"'
    ensures FieldLines(k, v, i + 1, d) == "" || FieldLines(k, v, i + 1, d)[0] == ','
  {
    FieldLinesStart(k, v, i + 1, d);
    ItemOpens(k.s.fields[i].name, Print(k.s.fields[i].kind, v.fs[i], d));
  }

  /** One printed field, skipped or refused. */
  lemma {:induction false} FieldSkipped(k: Kind, v: Val, i: nat, buf: string, p: nat, depth: nat, d: nat)
    requires k.Object? && Sendable(k, v, depth) && i < |v.fs| && p <= |buf| && Typed(k, v)
    requires Here(buf, Ws(buf, p), Item(k, v, i, d + 1)) && !Clings(At(buf, Ws(buf, p) + |Item(k, v, i, d + 1)|))
    ensures Ws(buf, p) + |Item(k, v, i, d + 1)| <= |buf|
    ensures if Clean(k.s.fields[i].kind, v.fs[i])
      then SkipItems(buf, p, depth + 1, '{') == SkipRest(buf, Ws(buf, p) + |Item(k, v, i, d + 1)|, depth + 1, '{')
      else SkipItems(buf, p, depth + 1, '{').Refused?
    decreases k, 0, 0
  {
    hide *;
    SendableField(k, v, i, depth);
    var f := k.s.fields[i];
    SendableIs(f.kind, v.fs[i], depth + 1);
    var value, at := Print(f.kind, v.fs[i], d + 1), Ws(buf, p) + |Quoted(f.name)| + 2;
    ItemIs(k, v, i, d + 1);
    PrintStarts(f.kind, v.fs[i], d + 1, depth + 1);
    EntryRead(buf, p, f.name, value);
    SkipMember(buf, p, depth + 1);
    HereEnds(buf, Ws(buf, p), Item(k, v, i, d + 1));
    PrintedSkipped(f.kind, v.fs[i], buf, at, depth + 1, d + 1);
  }

  lemma HereEnds(buf: string, p: nat, t: string)
    requires Here(buf, p, t)
    ensures p + |t| <= |buf|
  {
  }

  lemma {:induction false} SpoiledFields(k: Kind, v: Val, i: nat, buf: string, pos: nat, depth: nat, d: nat)
    requires k.Object? && Sendable(k, v, depth) && Typed(k, v) && i <= |v.fs| && SpoiledFrom(k, v, i)
    requires Here(buf, pos, FieldLines(k, v, i, d + 1) + Closing(d, '}'))
    ensures SkipRest(buf, pos, depth + 1, '{').Refused?
    decreases k, 1, |v.fs| - i
  {
    hide *;
    SpoiledStarts(k, v, i);
    SendableField(k, v, i, depth);
    LinesUnfold(k, v, i, d + 1);
    if !Present(k.s.fields[i], v.fs[i]) {
      SpoiledFields(k, v, i + 1, buf, pos, depth, d);
    } else {
      var item := Item(k, v, i, d + 1);
      var line, lines := ",\n" + (Pad(d + 1) + item), FieldLines(k, v, i + 1, d + 1);
      Assoc(line, lines, Closing(d, '}'));
      HereSplit(buf, pos, line, lines + Closing(d, '}'));
      QuoteIsNoBlank();
      AfterComma(buf, pos, d + 1, item, '}');
      TailStarts(buf, pos + |line|, lines, d, '}');
      Shutters();
      SkipMore(buf, pos, depth + 1, '{');
      FieldSkipped(k, v, i, buf, pos + 1, depth, d);
      if Clean(k.s.fields[i].kind, v.fs[i]) { SpoiledFields(k, v, i + 1, buf, pos + |line|, depth, d); }
    }
  }

  lemma QuoteIsNoBlank()
    ensures !Blank('"')
  {
  }

  lemma ObjectBegins(k: Kind, v: Val, depth: nat, d: nat)
    requires k.Object? && Sendable(k, v, depth) && !Clean(k, v)
    ensures Typed(k, v) && |v.fs| == |k.s.fields| > 0 && SpoiledFrom(k, v, 0)
    ensures var lines := FieldLines(k, v, 1, d + 1);
      Print(k, v, d) == "{" + "\n" + (Pad(d + 1) + Item(k, v, 0, d + 1)) + (lines + Closing(d, '}'))
  {
    assert "{\n" == "{" + "\n";
    Assoc("{\n" + (Pad(d + 1) + Item(k, v, 0, d + 1)), FieldLines(k, v, 1, d + 1), Closing(d, '}'));
  }

  lemma {:induction false} SpoiledObject(k: Kind, v: Val, buf: string, pos: nat, depth: nat, d: nat)
    requires k.Object? && Sendable(k, v, depth) && !Clean(k, v)
    requires Here(buf, pos, Print(k, v, d)) && !Clings(At(buf, pos + |Print(k, v, d)|))
    ensures Skip(buf, pos, depth).Refused?
    decreases k, 2, 0
  {
    hide *;
    ObjectBegins(k, v, depth, d);
    SendableField(k, v, 0, depth);
    LinesUnfold(k, v, 0, d + 1);
    var item, lines := Item(k, v, 0, d + 1), FieldLines(k, v, 1, d + 1);
    var at := pos + 2 + 2 * (d + 1);
    QuoteIsNoBlank();
    OpeningRead(buf, pos, "{", d + 1, item, lines + Closing(d, '}'));
    SkipOpens(buf, pos, depth, at);
    WsStays(buf, at);
    TailStarts(buf, at + |item|, lines, d, '}');
    FieldSkipped(k, v, 0, buf, at, depth, d);
    if Clean(k.s.fields[0].kind, v.fs[0]) { SpoiledFields(k, v, 1, buf, at + |item|, depth, d); }
  }
}
