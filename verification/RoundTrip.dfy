/** Reading what was printed, for every table: the value comes back with its times normalised. */
module RoundTrip {
  import opened Decimal
  import opened Timestamp
  import opened Lexer
  import opened Schema
  import opened Parser
  import opened Printer
  import Utf8

  predicate Blanks(t: string) { forall k :: 0 <= k < |t| ==> Blank(t[k]) }

  lemma {:induction false} WsOver(buf: string, p: nat, t: string)
    requires Here(buf, p, t) && Blanks(t) && p + |t| < |buf| && !Blank(buf[p+|t|])
    ensures Ws(buf, p) == p + |t|
    decreases |t|
  {
    if t != "" {
      HereAt(buf, p, t, 0);
      HereSplit(buf, p, t[..1], t[1..]);
      assert t == t[..1] + t[1..];
      WsOver(buf, p + 1, t[1..]);
    }
  }

  /** A line end, its indentation, and something that is not blank. */
  lemma NewLine(buf: string, p: nat, d: nat)
    requires Here(buf, p, "\n" + Pad(d)) && p + 1 + 2 * d < |buf| && !Blank(buf[p+1+2*d])
    ensures Ws(buf, p) == p + 1 + 2 * d
  {
    WsOver(buf, p, "\n" + Pad(d));
  }

  lemma AfterClosing(buf: string, p: nat, d: nat, shut: char)
    requires (shut == ']' || shut == '}') && Here(buf, p, Closing(d, shut))
    ensures After(buf, p, shut) == Shut(p + |Closing(d, shut)|)
  {
    var t := "\n" + Pad(d);
    HereSplit(buf, p, t, [shut]);
    HereAt(buf, p + |t|, [shut], 0);
    NewLine(buf, p, d);
  }

  lemma CommaTurns(buf: string, p: nat, shut: char)
    requires shut == ']' || shut == '}'
    ensures p < |buf| && buf[p] == ',' ==> After(buf, p, shut) == More(p + 1)
  {
  }

  lemma Extends(buf: string, p: nat, t: string)
    ensures Here(buf, p, t) ==> p + |t| <= |buf|
  {
  }

  /** A comma and a line: another item, whose first byte is not blank. */
  lemma AfterComma(buf: string, p: nat, d: nat, item: string, shut: char)
    requires (shut == ']' || shut == '}') && item != "" && !Blank(item[0])
    requires Here(buf, p, ",\n" + (Pad(d) + item))
    ensures After(buf, p, shut) == More(p + 1)
    ensures Ws(buf, p + 1) == p + 2 + 2 * d && Here(buf, p + 2 + 2 * d, item)
  {
    hide After, Here, Ws;
    var t := ",\n" + (Pad(d) + item);
    assert t == "," + (("\n" + Pad(d)) + item);
    CommaTurns(buf, p, shut);
    HereSplit(buf, p, ",", ("\n" + Pad(d)) + item);
    HereSplit(buf, p + 1, "\n" + Pad(d), item);
    Extends(buf, p, ",");
    Extends(buf, p + 2 + 2 * d, item);
    HereAt(buf, p, ",", 0);
    HereAt(buf, p + 2 + 2 * d, item, 0);
    NewLine(buf, p + 1, d);
  }

  lemma ColonRead(buf: string, c: nat, value: string)
    requires Here(buf, c, ": ") && Here(buf, c + 2, value) && value != "" && !Blank(value[0])
    ensures c + 2 < |buf| && Ws(buf, c) == c && buf[c] == ':' && Ws(buf, c + 1) == c + 2
  {
    HereAt(buf, c, ": ", 0);
    HereAt(buf, c, ": ", 1);
    HereAt(buf, c + 2, value, 0);
    assert buf[c+1..c+2] == " ";
    WsOver(buf, c + 1, " ");
  }

  /** A key and its value, from anywhere in the blanks before the key. */
  lemma EntryRead(buf: string, p: nat, name: string, value: string)
    requires p <= |buf| && value != "" && !Blank(value[0]) && Utf8.Valid(name)
    requires Here(buf, Ws(buf, p), Quoted(name) + ": " + value)
    ensures KeyAt(buf, p) == Ok(name, Ws(buf, p) + |Quoted(name)| + 2)
    ensures Here(buf, Ws(buf, p) + |Quoted(name)| + 2, value)
  {
    hide StrAt, Quoted, Utf8.Valid;
    var q := Ws(buf, p);
    var c := q + |Quoted(name)|;
    HereSplit(buf, q, Quoted(name) + ": ", value);
    HereSplit(buf, q, Quoted(name), ": ");
    QuotedOpens(name);
    HereAt(buf, q, Quoted(name), 0);
    QuotedRead(buf, q, name);
    ColonRead(buf, c, value);
  }

  // ---- when the raw text of an envelope is fit to be cut out again ----

  /** Wherever the text stands, the skipper walks exactly it. */
  ghost predicate CutsExactly(s: string, depth: nat) {
    && s != "" && !Blank(s[0])
    && forall buf: string, pos: nat :: Here(buf, pos, s) && !Clings(At(buf, pos + |s|)) ==> Skip(buf, pos, depth) == Ok((), pos + |s|)
  }

  ghost predicate Fits(k: Kind, v: Val, depth: nat)
    requires Typed(k, v)
    decreases k
  {
    match k
    case Raw => CutsExactly(v.s, depth)
    case Many(e) => forall x :: x in v.vs ==> Fits(e, x, depth + 1)
    case Object(s) => forall i :: 0 <= i < |v.fs| ==> Fits(s.fields[i].kind, v.fs[i], depth + 1)
    case _ => true
  }

  predicate NoRaw(k: Kind) {
    match k
    case Raw => false
    case Many(e) => NoRaw(e)
    case Object(s) => forall f :: f in s.fields ==> NoRaw(f.kind)
    case _ => true
  }

  lemma {:induction false} NoRawFits(k: Kind, v: Val, depth: nat)
    requires Typed(k, v) && NoRaw(k)
    ensures Fits(k, v, depth)
    decreases k
  {
    match k
    case Many(e) => forall x | x in v.vs ensures Fits(e, x, depth + 1) { NoRawFits(e, x, depth + 1); }
    case Object(s) =>
      forall i | 0 <= i < |v.fs| ensures Fits(s.fields[i].kind, v.fs[i], depth + 1) {
        assert s.fields[i] in s.fields;
        NoRawFits(s.fields[i].kind, v.fs[i], depth + 1);
      }
    case _ =>
  }

  /** No printed value is empty or begins with a blank. */
  lemma PrintStarts(k: Kind, v: Val, d: nat, depth: nat)
    requires WfKind(k) && Typed(k, v) && Fits(k, v, depth)
    ensures Print(k, v, d) != "" && !Blank(Print(k, v, d)[0])
  {
    match k
    case Int(_, _) => NumStarts(v.n);
    case Pairs => assert PrintPairs(v.m, d) != "" && PrintPairs(v.m, d)[0] == '{';
    case Many(_) => assert Print(k, v, d)[0] == '[';
    case Object(_) => assert Print(k, v, d)[0] == '{';
    case _ =>
  }

  lemma NumStarts(n: int)
    ensures Decimal.Num(n) != "" && !Blank(Decimal.Num(n)[0])
  {
    var u := if n < 0 then -n else n;
    assert u == 0 || Digits(u)[0] != '0';
    if n > 0 { assert Digit(Digits(u)[0]); }
  }

  // ---- maps ----

  lemma QuotedOpens(s: string)
    ensures Quoted(s) != "" && Quoted(s)[0] == '"' && !Blank(Quoted(s)[0])
  {
  }

  lemma PairTaken(buf: string, p: nat, key: string, at: nat, val: string, q: nat, m: map<string, string>)
    requires p <= |buf| && at <= |buf| && KeyAt(buf, p) == Ok(key, at) && StrAt(buf, at) == Ok(val, q)
    ensures q <= |buf| && PairItems(buf, p, m) == PairsAfter(buf, q, m[key := val])
  {
  }

  lemma PairsMore(buf: string, pos: nat, m: map<string, string>)
    requires pos <= |buf| && After(buf, pos, '}').More?
    ensures PairsAfter(buf, pos, m) == PairItems(buf, After(buf, pos, '}').pos, m)
  {
  }

  /** One item of a map, from the blanks before its key. */
  lemma PairRead(buf: string, p: nat, key: string, val: string, m: map<string, string>)
    requires p <= |buf| && Utf8.Valid(key) && Utf8.Valid(val)
    requires Here(buf, Ws(buf, p), Quoted(key) + ": " + Quoted(val))
    ensures Ws(buf, p) + |Quoted(key) + ": " + Quoted(val)| <= |buf|
    ensures PairItems(buf, p, m) == PairsAfter(buf, Ws(buf, p) + |Quoted(key) + ": " + Quoted(val)|, m[key := val])
  {
    hide *;
    QuotedOpens(val);
    EntryRead(buf, p, key, Quoted(val));
    var at := Ws(buf, p) + |Quoted(key)| + 2;
    QuotedRead(buf, at, val);
    assert |Quoted(key) + ": " + Quoted(val)| == |Quoted(key)| + 2 + |Quoted(val)|;
    PairTaken(buf, p, key, at, val, at + |Quoted(val)|, m);
  }

  lemma EntryIs(name: string, value: string, d: nat)
    ensures Entry(name, value, d) == Pad(d) + (Quoted(name) + ": " + value)
    ensures |",\n" + Entry(name, value, d)| == 2 + 2 * d + |Quoted(name) + ": " + value|
  {
  }

  lemma PairLinesUnfold(ks: seq<string>, m: map<string, string>, acc: map<string, string>, d: nat, shut: string)
    requires ks != [] && (forall k :: k in ks ==> k in m) && ValidPairs(m)
    ensures ks[0] in m && (forall k :: k in ks[1..] ==> k in m) && Utf8.Valid(ks[0]) && Utf8.Valid(m[ks[0]])
    ensures PairLines(ks, m, d) + shut == ",\n" + Entry(ks[0], Quoted(m[ks[0]]), d) + (PairLines(ks[1..], m, d) + shut)
    ensures Overlaid(acc, ks, m) == Overlaid(acc[ks[0] := m[ks[0]]], ks[1..], m)
  {
    assert ks[0] in ks;
    forall k | k in ks[1..] ensures k in m { assert k in ks; }
    Assoc(",\n" + Entry(ks[0], Quoted(m[ks[0]]), d), PairLines(ks[1..], m, d), shut);
  }

  lemma PairsShut(ks: seq<string>, m: map<string, string>, acc: map<string, string>, buf: string, pos: nat, d: nat)
    requires ks == [] && Here(buf, pos, PairLines(ks, m, d + 1) + Closing(d, '}'))
    ensures PairsAfter(buf, pos, acc) == Ok(Map(Overlaid(acc, ks, m)), pos + |PairLines(ks, m, d + 1) + Closing(d, '}')|)
  {
    assert PairLines(ks, m, d + 1) + Closing(d, '}') == Closing(d, '}');
    AfterClosing(buf, pos, d, '}');
  }

  lemma PairLineRead(buf: string, pos: nat, key: string, val: string, d: nat, m: map<string, string>)
    requires Utf8.Valid(key) && Utf8.Valid(val)
    requires Here(buf, pos, ",\n" + Entry(key, Quoted(val), d))
    ensures pos + |",\n" + Entry(key, Quoted(val), d)| <= |buf|
    ensures PairsAfter(buf, pos, m) == PairsAfter(buf, pos + |",\n" + Entry(key, Quoted(val), d)|, m[key := val])
  {
    hide *;
    EntryIs(key, Quoted(val), d);
    var item := Quoted(key) + ": " + Quoted(val);
    QuotedOpens(key);
    AfterComma(buf, pos, d, item, '}');
    PairsMore(buf, pos, m);
    PairRead(buf, pos + 1, key, val, m);
  }

  lemma {:induction false} PairsRead(ks: seq<string>, m: map<string, string>, acc: map<string, string>,
                                     buf: string, pos: nat, d: nat)
    requires ValidPairs(m) && (forall k :: k in ks ==> k in m)
    requires Here(buf, pos, PairLines(ks, m, d + 1) + Closing(d, '}'))
    ensures PairsAfter(buf, pos, acc) == Ok(Map(Overlaid(acc, ks, m)), pos + |PairLines(ks, m, d + 1) + Closing(d, '}')|)
    decreases |ks|
  {
    hide *;
    if ks == [] {
      PairsShut(ks, m, acc, buf, pos, d);
    } else {
      PairLinesUnfold(ks, m, acc, d + 1, Closing(d, '}'));
      var key, val := ks[0], m[ks[0]];
      var line := ",\n" + Entry(key, Quoted(val), d + 1);
      HereSplit(buf, pos, line, PairLines(ks[1..], m, d + 1) + Closing(d, '}'));
      PairLineRead(buf, pos, key, val, d + 1, acc);
      PairsRead(ks[1..], m, acc[key := val], buf, pos + |line|, d);
    }
  }

  /** What `strMap` does after an item. */
  function PairsAfter(buf: string, pos: nat, m: map<string, string>): Parsed<Val>
    requires pos <= |buf|
  {
    match After(buf, pos, '}')
    case More(p) => PairItems(buf, p, m)
    case Shut(p) => Ok(Map(m), p)
    case Bad(p) => Refused(Malformed, p)
  }

  function Overlaid(acc: map<string, string>, ks: seq<string>, m: map<string, string>): (r: map<string, string>)
    requires forall k :: k in ks ==> k in m
    decreases |ks|
  {
    if ks == [] then acc else
      assert ks[0] in ks;
      Overlaid(acc[ks[0] := m[ks[0]]], ks[1..], m)
  }

  lemma {:induction false} OverlaidIs(acc: map<string, string>, ks: seq<string>, m: map<string, string>)
    requires forall k :: k in ks ==> k in m
    ensures Overlaid(acc, ks, m).Keys == acc.Keys + (set k | k in ks)
    ensures forall k :: k in Overlaid(acc, ks, m) ==> Overlaid(acc, ks, m)[k] == if k in ks then m[k] else acc[k]
    decreases |ks|
  {
    if ks != [] {
      assert ks[0] in ks;
      assert forall k :: k in ks <==> k == ks[0] || k in ks[1..];
      OverlaidIs(acc[ks[0] := m[ks[0]]], ks[1..], m);
    }
  }

  lemma Assoc(a: string, b: string, c: string)
    ensures a + b + c == a + (b + c)
  {
  }

  /** The text of a container whose first item is given: opening byte, line, item, tail. */
  lemma OpeningRead(buf: string, pos: nat, open: string, d: nat, item: string, tail: string)
    requires |open| == 1 && item != "" && !Blank(item[0])
    requires Here(buf, pos, open + "\n" + (Pad(d) + item) + tail)
    ensures pos + 2 + 2 * d + |item| + |tail| <= |buf| && buf[pos] == open[0] && Ws(buf, pos + 1) == pos + 2 + 2 * d
    ensures Here(buf, pos + 2 + 2 * d, item) && Here(buf, pos + 2 + 2 * d + |item|, tail)
    ensures buf[pos+2+2*d] == item[0]
  {
    hide Here, Ws;
    var line := "\n" + Pad(d);
    assert open + "\n" + (Pad(d) + item) + tail == open + (line + (item + tail));
    Extends(buf, pos, open + "\n" + (Pad(d) + item) + tail);
    HereSplit(buf, pos, open, line + (item + tail));
    HereSplit(buf, pos + 1, line, item + tail);
    HereSplit(buf, pos + 2 + 2 * d, item, tail);
    HereAt(buf, pos, open, 0);
    HereAt(buf, pos + 2 + 2 * d, item, 0);
    NewLine(buf, pos + 1, d);
  }

  lemma MapRead(m: map<string, string>, buf: string, pos: nat, depth: nat, d: nat)
    requires ValidPairs(m) && depth < DEPTH_LIMIT && Here(buf, pos, PrintPairs(m, d))
    ensures Parse(Pairs, buf, pos, depth) == Ok(Map(m), pos + |PrintPairs(m, d)|)
  {
    var ks := SortedKeys(m.Keys);
    if ks == [] {
      HereAt(buf, pos, "{}", 0); HereAt(buf, pos, "{}", 1);
      assert m == map[] by { assert forall k :: k in m ==> k in ks; }
    } else {
      assert ks[0] in m;
      ListingCovers(ks, m);
      var key, val := ks[0], m[ks[0]];
      var tail := PairLines(ks[1..], m, d + 1) + Closing(d, '}');
      assert "{\n" == "{" + "\n";
      Assoc("{\n" + Entry(key, Quoted(val), d + 1), PairLines(ks[1..], m, d + 1), Closing(d, '}'));
      assert PrintPairs(m, d) == "{" + "\n" + Entry(key, Quoted(val), d + 1) + tail;
      MapItemsRead(key, val, ks[1..], m, buf, pos, depth, d, tail);
    }
  }

  lemma ListingCovers(ks: seq<string>, m: map<string, string>)
    requires Listing(ks, m.Keys) && ks != []
    ensures ks[0] in m && (forall k :: k in ks[1..] ==> k in m)
    ensures Overlaid(map[ks[0] := m[ks[0]]], ks[1..], m) == m
  {
    assert ks[0] in ks;
    assert forall k :: k in ks <==> k == ks[0] || k in ks[1..];
    OverlaidIs(map[ks[0] := m[ks[0]]], ks[1..], m);
  }

  lemma MapItemsRead(key: string, val: string, ks: seq<string>, m: map<string, string>,
                     buf: string, pos: nat, depth: nat, d: nat, tail: string)
    requires ValidPairs(m) && depth < DEPTH_LIMIT && (forall k :: k in ks ==> k in m)
    requires Utf8.Valid(key) && Utf8.Valid(val)
    requires tail == PairLines(ks, m, d + 1) + Closing(d, '}')
    requires Here(buf, pos, "{" + "\n" + Entry(key, Quoted(val), d + 1) + tail)
    ensures Parse(Pairs, buf, pos, depth) ==
      Ok(Map(Overlaid(map[key := val], ks, m)), pos + |"{" + "\n" + Entry(key, Quoted(val), d + 1) + tail|)
  {
    hide *;
    var item := Quoted(key) + ": " + Quoted(val);
    EntryIs(key, Quoted(val), d + 1);
    QuotedOpens(key);
    OpeningRead(buf, pos, "{", d + 1, item, tail);
    var at := pos + 2 + 2 * (d + 1);
    MapOpens(buf, pos, depth, at);
    WsStays(buf, at);
    PairRead(buf, at, key, val, map[]);
    assert map[][key := val] == map[key := val];
    PairsRead(ks, m, map[key := val], buf, at + |item|, d);
    assert |"{" + "\n" + Entry(key, Quoted(val), d + 1) + tail| == 2 + 2 * (d + 1) + |item| + |tail|;
  }

  lemma MapOpens(buf: string, pos: nat, depth: nat, at: nat)
    requires pos < |buf| && buf[pos] == '{' && Ws(buf, pos + 1) == at < |buf| && buf[at] != '}' && depth < DEPTH_LIMIT
    ensures Parse(Pairs, buf, pos, depth) == PairItems(buf, at, map[])
  {
    hide Ws, PairItems, ListItems, Member, Finish, StrAt, IntegerAt;
  }

  lemma ListOpens(elem: Kind, buf: string, pos: nat, depth: nat, at: nat)
    requires pos < |buf| && buf[pos] == '[' && Ws(buf, pos + 1) == at < |buf| && buf[at] != ']' && depth < DEPTH_LIMIT
    requires WfKind(elem)
    ensures Parse(Many(elem), buf, pos, depth) == ListItems(elem, buf, at, depth + 1, [])
  {
    hide Ws, PairItems, ListItems, Member, Finish, StrAt, IntegerAt;
  }

  lemma ObjectOpens(s: Struct, buf: string, pos: nat, depth: nat, at: nat)
    requires pos < |buf| && buf[pos] == '{' && Ws(buf, pos + 1) == at < |buf| && buf[at] != '}' && depth < DEPTH_LIMIT
    requires WfStruct(s)
    ensures Parse(Object(s), buf, pos, depth) == Member(s, buf, at, depth + 1, ZeroFields(s), {})
  {
    hide Ws, PairItems, ListItems, Member, Finish, StrAt, IntegerAt;
  }

  // ---- every kind ----

  function Norms(e: Kind, vs: seq<Val>): (ns: seq<Val>)
    requires TypedAll(e, vs)
  {
    if vs == [] then [] else
      assert vs[0] in vs;
      [Norm(e, vs[0])] + Norms(e, vs[1..])
  }

  lemma NormsAreNorm(e: Kind, vs: seq<Val>)
    requires Typed(Many(e), List(vs))
    ensures Norm(Many(e), List(vs)) == List(Norms(e, vs))
  {
    NormsAt(e, vs);
    assert Norm(Many(e), List(vs)).vs == Norms(e, vs);
  }

  lemma {:induction false} NormsAt(e: Kind, vs: seq<Val>)
    requires TypedAll(e, vs)
    ensures |Norms(e, vs)| == |vs| && forall i :: 0 <= i < |vs| ==> Typed(e, vs[i]) && Norms(e, vs)[i] == Norm(e, vs[i])
  {
    hide Norm, Typed;
    if vs != [] {
      assert vs[0] in vs && forall x :: x in vs[1..] ==> x in vs;
      NormsAt(e, vs[1..]);
    }
  }

  /** What a reader needs to know about a printed value, apart from where it stands. */
  ghost predicate Printed(k: Kind, v: Val, depth: nat) {
    && WfKind(k) && Typed(k, v) && Clean(k, v) && Blocked(k, v) == [] && Fits(k, v, depth)
    && depth + Height(k) <= DEPTH_LIMIT
  }

  /** Reading a printed value gives it back, its times normalised, and ends where the text ends. */
  lemma {:induction false} PrintedRead(k: Kind, v: Val, buf: string, pos: nat, depth: nat, d: nat)
    requires Printed(k, v, depth)
    requires Here(buf, pos, Print(k, v, d)) && !Clings(At(buf, pos + |Print(k, v, d)|))
    ensures Parse(k, buf, pos, depth) == Ok(Norm(k, v), pos + |Print(k, v, d)|)
    decreases k, 3, 0
  {
    hide *;
    if k.Many? { ListRead(k, v, buf, pos, depth, d); }
    else if k.Object? { ObjectRead(k, v, buf, pos, depth, d); }
    else { LeafRead(k, v, buf, pos, depth, d); }
  }

  lemma LeafRead(k: Kind, v: Val, buf: string, pos: nat, depth: nat, d: nat)
    requires !k.Many? && !k.Object? && Printed(k, v, depth)
    requires Here(buf, pos, Print(k, v, d)) && !Clings(At(buf, pos + |Print(k, v, d)|))
    ensures Parse(k, buf, pos, depth) == Ok(Norm(k, v), pos + |Print(k, v, d)|)
  {
    hide PrintPairs, Quoted, StrAt, IntegerAt, FlagAt, TimeAt, PairItems, ListItems, Member, Skip, CutsExactly, Normalized, Utf8.Valid, Clings, ValidPairs;
    match k
    case Text => QuotedRead(buf, pos, v.s);
    case Raw => RawRead(v, buf, pos, depth);
    case Time => TimeRead(v.s, buf, pos);
    case Int(min, max) => IntegerExactly(buf, pos, min, max, v.n, pos + |Decimal.Num(v.n)|);
    case Flag => FlagRead(v.b, buf, pos);
    case Pairs => MapRead(v.m, buf, pos, depth, d);
  }

  lemma RawRead(v: Val, buf: string, pos: nat, depth: nat)
    requires v.Str? && CutsExactly(v.s, depth) && Here(buf, pos, v.s) && !Clings(At(buf, pos + |v.s|))
    ensures Parse(Raw, buf, pos, depth) == Ok(v, pos + |v.s|)
  {
    assert Skip(buf, pos, depth) == Ok((), pos + |v.s|);
  }

  lemma TimeRead(s: string, buf: string, pos: nat)
    requires Normalized(s) != "" && Here(buf, pos, Quoted(Normalized(s)))
    ensures TimeAt(buf, pos) == Ok(Str(Normalized(s)), pos + |Quoted(Normalized(s))|)
  {
    hide Normalized, Quoted, Utf8.Valid, StrAt;
    NormalizedAscii(s);
    Utf8.AsciiValid(Normalized(s));
    QuotedRead(buf, pos, Normalized(s));
    NormalizedFixpoint(s);
  }

  lemma FlagRead(b: bool, buf: string, pos: nat)
    requires Here(buf, pos, if b then "true" else "false")
    ensures FlagAt(buf, pos) == Ok(b, pos + if b then 4 else 5)
  {
    HereAt(buf, pos, if b then "true" else "false", 0);
  }

  ghost predicate PrintedAll(e: Kind, vs: seq<Val>, depth: nat) { forall x :: x in vs ==> Printed(e, x, depth) }

  lemma ElementsPrinted(k: Kind, v: Val, depth: nat)
    requires k.Many? && Printed(k, v, depth)
    ensures PrintedAll(k.elem, v.vs, depth + 1) && depth < DEPTH_LIMIT && WfKind(k.elem)
  {
    forall x | x in v.vs ensures Printed(k.elem, x, depth + 1) {
      var i :| 0 <= i < |v.vs| && v.vs[i] == x;
      BlockedElsewhere(k, v.vs, i);
    }
  }

  lemma {:induction false} ListRead(k: Kind, v: Val, buf: string, pos: nat, depth: nat, d: nat)
    requires k.Many? && Printed(k, v, depth)
    requires Here(buf, pos, Print(k, v, d)) && !Clings(At(buf, pos + |Print(k, v, d)|))
    ensures Parse(k, buf, pos, depth) == Ok(Norm(k, v), pos + |Print(k, v, d)|)
    decreases k, 2, 0
  {
    NormsAreNorm(k.elem, v.vs);
    ElementsPrinted(k, v, depth);
    if v.vs == [] {
      HereAt(buf, pos, "[]", 0); HereAt(buf, pos, "[]", 1);
    } else {
      ListShape(k, v, d);
      ListItemsRead(k, v.vs, buf, pos, depth, d);
    }
  }

  /** The text of a list with something in it, taken apart. */
  function ListText(k: Kind, vs: seq<Val>, d: nat): string
    requires k.Many? && vs != [] && TypedAll(k.elem, vs)
  {
    assert vs[0] in vs;
    "[" + "\n" + (Pad(d + 1) + Print(k.elem, vs[0], d + 1)) + (ItemLines(k, vs[1..], d + 1) + Closing(d, ']'))
  }

  lemma ListShape(k: Kind, v: Val, d: nat)
    requires k.Many? && Typed(k, v) && v.vs != []
    ensures Print(k, v, d) == ListText(k, v.vs, d)
  {
    assert v.vs[0] in v.vs;
    assert "[\n" == "[" + "\n";
    Assoc("[\n" + (Pad(d + 1) + Print(k.elem, v.vs[0], d + 1)), ItemLines(k, v.vs[1..], d + 1), Closing(d, ']'));
  }

  lemma {:induction false} ListItemsRead(k: Kind, vs: seq<Val>, buf: string, pos: nat, depth: nat, d: nat)
    requires k.Many? && WfKind(k.elem) && vs != [] && TypedAll(k.elem, vs) && PrintedAll(k.elem, vs, depth + 1) && depth < DEPTH_LIMIT
    requires Here(buf, pos, ListText(k, vs, d))
    ensures Parse(k, buf, pos, depth) == Ok(List(Norms(k.elem, vs)), pos + |ListText(k, vs, d)|)
    decreases k, 1, 0
  {
    hide *;
    TailsAll(k.elem, vs, depth + 1);
    PrintedIs(k.elem, vs[0], depth + 1);
    var item, lines := Print(k.elem, vs[0], d + 1), ItemLines(k, vs[1..], d + 1);
    var v := Norm(k.elem, vs[0]);
    var at := pos + 2 + 2 * (d + 1);
    ListTextIs(k, vs, d);
    FirstItemRead(k, vs, item, lines + Closing(d, ']'), buf, pos, depth, d);
    ListBegun(k.elem, buf, pos, depth, at, v, at + |item|);
    ItemsRead(k, vs[1..], [v], buf, at + |item|, depth, d);
    NormsUnfold(k.elem, vs, []);
  }

  lemma TailsAll(e: Kind, vs: seq<Val>, depth: nat)
    requires vs != [] && TypedAll(e, vs) && PrintedAll(e, vs, depth)
    ensures Printed(e, vs[0], depth) && TypedAll(e, vs[1..]) && PrintedAll(e, vs[1..], depth)
  {
    assert vs[0] in vs;
    forall x | x in vs[1..] ensures Typed(e, x) && Printed(e, x, depth) { assert x in vs; }
  }

  lemma ListBegun(e: Kind, buf: string, pos: nat, depth: nat, at: nat, v: Val, q: nat)
    requires pos < |buf| && buf[pos] == '[' && Ws(buf, pos + 1) == at < |buf| && buf[at] != ']' && depth < DEPTH_LIMIT
    requires WfKind(e) && !Blank(buf[at]) && Parse(e, buf, at, depth + 1) == Ok(v, q)
    ensures q <= |buf| && Parse(Many(e), buf, pos, depth) == ListRest(e, buf, q, depth + 1, [v])
  {
    ListOpens(e, buf, pos, depth, at);
    ItemTaken(e, buf, at, depth + 1, [], v, q);
    assert [] + [v] == [v];
  }

  lemma {:induction false} FirstItemRead(k: Kind, vs: seq<Val>, item: string, tail: string, buf: string, pos: nat, depth: nat, d: nat)
    requires k.Many? && vs != [] && TypedAll(k.elem, vs) && TypedAll(k.elem, vs[1..]) && Printed(k.elem, vs[0], depth + 1)
    requires item == Print(k.elem, vs[0], d + 1) && tail == ItemLines(k, vs[1..], d + 1) + Closing(d, ']')
    requires Here(buf, pos, "[" + "\n" + (Pad(d + 1) + item) + tail)
    ensures pos < |buf| && buf[pos] == '[' && Ws(buf, pos + 1) == pos + 2 + 2 * (d + 1) < |buf|
    ensures buf[pos + 2 + 2 * (d + 1)] != ']' && !Blank(buf[pos + 2 + 2 * (d + 1)])
    ensures Parse(k.elem, buf, pos + 2 + 2 * (d + 1), depth + 1) == Ok(Norm(k.elem, vs[0]), pos + 2 + 2 * (d + 1) + |item|)
    ensures Here(buf, pos + 2 + 2 * (d + 1) + |item|, tail)
    decreases k, 0, 0
  {
    hide *;
    PrintedIs(k.elem, vs[0], depth + 1);
    ItemLinesStart(k, vs[1..], d + 1);
    ItemStarts(k.elem, vs[0], d + 1, depth + 1);
    PrintStarts(k.elem, vs[0], d + 1, depth + 1);
    OpeningRead(buf, pos, "[", d + 1, item, tail);
    TailStarts(buf, pos + 2 + 2 * (d + 1) + |item|, ItemLines(k, vs[1..], d + 1), d, ']');
    PrintedRead(k.elem, vs[0], buf, pos + 2 + 2 * (d + 1), depth + 1, d + 1);
  }

  lemma ItemTaken(e: Kind, buf: string, p: nat, depth: nat, acc: seq<Val>, v: Val, q: nat)
    requires p <= |buf| && WfKind(e) && Parse(e, buf, Ws(buf, p), depth) == Ok(v, q)
    ensures q <= |buf| && ListItems(e, buf, p, depth, acc) == ListRest(e, buf, q, depth, acc + [v])
  {
  }

  lemma ListMore(e: Kind, buf: string, pos: nat, depth: nat, acc: seq<Val>)
    requires pos <= |buf| && WfKind(e) && After(buf, pos, ']').More?
    ensures ListRest(e, buf, pos, depth, acc) == ListItems(e, buf, After(buf, pos, ']').pos, depth, acc)
  {
  }

  /** A comma, a line and an item, once the item is known to be read. */
  lemma ItemLine(e: Kind, item: string, v: Val, acc: seq<Val>, buf: string, pos: nat, depth: nat, d: nat)
    requires WfKind(e) && item != "" && !Blank(item[0]) && Here(buf, pos, ",\n" + (Pad(d) + item))
    requires Parse(e, buf, pos + 2 + 2 * d, depth) == Ok(v, pos + 2 + 2 * d + |item|)
    ensures ListRest(e, buf, pos, depth, acc) == ListRest(e, buf, pos + 2 + 2 * d + |item|, depth, acc + [v])
  {
    hide *;
    AfterComma(buf, pos, d, item, ']');
    ListMore(e, buf, pos, depth, acc);
    ItemTaken(e, buf, pos + 1, depth, acc, v, pos + 2 + 2 * d + |item|);
  }

  lemma {:induction false} ItemLineRead(k: Kind, v: Val, item: string, buf: string, pos: nat, depth: nat, d: nat)
    requires k.Many? && Printed(k.elem, v, depth) && item == Print(k.elem, v, d)
    requires Here(buf, pos, ",\n" + (Pad(d) + item)) && !Clings(At(buf, pos + 2 + 2 * d + |item|))
    ensures item != "" && !Blank(item[0])
    ensures Parse(k.elem, buf, pos + 2 + 2 * d, depth) == Ok(Norm(k.elem, v), pos + 2 + 2 * d + |item|)
    decreases k, 0, 0
  {
    hide *;
    PrintedIs(k.elem, v, depth);
    PrintStarts(k.elem, v, d, depth);
    AfterComma(buf, pos, d, item, ']');
    PrintedRead(k.elem, v, buf, pos + 2 + 2 * d, depth, d);
  }

  lemma {:induction false} ItemsStep(k: Kind, vs: seq<Val>, acc: seq<Val>, buf: string, pos: nat, depth: nat, d: nat, item: string)
    requires k.Many? && vs != [] && TypedAll(k.elem, vs) && Printed(k.elem, vs[0], depth + 1)
    requires item == Print(k.elem, vs[0], d + 1)
    requires Here(buf, pos, ItemLines(k, vs, d + 1) + Closing(d, ']'))
    ensures var q := pos + 2 + 2 * (d + 1) + |item|; var rest := ItemLines(k, vs[1..], d + 1) + Closing(d, ']');
      && Here(buf, q, rest) && pos + |ItemLines(k, vs, d + 1) + Closing(d, ']')| == q + |rest|
      && ListRest(k.elem, buf, pos, depth + 1, acc) == ListRest(k.elem, buf, q, depth + 1, acc + [Norm(k.elem, vs[0])])
    decreases k, 0, 1
  {
    hide *;
    PrintedIs(k.elem, vs[0], depth + 1);
    ItemLinesUnfold(k, vs, d + 1);
    var lines := ItemLines(k, vs[1..], d + 1);
    var line := ",\n" + (Pad(d + 1) + item);
    Assoc(line, lines, Closing(d, ']'));
    HereSplit(buf, pos, line, lines + Closing(d, ']'));
    TailStarts(buf, pos + |line|, lines, d, ']');
    ItemLineRead(k, vs[0], item, buf, pos, depth + 1, d + 1);
    ItemLine(k.elem, item, Norm(k.elem, vs[0]), acc, buf, pos, depth + 1, d + 1);
  }

  lemma NoItems(e: Kind, acc: seq<Val>, buf: string, pos: nat, depth: nat, d: nat, lines: string)
    requires WfKind(e) && lines == "" && Here(buf, pos, lines + Closing(d, ']'))
    ensures ListRest(e, buf, pos, depth, acc) == Ok(List(acc), pos + |lines + Closing(d, ']')|)
  {
    assert lines + Closing(d, ']') == Closing(d, ']');
    AfterClosing(buf, pos, d, ']');
  }

  lemma {:induction false} ItemsRead(k: Kind, vs: seq<Val>, acc: seq<Val>, buf: string, pos: nat, depth: nat, d: nat)
    requires k.Many? && WfKind(k.elem) && TypedAll(k.elem, vs) && PrintedAll(k.elem, vs, depth + 1)
    requires Here(buf, pos, ItemLines(k, vs, d + 1) + Closing(d, ']'))
    ensures ListRest(k.elem, buf, pos, depth + 1, acc) ==
      Ok(List(acc + Norms(k.elem, vs)), pos + |ItemLines(k, vs, d + 1) + Closing(d, ']')|)
    decreases k, 0, |vs| + 2
  {
    hide *;
    if vs == [] {
      NoLines(k, vs, acc, d);
      NoItems(k.elem, acc, buf, pos, depth + 1, d, ItemLines(k, vs, d + 1));
    } else {
      TailsAll(k.elem, vs, depth + 1);
      PrintedIs(k.elem, vs[0], depth + 1);
      var item, v := Print(k.elem, vs[0], d + 1), Norm(k.elem, vs[0]);
      ItemsStep(k, vs, acc, buf, pos, depth, d, item);
      ItemsRead(k, vs[1..], acc + [v], buf, pos + 2 + 2 * (d + 1) + |item|, depth, d);
      NormsUnfold(k.elem, vs, acc);
    }
  }

  /** No item begins with a closing bracket. */
  lemma ItemStarts(k: Kind, v: Val, d: nat, depth: nat)
    requires WfKind(k) && Typed(k, v) && Fits(k, v, depth)
    ensures Print(k, v, d) != "" && Print(k, v, d)[0] != ']' && Print(k, v, d)[0] != '}'
  {
    match k
    case Int(_, _) => NumOpens(v.n);
    case Raw =>
      assert Here(v.s, 0, v.s);
      assert Skip(v.s, 0, depth) == Ok((), |v.s|);
    case Pairs => assert PrintPairs(v.m, d) != "" && PrintPairs(v.m, d)[0] == '{';
    case Many(_) => assert Print(k, v, d)[0] == '[';
    case Object(_) => assert Print(k, v, d)[0] == '{';
    case _ =>
  }

  lemma PrintedIs(k: Kind, v: Val, depth: nat)
    requires Printed(k, v, depth)
    ensures WfKind(k) && Typed(k, v) && Fits(k, v, depth)
  {
  }

  lemma NoLines(k: Kind, vs: seq<Val>, acc: seq<Val>, d: nat)
    requires k.Many? && vs == []
    ensures TypedAll(k.elem, vs) && ItemLines(k, vs, d + 1) == "" && acc + Norms(k.elem, vs) == acc
  {
  }

  lemma NormsUnfold(e: Kind, vs: seq<Val>, acc: seq<Val>)
    requires vs != [] && TypedAll(e, vs)
    ensures TypedAll(e, vs[1..]) && Typed(e, vs[0])
    ensures acc + [Norm(e, vs[0])] + Norms(e, vs[1..]) == acc + Norms(e, vs)
    ensures [Norm(e, vs[0])] + Norms(e, vs[1..]) == Norms(e, vs)
  {
    assert vs[0] in vs;
    hide Norm, Typed;
    assert Norms(e, vs) == [Norm(e, vs[0])] + Norms(e, vs[1..]);
  }

  lemma ListTextIs(k: Kind, vs: seq<Val>, d: nat)
    requires k.Many? && vs != [] && TypedAll(k.elem, vs)
    ensures TypedAll(k.elem, vs[1..]) && Typed(k.elem, vs[0])
    ensures var item, tail := Print(k.elem, vs[0], d + 1), ItemLines(k, vs[1..], d + 1) + Closing(d, ']');
      ListText(k, vs, d) == "[" + "\n" + (Pad(d + 1) + item) + tail && |ListText(k, vs, d)| == 2 + 2 * (d + 1) + |item| + |tail|
  {
    assert vs[0] in vs;
  }

  lemma ItemLinesStart(k: Kind, vs: seq<Val>, d: nat)
    requires k.Many? && TypedAll(k.elem, vs)
    ensures var t := ItemLines(k, vs, d); t == "" || t[0] == ','
  {
  }

  lemma ItemLinesUnfold(k: Kind, vs: seq<Val>, d: nat)
    requires k.Many? && vs != [] && TypedAll(k.elem, vs)
    ensures TypedAll(k.elem, vs[1..]) && Typed(k.elem, vs[0])
    ensures ItemLines(k, vs, d) == ",\n" + (Pad(d) + Print(k.elem, vs[0], d)) + ItemLines(k, vs[1..], d)
    ensures var t := ItemLines(k, vs[1..], d); t == "" || t[0] == ','
  {
    assert vs[0] in vs;
  }

  lemma FieldPrinted(k: Kind, v: Val, i: nat, depth: nat)
    requires k.Object? && Printed(k, v, depth) && i < |v.fs|
    ensures |v.fs| == |k.s.fields| && WfStruct(k.s) && Typed(k, v) && WfKind(k) && Printed(k.s.fields[i].kind, v.fs[i], depth + 1)
    ensures Utf8.Valid(k.s.fields[i].name) && IndexOf(k.s.fields, k.s.fields[i].name) == i
  {
    var f := k.s.fields[i];
    assert f in k.s.fields;
    FieldHeight(k.s.fields, i);
    BlockedLater(k, v, 0, i);
    IndexOfName(k.s.fields, i);
  }

  lemma NumOpens(n: int)
    ensures Decimal.Num(n) != "" && Decimal.Num(n)[0] != ']' && Decimal.Num(n)[0] != '}'
  {
    if n > 0 { assert Digit(Digits(n)[0]); }
  }

  /** What follows an item clings to no number: a comma or a line end. */
  lemma TailStarts(buf: string, p: nat, lines: string, d: nat, shut: char)
    requires Here(buf, p, lines + Closing(d, shut)) && (lines == "" || lines[0] == ',')
    ensures !Clings(At(buf, p))
  {
    HereAt(buf, p, lines + Closing(d, shut), 0);
  }

  // ---- objects ----

  /** The struct once the first i fields have been read: the others are still zero. */
  function Upto(k: Kind, v: Val, i: nat): (fs: seq<Val>)
    requires k.Object? && Typed(k, v) && i <= |v.fs|
    ensures |fs| == |v.fs|
  {
    seq(|v.fs|, j requires 0 <= j < |v.fs| =>
      if j < i then Norm(k.s.fields[j].kind, v.fs[j]) else Zero(k.s.fields[j].kind))
  }

  function SeenUpto(k: Kind, v: Val, i: nat): (seen: set<nat>)
    requires k.Object? && Typed(k, v) && i <= |v.fs|
  {
    set j: nat | j < i && Present(k.s.fields[j], v.fs[j])
  }

  lemma AbsentIsZero(k: Kind, v: Val, i: nat)
    requires k.Object? && WfKind(k) && Typed(k, v) && i < |v.fs| && !Present(k.s.fields[i], v.fs[i])
    ensures Upto(k, v, i + 1) == Upto(k, v, i) && SeenUpto(k, v, i + 1) == SeenUpto(k, v, i)
  {
    assert k.s.fields[i] in k.s.fields;
    assert Norm(k.s.fields[i].kind, v.fs[i]) == Zero(k.s.fields[i].kind);
  }

  lemma PresentIsRead(k: Kind, v: Val, i: nat)
    requires k.Object? && WfKind(k) && Typed(k, v) && i < |v.fs| && Present(k.s.fields[i], v.fs[i])
    ensures Upto(k, v, i)[i := Norm(k.s.fields[i].kind, v.fs[i])] == Upto(k, v, i + 1)
    ensures SeenUpto(k, v, i) + {i} == SeenUpto(k, v, i + 1) && i !in SeenUpto(k, v, i)
  {
  }

  lemma AllRead(k: Kind, v: Val, depth: nat, pos: nat)
    requires k.Object? && Printed(k, v, depth)
    ensures Finish(k.s, Upto(k, v, |v.fs|), SeenUpto(k, v, |v.fs|), pos) == Ok(Norm(k, v), pos)
  {
    assert Upto(k, v, |v.fs|) == Norm(k, v).fs;
    forall i | 0 <= i < |k.s.fields| && k.s.fields[i].required ensures i in SeenUpto(k, v, |v.fs|) {}
    BlockedLater(k, v, 0, 0);
    assert k.s.fields[0] in k.s.fields;
  }

  lemma {:induction false} FieldLinesStart(k: Kind, v: Val, i: nat, d: nat)
    requires k.Object? && Typed(k, v) && i <= |v.fs|
    ensures var t := FieldLines(k, v, i, d); t == "" || t[0] == ','
    decreases |v.fs| - i
  {
    if i < |v.fs| && !Present(k.s.fields[i], v.fs[i]) { FieldLinesStart(k, v, i + 1, d); }
  }

  /** A field's key and value as printed. */
  function Item(k: Kind, v: Val, i: nat, d: nat): string
    requires k.Object? && Typed(k, v) && i < |v.fs|
  {
    Quoted(k.s.fields[i].name) + ": " + Print(k.s.fields[i].kind, v.fs[i], d)
  }

  lemma ItemOpens(name: string, value: string)
    ensures var t := Quoted(name) + ": " + value; t != "" && t[0] == '"'
  {
  }

  lemma FieldLinesUnfold(k: Kind, v: Val, i: nat, depth: nat, d: nat)
    requires k.Object? && Printed(k, v, depth) && i <= |v.fs|
    ensures Typed(k, v) && WfKind(k) && WfStruct(k.s) && |v.fs| == |k.s.fields|
    ensures i == |v.fs| ==> FieldLines(k, v, i, d + 1) == ""
    ensures i < |v.fs| && !Present(k.s.fields[i], v.fs[i]) ==> FieldLines(k, v, i, d + 1) == FieldLines(k, v, i + 1, d + 1)
    ensures i < |v.fs| && Present(k.s.fields[i], v.fs[i]) ==>
      && FieldLines(k, v, i, d + 1) == ",\n" + (Pad(d + 1) + Item(k, v, i, d + 1)) + FieldLines(k, v, i + 1, d + 1)
      && Item(k, v, i, d + 1) != "" && !Blank(Item(k, v, i, d + 1)[0])
      && (FieldLines(k, v, i + 1, d + 1) == "" || FieldLines(k, v, i + 1, d + 1)[0] == ',')
  {
    if i < |v.fs| {
      FieldLinesStart(k, v, i + 1, d + 1);
      ItemOpens(k.s.fields[i].name, Print(k.s.fields[i].kind, v.fs[i], d + 1));
    }
  }

  lemma RestShut(s: Struct, buf: string, pos: nat, depth: nat, fs: seq<Val>, seen: set<nat>)
    requires pos <= |buf| && WfStruct(s) && |fs| == |s.fields| && After(buf, pos, '}').Shut?
    ensures Rest(s, buf, pos, depth, fs, seen) == Finish(s, fs, seen, After(buf, pos, '}').pos)
  {
  }

  lemma RestMore(s: Struct, buf: string, pos: nat, depth: nat, fs: seq<Val>, seen: set<nat>)
    requires pos <= |buf| && WfStruct(s) && |fs| == |s.fields| && After(buf, pos, '}').More?
    ensures Rest(s, buf, pos, depth, fs, seen) == Member(s, buf, After(buf, pos, '}').pos, depth, fs, seen)
  {
  }

  /** The text of an object, taken apart. */
  lemma ObjectShape(k: Kind, v: Val, depth: nat, d: nat)
    requires k.Object? && Printed(k, v, depth)
    ensures Typed(k, v) && WfKind(k) && WfStruct(k.s) && |v.fs| == |k.s.fields| > 0 && depth < DEPTH_LIMIT
    ensures Present(k.s.fields[0], v.fs[0])
    ensures ZeroFields(k.s) == Upto(k, v, 0) && SeenUpto(k, v, 0) == {}
    ensures Item(k, v, 0, d + 1) != "" && Item(k, v, 0, d + 1)[0] == '"' && !Blank('"')
    ensures var lines := FieldLines(k, v, 1, d + 1);
      && (lines == "" || lines[0] == ',')
      && Print(k, v, d) == "{" + "\n" + (Pad(d + 1) + Item(k, v, 0, d + 1)) + (lines + Closing(d, '}'))
      && |Print(k, v, d)| == 2 + 2 * (d + 1) + |Item(k, v, 0, d + 1)| + |lines + Closing(d, '}')|
  {
    hide Print, FieldLines, Closing, Pad, Item, Quoted, Clean, Blocked, Fits, Utf8.Valid;
    ObjectIs(k, v, depth);
    FieldLinesStart(k, v, 1, d + 1);
    FirstItemOpens(k, v, d + 1);
    ObjectTextIs(k, v, d);
    assert ZeroFields(k.s) == Upto(k, v, 0) && SeenUpto(k, v, 0) == {};
  }

  lemma ObjectIs(k: Kind, v: Val, depth: nat)
    requires k.Object? && Printed(k, v, depth)
    ensures Typed(k, v) && WfKind(k) && WfStruct(k.s) && v.Obj? && |v.fs| == |k.s.fields| > 0 && depth < DEPTH_LIMIT
    ensures Present(k.s.fields[0], v.fs[0])
  {
    hide Clean, Blocked, Fits, Utf8.Valid;
  }

  lemma FirstItemOpens(k: Kind, v: Val, d: nat)
    requires k.Object? && Typed(k, v) && |v.fs| > 0
    ensures Item(k, v, 0, d) != "" && Item(k, v, 0, d)[0] == '"' && !Blank('"')
  {
    hide Print, Quoted;
    ItemOpens(k.s.fields[0].name, Print(k.s.fields[0].kind, v.fs[0], d));
  }

  lemma ObjectTextIs(k: Kind, v: Val, d: nat)
    requires k.Object? && Typed(k, v) && |v.fs| > 0
    ensures var lines := FieldLines(k, v, 1, d + 1);
      && Print(k, v, d) == "{" + "\n" + (Pad(d + 1) + Item(k, v, 0, d + 1)) + (lines + Closing(d, '}'))
      && |Print(k, v, d)| == 2 + 2 * (d + 1) + |Item(k, v, 0, d + 1)| + |lines + Closing(d, '}')|
  {
    hide FieldLines, Closing, Quoted;
    assert "{\n" == "{" + "\n";
    Assoc("{\n" + (Pad(d + 1) + Item(k, v, 0, d + 1)), FieldLines(k, v, 1, d + 1), Closing(d, '}'));
  }

  lemma ItemIs(k: Kind, v: Val, i: nat, d: nat)
    requires k.Object? && Typed(k, v) && i < |v.fs|
    ensures Typed(k.s.fields[i].kind, v.fs[i])
    ensures Item(k, v, i, d) == Quoted(k.s.fields[i].name) + ": " + Print(k.s.fields[i].kind, v.fs[i], d)
    ensures |Item(k, v, i, d)| == |Quoted(k.s.fields[i].name)| + 2 + |Print(k.s.fields[i].kind, v.fs[i], d)|
  {
  }

  lemma MemberTaken(s: Struct, i: nat, buf: string, p: nat, at: nat, depth: nat, fs: seq<Val>, seen: set<nat>, v: Val, q: nat)
    requires p <= |buf| && WfStruct(s) && |fs| == |s.fields| && i < |s.fields| && i !in seen && at <= |buf| && WfKind(s.fields[i].kind)
    requires KeyAt(buf, p) == Ok(s.fields[i].name, at) && IndexOf(s.fields, s.fields[i].name) == i
    requires Parse(s.fields[i].kind, buf, at, depth) == Ok(v, q)
    ensures q <= |buf| && Member(s, buf, p, depth, fs, seen) == Rest(s, buf, q, depth, fs[i := v], seen + {i})
  {
  }

  lemma WsStays(buf: string, p: nat)
    requires p < |buf| && !Blank(buf[p])
    ensures Ws(buf, p) == p
  {
  }

  /** One field, from the blanks before its key. */
  lemma {:induction false} FieldRead(k: Kind, v: Val, i: nat, buf: string, p: nat, depth: nat, d: nat)
    requires k.Object? && Printed(k, v, depth) && i < |v.fs| && p <= |buf| && Present(k.s.fields[i], v.fs[i])
    requires Here(buf, Ws(buf, p), Item(k, v, i, d + 1))
    requires !Clings(At(buf, Ws(buf, p) + |Item(k, v, i, d + 1)|))
    ensures var q := Ws(buf, p) + |Item(k, v, i, d + 1)|;
      q <= |buf| &&
      Member(k.s, buf, p, depth + 1, Upto(k, v, i), SeenUpto(k, v, i)) ==
      Rest(k.s, buf, q, depth + 1, Upto(k, v, i + 1), SeenUpto(k, v, i + 1))
    decreases k, 0, 0
  {
    hide *;
    FieldPrinted(k, v, i, depth);
    var f := k.s.fields[i];
    PrintedIs(f.kind, v.fs[i], depth + 1);
    var value, at := Print(f.kind, v.fs[i], d + 1), Ws(buf, p) + |Quoted(f.name)| + 2;
    ItemIs(k, v, i, d + 1);
    PrintStarts(f.kind, v.fs[i], d + 1, depth + 1);
    EntryRead(buf, p, f.name, value);
    PrintedRead(f.kind, v.fs[i], buf, at, depth + 1, d + 1);
    PresentIsRead(k, v, i);
    MemberTaken(k.s, i, buf, p, at, depth + 1, Upto(k, v, i), SeenUpto(k, v, i), Norm(f.kind, v.fs[i]), at + |value|);
  }

  lemma {:induction false} FieldsRead(k: Kind, v: Val, i: nat, buf: string, pos: nat, depth: nat, d: nat)
    requires k.Object? && Printed(k, v, depth) && i <= |v.fs|
    requires Here(buf, pos, FieldLines(k, v, i, d + 1) + Closing(d, '}'))
    ensures Rest(k.s, buf, pos, depth + 1, Upto(k, v, i), SeenUpto(k, v, i)) ==
      Ok(Norm(k, v), pos + |FieldLines(k, v, i, d + 1) + Closing(d, '}')|)
    decreases k, 1, |v.fs| - i
  {
    hide *;
    FieldLinesUnfold(k, v, i, depth, d);
    if i == |v.fs| {
      assert FieldLines(k, v, i, d + 1) + Closing(d, '}') == Closing(d, '}');
      AfterClosing(buf, pos, d, '}');
      AllRead(k, v, depth, pos + |Closing(d, '}')|);
      RestShut(k.s, buf, pos, depth + 1, Upto(k, v, i), SeenUpto(k, v, i));
    } else if !Present(k.s.fields[i], v.fs[i]) {
      AbsentIsZero(k, v, i);
      FieldsRead(k, v, i + 1, buf, pos, depth, d);
    } else {
      var item := Item(k, v, i, d + 1);
      var line, lines := ",\n" + (Pad(d + 1) + item), FieldLines(k, v, i + 1, d + 1);
      Assoc(line, lines, Closing(d, '}'));
      HereSplit(buf, pos, line, lines + Closing(d, '}'));
      AfterComma(buf, pos, d + 1, item, '}');
      TailStarts(buf, pos + |line|, lines, d, '}');
      RestMore(k.s, buf, pos, depth + 1, Upto(k, v, i), SeenUpto(k, v, i));
      FieldRead(k, v, i, buf, pos + 1, depth, d);
      FieldsRead(k, v, i + 1, buf, pos + |line|, depth, d);
    }
  }

  lemma {:induction false} ObjectRead(k: Kind, v: Val, buf: string, pos: nat, depth: nat, d: nat)
    requires k.Object? && Printed(k, v, depth)
    requires Here(buf, pos, Print(k, v, d)) && !Clings(At(buf, pos + |Print(k, v, d)|))
    ensures Parse(k, buf, pos, depth) == Ok(Norm(k, v), pos + |Print(k, v, d)|)
    decreases k, 1, |v.fs| + 1
  {
    hide *;
    ObjectShape(k, v, depth, d);
    var item, lines := Item(k, v, 0, d + 1), FieldLines(k, v, 1, d + 1);
    var tail := lines + Closing(d, '}');
    OpeningRead(buf, pos, "{", d + 1, item, tail);
    var at := pos + 2 + 2 * (d + 1);
    ObjectOpens(k.s, buf, pos, depth, at);
    WsStays(buf, at);
    TailStarts(buf, at + |item|, lines, d, '}');
    FieldRead(k, v, 0, buf, at, depth, d);
    FieldsRead(k, v, 1, buf, at + |item|, depth, d);
  }
}
