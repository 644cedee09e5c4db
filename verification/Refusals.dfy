/** Why a reader refuses and where: the first thing that is wrong decides, and its place is the offset reported. */
module Refusals {
  import opened Decimal
  import opened Lexer
  import opened Schema
  import opened Parser
  import opened RoundTrip
  import opened Tokens
  import opened Grammar
  import opened Objects
  import opened Structs
  import Utf8

  // ---- strings ----

  /** A backslash at q that begins no escape. */
  ghost predicate EscapeBroken(buf: string, q: nat, w: Word, at: nat) {
    if q + 1 >= |buf| then w == Malformed && at == q + 1
    else if buf[q+1] != 'u' then w == BadString && at == q + 2 && forall i :: 0 <= i < 8 ==> buf[q+1] != SHORT[i].0
    else w == BadString && UnitBroken(buf, q, at)
  }

  /** Four digits that are none, a low surrogate alone, or a high one without a low one after it. */
  ghost predicate UnitBroken(buf: string, q: nat, at: nat) {
    || (at == q + 2 && NoneAt(buf, q + 2))
    || (at == q + 6 && UnitIn(buf, q + 2, 0xDC00, 0xDFFF))
    || (UnitIn(buf, q + 2, 0xD800, 0xDBFF) && LowBroken(buf, q + 6, at))
  }

  ghost predicate LowBroken(buf: string, q: nat, at: nat) {
    if q + 1 >= |buf| || buf[q] as int != 92 || buf[q+1] != 'u' then at == q
    else (at == q + 2 && NoneAt(buf, q + 2)) || (at == q + 6 && (UnitIn(buf, q + 2, 0, 0xDBFF) || UnitIn(buf, q + 2, 0xE000, 0xFFFF)))
  }

  ghost predicate NoneAt(buf: string, pos: nat) { forall u :: !Quad(buf, pos, u) }

  ghost predicate UnitIn(buf: string, pos: nat, low: int, high: int) { exists u :: Quad(buf, pos, u) && low <= u <= high }

  /** What stops a string after whole pieces: the end of the text, a raw control byte, a broken escape, or a quote
      that closes something that is not UTF-8. */
  ghost predicate Broken(buf: string, q: nat, out: string, w: Word, at: nat) {
    if q >= |buf| then w == Malformed && at == q
    else if buf[q] as int == 34 then !Utf8.Valid(out) && w == BadString && at == q + 1
    else if buf[q] as int < 32 then w == BadString && at == q
    else buf[q] as int == 92 && EscapeBroken(buf, q, w, at)
  }

  lemma NoQuad(buf: string, pos: nat)
    ensures Hex4(buf, pos).Refused? <==> NoneAt(buf, pos)
    ensures Hex4(buf, pos).Refused? ==> Hex4(buf, pos) == Refused(BadString, pos)
    ensures Hex4(buf, pos).Ok? ==> Quad(buf, pos, Hex4(buf, pos).value)
    ensures forall low, high :: UnitIn(buf, pos, low, high) <==> Hex4(buf, pos).Ok? && low <= Hex4(buf, pos).value <= high
  {
    hide Quad, Hex, HexValue;
    forall u ensures Quad(buf, pos, u) <==> u >= 0 && Hex4(buf, pos) == Ok(u, pos + 4) { QuadExactly(buf, pos, u); }
    if Hex4(buf, pos).Ok? { assert Quad(buf, pos, Hex4(buf, pos).value); }
  }

  lemma UnitRefused(buf: string, q: nat, w: Word, at: nat)
    requires q + 1 < |buf| && buf[q] == '\\' && buf[q+1] == 'u'
    ensures Unicode(buf, q + 2) == Refused(w, at) <==> w == BadString && UnitBroken(buf, q, at)
  {
    hide Quad, Hex4;
    NoQuad(buf, q + 2);
    NoQuad(buf, q + 8);
  }

  lemma EscapeRefused(buf: string, q: nat, w: Word, at: nat)
    requires q < |buf| && buf[q] == '\\'
    ensures EscapeAt(buf, q) == Refused(w, at) <==> EscapeBroken(buf, q, w, at)
  {
    hide Unicode, UnitBroken, Utf8.Rune;
    if q + 1 < |buf| {
      if buf[q+1] == 'u' { UnitRefused(buf, q, w, at); } else { Letters(buf[q+1]); }
    }
  }

  lemma Letters(c: char)
    ensures (exists i :: 0 <= i < 8 && c == SHORT[i].0) <==>
      c == '"' || c == '\\' || c == '/' || c == 'b' || c == 'f' || c == 'n' || c == 'r' || c == 't'
  {
    var i := if c == '"' then 0 else if c == '\\' then 1 else if c == '/' then 2 else if c == 'b' then 3 else if c == 'f' then 4
      else if c == 'n' then 5 else if c == 'r' then 6 else 7;
    assert SHORT[i].0 == SHORT[i].0;
  }

  lemma {:induction false} RefusedInPieces(buf: string, a: nat, out: string) returns (q: nat, values: seq<string>)
    requires a <= |buf| && Body(buf, a, out).Refused?
    ensures Pieces(buf, a, q, values) && Broken(buf, q, out + Concat(values), Body(buf, a, out).word, Body(buf, a, out).at)
    decreases |buf| - a
  {
    hide Piece, EscapeAt, EscapeBroken, Utf8.Valid;
    assert out + "" == out;
    if a < |buf| && buf[a] == '\\' { EscapeRefused(buf, a, Body(buf, a, out).word, Body(buf, a, out).at); }
    if a == |buf| || buf[a] == '"' || buf[a] < ' ' || (buf[a] == '\\' && EscapeAt(buf, a).Refused?) {
      q, values := a, [];
    } else {
      var v, b := [buf[a]], a + 1;
      if buf[a] == '\\' { v, b := EscapeAt(buf, a).value, EscapeAt(buf, a).pos; }
      PieceThere(buf, a, b, v);
      var rest;
      q, rest := RefusedInPieces(buf, b, out + v);
      values := [v] + rest;
      Assoc(out, v, Concat(rest));
      assert values[1..] == rest;
    }
  }

  lemma PieceThere(buf: string, a: nat, b: nat, v: string)
    requires a < |buf| && (if buf[a] == '\\' then EscapeAt(buf, a) == Ok(v, b) else buf[a] >= ' ' && buf[a] != '"' && v == [buf[a]] && b == a + 1)
    ensures a < b && Piece(buf, a, b, v)
  {
    hide Quad, EscapeAt;
    if buf[a] == '\\' { EscapeExactly(buf, a, b, v); }
  }

  /** A string is refused, with this word and offset, exactly if something else begins there, or behind whole pieces
      stands something broken. */
  lemma StringRefused(buf: string, pos: nat, w: Word, at: nat)
    requires pos <= |buf|
    ensures StrAt(buf, pos) == Refused(w, at) <==>
      if At(buf, pos) as int != 34 then w == WrongType && at == pos else StringBroken(buf, pos + 1, w, at)
  {
    hide Pieces, Body, Broken, Utf8.Valid;
    if At(buf, pos) == '"' {
      if StrAt(buf, pos) == Refused(w, at) {
        var q, values := RefusedInPieces(buf, pos + 1, "");
        assert "" + Concat(values) == Concat(values);
        assert BrokenAt(buf, pos + 1, q, values, w, at);
      }
      if StringBroken(buf, pos + 1, w, at) {
        var q, values :| BrokenAt(buf, pos + 1, q, values, w, at);
        PiecesRead(buf, pos + 1, q, values, "");
        assert "" + Concat(values) == Concat(values);
        BrokenRefused(buf, q, Concat(values), w, at);
      }
    }
  }

  ghost predicate StringBroken(buf: string, a: nat, w: Word, at: nat) { exists q: nat, values :: BrokenAt(buf, a, q, values, w, at) }

  ghost predicate BrokenAt(buf: string, a: nat, q: nat, values: seq<string>, w: Word, at: nat) {
    Pieces(buf, a, q, values) && Broken(buf, q, Concat(values), w, at)
  }

  lemma BrokenRefused(buf: string, q: nat, out: string, w: Word, at: nat)
    requires q <= |buf| && Broken(buf, q, out, w, at)
    ensures Body(buf, q, out) == Refused(w, at)
  {
    hide EscapeAt, EscapeBroken;
    if q < |buf| && buf[q] == '\\' { EscapeRefused(buf, q, w, at); }
  }

  // ---- numbers and words ----

  /** Where the digits from p are given up: before the first that would carry them past every int64, or at their end. */
  ghost predicate GivenUp(buf: string, p: nat, q: nat) {
    && p < q <= |buf| && AllDigits(buf[p..q])
    && (forall j :: p <= j < q && AllDigits(buf[p..j]) ==> Decimal.Value(buf[p..j]) <= 922337203685477580)
    && (buf[p] != '0' && Digit(At(buf, q)) ==> Decimal.Value(buf[p..q]) > 922337203685477580)
    && (buf[p] == '0' ==> q == p + 1)
  }

  lemma {:induction false} ScanGivesUp(buf: string, p: nat, u: nat, start: nat) returns (q: nat)
    requires start <= p <= |buf| && AllDigits(buf[start..p]) && u == Decimal.Value(buf[start..p]) && (start < p || Digit(At(buf, p)))
    requires forall j :: start <= j < p && AllDigits(buf[start..j]) ==> Decimal.Value(buf[start..j]) <= 922337203685477580
    ensures start < q <= |buf| && p <= q && AllDigits(buf[start..q])
    ensures forall j :: start <= j < q && AllDigits(buf[start..j]) ==> Decimal.Value(buf[start..j]) <= 922337203685477580
    ensures Digit(At(buf, q)) ==> Decimal.Value(buf[start..q]) > 922337203685477580
    ensures var r := Scan(buf, p, u); q == if r.Overflow? then r.at else r.pos
    decreases |buf| - p
  {
    hide Decimal.Value;
    if !Digit(At(buf, p)) {
      q := p;
    } else if u > GUARD {
      q := p;
      StartIsSmall(buf, start, p);
    } else {
      ValueSnoc(buf, start, p);
      q := ScanGivesUp(buf, p + 1, u * 10 + DigitValue(buf[p]), start);
    }
  }

  lemma StartIsSmall(buf: string, start: nat, p: nat)
    requires start <= p <= |buf| && AllDigits(buf[start..p]) && Decimal.Value(buf[start..p]) > GUARD
    ensures start < p
  {
    NothingValued(buf, start);
  }

  lemma NothingValued(buf: string, p: nat)
    requires p <= |buf|
    ensures Decimal.Value(buf[p..p]) == 0
  {
    assert buf[p..p] == "";
  }

  /** An integer that is refused: something else stands there; a sign has no digits; or the number is not spelled
      as it should be, noticed where its digits are given up. */
  lemma IntegerRefused(buf: string, pos: nat, min: int, max: int)
    requires pos <= |buf| && MIN_I64 <= min && max <= MAX_I64
    ensures var r := IntegerAt(buf, pos, min, max); var signed := At(buf, pos) == '-'; var p := if signed then pos + 1 else pos;
      && (!signed && !Digit(At(buf, pos)) ==> r == Refused(WrongType, pos))
      && (signed && !Digit(At(buf, p)) ==> r == Refused(Malformed, p))
      && (Digit(At(buf, p)) && r.Refused? ==> r.word == NumberSpelling && GivenUp(buf, p, r.at))
  {
    hide Decimal.Value, Scan;
    var p := if At(buf, pos) == '-' then pos + 1 else pos;
    if Digit(At(buf, p)) {
      assert buf[p..p] == "";
      NothingCounted();
      if buf[p] == '0' {
        assert buf[p..p+1] == "0";
      } else {
        var q := ScanGivesUp(buf, p, 0, p);
      }
    }
  }

  lemma NothingCounted()
    ensures Decimal.Value("") == 0
  {
  }

  predicate FlagThere(buf: string, pos: nat, b: bool, e: nat) {
    pos <= e <= |buf| && buf[pos..e] == if b then "true" else "false"
  }

  /** A flag is one of the two words; something else is the wrong type, a word begun and not finished malformed. */
  lemma FlagExactly(buf: string, pos: nat, b: bool, e: nat)
    requires pos <= |buf|
    ensures FlagAt(buf, pos) == Ok(b, e) <==> FlagThere(buf, pos, b, e)
    ensures FlagAt(buf, pos).Refused? ==>
      FlagAt(buf, pos) == Refused(if At(buf, pos) == 't' || At(buf, pos) == 'f' then Malformed else WrongType, pos)
  {
    if FlagThere(buf, pos, b, e) { assert buf[pos..e][0] == buf[pos]; }
  }

  // ---- containers ----

  /** Items, each with the comma behind it. */
  ghost predicate Listing(buf: string, a: nat, p: nat, xs: seq<Span>)
    decreases |xs|
  {
    if xs == [] then p == a <= |buf|
    else exists e: nat :: Grammar.Item(buf, a, e, xs[0]) && e < |buf| && buf[e] as int == 44 && Listing(buf, e + 1, p, xs[1..])
  }

  /** The next byte that is not a blank, or the end. */
  predicate NextAt(buf: string, p: nat, q: nat) { Gap(buf, p, q) && (q == |buf| || !IsBlank(buf[q])) }

  lemma {:induction false} ListingRead(e: Kind, buf: string, a: nat, p: nat, depth: nat, xs: seq<Span>, vs: seq<Val>, acc: seq<Val>)
    requires WfKind(e) && Listing(buf, a, p, xs) && Elements(e, buf, depth, xs, vs)
    ensures a <= p <= |buf| && ListItems(e, buf, a, depth, acc) == ListItems(e, buf, p, depth, acc + vs)
    decreases |xs|
  {
    hide Parse, Ws, Parser.After, Gap, WfKind;
    if xs == [] {
      assert acc + vs == acc;
    } else {
      var q: nat :| Grammar.Item(buf, a, q, xs[0]) && q < |buf| && buf[q] as int == 44 && Listing(buf, q + 1, p, xs[1..]);
      assert ElementAt(e, buf, depth, xs[0], vs[0]);
      GapIs(buf, a, xs[0].from);
      ParsedSolid(e, buf, xs[0].from, depth);
      WsThere(buf, a, xs[0].from);
      AfterExactly(buf, xs[0].to, q, ']');
      ListingRead(e, buf, q + 1, p, depth, xs[1..], vs[1..], acc + [vs[0]]);
      assert acc + [vs[0]] + vs[1..] == acc + vs;
    }
  }

  /** Whatever a container should be, something else there is the wrong type, and one that opens at the limit is
      too deep. */
  lemma Unopened(k: Kind, buf: string, a: nat, depth: nat)
    requires a <= |buf| && WfKind(k) && (k.Many? || k.Pairs? || k.Object?)
    ensures var open := if k.Many? then 91 else 123;
      && (At(buf, a) as int != open ==> Parse(k, buf, a, depth) == Refused(WrongType, a))
      && (At(buf, a) as int == open && depth >= 64 ==> Parse(k, buf, a, depth) == Refused(DepthExceeded, a))
  {
    hide Member, ListItems, PairItems, Finish, WfKind;
  }

  lemma NextIs(buf: string, p: nat, q: nat)
    requires NextAt(buf, p, q)
    ensures p <= q <= |buf| && Ws(buf, p) == q
  {
    WsExactly(buf, p, q);
  }

  /** Behind items that are right, the next item's refusal is the list's; and one that is right but has neither a
      comma nor the bracket behind it is malformed there. */
  lemma ListRefused(e: Kind, buf: string, a: nat, p: nat, q: nat, depth: nat, xs: seq<Span>, vs: seq<Val>)
    requires a < |buf| && buf[a] == '[' && WfKind(e) && depth < 64
    requires Listing(buf, a + 1, p, xs) && Elements(e, buf, depth + 1, xs, vs) && NextAt(buf, p, q) && (xs != [] || At(buf, q) != ']')
    ensures q <= |buf|
    ensures var v, r := Parse(e, buf, q, depth + 1), Parse(Many(e), buf, a, depth);
      && (v.Refused? ==> r == Refused(v.word, v.at))
      && (v.Ok? ==> forall n :: NextAt(buf, v.pos, n) && At(buf, n) != ',' && At(buf, n) != ']' ==> r == Refused(Malformed, n))
  {
    assert WfKind(Many(e));
    hide Listing, Elements, Gap, Ws, WfKind, Parse, ListRest, ListItems;
    NextIs(buf, p, q);
    ListingRead(e, buf, a + 1, p, depth + 1, xs, vs, []);
    assert [] + vs == vs;
    ListEntered(e, buf, a, p, q, depth, xs, vs);
    var v := Parse(e, buf, q, depth + 1);
    if v.Ok? {
      forall n | NextAt(buf, v.pos, n) && At(buf, n) != ',' && At(buf, n) != ']'
        ensures ListRest(e, buf, v.pos, depth + 1, vs + [v.value]) == Refused(Malformed, n)
      {
        NextIs(buf, v.pos, n);
        RestRefused(e, buf, v.pos, n, depth + 1, vs + [v.value]);
      }
    }
  }

  lemma RestRefused(e: Kind, buf: string, p: nat, n: nat, depth: nat, acc: seq<Val>)
    requires p <= |buf| && WfKind(e) && n == Ws(buf, p) && At(buf, n) != ',' && At(buf, n) != ']'
    ensures ListRest(e, buf, p, depth, acc) == Refused(Malformed, n)
  {
    hide Ws, ListItems, WfKind;
  }

  lemma ListEntered(e: Kind, buf: string, a: nat, p: nat, q: nat, depth: nat, xs: seq<Span>, vs: seq<Val>)
    requires a < |buf| && buf[a] == '[' && WfKind(e) && depth < 64 && a + 1 <= p <= q <= |buf| && q == Ws(buf, p)
    requires Listing(buf, a + 1, p, xs) && Elements(e, buf, depth + 1, xs, vs) && (xs != [] || At(buf, q) != ']')
    requires ListItems(e, buf, a + 1, depth + 1, []) == ListItems(e, buf, p, depth + 1, vs)
    ensures var v := Parse(e, buf, q, depth + 1);
      Parse(Many(e), buf, a, depth) == if v.Refused? then v else ListRest(e, buf, v.pos, depth + 1, vs + [v.value])
  {
    hide Gap, WfKind, Ws, ListRest, Elements, Listing, Parse, ListItems;
    WsTwice(buf, a + 1);
    ListStarts(e, buf, a, p, q, depth, xs, vs);
    ListUnfold(e, buf, a, depth);
    ItemsUnfold(e, buf, p, depth + 1, vs);
    ItemsUnfold(e, buf, a + 1, depth + 1, []);
    ItemsUnfold(e, buf, Ws(buf, a + 1), depth + 1, []);
  }

  lemma ItemsUnfold(e: Kind, buf: string, p: nat, depth: nat, acc: seq<Val>)
    requires p <= |buf| && WfKind(e)
    ensures ListItems(e, buf, p, depth, acc) ==
      var v := Parse(e, buf, Ws(buf, p), depth); if v.Refused? then v else ListRest(e, buf, v.pos, depth, acc + [v.value])
  {
    hide Parse, ListRest, WfKind;
  }

  lemma ListUnfold(e: Kind, buf: string, a: nat, depth: nat)
    requires a < |buf| && buf[a] == '[' && WfKind(e) && depth < 64 && At(buf, Ws(buf, a + 1)) != ']'
    ensures Parse(Many(e), buf, a, depth) == ListItems(e, buf, Ws(buf, a + 1), depth + 1, [])
  {
    hide ListItems, WfKind;
  }

  lemma ListStarts(e: Kind, buf: string, a: nat, p: nat, q: nat, depth: nat, xs: seq<Span>, vs: seq<Val>)
    requires WfKind(e) && Listing(buf, a + 1, p, xs) && Elements(e, buf, depth + 1, xs, vs) && p <= |buf| && q == Ws(buf, p)
    requires xs != [] || At(buf, q) != ']'
    ensures a + 1 <= |buf| && At(buf, Ws(buf, a + 1)) != ']'
  {
    hide Gap, WfKind, Ws, Parse;
    if xs != [] {
      var i: nat :| Grammar.Item(buf, a + 1, i, xs[0]) && i < |buf| && buf[i] as int == 44 && Listing(buf, i + 1, p, xs[1..]);
      assert ElementAt(e, buf, depth + 1, xs[0], vs[0]);
      GapIs(buf, a + 1, xs[0].from);
      ParsedSolid(e, buf, xs[0].from, depth + 1);
      NotShut(e, buf, xs[0].from, depth + 1);
      WsThere(buf, a + 1, xs[0].from);
    }
  }

  // ---- objects ----

  /** Members, each with the comma behind it. */
  ghost predicate Membering(buf: string, a: nat, p: nat, es: seq<Entry>)
    decreases |es|
  {
    if es == [] then p == a <= |buf|
    else exists e: nat :: MemberAt(buf, a, e, es[0]) && e < |buf| && buf[e] as int == 44 && Membering(buf, e + 1, p, es[1..])
  }

  /** A key: something else stands there, its string is refused, or no colon follows it. */
  lemma KeyRefused(buf: string, p: nat, g: nat)
    requires NextAt(buf, p, g)
    ensures g <= |buf|
    ensures var s, k := StrAt(buf, g), KeyAt(buf, p);
      && (At(buf, g) as int != 34 ==> k == Refused(Malformed, g))
      && (At(buf, g) as int == 34 && s.Refused? ==> k == Refused(s.word, s.at))
      && (s.Ok? ==> forall d :: NextAt(buf, s.pos, d) ==> k.Ok? == (At(buf, d) as int == 58) && (k.Refused? ==> k == Refused(Malformed, d)))
  {
    hide StrAt, Ws, Gap;
    NextIs(buf, p, g);
    var s := StrAt(buf, g);
    if s.Ok? {
      StringStarts(buf, g, s.value, s.pos);
      forall d | NextAt(buf, s.pos, d) ensures d == Ws(buf, s.pos) { NextIs(buf, s.pos, d); }
    }
  }

  lemma MemberMoves(buf: string, a: nat, e: nat, m: Entry)
    requires MemberAt(buf, a, e, m)
    ensures a < e <= |buf|
  {
    hide StrAt;
  }

  lemma {:induction false} MemberingRead(s: Struct, buf: string, a: nat, p: nat, depth: nat, es: seq<Entry>, fs: seq<Val>, seen: set<nat>)
    requires WfStruct(s) && |fs| == |s.fields| && Membering(buf, a, p, es) && AllRight(s, buf, depth, es) && Fresh(s, seen, es)
    ensures a <= p <= |buf|
    ensures Member(s, buf, a, depth, fs, seen) == Member(s, buf, p, depth, TakenFields(s, buf, depth, fs, es), SeenFields(s, seen, es))
    decreases |es|
  {
    hide Ws, Parser.After, Gap, KeyAt, KeyText, WfKind, Member, Rest, Finish, Right, Taking, Seeing, IndexOf, Once;
    if es != [] {
      var q: nat :| MemberAt(buf, a, q, es[0]) && q < |buf| && buf[q] as int == 44 && Membering(buf, q + 1, p, es[1..]);
      var m := es[0];
      MemberMoves(buf, a, q, m);
      MemberRead(s, buf, a, q, depth, m, fs, seen);
      var gs, saw := Taking(s, buf, depth, fs, m), Seeing(s, seen, m);
      RestUnfold(s, buf, m.value.to, depth, gs, saw);
      AfterExactly(buf, m.value.to, q, '}');
      FreshAfter(s, seen, es);
      MemberingRead(s, buf, q + 1, p, depth, es[1..], gs, saw);
    }
  }

  /** Behind members that are right, the object is still open. */
  ghost predicate OpenAt(s: Struct, buf: string, a: nat, p: nat, depth: nat, es: seq<Entry>)
    requires WfStruct(s)
  {
    && a < |buf| && buf[a] == '{' && depth < 64 && Membering(buf, a + 1, p, es) && AllRight(s, buf, depth + 1, es)
    && (es != [] || forall q :: NextAt(buf, p, q) ==> At(buf, q) != '}')
  }

  lemma ObjectReaches(s: Struct, buf: string, a: nat, p: nat, depth: nat, es: seq<Entry>) returns (fs: seq<Val>, seen: set<nat>)
    requires WfStruct(s) && OpenAt(s, buf, a, p, depth, es)
    ensures p <= |buf| && |fs| == |s.fields| && Parse(Object(s), buf, a, depth) == Member(s, buf, p, depth + 1, fs, seen)
    ensures forall j: nat :: j < |s.fields| ==> (j in seen <==> HasKey(es, s.fields[j].name))
  {
    hide Membering, Gap, Ws, Member, Finish, TakenFields, SeenFields, Right, Once, WfKind, Parse, HasKey;
    fs, seen := TakenFields(s, buf, depth + 1, ZeroFields(s), es), SeenFields(s, {}, es);
    forall j: nat | j < |s.fields| ensures j in seen <==> HasKey(es, s.fields[j].name) { SeenExactly(s, {}, es, j); }
    FreshAtFirst(s, es);
    MemberingRead(s, buf, a + 1, p, depth + 1, es, ZeroFields(s), {});
    NotShutYet(buf, a + 1, p, es);
    ObjectUnfold(s, buf, a, depth);
    WsTwice(buf, a + 1);
    SameKey(buf, a + 1);
    MemberUnfold(s, buf, a + 1, depth + 1, ZeroFields(s), {});
    MemberUnfold(s, buf, Ws(buf, a + 1), depth + 1, ZeroFields(s), {});
  }

  lemma NotShutYet(buf: string, a: nat, p: nat, es: seq<Entry>)
    requires Membering(buf, a, p, es) && (es != [] || forall q :: NextAt(buf, p, q) ==> At(buf, q) != '}')
    ensures a <= |buf| && At(buf, Ws(buf, a)) != '}'
  {
    hide Gap, Ws, StrAt;
    if es == [] {
      WsIsGap(buf, a);
      assert NextAt(buf, p, Ws(buf, a));
    } else {
      var e: nat :| MemberAt(buf, a, e, es[0]) && e < |buf| && buf[e] as int == 44 && Membering(buf, e + 1, p, es[1..]);
      var c: nat, k: nat, d: nat :| KeyParts(buf, a, c, k, d, es[0].key, es[0].value.from);
      StringStarts(buf, c, es[0].key, k);
      WsThere(buf, a, c);
    }
  }

  /** Behind members that are right: the refusal of a key is the object's; a known key that stood before is a
      duplicate, an unknown one is refused where the table allows none, both at the value; the refusal of a value
      is the object's. */
  lemma ObjectRefused(s: Struct, buf: string, a: nat, p: nat, depth: nat, es: seq<Entry>, j: nat)
    requires WfStruct(s) && OpenAt(s, buf, a, p, depth, es)
    ensures p <= |buf|
    ensures var k, r := KeyAt(buf, p), Parse(Object(s), buf, a, depth);
      && (k.Refused? ==> r == Refused(k.word, k.at))
      && (k.Ok? && Names(s, j, k.value) && HasKey(es, k.value) ==> r == Refused(DuplicateField, k.pos))
      && (k.Ok? && Names(s, j, k.value) && !HasKey(es, k.value) ==>
          WfKind(s.fields[j].kind) && var v := Parse(s.fields[j].kind, buf, k.pos, depth + 1); v.Refused? ==> r == Refused(v.word, v.at))
      && (k.Ok? && !Knows(s, k.value) && !s.grant ==> r == Refused(UnknownField, k.pos))
      && (k.Ok? && !Knows(s, k.value) && s.grant ==> var v := Skip(buf, k.pos, depth + 1); v.Refused? ==> r == Refused(v.word, v.at))
  {
    hide OpenAt, KeyAt, Parse, Skip, WfKind, HasKey, Member, IndexOf, Knows;
    var fs, seen := ObjectReaches(s, buf, a, p, depth, es);
    MemberUnfold(s, buf, p, depth + 1, fs, seen);
    var k := KeyAt(buf, p);
    if k.Ok? {
      IndexExactly(s, k.value, j);
      if Names(s, j, k.value) { assert IndexOf(s.fields, k.value) == j < |s.fields| && (j in seen <==> HasKey(es, k.value)); }
      if !Knows(s, k.value) { assert IndexOf(s.fields, k.value) == |s.fields|; }
    }
  }

  /** One that is right but has neither a comma nor the brace behind it is malformed there. */
  lemma ObjectUnfinished(s: Struct, buf: string, a: nat, p: nat, depth: nat, es: seq<Entry>, m: Entry, n: nat)
    requires WfStruct(s) && OpenAt(s, buf, a, p, depth, es) && p <= |buf| && KeyAt(buf, p) == Ok(m.key, m.value.from)
    requires Right(s, buf, depth + 1, m) && (Knows(s, m.key) ==> !HasKey(es, m.key))
    requires NextAt(buf, m.value.to, n) && At(buf, n) != ',' && At(buf, n) != '}'
    ensures Parse(Object(s), buf, a, depth) == Refused(Malformed, n)
  {
    hide OpenAt, KeyAt, Parse, Skip, WfKind, HasKey, Member, IndexOf, Knows, Rest, Gap, Ws;
    var fs, seen := ObjectReaches(s, buf, a, p, depth, es);
    MemberUnfold(s, buf, p, depth + 1, fs, seen);
    var j := IndexOf(s.fields, m.key);
    IndexExactly(s, m.key, j);
    NextIs(buf, m.value.to, n);
    if j < |s.fields| {
      FieldsAreWf(s, j);
      RestUnfold(s, buf, m.value.to, depth + 1, fs[j := Parse(s.fields[j].kind, buf, m.value.from, depth + 1).value], seen + {j});
    } else {
      RestUnfold(s, buf, m.value.to, depth + 1, fs, seen);
    }
  }

  // ---- maps ----

  lemma {:induction false} MapReaches(buf: string, a: nat, p: nat, es: seq<Entry>, vals: seq<string>, m: map<string, string>)
    requires Membering(buf, a, p, es) && Texts(buf, es, vals)
    ensures |es| == |vals| && a <= p <= |buf| && PairItems(buf, a, m) == PairItems(buf, p, Put(m, es, vals))
    decreases |es|
  {
    hide Ws, Parser.After, Gap, KeyAt, KeyText, StrAt;
    if es != [] {
      var q: nat :| MemberAt(buf, a, q, es[0]) && q < |buf| && buf[q] as int == 44 && Membering(buf, q + 1, p, es[1..]);
      var x := es[0].value;
      MemberMoves(buf, a, q, es[0]);
      assert TextAt(buf, x, vals[0]);
      TextSolid(buf, x, vals[0]);
      KeyBegins(buf, a, es[0].key, x.from);
      KeyExactly(buf, a, es[0].key, x.from);
      AfterExactly(buf, x.to, q, '}');
      MapReaches(buf, q + 1, p, es[1..], vals[1..], m[es[0].key := vals[0]]);
    }
  }

  /** Behind members that are strings: the refusal of the next key or string is the map's, and a string with neither
      a comma nor the brace behind it is malformed there. */
  lemma MapRefused(buf: string, a: nat, p: nat, depth: nat, es: seq<Entry>, vals: seq<string>)
    requires a < |buf| && buf[a] == '{' && depth < 64 && Membering(buf, a + 1, p, es) && Texts(buf, es, vals)
    requires es != [] || forall q :: NextAt(buf, p, q) ==> At(buf, q) != '}'
    ensures p <= |buf|
    ensures var k, r := KeyAt(buf, p), Parse(Pairs, buf, a, depth);
      && (k.Refused? ==> r == Refused(k.word, k.at))
      && (k.Ok? ==> var v := StrAt(buf, k.pos);
          && (v.Refused? ==> r == Refused(v.word, v.at))
          && (v.Ok? ==> forall n :: NextAt(buf, v.pos, n) && At(buf, n) != ',' && At(buf, n) != '}' ==> r == Refused(Malformed, n)))
  {
    hide Membering, Texts, Gap, Ws, KeyAt, StrAt, Put;
    MapReaches(buf, a + 1, p, es, vals, map[]);
    NotShutYet(buf, a + 1, p, es);
    WsTwice(buf, a + 1);
    SameKey(buf, a + 1);
    var k := KeyAt(buf, p);
    if k.Ok? {
      var v := StrAt(buf, k.pos);
      if v.Ok? {
        StringStarts(buf, k.pos, v.value, v.pos);
        forall n | NextAt(buf, v.pos, n) ensures n == Ws(buf, v.pos) { NextIs(buf, v.pos, n); }
      }
    }
  }

  // ---- opaque values ----

  /** The text so far wants a digit: a sign or nothing, a whole part and its point, or all before an exponent's digits. */
  ghost predicate WantsDigit(t: string) {
    || t == "" || t == "-"
    || (t[|t|-1] == '.' && WholePart(t[..|t|-1]))
    || exists i, j :: WantsExponent(t, i, j)
  }

  predicate WantsExponent(t: string, i: int, j: int) {
    0 <= i <= j <= |t| && WholePart(t[..i]) && FractionPart(t[i..j]) && ExponentSign(t[j..])
  }

  predicate ExponentSign(t: string) {
    1 <= |t| <= 2 && (t[0] == 'e' || t[0] == 'E') && (|t| == 2 ==> t[1] == '+' || t[1] == '-')
  }

  /** A number walked is refused at the byte where a digit is wanted. */
  lemma NumberRefused(buf: string, a: nat)
    requires a <= |buf| && SkipNumber(buf, a).Refused?
    ensures var r := SkipNumber(buf, a);
      r.word == NumberSpelling && a <= r.at <= |buf| && !Digit(At(buf, r.at)) && WantsDigit(buf[a..r.at])
  {
    hide SkipNumber, WholePart, SkipFraction, SkipExponent, WholeEnd, WantsDigit;
    SkipNumberIs(buf, a);
    if Digit(At(buf, if At(buf, a) == '-' then a + 1 else a)) {
      WholeWritten(buf, a);
      var i := WholeEnd(buf, a);
      if SkipFraction(buf, i).Refused? { PointRefused(buf, a, i); } else { ExponentRefused(buf, a, i); }
    } else {
      SignRefused(buf, a);
    }
  }

  lemma SignRefused(buf: string, a: nat)
    requires a <= |buf| && !Digit(At(buf, if At(buf, a) == '-' then a + 1 else a))
    ensures var r := SkipNumber(buf, a);
      r.Refused? && r.word == NumberSpelling && a <= r.at <= |buf| && !Digit(At(buf, r.at)) && WantsDigit(buf[a..r.at])
  {
    hide WantsExponent, WholePart;
    if At(buf, a) == '-' { assert buf[a..a+1] == "-"; } else { assert buf[a..a] == ""; }
  }

  lemma PointRefused(buf: string, a: nat, i: nat)
    requires a <= i <= |buf| && WholePart(buf[a..i]) && SkipFraction(buf, i).Refused?
    ensures SkipFraction(buf, i) == Refused(NumberSpelling, i + 1) && i < |buf| && !Digit(At(buf, i + 1)) && WantsDigit(buf[a..i+1])
  {
    hide WantsExponent, WholePart, DigitsEnd;
    assert buf[a..i+1][..i-a] == buf[a..i];
  }

  lemma ExponentRefused(buf: string, a: nat, i: nat)
    requires a <= i <= |buf| && WholePart(buf[a..i]) && SkipFraction(buf, i).Ok?
    ensures var j := SkipFraction(buf, i).pos;
      j <= |buf| && var x := SkipExponent(buf, j);
      x.Refused? ==> x.word == NumberSpelling && a <= x.at <= |buf| && !Digit(At(buf, x.at)) && WantsDigit(buf[a..x.at])
  {
    hide WholePart, FractionPart, SkipFraction, SkipExponent, ExponentSign;
    FractionWritten(buf, i);
    var j := SkipFraction(buf, i).pos;
    var x := SkipExponent(buf, j);
    if x.Refused? {
      SignOnly(buf, j);
      var t := buf[a..x.at];
      ThreeParts(buf, a, i, j, x.at);
      assert WantsExponent(t, i - a, j - a);
    }
  }

  lemma ThreeParts(buf: string, a: nat, i: nat, j: nat, b: nat)
    requires a <= i <= j <= b <= |buf|
    ensures var t := buf[a..b]; t[..i-a] == buf[a..i] && t[i-a..j-a] == buf[i..j] && t[j-a..] == buf[j..b]
  {
    SliceOf(buf, a, b, 0, i - a);
    SliceOf(buf, a, b, i - a, j - a);
    SliceOf(buf, a, b, j - a, b - a);
    assert buf[a..b][j-a..] == buf[a..b][j-a..b-a];
  }

  lemma SliceOf(buf: string, a: nat, b: nat, i: nat, j: nat)
    requires a <= b <= |buf| && i <= j <= b - a
    ensures buf[a..b][i..j] == buf[a+i..a+j]
  {
    var t, u := buf[a..b][i..j], buf[a+i..a+j];
    assert |t| == |u|;
    forall k | 0 <= k < |t| ensures t[k] == u[k] { assert t[k] == buf[a..b][i+k]; }
  }

  lemma SignOnly(buf: string, j: nat)
    requires j <= |buf| && SkipExponent(buf, j).Refused?
    ensures var x := SkipExponent(buf, j);
      x.word == NumberSpelling && j < x.at <= |buf| && !Digit(At(buf, x.at)) && ExponentSign(buf[j..x.at])
  {
    hide DigitsEnd;
  }

  /** What is no container: a string is refused as a string, a number as a number, and whatever else is not one of
      the three words is malformed where it begins. A container at the limit is too deep. */
  lemma LeafRefused(buf: string, a: nat, depth: nat)
    requires a <= |buf|
    ensures var c, r := At(buf, a) as int, Skip(buf, a, depth);
      && (c == 34 && StrAt(buf, a).Refused? ==> r == Refused(StrAt(buf, a).word, StrAt(buf, a).at))
      && ((c == 45 || 48 <= c <= 57) && SkipNumber(buf, a).Refused? ==> r == SkipNumber(buf, a))
      && (r.Refused? && c != 34 && c != 45 && !(48 <= c <= 57) && c != 91 && c != 123 ==> r == Refused(Malformed, a))
      && ((c == 91 || c == 123) && depth >= 64 ==> r == Refused(DepthExceeded, a))
  {
    hide StrAt, SkipNumber, SkipItems;
  }

  ghost predicate Skipped(buf: string, depth: nat, xs: seq<Span>) {
    forall i :: 0 <= i < |xs| ==> SkippedAt(buf, depth, xs[i])
  }

  predicate SkippedAt(buf: string, depth: nat, x: Span) { x.from <= |buf| && Skip(buf, x.from, depth) == Ok((), x.to) }

  lemma {:induction false} ItemsReach(buf: string, a: nat, p: nat, depth: nat, xs: seq<Span>)
    requires Listing(buf, a, p, xs) && Skipped(buf, depth, xs)
    ensures a <= p <= |buf| && SkipItems(buf, a, depth, '[') == SkipItems(buf, p, depth, '[')
    decreases |xs|
  {
    hide Skip, Ws, Parser.After, Gap;
    if xs != [] {
      var q: nat :| Grammar.Item(buf, a, q, xs[0]) && q < |buf| && buf[q] as int == 44 && Listing(buf, q + 1, p, xs[1..]);
      assert SkippedAt(buf, depth, xs[0]);
      GapIs(buf, a, xs[0].from);
      GapIs(buf, xs[0].to, q);
      SkipSolid(buf, xs[0].from, depth);
      WsThere(buf, a, xs[0].from);
      AfterExactly(buf, xs[0].to, q, ']');
      ItemsReach(buf, q + 1, p, depth, xs[1..]);
    }
  }

  lemma {:induction false} MembersReach(buf: string, a: nat, p: nat, depth: nat, es: seq<Entry>)
    requires Membering(buf, a, p, es) && Skipped(buf, depth, Spans(es))
    ensures a <= p <= |buf| && SkipItems(buf, a, depth, '{') == SkipItems(buf, p, depth, '{')
    decreases |es|
  {
    hide Skip, Ws, Parser.After, Gap, KeyAt, KeyText;
    if es != [] {
      var q: nat :| MemberAt(buf, a, q, es[0]) && q < |buf| && buf[q] as int == 44 && Membering(buf, q + 1, p, es[1..]);
      var x := es[0].value;
      MemberMoves(buf, a, q, es[0]);
      assert Spans(es)[0] == x && SkippedAt(buf, depth, x) && Spans(es)[1..] == Spans(es[1..]);
      SkipSolid(buf, x.from, depth);
      KeyBegins(buf, a, es[0].key, x.from);
      KeyExactly(buf, a, es[0].key, x.from);
      AfterExactly(buf, x.to, q, '}');
      MembersReach(buf, q + 1, p, depth, es[1..]);
    }
  }

  /** What is left of a container from its next item on. */
  lemma SkipOn(buf: string, p: nat, depth: nat, open: char)
    requires p <= |buf| && (open == '{' || open == '[')
    ensures var k, r := if open == '{' then KeyAt(buf, p) else Ok("", Ws(buf, p)), SkipItems(buf, p, depth, open);
      && (k.Refused? ==> r == Refused(k.word, k.at))
      && (k.Ok? ==> k.pos <= |buf| && var v := Skip(buf, k.pos, depth);
          && (v.Refused? ==> r == v)
          && (v.Ok? ==> forall n :: NextAt(buf, v.pos, n) && At(buf, n) != ',' && At(buf, n) != Shutter(open) ==> r == Refused(Malformed, n)))
  {
    hide Skip, KeyAt, Gap, Ws;
    var k := if open == '{' then KeyAt(buf, p) else Ok("", Ws(buf, p));
    if k.Ok? {
      var v := Skip(buf, k.pos, depth);
      if v.Ok? {
        forall n | NextAt(buf, v.pos, n) ensures n == Ws(buf, v.pos) { NextIs(buf, v.pos, n); }
      }
    }
  }

  /** Behind items that are walked, the next item's refusal is the container's; and one with neither a comma nor the
      bracket behind it is malformed there. */
  lemma SkipListRefused(buf: string, a: nat, p: nat, q: nat, depth: nat, xs: seq<Span>)
    requires a < |buf| && buf[a] == '[' && depth < 64 && Listing(buf, a + 1, p, xs) && Skipped(buf, depth + 1, xs)
    requires NextAt(buf, p, q) && (xs != [] || At(buf, q) != ']')
    ensures q <= |buf|
    ensures var v, r := Skip(buf, q, depth + 1), Skip(buf, a, depth);
      && (v.Refused? ==> r == v)
      && (v.Ok? ==> forall n :: NextAt(buf, v.pos, n) && At(buf, n) != ',' && At(buf, n) != ']' ==> r == Refused(Malformed, n))
  {
    hide Listing, Skipped, Gap, Ws, Skip, SkipItems;
    NextIs(buf, p, q);
    ItemsReach(buf, a + 1, p, depth + 1, xs);
    ItemsBegin(buf, a, p, q, depth, xs);
    ItemsLater(buf, a + 1, depth + 1, '[');
    SkipEntered(buf, a, depth);
    SkipOn(buf, p, depth + 1, '[');
  }

  lemma ItemsBegin(buf: string, a: nat, p: nat, q: nat, depth: nat, xs: seq<Span>)
    requires Listing(buf, a + 1, p, xs) && Skipped(buf, depth + 1, xs) && p <= |buf| && q == Ws(buf, p) && (xs != [] || At(buf, q) != ']')
    ensures a + 1 <= |buf| && At(buf, Ws(buf, a + 1)) != ']'
  {
    hide Gap, Ws, Skip;
    if xs != [] {
      var i: nat :| Grammar.Item(buf, a + 1, i, xs[0]) && i < |buf| && buf[i] as int == 44 && Listing(buf, i + 1, p, xs[1..]);
      assert SkippedAt(buf, depth + 1, xs[0]);
      GapIs(buf, a + 1, xs[0].from);
      SkipSolid(buf, xs[0].from, depth + 1);
      SkipNotShut(buf, xs[0].from, depth + 1);
      WsThere(buf, a + 1, xs[0].from);
    }
  }

  /** Items may begin in the blanks before them. */
  lemma ItemsLater(buf: string, a: nat, depth: nat, open: char)
    requires a <= |buf|
    ensures SkipItems(buf, Ws(buf, a), depth, open) == SkipItems(buf, a, depth, open)
  {
    hide Ws, Skip, KeyAt, Parser.After, SkipItems;
    WsTwice(buf, a);
    SameKey(buf, a);
    ItemsUnfolded(buf, a, depth, open);
    ItemsUnfolded(buf, Ws(buf, a), depth, open);
  }

  lemma ItemsUnfolded(buf: string, a: nat, depth: nat, open: char)
    requires a <= |buf|
    ensures var k := if open == '{' then KeyAt(buf, a) else Ok("", Ws(buf, a));
      SkipItems(buf, a, depth, open) ==
        if k.Refused? then Refused(k.word, k.at) else ItemRest(buf, k.pos, depth, open)
  {
    hide Ws, Skip, KeyAt, Parser.After;
  }

  function ItemRest(buf: string, pos: nat, depth: nat, open: char): Parsed<()>
    requires pos <= |buf|
  {
    var v := Skip(buf, pos, depth);
    if v.Refused? then v
    else match Parser.After(buf, v.pos, Shutter(open))
      case More(p) => SkipItems(buf, p, depth, open)
      case Shut(p) => Ok((), p)
      case Bad(p) => Refused(Malformed, p)
  }

  lemma SkipEntered(buf: string, a: nat, depth: nat)
    requires a < |buf| && (buf[a] == '[' || buf[a] == '{') && depth < 64 && At(buf, Ws(buf, a + 1)) != Shutter(buf[a])
    ensures Skip(buf, a, depth) == SkipItems(buf, Ws(buf, a + 1), depth + 1, buf[a])
  {
    hide SkipItems, Ws;
  }

  lemma SkipObjectRefused(buf: string, a: nat, p: nat, depth: nat, es: seq<Entry>)
    requires a < |buf| && buf[a] == '{' && depth < 64 && Membering(buf, a + 1, p, es) && Skipped(buf, depth + 1, Spans(es))
    requires es != [] || forall q :: NextAt(buf, p, q) ==> At(buf, q) != '}'
    ensures p <= |buf|
    ensures var k, r := KeyAt(buf, p), Skip(buf, a, depth);
      && (k.Refused? ==> r == Refused(k.word, k.at))
      && (k.Ok? ==> var v := Skip(buf, k.pos, depth + 1);
          && (v.Refused? ==> r == v)
          && (v.Ok? ==> forall n :: NextAt(buf, v.pos, n) && At(buf, n) != ',' && At(buf, n) != '}' ==> r == Refused(Malformed, n)))
  {
    hide Membering, Skipped, Gap, Ws, Skip, SkipItems, KeyAt;
    MembersReach(buf, a + 1, p, depth + 1, es);
    NotShutYet(buf, a + 1, p, es);
    ItemsLater(buf, a + 1, depth + 1, '{');
    SkipEntered(buf, a, depth);
    SkipOn(buf, p, depth + 1, '{');
  }
}
