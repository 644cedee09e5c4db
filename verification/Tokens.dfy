/** The tokens of the grammar (RFC 8259), spelled out: blanks, strings by their pieces, numbers by their
    parts. The lexer accepts exactly these and gives exactly their values. */
module Tokens {
  import opened Decimal
  import opened Lexer
  import opened RoundTrip
  import Utf8

  // ---- blanks ----

  predicate IsBlank(c: char) { c as int == 9 || c as int == 10 || c as int == 13 || c as int == 32 }

  /** Nothing but blanks from a to b. */
  predicate Gap(buf: string, a: nat, b: nat) {
    a <= b <= |buf| && forall i :: a <= i < b ==> IsBlank(buf[i])
  }

  lemma {:induction false} WsExactly(buf: string, pos: nat, p: nat)
    requires pos <= |buf|
    ensures Ws(buf, pos) == p <==> Gap(buf, pos, p) && (p == |buf| || !IsBlank(buf[p]))
    decreases |buf| - pos
  {
    if pos < |buf| && IsBlank(buf[pos]) { WsExactly(buf, pos + 1, p); }
  }

  // ---- strings ----

  const LOWER := "0123456789abcdef"
  const UPPER := "0123456789ABCDEF"

  /** The character is a hex digit of this value, of either case. */
  predicate HexOf(c: char, v: int) { 0 <= v < 16 && (c == LOWER[v] || c == UPPER[v]) }

  lemma HexExactly(c: char, v: int)
    ensures Hex(c) && HexValue(c) == v <==> HexOf(c, v)
  {
    if 0 <= v < 16 { Hexadecimal(v); }
  }

  lemma Hexadecimal(v: int)
    requires 0 <= v < 16
    ensures LOWER[v] as int == (if v < 10 then 48 + v else 87 + v) && UPPER[v] as int == (if v < 10 then 48 + v else 55 + v)
  {
    assert v == 0 || v == 1 || v == 2 || v == 3 || v == 4 || v == 5 || v == 6 || v == 7
      || v == 8 || v == 9 || v == 10 || v == 11 || v == 12 || v == 13 || v == 14 || v == 15;
  }

  /** Four hex digits at pos, and the number they spell. */
  predicate QuadOf(buf: string, pos: nat, a: int, b: int, c: int, d: int, u: int) {
    && pos + 4 <= |buf| && HexOf(buf[pos], a) && HexOf(buf[pos+1], b) && HexOf(buf[pos+2], c) && HexOf(buf[pos+3], d)
    && u == a * 4096 + b * 256 + c * 16 + d
  }

  ghost predicate Quad(buf: string, pos: nat, u: int) { exists a, b, c, d :: QuadOf(buf, pos, a, b, c, d, u) }

  lemma QuadExactly(buf: string, pos: nat, u: int)
    ensures Quad(buf, pos, u) <==> u >= 0 && Hex4(buf, pos) == Ok(u, pos + 4)
  {
    hide Hex, HexValue, HexOf;
    if Quad(buf, pos, u) {
      var a, b, c, d :| QuadOf(buf, pos, a, b, c, d, u);
      HexExactly(buf[pos], a);
      HexExactly(buf[pos+1], b);
      HexExactly(buf[pos+2], c);
      HexExactly(buf[pos+3], d);
      HexNatural(buf[pos], a);
      HexNatural(buf[pos+1], b);
      HexNatural(buf[pos+2], c);
      HexNatural(buf[pos+3], d);
    }
    if u >= 0 && Hex4(buf, pos) == Ok(u, pos + 4) {
      var a, b, c, d := HexValue(buf[pos]), HexValue(buf[pos+1]), HexValue(buf[pos+2]), HexValue(buf[pos+3]);
      HexExactly(buf[pos], a);
      HexExactly(buf[pos+1], b);
      HexExactly(buf[pos+2], c);
      HexExactly(buf[pos+3], d);
      assert QuadOf(buf, pos, a, b, c, d, u);
    }
  }

  lemma HexNatural(c: char, v: int)
    requires HexOf(c, v)
    ensures 0 <= v < 16
  {
  }

  /** The two-character escapes. */
  const SHORT := [('"', 34), ('\\', 92), ('/', 47), ('b', 8), ('f', 12), ('n', 10), ('r', 13), ('t', 9)]

  /** From a to b stands one piece of a string, of this value: a plain byte, a short escape, a unit that is not
      a surrogate, or a surrogate pair. */
  ghost predicate Piece(buf: string, a: nat, b: nat, value: string) {
    || Plain(buf, a, b, value)
    || ShortEscape(buf, a, b, value)
    || Unit(buf, a, b, value)
    || Pair(buf, a, b, value)
  }

  predicate Plain(buf: string, a: nat, b: nat, value: string) {
    b == a + 1 <= |buf| && buf[a] as int >= 32 && buf[a] as int != 34 && buf[a] as int != 92 && value == [buf[a]]
  }

  ghost predicate ShortEscape(buf: string, a: nat, b: nat, value: string) {
    b == a + 2 <= |buf| && buf[a] as int == 92 && exists i :: 0 <= i < 8 && buf[a+1] == SHORT[i].0 && value == [SHORT[i].1 as char]
  }

  ghost predicate Unit(buf: string, a: nat, b: nat, value: string) {
    b == a + 6 <= |buf| && buf[a] as int == 92 && buf[a+1] == 'u'
    && exists u :: Quad(buf, a + 2, u) && !(0xD800 <= u <= 0xDFFF) && Utf8.Scalar(u) && value == Utf8.Rune(u)
  }

  ghost predicate Pair(buf: string, a: nat, b: nat, value: string) {
    b == a + 12 <= |buf| && buf[a] as int == 92 && buf[a+1] == 'u' && buf[a+6] as int == 92 && buf[a+7] == 'u'
    && exists hi, lo :: Quad(buf, a + 2, hi) && Quad(buf, a + 8, lo) && Surrogates(hi, lo) && value == Utf8.Rune(Joined(hi, lo))
  }

  predicate Surrogates(hi: int, lo: int)
    ensures Surrogates(hi, lo) ==> Utf8.Scalar(Joined(hi, lo))
  {
    0xD800 <= hi <= 0xDBFF && 0xDC00 <= lo <= 0xDFFF
  }

  /** The code point a surrogate pair stands for (section 7 of RFC 8259). */
  function Joined(hi: int, lo: int): int { 0x10000 + (hi - 0xD800) * 0x400 + (lo - 0xDC00) }

  /** Pieces from a to b, their values in order. */
  ghost predicate Pieces(buf: string, a: nat, b: nat, values: seq<string>)
    decreases |values|
  {
    if values == [] then a == b <= |buf|
    else exists c: nat :: a < c && Piece(buf, a, c, values[0]) && Pieces(buf, c, b, values[1..])
  }

  function Concat(values: seq<string>): string {
    if values == [] then "" else values[0] + Concat(values[1..])
  }

  lemma UnitRead(buf: string, a: nat, b: nat, value: string)
    requires a < |buf| && buf[a] == '\\' && (Unit(buf, a, b, value) || Pair(buf, a, b, value))
    ensures EscapeAt(buf, a) == Ok(value, b)
  {
    hide Quad, Hex4, Utf8.Rune;
    if Unit(buf, a, b, value) {
      var u :| Quad(buf, a + 2, u) && !(0xD800 <= u <= 0xDFFF) && Utf8.Scalar(u) && value == Utf8.Rune(u);
      QuadExactly(buf, a + 2, u);
    } else {
      var hi, lo :| Quad(buf, a + 2, hi) && Quad(buf, a + 8, lo) && Surrogates(hi, lo) && value == Utf8.Rune(Joined(hi, lo));
      QuadExactly(buf, a + 2, hi);
      QuadExactly(buf, a + 8, lo);
    }
  }

  /** An escape is read exactly as one of the three kinds. */
  lemma EscapeExactly(buf: string, a: nat, b: nat, value: string)
    requires a < |buf| && buf[a] == '\\'
    ensures EscapeAt(buf, a) == Ok(value, b) <==> ShortEscape(buf, a, b, value) || Unit(buf, a, b, value) || Pair(buf, a, b, value)
  {
    hide Quad, Hex4, Utf8.Rune, Unicode;
    if Unit(buf, a, b, value) || Pair(buf, a, b, value) { UnitRead(buf, a, b, value); }
    if EscapeAt(buf, a) == Ok(value, b) {
      if buf[a+1] == 'u' { UnicodeIs(buf, a, b, value); } else { ShortIs(buf, a, b, value); }
    }
  }

  lemma ShortIs(buf: string, a: nat, b: nat, value: string)
    requires a + 1 < |buf| && buf[a] == '\\' && buf[a+1] != 'u' && EscapeAt(buf, a) == Ok(value, b)
    ensures ShortEscape(buf, a, b, value)
  {
    var c := buf[a+1];
    var i := if c == '"' then 0 else if c == '\\' then 1 else if c == '/' then 2 else if c == 'b' then 3 else if c == 'f' then 4
      else if c == 'n' then 5 else if c == 'r' then 6 else 7;
    assert c == SHORT[i].0 && value == [SHORT[i].1 as char];
  }

  lemma UnicodeIs(buf: string, a: nat, b: nat, value: string)
    requires a + 1 < |buf| && buf[a] == '\\' && buf[a+1] == 'u' && EscapeAt(buf, a) == Ok(value, b)
    ensures Unit(buf, a, b, value) || Pair(buf, a, b, value)
  {
    hide Quad, Hex4, Utf8.Rune;
    var hi := Hex4(buf, a + 2);
    QuadExactly(buf, a + 2, hi.value);
    if 0xD800 <= hi.value <= 0xDBFF {
      var lo := Hex4(buf, hi.pos + 2);
      QuadExactly(buf, a + 8, lo.value);
      assert Unicode(buf, a + 2).value == Joined(hi.value, lo.value);
      assert Pair(buf, a, b, value);
    } else {
      assert Unit(buf, a, b, value);
    }
  }

  /** One piece more, read where it stands. */
  lemma PieceRead(buf: string, a: nat, b: nat, value: string, out: string)
    requires a < b && Piece(buf, a, b, value)
    ensures b <= |buf| && buf[a] != '"' && Body(buf, a, out) == Body(buf, b, out + value)
  {
    hide Quad, EscapeAt;
    if buf[a] == '\\' { EscapeExactly(buf, a, b, value); }
  }

  lemma {:induction false} PiecesRead(buf: string, a: nat, b: nat, values: seq<string>, out: string)
    requires Pieces(buf, a, b, values)
    ensures a <= b <= |buf| && Body(buf, a, out) == Body(buf, b, out + Concat(values))
    decreases |values|
  {
    hide Piece, Body;
    if values == [] {
      assert out + "" == out;
    } else {
      var c: nat :| a < c && Piece(buf, a, c, values[0]) && Pieces(buf, c, b, values[1..]);
      PieceRead(buf, a, c, values[0], out);
      PiecesRead(buf, c, b, values[1..], out + values[0]);
      Assoc(out, values[0], Concat(values[1..]));
    }
  }

  /** What a string reader gathered came in pieces. */
  lemma {:induction false} GatheredInPieces(buf: string, a: nat, out: string) returns (values: seq<string>)
    requires a <= |buf| && Body(buf, a, out).Ok?
    ensures var r := Body(buf, a, out); r.pos >= 1 && Pieces(buf, a, r.pos - 1, values) && buf[r.pos-1] == '"' && r.value == out + Concat(values)
    decreases |buf| - a
  {
    hide Piece, EscapeAt, Utf8.Valid;
    if buf[a] == '"' {
      values := [];
      assert out + "" == out;
    } else {
      var v, b := NextPiece(buf, a, out);
      var rest := GatheredInPieces(buf, b, out + v);
      values := [v] + rest;
      Assoc(out, v, Concat(rest));
      assert values[1..] == rest;
    }
  }

  lemma NextPiece(buf: string, a: nat, out: string) returns (v: string, b: nat)
    requires a < |buf| && buf[a] != '"' && Body(buf, a, out).Ok?
    ensures a < b <= |buf| && Piece(buf, a, b, v) && Body(buf, a, out) == Body(buf, b, out + v)
  {
    hide Quad, EscapeAt;
    if buf[a] == '\\' {
      var e := EscapeAt(buf, a);
      v, b := e.value, e.pos;
      EscapeExactly(buf, a, b, v);
    } else {
      v, b := [buf[a]], a + 1;
    }
  }

  /** A string is accepted, with this value and end, exactly if it is quoted pieces of that value and the value
      is UTF-8. Nothing else is a string: not a raw control byte, a lone surrogate or an unknown escape. */
  lemma StringExactly(buf: string, pos: nat, s: string, p: nat)
    requires pos <= |buf|
    ensures StrAt(buf, pos) == Ok(s, p) <==>
      exists values :: pos + 1 < p <= |buf| && buf[pos] as int == 34 && Pieces(buf, pos + 1, p - 1, values) && buf[p-1] as int == 34
        && s == Concat(values) && Utf8.Valid(s)
  {
    hide Pieces, Body, Utf8.Valid;
    if StrAt(buf, pos) == Ok(s, p) {
      var values := GatheredInPieces(buf, pos + 1, "");
      assert "" + Concat(values) == Concat(values);
    }
    forall values | pos + 1 < p <= |buf| && buf[pos] as int == 34 && Pieces(buf, pos + 1, p - 1, values) && buf[p-1] as int == 34
        && s == Concat(values) && Utf8.Valid(s)
      ensures StrAt(buf, pos) == Ok(s, p)
    {
      PiecesRead(buf, pos + 1, p - 1, values, "");
      assert "" + Concat(values) == Concat(values);
      BodyEnds(buf, p - 1, s);
    }
  }

  lemma BodyEnds(buf: string, a: nat, s: string)
    requires a < |buf| && buf[a] == '"' && Utf8.Valid(s)
    ensures Body(buf, a, s) == Ok(s, a + 1)
  {
  }

  // ---- numbers ----

  predicate AllDigitCodes(t: string) { forall i :: 0 <= i < |t| ==> 48 <= t[i] as int <= 57 }

  /** An optional minus, then a lone zero or digits that do not start with one. */
  predicate WholePart(t: string) {
    var d := if t != "" && t[0] == '-' then t[1..] else t;
    d != "" && AllDigitCodes(d) && (d[0] == '0' ==> d == "0")
  }

  predicate FractionPart(t: string) { t == "" || (|t| >= 2 && t[0] == '.' && AllDigitCodes(t[1..])) }

  predicate ExponentPart(t: string) {
    t == "" || (|t| >= 2 && (t[0] == 'e' || t[0] == 'E') &&
      var d := if t[1] == '+' || t[1] == '-' then t[2..] else t[1..];
      d != "" && AllDigitCodes(d))
  }

  ghost predicate IsNumber(buf: string, a: nat, b: nat) {
    exists i: nat, j: nat :: NumberParts(buf, a, i, j, b)
  }

  predicate NumberParts(buf: string, a: nat, i: nat, j: nat, b: nat) {
    a <= i <= j <= b <= |buf| && WholePart(buf[a..i]) && FractionPart(buf[i..j]) && ExponentPart(buf[j..b])
  }

  lemma RunExactly(buf: string, p: nat, e: nat)
    requires p <= |buf|
    ensures DigitsEnd(buf, p) == e <==> p <= e <= |buf| && AllDigitCodes(buf[p..e]) && !Digit(At(buf, e))
  {
    if p <= e <= |buf| && AllDigitCodes(buf[p..e]) && !Digit(At(buf, e)) { DigitsEndUnique(buf, p, e); }
    if DigitsEnd(buf, p) == e { assert AllDigits(buf[p..e]); }
  }

  /** Where the whole part ends. */
  function WholeEnd(buf: string, a: nat): (p: nat)
    requires a <= |buf|
  {
    var p := if At(buf, a) == '-' then a + 1 else a;
    if At(buf, p) == '0' then p + 1 else if Digit(At(buf, p)) then DigitsEnd(buf, p + 1) else 0
  }

  lemma WholeRead(buf: string, a: nat, i: nat)
    requires a <= i <= |buf| && WholePart(buf[a..i]) && !Digit(At(buf, i))
    ensures Digit(At(buf, if At(buf, a) == '-' then a + 1 else a)) && WholeEnd(buf, a) == i
  {
    hide DigitsEnd;
    var t := buf[a..i];
    assert t[0] == buf[a];
    var p := if At(buf, a) == '-' then a + 1 else a;
    var d := if t[0] == '-' then t[1..] else t;
    assert d == buf[p..i] && d[0] == buf[p] && 48 <= d[0] as int <= 57;
    if buf[p] != '0' {
      assert AllDigitCodes(buf[p+1..i]) by { assert buf[p+1..i] == d[1..]; }
      RunExactly(buf, p + 1, i);
    }
  }

  lemma WholeWritten(buf: string, a: nat)
    requires a <= |buf| && Digit(At(buf, if At(buf, a) == '-' then a + 1 else a))
    ensures a < WholeEnd(buf, a) <= |buf| && WholePart(buf[a..WholeEnd(buf, a)])
  {
    var p := if At(buf, a) == '-' then a + 1 else a;
    var i := WholeEnd(buf, a);
    var t := buf[a..i];
    assert t[0] == buf[a];
    var d := if t[0] == '-' then t[1..] else t;
    assert d == buf[p..i] && d[0] == buf[p];
    if buf[p] != '0' {
      RunExactly(buf, p + 1, i);
      assert d == [buf[p]] + buf[p+1..i];
    }
  }

  function AfterWhole(buf: string, i: nat): Parsed<()>
    requires i <= |buf|
  {
    var f := SkipFraction(buf, i);
    if f.Refused? then f else SkipExponent(buf, f.pos)
  }

  lemma SkipNumberIs(buf: string, a: nat)
    requires a <= |buf|
    ensures SkipNumber(buf, a).Ok? ==> Digit(At(buf, if At(buf, a) == '-' then a + 1 else a))
    ensures Digit(At(buf, if At(buf, a) == '-' then a + 1 else a)) ==> WholeEnd(buf, a) <= |buf| && SkipNumber(buf, a) == AfterWhole(buf, WholeEnd(buf, a))
  {
    var p := if At(buf, a) == '-' then a + 1 else a;
    if Digit(At(buf, p)) && buf[p] != '0' { assert DigitsEnd(buf, p + 1) <= |buf|; }
  }

  lemma FractionRead(buf: string, i: nat, j: nat)
    requires i <= j <= |buf| && FractionPart(buf[i..j]) && !Digit(At(buf, j)) && (i == j ==> At(buf, i) != '.')
    ensures SkipFraction(buf, i) == Ok((), j)
  {
    if i < j {
      assert buf[i..j][0] == buf[i] && buf[i..j][1..] == buf[i+1..j];
      assert buf[i..j][1] == buf[i+1];
      assert AllDigitCodes(buf[i+2..j]) by { assert buf[i+2..j] == buf[i+1..j][1..]; }
      assert 48 <= buf[i+1..j][0] as int <= 57;
      RunExactly(buf, i + 2, j);
    }
  }

  lemma FractionWritten(buf: string, i: nat)
    requires i <= |buf| && SkipFraction(buf, i).Ok?
    ensures var j := SkipFraction(buf, i).pos; i <= j <= |buf| && FractionPart(buf[i..j])
  {
    var j := SkipFraction(buf, i).pos;
    if i < j {
      RunExactly(buf, i + 2, j);
      assert buf[i..j][0] == buf[i] && buf[i..j][1..] == [buf[i+1]] + buf[i+2..j];
    }
  }

  lemma ExponentRead(buf: string, j: nat, b: nat)
    requires j <= b <= |buf| && ExponentPart(buf[j..b]) && !Digit(At(buf, b)) && (j == b ==> At(buf, j) != 'e' && At(buf, j) != 'E')
    ensures SkipExponent(buf, j) == Ok((), b)
  {
    hide SomeDigits, AllDigitCodes;
    if j < b {
      var t := buf[j..b];
      assert t[0] == buf[j] && t[1] == buf[j+1];
      var p := if buf[j+1] == '+' || buf[j+1] == '-' then j + 2 else j + 1;
      assert (if t[1] == '+' || t[1] == '-' then t[2..] else t[1..]) == buf[p..b];
      DigitsRead(buf, p, b);
    }
  }

  lemma DigitsRead(buf: string, p: nat, b: nat)
    requires p < b <= |buf| && AllDigitCodes(buf[p..b]) && !Digit(At(buf, b))
    ensures SomeDigits(buf, p) == Ok((), b)
  {
    hide DigitsEnd;
    var t := buf[p..b];
    assert t[0] == buf[p] && 48 <= t[0] as int <= 57;
    assert AllDigitCodes(buf[p+1..b]) by { assert buf[p+1..b] == t[1..]; }
    RunExactly(buf, p + 1, b);
  }

  lemma ExponentWritten(buf: string, j: nat)
    requires j <= |buf| && SkipExponent(buf, j).Ok?
    ensures var b := SkipExponent(buf, j).pos; j <= b <= |buf| && ExponentPart(buf[j..b])
  {
    var b := SkipExponent(buf, j).pos;
    if j < b {
      var t := buf[j..b];
      var p := if At(buf, j + 1) == '+' || At(buf, j + 1) == '-' then j + 2 else j + 1;
      RunExactly(buf, p + 1, b);
      assert t[0] == buf[j] && t[1] == buf[j+1];
      assert (if t[1] == '+' || t[1] == '-' then t[2..] else t[1..]) == [buf[p]] + buf[p+1..b];
    }
  }

  /** What the skipper walks is a number. */
  lemma NumberWritten(buf: string, a: nat)
    requires a <= |buf| && SkipNumber(buf, a).Ok?
    ensures IsNumber(buf, a, SkipNumber(buf, a).pos)
  {
    hide SkipNumber, WholePart, FractionPart, ExponentPart, SkipFraction, SkipExponent, WholeEnd;
    SkipNumberIs(buf, a);
    WholeWritten(buf, a);
    var i := WholeEnd(buf, a);
    FractionWritten(buf, i);
    var j := SkipFraction(buf, i).pos;
    ExponentWritten(buf, j);
    assert NumberParts(buf, a, i, j, SkipNumber(buf, a).pos);
  }

  /** And a number that nothing numeric follows is walked to its end. */
  lemma NumberRead(buf: string, a: nat, b: nat)
    requires IsNumber(buf, a, b) && !Clings(At(buf, b))
    ensures a < b <= |buf| && SkipNumber(buf, a) == Ok((), b)
  {
    hide SkipNumber, WholePart, FractionPart, ExponentPart, SkipFraction, SkipExponent, WholeEnd;
    var i: nat, j: nat :| NumberParts(buf, a, i, j, b);
    PartsFollow(buf, a, i, j, b);
    WholeRead(buf, a, i);
    SkipNumberIs(buf, a);
    FractionRead(buf, i, j);
    ExponentRead(buf, j, b);
  }

  /** Each part ends where a digit cannot follow. */
  lemma PartsFollow(buf: string, a: nat, i: nat, j: nat, b: nat)
    requires NumberParts(buf, a, i, j, b) && !Clings(At(buf, b))
    ensures a < i && !Digit(At(buf, i)) && !Digit(At(buf, j)) && (i == j ==> At(buf, i) != '.')
    ensures j == b ==> At(buf, j) != 'e' && At(buf, j) != 'E'
  {
    if i < j { assert buf[i..j][0] == buf[i]; }
    if j < b { assert buf[j..b][0] == buf[j]; }
  }
}
