/** The tokens of the wire grammar, as functions of the buffer and a position: blanks, strings,
    literals and numbers. The positions of refusals are part of what they answer. */
module Lexer {
  import opened Decimal
  import Utf8

  predicate Blank(c: char) { c == ' ' || c == '\t' || c == '\n' || c == '\r' }

  /** The first position at or after pos that holds no blank. */
  function Ws(buf: string, pos: nat): (p: nat)
    requires pos <= |buf|
    ensures pos <= p <= |buf|
    ensures p < |buf| ==> !Blank(buf[p])
    decreases |buf| - pos
  {
    if pos < |buf| && Blank(buf[pos]) then Ws(buf, pos + 1) else pos
  }

  // ---- strings ----

  predicate Hex(c: char) { Digit(c) || 'a' <= c <= 'f' || 'A' <= c <= 'F' }

  function HexValue(c: char): (v: nat)
    requires Hex(c)
    ensures v < 16
  {
    if Digit(c) then c as int - '0' as int
    else if 'a' <= c <= 'f' then c as int - 'a' as int + 10
    else c as int - 'A' as int + 10
  }

  function Hex4(buf: string, pos: nat): (r: Parsed<nat>)
    ensures r.Ok? ==> r.pos == pos + 4 <= |buf| && r.value <= 0xFFFF
  {
    if pos + 4 > |buf| || !(Hex(buf[pos]) && Hex(buf[pos+1]) && Hex(buf[pos+2]) && Hex(buf[pos+3]))
    then Refused(BadString, pos)
    else Ok(((HexValue(buf[pos]) * 16 + HexValue(buf[pos+1])) * 16 + HexValue(buf[pos+2])) * 16 + HexValue(buf[pos+3]), pos + 4)
  }

  /** A `\u` escape whose four digits start at pos: one unit, or a surrogate pair joined. */
  function Unicode(buf: string, pos: nat): (r: Parsed<int>)
    requires pos <= |buf|
    ensures r.Ok? ==> pos < r.pos <= |buf| && Utf8.Scalar(r.value)
  {
    var hi := Hex4(buf, pos);
    if hi.Refused? then Refused(hi.word, hi.at)
    else if 0xDC00 <= hi.value <= 0xDFFF then Refused(BadString, hi.pos)
    else if !(0xD800 <= hi.value <= 0xDBFF) then Ok(hi.value, hi.pos)
    else if hi.pos + 1 >= |buf| || buf[hi.pos] != '\\' || buf[hi.pos+1] != 'u' then Refused(BadString, hi.pos)
    else
      var lo := Hex4(buf, hi.pos + 2);
      if lo.Refused? then Refused(lo.word, lo.at)
      else if !(0xDC00 <= lo.value <= 0xDFFF) then Refused(BadString, lo.pos)
      else Ok(0x10000 + (hi.value - 0xD800) * 1024 + (lo.value - 0xDC00), lo.pos)
  }

  /** The bytes an escape stands for; pos is at the backslash. */
  function EscapeAt(buf: string, pos: nat): (r: Parsed<string>)
    requires pos < |buf|
    ensures r.Ok? ==> pos < r.pos <= |buf|
  {
    if pos + 1 >= |buf| then Refused(Malformed, pos + 1)
    else
      var c := buf[pos+1];
      if c == '"' || c == '\\' || c == '/' then Ok([c], pos + 2)
      else if c == 'b' then Ok([8 as char], pos + 2)
      else if c == 'f' then Ok([12 as char], pos + 2)
      else if c == 'n' then Ok("\n", pos + 2)
      else if c == 'r' then Ok("\r", pos + 2)
      else if c == 't' then Ok("\t", pos + 2)
      else if c == 'u' then
        var u := Unicode(buf, pos + 2);
        if u.Refused? then Refused(u.word, u.at) else Ok(Utf8.Rune(u.value), u.pos)
      else Refused(BadString, pos + 2)
  }

  /** The rest of a string, `out` already gathered. */
  function Body(buf: string, pos: nat, out: string): (r: Parsed<string>)
    requires pos <= |buf|
    ensures r.Ok? ==> pos < r.pos <= |buf| && Utf8.Valid(r.value)
    decreases |buf| - pos
  {
    if pos >= |buf| then Refused(Malformed, pos)
    else
      var c := buf[pos];
      if c == '"' then (if Utf8.Valid(out) then Ok(out, pos + 1) else Refused(BadString, pos + 1))
      else if c < ' ' then Refused(BadString, pos)
      else if c == '\\' then
        var e := EscapeAt(buf, pos);
        if e.Refused? then e else Body(buf, e.pos, out + e.value)
      else Body(buf, pos + 1, out + [c])
  }

  function StrAt(buf: string, pos: nat): (r: Parsed<string>)
    requires pos <= |buf|
    ensures r.Ok? ==> pos + 1 < r.pos <= |buf| && Utf8.Valid(r.value)
  {
    if At(buf, pos) != '"' then Refused(WrongType, pos) else Body(buf, pos + 1, "")
  }

  // ---- literals and numbers ----

  function Literal(buf: string, pos: nat, word: string): (r: Parsed<()>)
    ensures r.Ok? ==> r.pos == pos + |word| <= |buf|
  {
    if pos + |word| > |buf| || buf[pos..pos+|word|] != word then Refused(Malformed, pos) else Ok((), pos + |word|)
  }

  function FlagAt(buf: string, pos: nat): (r: Parsed<bool>)
    ensures r.Ok? ==> pos < r.pos <= |buf|
  {
    if At(buf, pos) == 't' then
      var l := Literal(buf, pos, "true");
      if l.Ok? then Ok(true, l.pos) else Refused(l.word, l.at)
    else if At(buf, pos) == 'f' then
      var l := Literal(buf, pos, "false");
      if l.Ok? then Ok(false, l.pos) else Refused(l.word, l.at)
    else Refused(WrongType, pos)
  }

  /** One digit or more. */
  function SomeDigits(buf: string, pos: nat): (r: Parsed<()>)
    requires pos <= |buf|
    ensures r.Ok? ==> pos < r.pos <= |buf|
  {
    if Digit(At(buf, pos)) then Ok((), DigitsEnd(buf, pos + 1)) else Refused(NumberSpelling, pos)
  }

  function SkipFraction(buf: string, pos: nat): (r: Parsed<()>)
    requires pos <= |buf|
    ensures r.Ok? ==> pos <= r.pos <= |buf|
  {
    if At(buf, pos) == '.' then SomeDigits(buf, pos + 1) else Ok((), pos)
  }

  function SkipExponent(buf: string, pos: nat): (r: Parsed<()>)
    requires pos <= |buf|
    ensures r.Ok? ==> pos <= r.pos <= |buf|
  {
    if At(buf, pos) == 'e' || At(buf, pos) == 'E' then
      var p := pos + 1;
      SomeDigits(buf, if At(buf, p) == '+' || At(buf, p) == '-' then p + 1 else p)
    else Ok((), pos)
  }

  /** `skipNumber`: walked, never converted. */
  function SkipNumber(buf: string, pos: nat): (r: Parsed<()>)
    requires pos <= |buf|
    ensures r.Ok? ==> pos < r.pos <= |buf|
  {
    var p := if At(buf, pos) == '-' then pos + 1 else pos;
    if !Digit(At(buf, p)) then Refused(NumberSpelling, p)
    else
      var f := SkipFraction(buf, if buf[p] == '0' then p + 1 else DigitsEnd(buf, p + 1));
      if f.Refused? then f else SkipExponent(buf, f.pos)
  }

  /** A number the typed reader takes is walked by the skipper to the same end. */
  lemma SkipFollowsInteger(buf: string, pos: nat, min: int, max: int)
    requires pos <= |buf| && MIN_I64 <= min && max <= MAX_I64 && IntegerAt(buf, pos, min, max).Ok?
    ensures SkipNumber(buf, pos) == Ok((), IntegerAt(buf, pos, min, max).pos)
  {
    var p := if At(buf, pos) == '-' then pos + 1 else pos;
    ScanIs(buf, p, 0, p);
    assert buf[p..p] == "";
    assert DigitsEnd(buf, p) == DigitsEnd(buf, p + 1);
  }

  /** A surrogate pair lands in the supplementary planes. */
  lemma PairsAreSupplementary(buf: string, pos: nat)
    requires pos <= |buf| && Unicode(buf, pos).Ok? && Unicode(buf, pos).pos > pos + 4
    ensures 0x10000 <= Unicode(buf, pos).value <= 0x10FFFF
    ensures Utf8.Valid(Utf8.Rune(Unicode(buf, pos).value)) && |Utf8.Rune(Unicode(buf, pos).value)| == 4
  {
    var r := Utf8.Rune(Unicode(buf, pos).value);
    assert r[0..|r|] == r;
    Utf8.RuneIsChar(r, 0, Unicode(buf, pos).value);
  }

  // ---- printing a string, and reading it back ----

  function HexDigit(v: int): (c: char)
    requires 0 <= v < 16
    ensures Hex(c) && HexValue(c) == v
  {
    if v < 10 then ('0' as int + v) as char else ('a' as int + v - 10) as char
  }

  function EscByte(c: char): (s: string)
    ensures s != ""
  {
    if c == '"' then "\\\"" else if c == '\\' then "\\\\"
    else if c as int == 8 then "\\b" else if c as int == 12 then "\\f"
    else if c == '\n' then "\\n" else if c == '\r' then "\\r" else if c == '\t' then "\\t"
    else if c < ' ' then "\\u00" + [HexDigit(c as int / 16), HexDigit(c as int % 16)]
    else [c]
  }

  function Escaped(s: string): string {
    if s == "" then "" else EscByte(s[0]) + Escaped(s[1..])
  }

  function Quoted(s: string): (q: string)
    ensures |q| >= 2
  {
    "\"" + Escaped(s) + "\""
  }

  /** The text t stands in the buffer at pos. */
  predicate Here(buf: string, pos: nat, t: string) {
    pos + |t| <= |buf| && buf[pos..pos+|t|] == t
  }

  lemma HereSplit(buf: string, pos: nat, a: string, b: string)
    ensures Here(buf, pos, a + b) <==> Here(buf, pos, a) && Here(buf, pos + |a|, b)
  {
    if Here(buf, pos, a + b) {
      assert buf[pos..pos+|a|] == buf[pos..pos+|a+b|][..|a|];
      assert buf[pos+|a|..pos+|a|+|b|] == buf[pos..pos+|a+b|][|a|..];
    }
    if Here(buf, pos, a) && Here(buf, pos + |a|, b) {
      assert buf[pos..pos+|a+b|] == buf[pos..pos+|a|] + buf[pos+|a|..pos+|a|+|b|];
    }
  }

  lemma HereAt(buf: string, pos: nat, t: string, k: nat)
    requires Here(buf, pos, t) && k < |t|
    ensures buf[pos+k] == t[k]
  {
    assert buf[pos..pos+|t|][k] == buf[pos+k];
  }

  /** One escaped byte is read as that byte. */
  lemma EscByteRead(buf: string, pos: nat, c: char, out: string)
    requires Here(buf, pos, EscByte(c))
    ensures pos + |EscByte(c)| <= |buf|
    ensures Body(buf, pos, out) == Body(buf, pos + |EscByte(c)|, out + [c])
  {
    var e := EscByte(c);
    HereAt(buf, pos, e, 0);
    if |e| >= 2 { HereAt(buf, pos, e, 1); }
    if |e| == 6 {
      HereAt(buf, pos, e, 2); HereAt(buf, pos, e, 3); HereAt(buf, pos, e, 4); HereAt(buf, pos, e, 5);
      assert EscapeAt(buf, pos) == Ok([c], pos + 6);
    }
  }

  lemma FirstThenRest(s: string, out: string)
    requires s != ""
    ensures out + [s[0]] + s[1..] == out + s
  {
    assert s == [s[0]] + s[1..];
  }

  lemma NothingEscaped(s: string)
    requires s == ""
    ensures Escaped(s) == ""
  {
  }

  lemma EscapedUnfold(s: string)
    requires s != ""
    ensures Escaped(s) == EscByte(s[0]) + Escaped(s[1..]) && |Escaped(s)| == |EscByte(s[0])| + |Escaped(s[1..])|
  {
  }

  lemma {:induction false} EscapedRead(buf: string, pos: nat, s: string, out: string)
    requires Here(buf, pos, Escaped(s))
    ensures Body(buf, pos, out) == Body(buf, pos + |Escaped(s)|, out + s)
    decreases |s|
  {
    hide *;
    if s == "" {
      NothingEscaped(s);
      assert out + s == out;
    } else {
      EscapedUnfold(s);
      var e, rest := EscByte(s[0]), Escaped(s[1..]);
      HereSplit(buf, pos, e, rest);
      EscByteRead(buf, pos, s[0], out);
      EscapedRead(buf, pos + |e|, s[1..], out + [s[0]]);
      FirstThenRest(s, out);
    }
  }

  /** `str` after `esc`: the string itself if it is UTF-8, a refusal at the closing quote if not. */
  lemma QuotedRead(buf: string, pos: nat, s: string)
    requires Here(buf, pos, Quoted(s))
    ensures StrAt(buf, pos) == if Utf8.Valid(s) then Ok(s, pos + |Quoted(s)|) else Refused(BadString, pos + |Quoted(s)|)
  {
    hide Utf8.Valid, Escaped;
    HereSplit(buf, pos, "\"" + Escaped(s), "\"");
    HereSplit(buf, pos, "\"", Escaped(s));
    HereAt(buf, pos, "\"", 0);
    EscapedRead(buf, pos + 1, s, "");
    HereAt(buf, pos + 1 + |Escaped(s)|, "\"", 0);
    assert "" + s == s;
  }
}
