/** The readers themselves: one buffer, a position and a depth that every call moves. */
module Readers {
  import opened Decimal
  import opened Timestamp
  import opened Lexer
  import opened Schema
  import opened Parser
  import Utf8

  /** A call's answer; the refusal names the byte the reader stood at. */
  datatype Answer<+T> = Given(value: T) | Refusal(word: Word, offset: nat)

  class Reader {
    const buf: string
    var pos: nat
    var depth: nat

    ghost predicate Valid() reads this { pos <= |buf| }

    /** The call answered as the specification r does and stands where r says; when it
        answered a value it has left every container it went into. */
    ghost predicate Told<T>(a: Answer<T>, r: Parsed<T>, was: nat) reads this {
      match r
      case Ok(v, p) => a == Given(v) && pos == p && depth == was
      case Refused(w, at) => a == Refusal(w, at)
    }

    constructor (b: string, d: nat)
      ensures buf == b && pos == 0 && depth == d
    {
      buf, pos, depth := b, 0, d;
    }

    function Peek(): char reads this { At(buf, pos) }

    method SkipBlanks()
      requires Valid()
      modifies this`pos
      ensures pos == Ws(buf, old(pos))
    {
      while pos < |buf| && Blank(buf[pos])
        invariant pos <= |buf| && Ws(buf, pos) == Ws(buf, old(pos))
      {
        pos := pos + 1;
      }
    }

    method Descend() returns (a: Answer<()>)
      modifies this`depth
      ensures depth == old(depth) + 1
      ensures a == if depth > DEPTH_LIMIT then Refusal(DepthExceeded, pos) else Given(())
    {
      depth := depth + 1;
      if depth > DEPTH_LIMIT { return Refusal(DepthExceeded, pos); }
      return Given(());
    }

    // ---- strings ----

    method Str() returns (a: Answer<string>)
      requires Valid()
      modifies this`pos
      ensures Told(a, StrAt(buf, old(pos)), depth)
    {
      if Peek() != '"' { return Refusal(WrongType, pos); }
      pos := pos + 1;
      var out := "";
      while true
        invariant pos <= |buf| && StrAt(buf, old(pos)) == Body(buf, pos, out)
        decreases |buf| - pos
      {
        if pos >= |buf| { return Refusal(Malformed, pos); }
        var c := buf[pos];
        if c == '"' {
          pos := pos + 1;
          var ok := Utf8.ValidUTF8(out);
          if !ok { return Refusal(BadString, pos); }
          return Given(out);
        } else if c < ' ' {
          return Refusal(BadString, pos);
        } else if c == '\\' {
          var e := Escape(out);
          if e.Refusal? { return e; }
          out := e.value;
        } else {
          out := out + [c];
          pos := pos + 1;
        }
      }
    }

    /** One escape, its bytes appended to what has been gathered. */
    method Escape(out: string) returns (a: Answer<string>)
      requires pos < |buf|
      modifies this`pos
      ensures match EscapeAt(buf, old(pos))
              case Ok(s, p) => a == Given(out + s) && pos == p
              case Refused(w, at) => a == Refusal(w, at)
    {
      pos := pos + 1;
      if pos >= |buf| { return Refusal(Malformed, pos); }
      var c := buf[pos];
      pos := pos + 1;
      if c == '"' || c == '\\' || c == '/' { return Given(out + [c]); }
      if c == 'b' { return Given(out + [8 as char]); }
      if c == 'f' { return Given(out + [12 as char]); }
      if c == 'n' { return Given(out + "\n"); }
      if c == 'r' { return Given(out + "\r"); }
      if c == 't' { return Given(out + "\t"); }
      if c == 'u' {
        var u := ReadUnicode();
        if u.Refusal? { return Refusal(u.word, u.offset); }
        return Given(out + Utf8.Rune(u.value));
      }
      return Refusal(BadString, pos);
    }

    method ReadUnicode() returns (a: Answer<int>)
      requires Valid()
      modifies this`pos
      ensures Told(a, Unicode(buf, old(pos)), depth)
    {
      var hi := ReadHex4();
      if hi.Refusal? { return Refusal(hi.word, hi.offset); }
      var u := hi.value;
      if 0xDC00 <= u <= 0xDFFF { return Refusal(BadString, pos); }
      if 0xD800 <= u <= 0xDBFF {
        if pos + 1 >= |buf| || buf[pos] != '\\' || buf[pos+1] != 'u' { return Refusal(BadString, pos); }
        pos := pos + 2;
        var lo := ReadHex4();
        if lo.Refusal? { return Refusal(lo.word, lo.offset); }
        if lo.value < 0xDC00 || lo.value > 0xDFFF { return Refusal(BadString, pos); }
        return Given(0x10000 + (u - 0xD800) * 1024 + (lo.value - 0xDC00));
      }
      return Given(u);
    }

    /** The number the first i hex digits at p spell. */
    ghost function Nibbles(p: nat, i: nat): nat
      requires p + i <= |buf| && forall k :: p <= k < p + i ==> Hex(buf[k])
    {
      if i == 0 then 0 else Nibbles(p, i - 1) * 16 + HexValue(buf[p+i-1])
    }

    method ReadHex4() returns (a: Answer<nat>)
      modifies this`pos
      ensures Told(a, Hex4(buf, old(pos)), depth)
    {
      if pos + 4 > |buf| { return Refusal(BadString, pos); }
      var u := 0;
      for i := 0 to 4
        invariant pos == old(pos) && pos + 4 <= |buf|
        invariant forall k :: pos <= k < pos + i ==> Hex(buf[k])
        invariant u == Nibbles(pos, i)
      {
        if !Hex(buf[pos+i]) { return Refusal(BadString, pos); }
        u := u * 16 + HexValue(buf[pos+i]);
      }
      assert Nibbles(pos, 1) == HexValue(buf[pos]);
      assert Nibbles(pos, 2) == Nibbles(pos, 1) * 16 + HexValue(buf[pos+1]);
      assert Nibbles(pos, 3) == Nibbles(pos, 2) * 16 + HexValue(buf[pos+2]);
      pos := pos + 4;
      return Given(u);
    }

    method ReadTime() returns (a: Answer<string>)
      requires Valid()
      modifies this`pos
      ensures match TimeAt(buf, old(pos))
              case Ok(v, p) => a == Given(v.s) && pos == p
              case Refused(w, at) => a == Refusal(w, at)
    {
      var start := pos;
      a := Str();
      if a.Refusal? { return; }
      var normal := NormalizedTimestamp(a.value);
      if normal == "" {
        pos := start;
        return Refusal(BadTimestamp, pos);
      }
    }

    // ---- literals and numbers ----

    method Word(word: string) returns (a: Answer<()>)
      modifies this`pos
      ensures Told(a, Literal(buf, old(pos), word), depth)
    {
      if pos + |word| > |buf| || buf[pos..pos+|word|] != word { return Refusal(Malformed, pos); }
      pos := pos + |word|;
      return Given(());
    }

    method Boolean() returns (a: Answer<bool>)
      modifies this`pos
      ensures Told(a, FlagAt(buf, old(pos)), depth)
    {
      var c := Peek();
      if c != 't' && c != 'f' { return Refusal(WrongType, pos); }
      var w := Word(if c == 't' then "true" else "false");
      if w.Refusal? { return Refusal(w.word, w.offset); }
      return Given(c == 't');
    }

    /** An int64. The accumulator is a uint64: that it never wraps is part of what is verified. */
    method Integer(min: int64, max: int64) returns (a: Answer<int64>)
      requires Valid()
      modifies this`pos
      ensures match IntegerAt(buf, old(pos), min as int, max as int)
              case Ok(n, p) => a.Given? && a.value as int == n && pos == p
              case Refused(w, at) => a == Refusal(w, at)
    {
      var neg := Peek() == '-';
      if !neg && !Digit(Peek()) { return Refusal(WrongType, pos); }
      if neg { pos := pos + 1; }
      if !Digit(Peek()) { return Refusal(Malformed, pos); }
      var u: uint64 := 0;
      if Peek() == '0' {
        pos := pos + 1;
      } else {
        ghost var start := pos;
        while Digit(Peek())
          invariant start <= pos <= |buf| && Scan(buf, pos, u as nat) == Scan(buf, start, 0)
          decreases |buf| - pos
        {
          if u > 922337203685477580 { return Refusal(NumberSpelling, pos); }
          u := u * 10 + DigitValue(Peek()) as uint64;
          pos := pos + 1;
        }
      }
      if Clings(Peek()) { return Refusal(NumberSpelling, pos); }
      if neg && u == 0 { return Refusal(NumberSpelling, pos); }
      var n: int64;
      if neg && u == 0x8000_0000_0000_0000 { n := -0x8000_0000_0000_0000; }
      else if u > 0x7FFF_FFFF_FFFF_FFFF { return Refusal(NumberSpelling, pos); }
      else if neg { n := -(u as int64); }
      else { n := u as int64; }
      if n < min || n > max { return Refusal(NumberSpelling, pos); }
      return Given(n);
    }

    method WalkDigits()
      requires Valid()
      modifies this`pos
      ensures pos == DigitsEnd(buf, old(pos))
    {
      while Digit(Peek())
        invariant pos <= |buf| && DigitsEnd(buf, pos) == DigitsEnd(buf, old(pos))
        decreases |buf| - pos
      {
        pos := pos + 1;
      }
    }

    method WalkSomeDigits() returns (a: Answer<()>)
      requires Valid()
      modifies this`pos
      ensures Told(a, SomeDigits(buf, old(pos)), depth)
    {
      var start := pos;
      WalkDigits();
      if pos == start { return Refusal(NumberSpelling, pos); }
      return Given(());
    }

    method WalkNumber() returns (a: Answer<()>)
      requires Valid()
      modifies this`pos
      ensures Told(a, SkipNumber(buf, old(pos)), depth)
    {
      if Peek() == '-' { pos := pos + 1; }
      if Peek() == '0' {
        pos := pos + 1;
      } else if Digit(Peek()) {
        WalkDigits();
      } else {
        return Refusal(NumberSpelling, pos);
      }
      a := WalkFraction();
      if a.Given? { a := WalkExponent(); }
    }

    method WalkFraction() returns (a: Answer<()>)
      requires Valid()
      modifies this`pos
      ensures Told(a, SkipFraction(buf, old(pos)), depth)
    {
      if Peek() != '.' { return Given(()); }
      pos := pos + 1;
      a := WalkSomeDigits();
    }

    method WalkExponent() returns (a: Answer<()>)
      requires Valid()
      modifies this`pos
      ensures Told(a, SkipExponent(buf, old(pos)), depth)
    {
      if Peek() != 'e' && Peek() != 'E' { return Given(()); }
      pos := pos + 1;
      if Peek() == '+' || Peek() == '-' { pos := pos + 1; }
      a := WalkSomeDigits();
    }

    // ---- opaque values ----

    method RawValue() returns (a: Answer<string>)
      requires Valid()
      modifies this
      ensures match RawAt(buf, old(pos), old(depth))
              case Ok(v, p) => a == Given(v.s) && pos == p && depth == old(depth)
              case Refused(w, at) => a == Refusal(w, at)
    {
      var start := pos;
      var s := SkipValue();
      if s.Refusal? { return Refusal(s.word, s.offset); }
      return Given(buf[start..pos]);
    }

    method SkipValue() returns (a: Answer<()>)
      requires Valid()
      modifies this
      ensures Told(a, Skip(buf, old(pos), old(depth)), old(depth))
      decreases |buf| - pos, 1
    {
      var c := Peek();
      if c == '"' {
        var s := Str();
        if s.Refusal? { return Refusal(s.word, s.offset); }
        return Given(());
      }
      if c == '{' || c == '[' { a := SkipContainer(); return; }
      if c == 't' { a := Word("true"); return; }
      if c == 'f' { a := Word("false"); return; }
      if c == 'n' { a := Word("null"); return; }
      if c == '-' || Digit(c) { a := WalkNumber(); return; }
      return Refusal(Malformed, pos);
    }

    /** A key and its colon, and the blanks around them. */
    method Key() returns (a: Answer<string>)
      requires Valid()
      modifies this`pos
      ensures Told(a, KeyAt(buf, old(pos)), depth)
    {
      SkipBlanks();
      if Peek() != '"' { return Refusal(Malformed, pos); }
      a := Str();
      if a.Refusal? { return; }
      SkipBlanks();
      if Peek() != ':' { return Refusal(Malformed, pos); }
      pos := pos + 1;
      SkipBlanks();
    }

    /** Behind an item: on to the next one, or where the container may end. */
    method Comma(ghost shut: char) returns (more: bool)
      requires Valid() && (shut == ']' || shut == '}')
      modifies this`pos
      ensures Valid() && pos >= old(pos)
      ensures After(buf, old(pos), shut) == if more then More(pos) else if Peek() == shut then Shut(pos + 1) else Bad(pos)
    {
      SkipBlanks();
      more := Peek() == ',';
      if more { pos := pos + 1; }
    }

    /** The answer of a container's loop: still to come, or the closing byte judged. */
    ghost function Ending<T>(more: bool, next: Parsed<T>, shut: char, value: T): Parsed<T>
      reads this
    {
      if more then next else if Peek() == shut then Ok(value, pos + 1) else Refused(Malformed, pos)
    }

    method SkipContainer() returns (a: Answer<()>)
      requires pos < |buf| && (buf[pos] == '{' || buf[pos] == '[')
      modifies this
      ensures Told(a, Skip(buf, old(pos), old(depth)), old(depth))
      decreases |buf| - pos, 0
    {
      hide After, Ws, KeyAt, StrAt, Literal, SkipNumber;
      var open := buf[pos];
      var shut := if open == '[' then ']' else '}';
      var e := Descend();
      if e.Refusal? { return e; }
      pos := pos + 1;
      SkipBlanks();
      var more := Peek() != shut;
      while more
        invariant old(pos) < pos <= |buf| && depth == old(depth) + 1
        invariant Skip(buf, old(pos), old(depth)) == Ending(more, SkipItems(buf, pos, depth, open), shut, ())
        decreases more, |buf| - pos
      {
        if open == '{' {
          var k := Key();
          if k.Refusal? { return Refusal(k.word, k.offset); }
        } else {
          SkipBlanks();
        }
        var v := SkipValue();
        if v.Refusal? { return v; }
        more := Comma(shut);
      }
      if Peek() != shut { return Refusal(Malformed, pos); }
      pos, depth := pos + 1, depth - 1;
      return Given(());
    }

    // ---- typed values ----

    method StrMap() returns (a: Answer<map<string, string>>)
      requires Valid()
      modifies this
      ensures match Parse(Pairs, buf, old(pos), old(depth))
              case Ok(v, p) => a.Given? && v == Map(a.value) && pos == p && depth == old(depth)
              case Refused(w, at) => a == Refusal(w, at)
    {
      hide After, Ws, KeyAt, StrAt;
      if Peek() != '{' { return Refusal(WrongType, pos); }
      var e := Descend();
      if e.Refusal? { return Refusal(e.word, e.offset); }
      pos := pos + 1;
      var out: map<string, string> := map[];
      SkipBlanks();
      var more := Peek() != '}';
      while more
        invariant old(pos) < pos <= |buf| && depth == old(depth) + 1
        invariant Parse(Pairs, buf, old(pos), old(depth)) == Ending(more, PairItems(buf, pos, out), '}', Map(out))
        decreases more, |buf| - pos
      {
        var k := Key();
        if k.Refusal? { return Refusal(k.word, k.offset); }
        var v := Str();
        if v.Refusal? { return Refusal(v.word, v.offset); }
        out := out[k.value := v.value];
        more := Comma('}');
      }
      if Peek() != '}' { return Refusal(Malformed, pos); }
      pos, depth := pos + 1, depth - 1;
      return Given(out);
    }

    /** The decoder of a kind. */
    method Decode(k: Kind) returns (a: Answer<Val>)
      requires Valid() && WfKind(k)
      modifies this
      ensures Told(a, Parse(k, buf, old(pos), old(depth)), old(depth))
      decreases |buf| - pos, 1
    {
      match k {
        case Text => var s := Str(); a := Wrap(s);
        case Time => var s := ReadTime(); a := Wrap(s);
        case Raw => var s := RawValue(); a := Wrap(s);
        case Int(min, max) =>
          var n := Integer(min as int64, max as int64);
          a := if n.Given? then Given(Num(n.value as int)) else Refusal(n.word, n.offset);
        case Flag =>
          var b := Boolean();
          a := if b.Given? then Given(Bool(b.value)) else Refusal(b.word, b.offset);
        case Pairs =>
          var m := StrMap();
          a := if m.Given? then Given(Map(m.value)) else Refusal(m.word, m.offset);
        case Many(elem) => a := DecodeList(elem);
        case Object(s) => a := DecodeObject(s);
      }
    }

    static function Wrap(a: Answer<string>): Answer<Val> {
      match a case Given(s) => Given(Val.Str(s)) case Refusal(w, o) => Refusal(w, o)
    }

    method DecodeList(elem: Kind) returns (a: Answer<Val>)
      requires Valid() && WfKind(elem)
      modifies this
      ensures Told(a, Parse(Many(elem), buf, old(pos), old(depth)), old(depth))
      decreases |buf| - pos, 0
    {
      hide After, Ws, Member, PairItems, StrAt, IntegerAt, FlagAt, TimeAt, Skip;
      if Peek() != '[' { return Refusal(WrongType, pos); }
      var e := Descend();
      if e.Refusal? { return Refusal(e.word, e.offset); }
      pos := pos + 1;
      var out: seq<Val> := [];
      SkipBlanks();
      var more := Peek() != ']';
      while more
        invariant old(pos) < pos <= |buf| && depth == old(depth) + 1
        invariant Parse(Many(elem), buf, old(pos), old(depth)) == Ending(more, ListItems(elem, buf, pos, depth, out), ']', List(out))
        decreases more, |buf| - pos
      {
        SkipBlanks();
        var v := Decode(elem);
        if v.Refusal? { return v; }
        out := out + [v.value];
        more := Comma(']');
      }
      if Peek() != ']' { return Refusal(Malformed, pos); }
      pos, depth := pos + 1, depth - 1;
      return Given(List(out));
    }

    method DecodeObject(s: Struct) returns (a: Answer<Val>)
      requires Valid() && WfStruct(s)
      modifies this
      ensures Told(a, Parse(Object(s), buf, old(pos), old(depth)), old(depth))
      decreases |buf| - pos, 0
    {
      hide Parse, Member, Rest, KeyAt, Skip, After, Finish, IndexOf, Ws, WfKind, ZeroFields;
      if Peek() == '{' { ObjectUnfold(s, buf, pos, depth); } else { NoObject(s, buf, pos, depth); }
      if Peek() != '{' { return Refusal(WrongType, pos); }
      var e := Descend();
      if e.Refusal? { return Refusal(e.word, e.offset); }
      pos := pos + 1;
      var fs: seq<Val>, seen: set<nat> := ZeroFields(s), {};
      SkipBlanks();
      var more := Peek() != '}';
      while more
        invariant old(pos) < pos <= |buf| && depth == old(depth) + 1 && |fs| == |s.fields|
        invariant Parse(Object(s), buf, old(pos), old(depth)) ==
          if more then Member(s, buf, pos, depth, fs, seen)
          else if Peek() == '}' then Finish(s, fs, seen, pos + 1) else Refused(Malformed, pos)
        decreases more, |buf| - pos
      {
        MemberUnfold(s, buf, pos, depth, fs, seen);
        var k := Key();
        if k.Refusal? { return Refusal(k.word, k.offset); }
        var i := IndexOf(s.fields, k.value);
        if i == |s.fields| {
          if !s.grant { return Refusal(UnknownField, pos); }
          var u := SkipValue();
          if u.Refusal? { return Refusal(u.word, u.offset); }
        } else {
          if i in seen { return Refusal(DuplicateField, pos); }
          seen := seen + {i};
          FieldsAreWf(s, i);
          var v := Decode(s.fields[i].kind);
          if v.Refusal? { return v; }
          fs := fs[i := v.value];
        }
        ghost var behind := pos;
        more := Comma('}');
        RestUnfold(s, buf, behind, depth, fs, seen);
      }
      if Peek() != '}' { return Refusal(Malformed, pos); }
      pos, depth := pos + 1, depth - 1;
      var f := Finish(s, fs, seen, pos);
      a := if f.Ok? then Given(f.value) else Refusal(f.word, f.at);
    }
  }

  /** The Python binding's reader, as far as its integers. */
  class PyReader {
    const buf: string
    var pos: nat

    constructor (b: string)
      ensures buf == b && pos == 0
    {
      buf, pos := b, 0;
    }

    /** Unbounded: the digits are counted before they are converted. */
    method Integer(low: int, high: int) returns (a: Answer<int>)
      requires pos <= |buf|
      modifies this`pos
      ensures match PyIntegerAt(buf, old(pos), low, high)
              case Ok(n, p) => a == Given(n) && pos == p
              case Refused(w, at) => a == Refusal(w, at)
    {
      var c := At(buf, pos);
      if c != '-' && !Digit(c) { return Refusal(WrongType, pos); }
      var negative := c == '-';
      if negative { pos := pos + 1; }
      if !Digit(At(buf, pos)) { return Refusal(Malformed, pos); }
      var start := pos;
      if At(buf, pos) == '0' {
        pos := pos + 1;
      } else {
        while Digit(At(buf, pos))
          invariant start <= pos <= |buf| && DigitsEnd(buf, pos) == DigitsEnd(buf, start)
          decreases |buf| - pos
        {
          pos := pos + 1;
        }
      }
      if Clings(At(buf, pos)) { return Refusal(NumberSpelling, pos); }
      if pos - start > I64_DIGITS { return Refusal(NumberSpelling, pos); }
      var n: int := Decimal.Value(buf[start..pos]);
      if negative {
        if n == 0 { return Refusal(NumberSpelling, pos); }
        n := -n;
      }
      if n < low || n > high { return Refusal(NumberSpelling, pos); }
      return Given(n);
    }
  }
}
