/** Integers on the wire: the printer `num` and two readers for one grammar. */
module Decimal {

  const MIN_I64 := -0x8000_0000_0000_0000
  const MAX_I64 := 0x7FFF_FFFF_FFFF_FFFF
  newtype int64 = n: int | MIN_I64 <= n <= MAX_I64
  newtype uint64 = n: int | 0 <= n < 0x1_0000_0000_0000_0000

  datatype Word = Malformed | BadString | NumberSpelling | WrongType | BadTimestamp | DepthExceeded
    | DuplicateField | UnknownField | MissingField | BadSchema | BadEnum | TrailingBytes

  /** What one step of a reader answers: a value and the next position, or a refusal where it was met. */
  datatype Parsed<+T> = Ok(value: T, pos: nat) | Refused(word: Word, at: nat)

  /** The byte at pos, or 0 past the end. */
  function At(buf: string, pos: nat): (c: char)
  {
    if pos < |buf| then buf[pos] else '\0'
  }

  predicate Digit(c: char) { '0' <= c <= '9' }

  function DigitChar(d: int): (c: char)
    requires 0 <= d < 10
    ensures Digit(c) && c as int == '0' as int + d
  {
    ('0' as int + d) as char
  }

  function DigitValue(c: char): (d: int)
    requires Digit(c)
    ensures 0 <= d < 10
  {
    c as int - '0' as int
  }

  /** The decimal digits of a number, none for 0. */
  function Digits(u: nat): (s: string)
    ensures forall k :: 0 <= k < |s| ==> Digit(s[k])
    ensures u == 0 <==> s == ""
    ensures u > 0 ==> s[0] != '0'
  {
    if u == 0 then "" else Digits(u / 10) + [DigitChar(u % 10)]
  }

  /** What `num` prints. */
  function Num(n: int): (s: string)
    ensures s != ""
  {
    if n == 0 then "0" else if n < 0 then "-" + Digits(-n) else Digits(n)
  }

  /** The number a run of digits spells. */
  function Value(s: string): (v: nat)
    requires forall k :: 0 <= k < |s| ==> Digit(s[k])
  {
    if s == "" then 0 else Value(s[..|s|-1]) * 10 + DigitValue(s[|s|-1])
  }

  predicate AllDigits(s: string) { forall k :: 0 <= k < |s| ==> Digit(s[k]) }

  lemma {:induction false} ValueOfDigits(u: nat)
    ensures Value(Digits(u)) == u
  {
    if u > 0 {
      ValueOfDigits(u / 10);
      var s := Digits(u);
      assert s[..|s|-1] == Digits(u / 10);
    }
  }

  lemma {:induction false} DigitsOfValue(s: string)
    requires AllDigits(s) && (s != "" ==> s[0] != '0')
    ensures Digits(Value(s)) == s
    ensures s != "" ==> Value(s) > 0
  {
    if s != "" {
      var t := s[..|s|-1];
      DigitsOfValue(t);
      assert DigitChar(DigitValue(s[|s|-1])) == s[|s|-1];
      assert s == t + [s[|s|-1]];
      if t == "" { assert s[|s|-1] == s[0]; }
      assert Value(s) / 10 == Value(t) && Value(s) % 10 == DigitValue(s[|s|-1]);
    }
  }

  /** Where the run of digits starting at p ends. */
  function DigitsEnd(buf: string, p: nat): (e: nat)
    requires p <= |buf|
    ensures p <= e <= |buf| && AllDigits(buf[p..e]) && !Digit(At(buf, e))
    decreases |buf| - p
  {
    if Digit(At(buf, p)) then
      var e := DigitsEnd(buf, p + 1);
      assert buf[p..e] == [buf[p]] + buf[p+1..e];
      e
    else p
  }

  lemma {:induction false} DigitsEndUnique(buf: string, p: nat, e: nat)
    requires p <= e <= |buf| && AllDigits(buf[p..e]) && !Digit(At(buf, e))
    ensures DigitsEnd(buf, p) == e
    decreases e - p
  {
    if p < e {
      assert buf[p] == buf[p..e][0];
      assert buf[p+1..e] == buf[p..e][1..];
      DigitsEndUnique(buf, p + 1, e);
    }
  }

  /** Past this the accumulator would leave uint64 on the next digit. */
  const GUARD := 922337203685477580

  datatype Scanned = Scanned(u: nat, pos: nat) | Overflow(at: nat)

  /** The reader's digit loop: u is what has been gathered so far. */
  function Scan(buf: string, p: nat, u: nat): (r: Scanned)
    requires p <= |buf|
    ensures r.Scanned? ==> r.pos <= |buf|
    decreases |buf| - p
  {
    if !Digit(At(buf, p)) then Scanned(u, p)
    else if u > GUARD then Overflow(p)
    else Scan(buf, p + 1, u * 10 + DigitValue(buf[p]))
  }

  /** The characters that may not follow a number. */
  predicate Clings(c: char) { c == '.' || c == 'e' || c == 'E' || Digit(c) }

  /** `integer`: an int64 in [min, max], or the word it is refused with. */
  function IntegerAt(buf: string, pos: nat, min: int, max: int): (r: Parsed<int>)
    requires pos <= |buf| && MIN_I64 <= min && max <= MAX_I64
    ensures r.Ok? ==> pos < r.pos <= |buf|
  {
    var c := At(buf, pos);
    if c != '-' && !Digit(c) then Refused(WrongType, pos)
    else
      var neg := c == '-';
      var p := if neg then pos + 1 else pos;
      if !Digit(At(buf, p)) then Refused(Malformed, p)
      else
        var s := if buf[p] == '0' then Scanned(0, p + 1) else Scan(buf, p, 0);
        if s.Overflow? then Refused(NumberSpelling, s.at)
        else if Clings(At(buf, s.pos)) || (neg && s.u == 0) then Refused(NumberSpelling, s.pos)
        else
          var v: int := s.u;
          var n := if neg then -v else v;
          if n < min || n > max then Refused(NumberSpelling, s.pos) else
            SignedMoves(buf, p);
            Ok(n, s.pos)
  }

  lemma SignedMoves(buf: string, p: nat)
    requires p < |buf| && Digit(buf[p])
    ensures Scan(buf, p, 0).Scanned? ==> Scan(buf, p, 0).pos > p
  {
    ScanIs(buf, p + 1, DigitValue(buf[p]), p);
  }

  lemma ValueSnoc(buf: string, start: nat, p: nat)
    requires start <= p < |buf| && AllDigits(buf[start..p]) && Digit(buf[p])
    ensures AllDigits(buf[start..p+1]) && Value(buf[start..p+1]) == Value(buf[start..p]) * 10 + DigitValue(buf[p])
  {
    var s := buf[start..p+1];
    assert s == buf[start..p] + [buf[p]];
    assert s[..|s|-1] == buf[start..p];
  }

  lemma {:induction false} ValueGrows(s: string, k: nat)
    requires AllDigits(s) && k <= |s|
    ensures Value(s) >= Value(s[..k])
    decreases |s|
  {
    if k == |s| {
      assert s[..k] == s;
    } else {
      ValueGrows(s[..|s|-1], k);
      assert s[..|s|-1][..k] == s[..k];
    }
  }

  /** The loop gathers the whole run, and gives up only on a run above every int64. */
  lemma {:induction false} ScanIs(buf: string, p: nat, u: nat, start: nat)
    requires start <= p <= |buf| && AllDigits(buf[start..p]) && u == Value(buf[start..p])
    ensures Scan(buf, p, u).Scanned? ==> Scan(buf, p, u) == Scanned(Value(buf[start..DigitsEnd(buf, start)]), DigitsEnd(buf, start)) && DigitsEnd(buf, start) >= p
    ensures Scan(buf, p, u).Overflow? ==> Value(buf[start..DigitsEnd(buf, start)]) > MAX_I64 + 1
    decreases |buf| - p
  {
    if !Digit(At(buf, p)) {
      DigitsEndUnique(buf, start, p);
    } else {
      ValueSnoc(buf, start, p);
      if u > GUARD {
        var e := DigitsEnd(buf, p);
        assert buf[start..e] == buf[start..p] + buf[p..e];
        DigitsEndUnique(buf, start, e);
        assert e > p;
        ValueGrows(buf[start..e], p + 1 - start);
        assert buf[start..e][..p+1-start] == buf[start..p+1];
      } else {
        ScanIs(buf, p + 1, u * 10 + DigitValue(buf[p]), start);
      }
    }
  }

  /** The unsigned part: a lone zero, or a run without a leading zero read whole. */
  lemma MagnitudeRead(buf: string, p: nat)
    requires p < |buf| && Digit(buf[p])
    ensures var s := if buf[p] == '0' then Scanned(0, p + 1) else Scan(buf, p, 0);
            s.Scanned? ==> (
              && p < s.pos <= |buf| && AllDigits(buf[p..s.pos]) && Value(buf[p..s.pos]) == s.u
              && (if s.u == 0 then buf[p..s.pos] == "0" else buf[p..s.pos] == Digits(s.u)))
  {
    if buf[p] == '0' {
      assert buf[p..p+1] == "0";
      assert Value("0") == 0 by { assert "0"[..0] == ""; }
    } else {
      ScanIs(buf, p, 0, p);
      var e := DigitsEnd(buf, p);
      assert buf[p..e][0] == buf[p];
      DigitsOfValue(buf[p..e]);
    }
  }

  /** The printed magnitude is read back, wherever it stands, if no digit clings to it. */
  lemma MagnitudePrinted(buf: string, p: nat, e: nat, u: nat)
    requires p < e <= |buf| && 0 < u <= MAX_I64 + 1 && buf[p..e] == Digits(u) && !Digit(At(buf, e))
    ensures Digit(buf[p]) && buf[p] != '0' && Scan(buf, p, 0) == Scanned(u, e)
  {
    assert buf[p] == Digits(u)[0];
    DigitsEndUnique(buf, p, e);
    ValueOfDigits(u);
    ScanIs(buf, p, 0, p);
  }

  /** `integer` accepts exactly the canonical decimals in [min, max] with nothing clinging to
      them, and answers the number they spell: it is the inverse of `num`. */
  lemma IntegerExactly(buf: string, pos: nat, min: int, max: int, n: int, p: nat)
    requires pos <= |buf| && MIN_I64 <= min && max <= MAX_I64
    ensures IntegerAt(buf, pos, min, max) == Ok(n, p) <==>
            pos <= p <= |buf| && buf[pos..p] == Num(n) && min <= n <= max && !Clings(At(buf, p))
  {
    if pos <= p <= |buf| && buf[pos..p] == Num(n) && min <= n <= max && !Clings(At(buf, p)) {
      IntegerOfPrinted(buf, pos, min, max, n, p);
    }
    if IntegerAt(buf, pos, min, max) == Ok(n, p) {
      IntegerIsPrinted(buf, pos, min, max, n, p);
    }
  }

  lemma IntegerOfPrinted(buf: string, pos: nat, min: int, max: int, n: int, p: nat)
    requires MIN_I64 <= min <= n <= max <= MAX_I64
    requires pos <= p <= |buf| && buf[pos..p] == Num(n) && !Clings(At(buf, p))
    ensures IntegerAt(buf, pos, min, max) == Ok(n, p)
  {
    hide Scan, Value;
    assert buf[pos] == Num(n)[0];
    if n < 0 {
      assert buf[pos+1..p] == Num(n)[1..] == Digits(-n);
      MagnitudePrinted(buf, pos + 1, p, -n);
    } else if n > 0 {
      MagnitudePrinted(buf, pos, p, n);
    } else {
      assert p == pos + 1;
    }
  }

  lemma IntegerIsPrinted(buf: string, pos: nat, min: int, max: int, n: int, p: nat)
    requires pos <= |buf| && MIN_I64 <= min && max <= MAX_I64
    requires IntegerAt(buf, pos, min, max) == Ok(n, p)
    ensures pos <= p <= |buf| && buf[pos..p] == Num(n) && min <= n <= max && !Clings(At(buf, p))
  {
    hide Scan, Value, Digits;
    var start := if buf[pos] == '-' then pos + 1 else pos;
    MagnitudeRead(buf, start);
    if buf[pos] == '-' { assert buf[pos..p] == "-" + buf[pos+1..p]; }
  }

  const I64_DIGITS := 19

  /** The second reader of the same grammar (the Python binding): walk the digits first, then
      count them, and only then convert, with unbounded integers. */
  function PyIntegerAt(buf: string, pos: nat, low: int, high: int): (r: Parsed<int>)
    requires pos <= |buf|
  {
    var c := At(buf, pos);
    if c != '-' && !Digit(c) then Refused(WrongType, pos)
    else
      var start := if c == '-' then pos + 1 else pos;
      if !Digit(At(buf, start)) then Refused(Malformed, start)
      else
        var e := if buf[start] == '0' then start + 1 else DigitsEnd(buf, start);
        PyJudged(buf, start, e, c == '-', low, high)
  }

  function PyJudged(buf: string, start: nat, e: nat, negative: bool, low: int, high: int): (r: Parsed<int>)
    requires start <= e <= |buf| && AllDigits(buf[start..e])
  {
    if Clings(At(buf, e)) || e - start > I64_DIGITS then Refused(NumberSpelling, e)
    else
      var v: int := Value(buf[start..e]);
      if negative && v == 0 then Refused(NumberSpelling, e)
      else
        var n := if negative then -v else v;
        if n < low || n > high then Refused(NumberSpelling, e) else Ok(n, e)
  }

  function Pow10(k: nat): (r: nat)
    ensures r > 0
  {
    if k == 0 then 1 else 10 * Pow10(k - 1)
  }

  /** A run of k digits without a leading zero is at least ten to the k-1. */
  lemma {:induction false} LongIsLarge(s: string)
    requires s != "" && AllDigits(s) && s[0] != '0'
    ensures Value(s) >= Pow10(|s| - 1)
  {
    if |s| > 1 {
      LongIsLarge(s[..|s|-1]);
    } else {
      assert s[..0] == "";
    }
  }

  lemma {:induction false} Pow10Monotone(a: nat, b: nat)
    requires a <= b
    ensures Pow10(a) <= Pow10(b)
  {
    if a < b { Pow10Monotone(a, b - 1); }
  }

  lemma {:induction false} ValueBelow(s: string)
    requires AllDigits(s)
    ensures Value(s) < Pow10(|s|)
  {
    if s != "" { ValueBelow(s[..|s|-1]); }
  }

  lemma TwentyDigitsAreTooLarge(s: string)
    requires |s| > I64_DIGITS && AllDigits(s) && s[0] != '0'
    ensures Value(s) > MAX_I64 + 1
  {
    LongIsLarge(s);
    Pow10Monotone(19, |s| - 1);
    assert Pow10(10) == 10000000000 by { assert Pow10(5) == 100000; }
    assert Pow10(15) == 1000000000000000;
    assert Pow10(19) == 10000000000000000000;
  }

  /** The two readers accept the same texts with the same value and refuse with the same word;
      only the offset of an overflow differs. */
  lemma ReadersAgree(buf: string, pos: nat, min: int, max: int)
    requires pos <= |buf| && MIN_I64 <= min && max <= MAX_I64
    ensures IntegerAt(buf, pos, min, max).Ok? || PyIntegerAt(buf, pos, min, max).Ok? ==>
              IntegerAt(buf, pos, min, max) == PyIntegerAt(buf, pos, min, max)
    ensures IntegerAt(buf, pos, min, max).Refused? ==>
              PyIntegerAt(buf, pos, min, max).Refused? &&
              IntegerAt(buf, pos, min, max).word == PyIntegerAt(buf, pos, min, max).word
  {
    var p := if At(buf, pos) == '-' then pos + 1 else pos;
    if Digit(At(buf, p)) && buf[p] != '0' {
      var e := DigitsEnd(buf, p);
      ScanIs(buf, p, 0, p);
      SignedMoves(buf, p);
      assert e > p;
      assert buf[p..e][0] == buf[p];
      if e - p > I64_DIGITS { TwentyDigitsAreTooLarge(buf[p..e]); }
    } else if Digit(At(buf, p)) {
      assert buf[p..p+1] == "0" && "0"[..0] == "";
      assert Value("0") == 0;
    }
  }

  /** `num`: digits are written from the end of a fixed buffer, the sign last. */
  method AppendNum(out: string, n: int64) returns (r: string)
    ensures r == out + Num(n as int)
  {
    if n == 0 { return out + "0"; }
    var d := new char[24];
    var p := 24;
    var u: uint64 := if n < 0 then (-(n as int)) as uint64 else n as uint64;
    ghost var whole := u as nat;
    TenToTwentyFour();
    while u > 0
      invariant 0 <= p <= 24
      invariant (u as nat) < Pow10(p)
      invariant Digits(whole) == Digits(u as nat) + d[p..]
    {
      p := p - 1;
      DigitsStep(whole, u as nat, d[p+1..]);
      d[p] := DigitChar((u % 10) as int);
      assert d[p..] == [d[p]] + d[p+1..];
      u := u / 10;
    }
    r := if n < 0 then out + "-" else out;
    r := r + d[p..];
  }

  /** One digit moves from the number still to be written to the text written so far. */
  lemma DigitsStep(whole: nat, u: nat, written: string)
    requires u > 0 && Digits(whole) == Digits(u) + written
    ensures Digits(whole) == Digits(u / 10) + ([DigitChar(u % 10)] + written)
  {
    assert Digits(u) + written == Digits(u / 10) + ([DigitChar(u % 10)] + written);
  }

  lemma TenToTwentyFour()
    ensures Pow10(24) == 1000000000000000000000000
  {
    assert Pow10(10) == 10000000000 by { assert Pow10(5) == 100000; }
    assert Pow10(15) == 1000000000000000;
    assert Pow10(20) == 100000000000000000000;
  }
}
