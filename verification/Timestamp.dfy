/** Timestamps: what a reader accepts (section 5.6 of RFC 3339, no leap second) and the one
    spelling a writer emits, six fractional digits in UTC. */
module Timestamp {
  import opened Decimal

  // ---- the calendar, as a reference for the carry below ----

  predicate Leap(y: int) { y % 4 == 0 && (y % 100 != 0 || y % 400 == 0) }

  function DaysIn(y: int, m: int): (n: int)
    ensures 28 <= n <= 31
  {
    if m == 2 then (if Leap(y) then 29 else 28)
    else if m == 4 || m == 6 || m == 9 || m == 11 then 30
    else 31
  }

  function YearDays(y: int): int { if Leap(y) then 366 else 365 }

  /** Days from the start of year 0 to the start of year y. */
  function YearStart(y: int): int
    requires y >= -1
    decreases y + 1
  {
    if y == -1 then -365 else if y == 0 then 0 else YearStart(y - 1) + YearDays(y - 1)
  }

  /** Days from the start of year y to the start of its month m. */
  function MonthStart(y: int, m: int): int
    requires 1 <= m <= 13
    decreases m
  {
    if m == 1 then 0 else MonthStart(y, m - 1) + DaysIn(y, m - 1)
  }

  predicate Date(y: int, m: int, d: int) { 1 <= m <= 12 && 1 <= d <= DaysIn(y, m) }

  function DayNumber(y: int, m: int, d: int): int
    requires y >= -1 && 1 <= m <= 12
  {
    YearStart(y) + MonthStart(y, m) + d - 1
  }

  lemma MonthsFillYear(y: int)
    ensures MonthStart(y, 13) == YearDays(y)
  {
    assert MonthStart(y, 4) == 31 + DaysIn(y, 2) + 31;
    assert MonthStart(y, 8) == MonthStart(y, 4) + 122;
    assert MonthStart(y, 13) == MonthStart(y, 8) + 153;
  }

  lemma {:induction false} MonthStartMonotone(y: int, a: int, b: int)
    requires 1 <= a <= b <= 13
    ensures MonthStart(y, a) + 28 * (b - a) <= MonthStart(y, b)
    decreases b
  {
    if a < b { MonthStartMonotone(y, a, b - 1); }
  }

  lemma {:induction false} YearStartMonotone(a: int, b: int)
    requires -1 <= a <= b
    ensures YearStart(a) <= YearStart(b)
    decreases b
  {
    if a < b { YearStartMonotone(a, b - 1); }
  }

  lemma YearStep(y: int)
    requires y >= -1
    ensures YearStart(y + 1) == YearStart(y) + YearDays(y)
  {
    if y == -1 { assert !Leap(-1); }
  }

  lemma WithinYear(y: int, m: int, d: int)
    requires y >= -1 && Date(y, m, d)
    ensures YearStart(y) <= DayNumber(y, m, d) < YearStart(y + 1)
  {
    MonthsFillYear(y);
    MonthStartMonotone(y, 1, m);
    MonthStartMonotone(y, m + 1, 13);
    YearStep(y);
  }

  lemma YearOfDay(y: int, m: int, d: int, y': int, m': int, d': int)
    requires y >= -1 && y' >= -1 && Date(y, m, d) && Date(y', m', d')
    requires DayNumber(y, m, d) == DayNumber(y', m', d')
    ensures y >= y'
  {
    WithinYear(y, m, d);
    WithinYear(y', m', d');
    if y < y' { YearStartMonotone(y + 1, y'); }
  }

  lemma MonthOfDay(y: int, m: int, d: int, m': int, d': int)
    requires Date(y, m, d) && Date(y, m', d')
    requires MonthStart(y, m) + d == MonthStart(y, m') + d'
    ensures m >= m'
  {
    if m < m' {
      MonthStartMonotone(y, m + 1, m');
    }
  }

  /** Two dates with one day number are one date. */
  lemma DayNumberInjective(y: int, m: int, d: int, y': int, m': int, d': int)
    requires y >= -1 && y' >= -1 && Date(y, m, d) && Date(y', m', d')
    requires DayNumber(y, m, d) == DayNumber(y', m', d')
    ensures y == y' && m == m' && d == d'
  {
    YearOfDay(y, m, d, y', m', d');
    YearOfDay(y', m', d', y, m, d);
    MonthOfDay(y, m, d, m', d');
    MonthOfDay(y, m', d', m, d);
  }

  // ---- the carry ----

  datatype Carry = Carry(y: int, m: int, d: int, total: int)

  /** The minutes of the day leave 0..1439 by less than a day; the date follows. */
  function Carried(y: int, m: int, d: int, total: int): (c: Carry)
    requires Date(y, m, d)
  {
    var (t1, d1) := if total < 0 then (total + 1440, d - 1)
                    else if total >= 1440 then (total - 1440, d + 1) else (total, d);
    var (y2, m2, d2) := if d1 == 0
                        then (if m == 1 then (y - 1, 12, DaysIn(y - 1, 12)) else (y, m - 1, DaysIn(y, m - 1)))
                        else (y, m, d1);
    if d2 > DaysIn(y2, m2)
    then (if m2 == 12 then Carry(y2 + 1, 1, 1, t1) else Carry(y2, m2 + 1, 1, t1))
    else Carry(y2, m2, d2, t1)
  }

  /** Stepping back from the first of a month lands on the last day of the month before. */
  lemma DayBefore(y: int, m: int)
    requires y >= 0 && 1 <= m <= 12
    ensures m == 1 ==> DayNumber(y - 1, 12, DaysIn(y - 1, 12)) == DayNumber(y, 1, 1) - 1
    ensures m > 1 ==> DayNumber(y, m - 1, DaysIn(y, m - 1)) == DayNumber(y, m, 1) - 1
  {
    if m == 1 {
      MonthsFillYear(y - 1);
      YearStep(y - 1);
      assert MonthStart(y - 1, 13) == MonthStart(y - 1, 12) + DaysIn(y - 1, 12);
    } else {
      assert MonthStart(y, m) == MonthStart(y, m - 1) + DaysIn(y, m - 1);
    }
  }

  /** Stepping past the last day of a month lands on the first of the next. */
  lemma DayAfter(y: int, m: int)
    requires y >= 0 && 1 <= m <= 12
    ensures m == 12 ==> DayNumber(y + 1, 1, 1) == DayNumber(y, m, DaysIn(y, m)) + 1
    ensures m < 12 ==> DayNumber(y, m + 1, 1) == DayNumber(y, m, DaysIn(y, m)) + 1
  {
    if m == 12 { DayBefore(y + 1, 1); } else { DayBefore(y, m + 1); }
  }

  lemma DayStep(y: int, m: int, d: int)
    requires y >= 0 && 1 <= m <= 12
    ensures DayNumber(y, m, d + 1) == DayNumber(y, m, d) + 1
  {
  }

  /** The carry preserves the instant, over the ends of days, months, leap Februaries and years. */
  lemma CarriedPreserves(y: int, m: int, d: int, total: int)
    requires 0 <= y <= 9999 && Date(y, m, d) && -1440 < total < 2880
    ensures var c := Carried(y, m, d, total);
            && -1 <= c.y <= 10000 && Date(c.y, c.m, c.d) && 0 <= c.total < 1440
            && DayNumber(c.y, c.m, c.d) * 1440 + c.total == DayNumber(y, m, d) * 1440 + total
  {
    hide DayNumber, DaysIn;
    var c := Carried(y, m, d, total);
    if total < 0 {
      DayBefore(y, m);
      DayStep(y, m, d - 1);
    } else if total >= 1440 {
      DayAfter(y, m);
      DayStep(y, m, d);
    }
  }

  // ---- the grammar ----

  predicate DigitsAt(s: string, i: nat, n: nat) {
    i + n <= |s| && AllDigits(s[i..i+n])
  }

  predicate DatePart(s: string) {
    && |s| >= 19 && DigitsAt(s, 0, 4) && s[4] == '-' && DigitsAt(s, 5, 2) && s[7] == '-' && DigitsAt(s, 8, 2)
    && DigitsAt(s, 11, 2) && s[13] == ':' && DigitsAt(s, 14, 2) && s[16] == ':' && DigitsAt(s, 17, 2)
  }

  /** Where the zone designator stands once the fraction, if any, has been walked. */
  function ZoneAt(s: string): (i: nat)
    requires |s| >= 19
    ensures 19 <= i <= |s|
  {
    if At(s, 19) == '.' then DigitsEnd(s, 20) else 19
  }

  predicate ZonePart(z: string) {
    || z == "Z" || z == "z"
    || (|z| == 6 && (z[0] == '+' || z[0] == '-') && DigitsAt(z, 1, 2) && z[3] == ':' && DigitsAt(z, 4, 2))
  }

  /** `lexicalTimestamp`, as a scan: the date and time, at most nine digits behind a point, then the zone,
      which ends the text. T and Z may be lower case. */
  predicate Lexical(s: string) {
    && DatePart(s) && (s[10] == 'T' || s[10] == 't')
    && (s[19..ZoneAt(s)] == "" || 2 <= ZoneAt(s) - 19 <= 10)
    && ZonePart(s[ZoneAt(s)..])
  }

  predicate FractionPart(f: string) {
    f == "" || (2 <= |f| <= 10 && f[0] == '.' && AllDigits(f[1..]))
  }

  /** The grammar on its own: date-time, optional fraction, zone (section 5.6 of RFC 3339). */
  ghost predicate Rfc3339(s: string) {
    exists i :: 19 <= i <= |s| && DatePart(s[..19]) && (s[10] == 'T' || s[10] == 't')
      && FractionPart(s[19..i]) && ZonePart(s[i..])
  }

  lemma DatePartPrefix(s: string)
    requires |s| >= 19
    ensures DatePart(s) == DatePart(s[..19])
  {
    var t := s[..19];
    assert t[0..4] == s[0..4] && t[5..7] == s[5..7] && t[8..10] == s[8..10];
    assert t[11..13] == s[11..13] && t[14..16] == s[14..16] && t[17..19] == s[17..19];
  }

  /** The scan accepts exactly the grammar: the split it looks for is the only one. */
  lemma LexicalExactly(s: string)
    ensures Lexical(s) <==> Rfc3339(s)
  {
    if Lexical(s) {
      DatePartPrefix(s);
      var i := ZoneAt(s);
      if i > 19 { assert s[19..i][1..] == s[20..i]; }
      assert FractionPart(s[19..i]) && ZonePart(s[i..]);
    }
    if Rfc3339(s) {
      var i :| 19 <= i <= |s| && DatePart(s[..19]) && (s[10] == 'T' || s[10] == 't')
        && FractionPart(s[19..i]) && ZonePart(s[i..]);
      DatePartPrefix(s);
      assert s[i..][0] == s[i];
      if i > 19 {
        assert s[19] == s[19..i][0];
        assert s[19..i][1..] == s[20..i];
        DigitsEndUnique(s, 20, i);
      }
    }
  }

  function NumberAt(s: string, i: nat, n: nat): (v: nat)
    requires DigitsAt(s, i, n)
    ensures v < Pow10(n)
  {
    ValueBelow(s[i..i+n]);
    Value(s[i..i+n])
  }

  datatype Fields = Fields(y: int, m: int, d: int, h: int, minute: int, sec: int, fraction: string, offset: int)

  /** What the text says, ranges not yet judged. The offset is in minutes, east positive. */
  function Read(s: string): (f: Fields)
    requires Lexical(s)
    ensures f.y <= 9999 && f.sec <= 99
    ensures f.y >= 0 && f.h >= 0 && f.minute >= 0 && f.sec >= 0 && |f.fraction| <= 9 && AllDigits(f.fraction)
  {
    var i := ZoneAt(s);
    var z := s[i..];
    assert Pow10(4) == 10000 && Pow10(2) == 100;
    Fields(NumberAt(s, 0, 4), NumberAt(s, 5, 2), NumberAt(s, 8, 2),
           NumberAt(s, 11, 2), NumberAt(s, 14, 2), NumberAt(s, 17, 2),
           if i == 19 then "" else s[20..i],
           Offset(z))
  }

  function Offset(z: string): int
    requires ZonePart(z)
  {
    if |z| == 1 then 0
    else
      var east: int := NumberAt(z, 1, 2) * 60 + NumberAt(z, 4, 2);
      if z[0] == '+' then east else -east
  }

  predicate OffsetInRange(z: string)
    requires ZonePart(z)
  {
    |z| == 1 || (NumberAt(z, 1, 2) <= 23 && NumberAt(z, 4, 2) <= 59)
  }

  predicate InRange(s: string)
    requires Lexical(s)
  {
    var f := Read(s);
    && Date(f.y, f.m, f.d) && f.h <= 23 && f.minute <= 59 && f.sec <= 59 && OffsetInRange(s[ZoneAt(s)..])
  }

  function Fixed(width: nat, v: nat): (s: string)
    ensures |s| == width && AllDigits(s)
  {
    if width == 0 then "" else Fixed(width - 1, v / 10) + [DigitChar(v % 10)]
  }

  /** The first six digits of a fraction, filled up with zeros. */
  function Micros(fraction: string): (s: string)
    requires AllDigits(fraction)
    ensures |s| == 6 && AllDigits(s)
  {
    if |fraction| >= 6 then fraction[..6] else fraction + Zeros(6 - |fraction|)
  }

  function Zeros(n: nat): (s: string)
    ensures |s| == n && AllDigits(s)
  {
    if n == 0 then "" else "0" + Zeros(n - 1)
  }

  function Stamp(c: Carry, sec: nat, fraction: string): (s: string)
    requires c.y >= 0 && c.m >= 0 && c.d >= 0 && c.total >= 0 && AllDigits(fraction)
    ensures |s| == 27
  {
    Fixed(4, c.y) + "-" + Fixed(2, c.m) + "-" + Fixed(2, c.d) + "T" + Fixed(2, c.total / 60) + ":"
    + Fixed(2, c.total % 60) + ":" + Fixed(2, sec) + "." + Micros(fraction) + "Z"
  }

  /** `normalizedTimestamp`: the canonical spelling, or nothing. */
  function Normalized(s: string): (t: string)
    ensures t != "" ==> |t| == 27
  {
    if !Lexical(s) || !InRange(s) then ""
    else
      var f := Read(s);
      assert -1440 < f.h * 60 + f.minute - f.offset < 2880;
      CarriedPreserves(f.y, f.m, f.d, f.h * 60 + f.minute - f.offset);
      var c := Carried(f.y, f.m, f.d, f.h * 60 + f.minute - f.offset);
      if c.y < 0 || c.y > 9999 then "" else Stamp(c, f.sec, f.fraction)
  }

  // ---- what normalisation keeps ----

  lemma {:induction false} ValueOfFixed(width: nat, v: nat)
    requires v < Pow10(width)
    ensures Value(Fixed(width, v)) == v
  {
    if width > 0 {
      ValueOfFixed(width - 1, v / 10);
      var t := Fixed(width, v);
      assert t[..|t|-1] == Fixed(width - 1, v / 10);
    }
  }

  /** A text laid out like a stamp, part by part. */
  lemma Layout(t: string, y: string, m: string, d: string, h: string, n: string, x: string, f: string)
    requires |y| == 4 && |m| == 2 && |d| == 2 && |h| == 2 && |n| == 2 && |x| == 2 && |f| == 6
    requires AllDigits(y) && AllDigits(m) && AllDigits(d) && AllDigits(h) && AllDigits(n) && AllDigits(x) && AllDigits(f)
    requires t == y + "-" + m + "-" + d + "T" + h + ":" + n + ":" + x + "." + f + "Z"
    ensures t[0..4] == y && t[5..7] == m && t[8..10] == d && t[11..13] == h && t[14..16] == n && t[17..19] == x
    ensures DatePart(t) && t[10] == 'T' && ZoneAt(t) == 26 && t[20..26] == f && t[26..] == "Z"
  {
    assert t[20..26] == f && t[26] == 'Z' && t[19] == '.';
    DigitsEndUnique(t, 20, 26);
  }

  /** A stamp is read back as what was stamped. */
  lemma StampRead(c: Carry, sec: nat, fraction: string)
    requires 0 <= c.y <= 9999 && Date(c.y, c.m, c.d) && 0 <= c.total < 1440 && sec <= 59 && AllDigits(fraction)
    ensures var t := Stamp(c, sec, fraction);
            Lexical(t) && Read(t) == Fields(c.y, c.m, c.d, c.total / 60, c.total % 60, sec, Micros(fraction), 0)
              && InRange(t) && t[26] == 'Z'
  {
    var t := Stamp(c, sec, fraction);
    Layout(t, Fixed(4, c.y), Fixed(2, c.m), Fixed(2, c.d), Fixed(2, c.total / 60), Fixed(2, c.total % 60),
           Fixed(2, sec), Micros(fraction));
    assert Pow10(4) == 10000 && Pow10(2) == 100;
    ValueOfFixed(4, c.y);
    ValueOfFixed(2, c.m);
    ValueOfFixed(2, c.d);
    ValueOfFixed(2, c.total / 60);
    ValueOfFixed(2, c.total % 60);
    ValueOfFixed(2, sec);
  }

  /** The text is an instant: grammar and ranges both hold. */
  predicate Instant(s: string) { Lexical(s) && InRange(s) }

  /** Minutes since the start of year 0, in UTC. */
  function Minutes(s: string): int
    requires Instant(s)
  {
    var f := Read(s);
    DayNumber(f.y, f.m, f.d) * 1440 + f.h * 60 + f.minute - f.offset
  }

  /** The first minute after year 9999. */
  function EndOfTime(): int { YearStart(10000) * 1440 }

  lemma YearFromMinutes(c: Carry)
    requires -1 <= c.y <= 10000 && Date(c.y, c.m, c.d) && 0 <= c.total < 1440
    ensures 0 <= c.y <= 9999 <==> 0 <= DayNumber(c.y, c.m, c.d) * 1440 + c.total < EndOfTime()
  {
    WithinYear(c.y, c.m, c.d);
    if c.y == -1 {
      assert YearStart(0) == 0;
    } else if c.y <= 9999 {
      YearStartMonotone(0, c.y);
      YearStartMonotone(c.y + 1, 10000);
    }
  }

  /** A result is refused exactly when the text is not an instant of the UTC years 0 to 9999. */
  lemma RefusedExactly(s: string)
    ensures Normalized(s) != "" <==> Instant(s) && 0 <= Minutes(s) < EndOfTime()
  {
    if Instant(s) {
      var f := Read(s);
      CarriedPreserves(f.y, f.m, f.d, f.h * 60 + f.minute - f.offset);
      YearFromMinutes(Carried(f.y, f.m, f.d, f.h * 60 + f.minute - f.offset));
    }
  }

  /** The result denotes the same instant, cut to microseconds, in the writer's spelling. */
  lemma NormalizedPreserves(s: string)
    requires Normalized(s) != ""
    ensures Instant(s) && Instant(Normalized(s)) && |Normalized(s)| == 27
    ensures Minutes(Normalized(s)) == Minutes(s)
    ensures Read(Normalized(s)).sec == Read(s).sec && Read(Normalized(s)).fraction == Micros(Read(s).fraction)
    ensures Read(Normalized(s)).offset == 0 && Normalized(s)[26] == 'Z'
  {
    hide Carried, DayNumber, Stamp, Lexical, Micros, InRange, Normalized, OffsetInRange;
    NormalizedIs(s);
    StampRead(Landed(s), Read(s).sec, Read(s).fraction);
  }

  /** The UTC date and minute a text lands on. */
  function Landed(s: string): Carry
    requires Instant(s)
  {
    var f := Read(s);
    Carried(f.y, f.m, f.d, f.h * 60 + f.minute - f.offset)
  }

  lemma NormalizedIs(s: string)
    requires Normalized(s) != ""
    ensures Instant(s) && var c := Landed(s);
      && 0 <= c.y <= 9999 && Date(c.y, c.m, c.d) && 0 <= c.total < 1440 && Read(s).sec <= 59
      && Normalized(s) == Stamp(c, Read(s).sec, Read(s).fraction)
      && DayNumber(c.y, c.m, c.d) * 1440 + c.total == Minutes(s)
  {
    hide Carried, DayNumber, Stamp, Lexical, Micros;
    var f := Read(s);
    CarriedPreserves(f.y, f.m, f.d, f.h * 60 + f.minute - f.offset);
  }

  lemma SameDay(a: int, ta: int, b: int, tb: int)
    requires 0 <= ta < 1440 && 0 <= tb < 1440 && a * 1440 + ta == b * 1440 + tb
    ensures a == b && ta == tb
  {
  }

  lemma StampDependsOn(c: Carry, sec: nat, f: string, g: string)
    requires c.y >= 0 && c.m >= 0 && c.d >= 0 && c.total >= 0 && AllDigits(f) && AllDigits(g) && Micros(f) == Micros(g)
    ensures Stamp(c, sec, f) == Stamp(c, sec, g)
  {
  }

  /** Two instants that agree to the microsecond have one normal form. */
  lemma NormalizedCanonical(s: string, t: string)
    requires Normalized(s) != "" && Normalized(t) != "" && Minutes(s) == Minutes(t)
    requires Read(s).sec == Read(t).sec && Micros(Read(s).fraction) == Micros(Read(t).fraction)
    ensures Normalized(s) == Normalized(t)
  {
    hide Carried, DayNumber, Lexical, InRange, Stamp, Micros, Normalized, Minutes, Read, Landed, DaysIn;
    NormalizedIs(s);
    NormalizedIs(t);
    var c, e := Landed(s), Landed(t);
    SameDay(DayNumber(c.y, c.m, c.d), c.total, DayNumber(e.y, e.m, e.d), e.total);
    DayNumberInjective(c.y, c.m, c.d, e.y, e.m, e.d);
    StampDependsOn(c, Read(s).sec, Read(s).fraction, Read(t).fraction);
  }

  /** Normalising again changes nothing: what a writer emits is what a reader would re-emit. */
  lemma NormalizedFixpoint(s: string)
    requires Normalized(s) != ""
    ensures Normalized(Normalized(s)) == Normalized(s)
  {
    NormalizedPreserves(s);
    RefusedExactly(s);
    RefusedExactly(Normalized(s));
    var f := Read(s).fraction;
    assert Micros(Micros(f)) == Micros(f);
    NormalizedCanonical(Normalized(s), s);
  }

  predicate Ascii(s: string) { forall k :: 0 <= k < |s| ==> s[k] as int < 0x80 }

  lemma DigitsAreAscii(s: string)
    requires AllDigits(s)
    ensures Ascii(s)
  {
    forall k | 0 <= k < |s| ensures s[k] as int < 0x80 { assert Digit(s[k]); }
  }

  lemma NormalizedAscii(s: string)
    ensures Ascii(Normalized(s))
  {
    if Normalized(s) != "" {
      var f := Read(s);
      CarriedPreserves(f.y, f.m, f.d, f.h * 60 + f.minute - f.offset);
      StampAscii(Carried(f.y, f.m, f.d, f.h * 60 + f.minute - f.offset), f.sec, f.fraction);
    }
  }

  lemma StampAscii(c: Carry, sec: nat, fraction: string)
    requires c.y >= 0 && c.m >= 0 && c.d >= 0 && c.total >= 0 && AllDigits(fraction)
    ensures Ascii(Stamp(c, sec, fraction))
  {
    DigitsAreAscii(Fixed(4, c.y));
    DigitsAreAscii(Fixed(2, c.m));
    DigitsAreAscii(Fixed(2, c.d));
    DigitsAreAscii(Fixed(2, c.total / 60));
    DigitsAreAscii(Fixed(2, c.total % 60));
    DigitsAreAscii(Fixed(2, sec));
    DigitsAreAscii(Micros(fraction));
    assert Ascii("-") && Ascii("T") && Ascii(":") && Ascii(".") && Ascii("Z");
  }

  const MIDNIGHT := "0000-01-01T00:00:00Z"

  lemma MidnightParts()
    ensures var s := MIDNIGHT;
      s[0..4] == "0000" && s[5..7] == "01" && s[8..10] == "01" && s[11..13] == "00" && s[14..16] == "00" && s[17..19] == "00" && s[19..] == "Z"
  {
  }

  lemma MidnightNumbers()
    ensures Value("0000") == 0 && Value("01") == 1 && Value("00") == 0
  {
    assert "0000"[..3] == "000" && "000"[..2] == "00" && "00"[..1] == "0" && "01"[..1] == "0" && "0"[..0] == "";
    assert Value("0") == 0 && Value("00") == 0 && Value("000") == 0;
  }

  /** The first instant of the range is one that can be written. */
  lemma MidnightIsAnInstant()
    ensures Normalized(MIDNIGHT) != ""
  {
    hide Stamp, Value;
    MidnightParts();
    MidnightNumbers();
    var s := MIDNIGHT;
    assert ZoneAt(s) == 19;
    assert Lexical(s);
    var f := Read(s);
    assert f.y == 0 && f.m == 1 && f.d == 1 && f.h == 0 && f.minute == 0 && f.sec == 0 && f.offset == 0;
  }

  // ---- the algorithm, step by step ----

  lemma NumberStep(s: string, i: nat, n: nat, k: nat)
    requires DigitsAt(s, i, n) && k < n
    ensures DigitsAt(s, i, k) && DigitsAt(s, i, k + 1)
    ensures NumberAt(s, i, k + 1) == NumberAt(s, i, k) * 10 + DigitValue(s[i+k])
  {
    assert s[i..i+k] == s[i..i+n][..k] && s[i..i+k+1] == s[i..i+n][..k+1];
    assert s[i+k] == s[i..i+n][k];
    ValueSnoc(s, i, i + k);
  }

  method TimestampNumber(s: string, i: nat, n: nat) returns (v: nat)
    requires DigitsAt(s, i, n)
    ensures v == NumberAt(s, i, n)
  {
    v := 0;
    assert s[i..i] == "";
    for k := 0 to n
      invariant DigitsAt(s, i, k) && v == NumberAt(s, i, k)
    {
      NumberStep(s, i, n, k);
      assert s[i+k] == s[i..i+n][k];
      v := v * 10 + DigitValue(s[i+k]);
    }
  }

  method LexicalTimestamp(s: string) returns (ok: bool)
    ensures ok == Lexical(s)
  {
    if !DatePart(s) || (s[10] != 'T' && s[10] != 't') { return false; }
    var i := 19;
    if i < |s| && s[i] == '.' {
      i := i + 1;
      var n := 0;
      while i < |s| && Digit(s[i])
        invariant 20 <= i <= |s| && n == i - 20
        invariant AllDigits(s[20..i])
      {
        assert s[20..i+1] == s[20..i] + [s[i]];
        i := i + 1;
        n := n + 1;
      }
      DigitsEndUnique(s, 20, i);
      if n < 1 || n > 9 { return false; }
    }
    assert i == ZoneAt(s) && |s[i..]| == |s| - i;
    if i >= |s| { return false; }
    ZoneShift(s, i);
    if s[i] == 'Z' || s[i] == 'z' { return i + 1 == |s|; }
    if s[i] != '+' && s[i] != '-' { return false; }
    return |s| == i + 6 && DigitsAt(s, i + 1, 2) && s[i+3] == ':' && DigitsAt(s, i + 4, 2);
  }

  /** The zone judged in place is the zone judged on its own. */
  lemma ZoneShift(s: string, i: nat)
    requires i < |s|
    ensures ZonePart(s[i..]) <==>
            || (|s| == i + 1 && (s[i] == 'Z' || s[i] == 'z'))
            || (|s| == i + 6 && (s[i] == '+' || s[i] == '-') && DigitsAt(s, i + 1, 2) && s[i+3] == ':' && DigitsAt(s, i + 4, 2))
    ensures |s| == i + 6 ==> s[i..][1..3] == s[i+1..i+3] && s[i..][4..6] == s[i+4..i+6]
  {
    var z := s[i..];
    assert z[0] == s[i];
    if |s| == i + 1 {
      assert z == [s[i]];
    } else if |s| == i + 6 {
      assert z[1..3] == s[i+1..i+3] && z[4..6] == s[i+4..i+6] && z[3] == s[i+3];
    }
  }

  /** A text with one stretch written over. */
  function Overlay(s: string, at: nat, piece: string): (t: string)
    requires at + |piece| <= |s|
    ensures |t| == |s|
  {
    s[..at] + piece + s[at+|piece|..]
  }

  /** A buffer whose front is finished gains one more piece. */
  lemma OverlayFront(front: string, blank: string, at: nat, piece: string)
    requires |front| <= at && at + |piece| <= |blank|
    ensures Overlay(front + blank[|front|..], at, piece) ==
            (front + blank[|front|..at] + piece) + blank[|front + blank[|front|..at] + piece|..]
  {
  }

  /** `put`: a number written backwards into a fixed field of the buffer. */
  method Put(out: array<char>, at: nat, width: nat, value: nat)
    requires at + width <= out.Length
    modifies out
    ensures out[..] == Overlay(old(out[..]), at, Fixed(width, value))
  {
    var v := value;
    var k := width;
    assert out[at+k..at+width] == "";
    while k > 0
      invariant 0 <= k <= width
      invariant out[..at] == old(out[..at]) && out[at+width..] == old(out[at+width..])
      invariant Fixed(width, value) == Fixed(k, v) + out[at+k..at+width]
    {
      k := k - 1;
      ghost var tail := out[at+k+1..at+width];
      out[at+k] := DigitChar(v % 10);
      assert out[at+k..at+width] == [DigitChar(v % 10)] + tail;
      assert Fixed(k + 1, v) == Fixed(k, v / 10) + [DigitChar(v % 10)];
      v := v / 10;
    }
  }

  method ReadDate(s: string) returns (ok: bool, y: int, m: int, d: int)
    requires Lexical(s)
    ensures y == Read(s).y && m == Read(s).m && d == Read(s).d && ok == Date(y, m, d)
  {
    y := TimestampNumber(s, 0, 4);
    m := TimestampNumber(s, 5, 2);
    d := TimestampNumber(s, 8, 2);
    ok := !(m < 1 || m > 12 || d < 1 || d > DaysIn(y, m));
  }

  method ReadTime(s: string) returns (ok: bool, total: int, sec: int)
    requires Lexical(s)
    ensures var f := Read(s);
            total == f.h * 60 + f.minute && sec == f.sec && ok == (f.h <= 23 && f.minute <= 59 && f.sec <= 59)
  {
    var h := TimestampNumber(s, 11, 2);
    var minute := TimestampNumber(s, 14, 2);
    sec := TimestampNumber(s, 17, 2);
    total := h * 60 + minute;
    ok := !(h > 23 || minute > 59 || sec > 59);
  }

  method ReadZone(s: string, i: nat) returns (ok: bool, offset: int)
    requires i < |s| && ZonePart(s[i..])
    ensures ok == OffsetInRange(s[i..]) && offset == Offset(s[i..])
  {
    ZoneShift(s, i);
    if s[i] != '+' && s[i] != '-' { return true, 0; }
    var oh := TimestampNumber(s, i + 1, 2);
    var om := TimestampNumber(s, i + 4, 2);
    offset := oh * 60 + om;
    if s[i] != '+' { offset := -offset; }
    ok := !(oh > 23 || om > 59);
  }

  method NormalizedTimestamp(s: string) returns (t: string)
    ensures t == Normalized(s)
  {
    var lexical := LexicalTimestamp(s);
    if !lexical { return ""; }
    var dated, y, m, d := ReadDate(s);
    var timed, total, sec := ReadTime(s);
    if !dated || !timed { return ""; }
    var i, fraction := ZoneAt(s), "";
    if s[19] == '.' { fraction := s[20..i]; }
    var zoned, offset := ReadZone(s, i);
    if !zoned { return ""; }
    total := total - offset;
    CarriedPreserves(y, m, d, total);
    y, m, d, total := CarryOver(y, m, d, total);
    if y < 0 || y > 9999 { return ""; }
    t := WriteStamp(y, m, d, total, sec, fraction);
  }

  /** The carry as the code updates its variables. */
  method CarryOver(y0: int, m0: int, d0: int, total0: int) returns (y: int, m: int, d: int, total: int)
    requires Date(y0, m0, d0)
    ensures Carry(y, m, d, total) == Carried(y0, m0, d0, total0)
  {
    y, m, d, total := y0, m0, d0, total0;
    if total < 0 {
      total := total + 1440;
      d := d - 1;
    } else if total >= 1440 {
      total := total - 1440;
      d := d + 1;
    }
    if d == 0 {
      m := m - 1;
      if m == 0 {
        y := y - 1;
        m := 12;
      }
      d := DaysIn(y, m);
    }
    if d > DaysIn(y, m) {
      d := 1;
      m := m + 1;
      if m == 13 {
        y := y + 1;
        m := 1;
      }
    }
  }

  method WriteStamp(y: nat, m: nat, d: nat, total: nat, sec: nat, fraction: string) returns (t: string)
    requires AllDigits(fraction)
    ensures t == Stamp(Carry(y, m, d, total), sec, fraction)
  {
    var out := new char[27](i requires 0 <= i < 27 => BLANK[i]);
    ghost var date := PutDate(out, y, m, d);
    ghost var front := PutTime(out, date, total, sec);
    PutTail(out, front, fraction);
    t := out[..];
  }

  method PutDate(out: array<char>, y: nat, m: nat, d: nat) returns (ghost p: string)
    requires out.Length == 27 && out[..] == BLANK
    modifies out
    ensures p == Fixed(4, y) + "-" + Fixed(2, m) + "-" + Fixed(2, d) && out[..] == p + BLANK[10..]
  {
    p := "";
    assert out[..] == p + BLANK[|p|..];
    p := PutNext(out, p, 0, 4, y);
    assert p == Fixed(4, y);
    p := PutNext(out, p, 5, 2, m);
    p := PutNext(out, p, 8, 2, d);
    BlankParts();
  }

  method PutTime(out: array<char>, ghost date: string, total: nat, sec: nat) returns (ghost p: string)
    requires out.Length == 27 && |date| == 10 && out[..] == date + BLANK[10..]
    modifies out
    ensures p == date + "T" + Fixed(2, total / 60) + ":" + Fixed(2, total % 60) + ":" + Fixed(2, sec)
    ensures out[..] == p + BLANK[19..]
  {
    p := PutNext(out, date, 11, 2, total / 60);
    p := PutNext(out, p, 14, 2, total % 60);
    p := PutNext(out, p, 17, 2, sec);
    BlankParts();
    BlankTail();
  }

  method PutTail(out: array<char>, ghost front: string, fraction: string)
    requires out.Length == 27 && |front| == 19 && AllDigits(fraction) && out[..] == front + BLANK[19..]
    modifies out
    ensures out[..] == front + "." + Micros(fraction) + "Z"
  {
    BlankTail();
    ghost var was := out[..];
    assert was == front + ".000000Z";
    assert was[20..26] == "000000" && was[26..] == "Z" && was[..20] == front + ".";
    assert out[20..26] == was[20..26] && out[26..] == was[26..] && out[..20] == was[..20];
    PutFraction(out, fraction);
  }

  method PutNext(out: array<char>, ghost front: string, at: nat, width: nat, value: nat)
    returns (ghost next: string)
    requires |front| <= at && at + width <= |BLANK| == out.Length && out[..] == front + BLANK[|front|..]
    modifies out
    ensures next == front + BLANK[|front|..at] + Fixed(width, value) && out[..] == next + BLANK[|next|..]
  {
    Put(out, at, width, value);
    OverlayFront(front, BLANK, at, Fixed(width, value));
    next := front + BLANK[|front|..at] + Fixed(width, value);
  }

  const BLANK := "0000-00-00T00:00:00.000000Z"

  lemma BlankParts()
    ensures BLANK[4..5] == "-" && BLANK[7..8] == "-" && BLANK[10..11] == "T"
  {
    assert BLANK[4..5] == [BLANK[4]] && BLANK[7..8] == [BLANK[7]] && BLANK[10..11] == [BLANK[10]];
  }

  lemma BlankTail()
    ensures BLANK[13..14] == ":" && BLANK[16..17] == ":" && BLANK[19..] == ".000000Z"
  {
    assert |BLANK| == 27 && |BLANK[19..]| == 8;
    assert BLANK[13..14] == [BLANK[13]] && BLANK[16..17] == [BLANK[16]];
    assert BLANK[19..] == [BLANK[19], BLANK[20], BLANK[21], BLANK[22], BLANK[23], BLANK[24], BLANK[25], BLANK[26]];
  }

  /** The first six digits of the fraction over a field of zeros. */
  method PutFraction(out: array<char>, fraction: string)
    requires out.Length == 27 && AllDigits(fraction) && out[20..26] == "000000"
    modifies out
    ensures out[..] == old(out[..20]) + Micros(fraction) + old(out[26..])
  {
    var k := 0;
    ghost var was := out[..];
    while k < 6 && k < |fraction|
      invariant 0 <= k <= 6 && k <= |fraction|
      invariant out[..] == was[..20] + fraction[..k] + was[20+k..]
    {
      out[20+k] := fraction[k];
      assert out[..] == (was[..20] + fraction[..k] + was[20+k..])[20+k := fraction[k]];
      k := k + 1;
    }
    FractionField(was, fraction, k);
  }

  lemma FractionField(was: string, fraction: string, k: nat)
    requires |was| == 27 && was[20..26] == "000000" && AllDigits(fraction) && k == if |fraction| < 6 then |fraction| else 6
    ensures was[..20] + fraction[..k] + was[20+k..] == was[..20] + Micros(fraction) + was[26..]
  {
    hide Zeros, AllDigits, Micros;
    var head, zeros := was[..20], Zeros(6 - k);
    assert was[20+k..] == was[20..26][k..] + was[26..];
    SixZeros(k);
    MicrosIs(fraction, k);
    assert head + fraction[..k] + (zeros + was[26..]) == head + (fraction[..k] + zeros) + was[26..];
  }

  lemma MicrosIs(fraction: string, k: nat)
    requires AllDigits(fraction) && k == if |fraction| < 6 then |fraction| else 6
    ensures Micros(fraction) == fraction[..k] + Zeros(6 - k)
  {
    hide Zeros;
  }

  lemma {:induction false} SixZeros(k: nat)
    requires k <= 6
    ensures "000000"[k..] == Zeros(6 - k)
    decreases 6 - k
  {
    if k < 6 {
      SixZeros(k + 1);
      assert "000000"[k..] == ["000000"[k]] + "000000"[k+1..];
    }
  }
}
