/** Timestamps against numbers: the calendar counted in days, and what each character of a text says. None of
    it is built from the functions the normaliser is specified with. */
module Calendar {
  import opened Decimal
  import opened Timestamp

  // ---- the calendar ----

  predicate LeapYear(y: int) { (y % 4 == 0 && y % 100 != 0) || y % 400 == 0 }

  const BEFORE_MONTH := [0, 31, 59, 90, 120, 151, 181, 212, 243, 273, 304, 334]
  const MONTH_LENGTH := [31, 28, 31, 30, 31, 30, 31, 31, 30, 31, 30, 31]

  /** Days since the first of January of year 0: 365 a year, one more for each leap year behind, the months
      gone by, a leap day gone by, and the day. */
  function CivilDays(y: int, m: int, d: int): int
    requires 1 <= m <= 12
  {
    365 * y + (y + 3) / 4 - (y + 99) / 100 + (y + 399) / 400
    + BEFORE_MONTH[m-1] + (if m > 2 && LeapYear(y) then 1 else 0) + d - 1
  }

  predicate CivilDate(y: int, m: int, d: int) {
    1 <= m <= 12 && 1 <= d <= MONTH_LENGTH[m-1] + (if m == 2 && LeapYear(y) then 1 else 0)
  }

  lemma {:induction false} YearsCounted(y: int)
    requires y >= -1
    ensures YearStart(y) == 365 * y + (y + 3) / 4 - (y + 99) / 100 + (y + 399) / 400
    decreases y
  {
    if y > 0 {
      YearsCounted(y - 1);
      Fours(y - 1);
      Hundreds(y - 1);
      FourHundreds(y - 1);
      Multiples(y - 1);
      assert YearStart(y) == YearStart(y - 1) + YearDays(y - 1);
    }
  }

  /** One year more is a multiple more if the year behind was one. */
  lemma Fours(x: int)
    requires x >= 0
    ensures (x + 4) / 4 - (x + 3) / 4 == if x % 4 == 0 then 1 else 0
  {
  }

  lemma Hundreds(x: int)
    requires x >= 0
    ensures (x + 100) / 100 - (x + 99) / 100 == if x % 100 == 0 then 1 else 0
  {
  }

  lemma FourHundreds(x: int)
    requires x >= 0
    ensures (x + 400) / 400 - (x + 399) / 400 == if x % 400 == 0 then 1 else 0
  {
  }

  lemma Multiples(x: int)
    requires x >= 0
    ensures x % 400 == 0 ==> x % 100 == 0
    ensures x % 100 == 0 ==> x % 4 == 0
  {
    if x % 400 == 0 { FourHundredIsHundreds(x, x / 400); }
    if x % 100 == 0 { HundredIsFours(x, x / 100); }
  }

  lemma FourHundredIsHundreds(x: int, q: int)
    requires x == 400 * q && q >= 0
    ensures x % 100 == 0
  {
    var r := 4 * q;
    assert x == 100 * r;
  }

  lemma HundredIsFours(x: int, q: int)
    requires x == 100 * q && q >= 0
    ensures x % 4 == 0
  {
    var r := 25 * q;
    assert x == 4 * r;
  }

  lemma MonthsCounted(y: int, m: int)
    requires 1 <= m <= 12
    ensures MonthStart(y, m) == BEFORE_MONTH[m-1] + (if m > 2 && LeapYear(y) then 1 else 0)
  {
    assert MonthStart(y, 3) == 31 + DaysIn(y, 2);
    assert MonthStart(y, 5) == MonthStart(y, 3) + 61;
    assert MonthStart(y, 7) == MonthStart(y, 5) + 61;
    assert MonthStart(y, 9) == MonthStart(y, 7) + 62;
    assert MonthStart(y, 11) == MonthStart(y, 9) + 61;
  }

  /** The day numbers the carry moves along are the days of the civil calendar, and its dates are the dates. */
  lemma CalendarExactly(y: int, m: int, d: int)
    requires y >= -1
    ensures Date(y, m, d) <==> CivilDate(y, m, d)
    ensures 1 <= m <= 12 ==> DayNumber(y, m, d) == CivilDays(y, m, d)
  {
    if 1 <= m <= 12 {
      YearsCounted(y);
      MonthsCounted(y, m);
    }
  }

  // ---- a text, character by character ----

  predicate DigitAt(s: string, i: int) { 0 <= i < |s| && 48 <= s[i] as int <= 57 }

  predicate DigitsFrom(s: string, i: int, n: nat) { forall k :: i <= k < i + n ==> DigitAt(s, k) }

  /** Date and time, a point and one to nine digits if z is not 19, and a zone from z to the end. */
  predicate Shape(s: string, z: nat) {
    && 19 <= z < |s|
    && DigitsFrom(s, 0, 4) && s[4] == '-' && DigitsFrom(s, 5, 2) && s[7] == '-' && DigitsFrom(s, 8, 2)
    && (s[10] == 'T' || s[10] == 't')
    && DigitsFrom(s, 11, 2) && s[13] == ':' && DigitsFrom(s, 14, 2) && s[16] == ':' && DigitsFrom(s, 17, 2)
    && (z == 19 || (s[19] == '.' && 21 <= z <= 29 && DigitsFrom(s, 20, z - 20)))
    && ZoneShape(s, z)
  }

  predicate ZoneShape(s: string, z: nat)
    requires z < |s|
  {
    || (|s| == z + 1 && (s[z] == 'Z' || s[z] == 'z'))
    || (|s| == z + 6 && (s[z] == '+' || s[z] == '-') && DigitsFrom(s, z + 1, 2) && s[z+3] == ':' && DigitsFrom(s, z + 4, 2))
  }

  function Two(s: string, i: nat): int
    requires i + 2 <= |s|
  {
    (s[i] as int - 48) * 10 + (s[i+1] as int - 48)
  }

  function Four(s: string, i: nat): int
    requires i + 4 <= |s|
  {
    Two(s, i) * 100 + Two(s, i + 2)
  }

  /** Minutes the zone is east of UTC. */
  function East(s: string, z: nat): int
    requires Shape(s, z)
  {
    if |s| == z + 1 then 0
    else if s[z] == '+' then Two(s, z + 1) * 60 + Two(s, z + 4)
    else -(Two(s, z + 1) * 60 + Two(s, z + 4))
  }

  /** Every number is in its range; second 60 is not. */
  predicate Possible(s: string, z: nat)
    requires Shape(s, z)
  {
    && CivilDate(Four(s, 0), Two(s, 5), Two(s, 8)) && Two(s, 11) <= 23 && Two(s, 14) <= 59 && Two(s, 17) <= 59
    && (|s| == z + 6 ==> Two(s, z + 1) <= 23 && Two(s, z + 4) <= 59)
  }

  /** The minute of UTC, counted from the start of year 0. */
  function UtcMinute(s: string, z: nat): int
    requires Shape(s, z) && Possible(s, z)
  {
    CivilDays(Four(s, 0), Two(s, 5), Two(s, 8)) * 1440 + Two(s, 11) * 60 + Two(s, 14) - East(s, z)
  }

  // ---- the two agree ----

  lemma DigitsFromAt(s: string, i: nat, n: nat)
    ensures DigitsAt(s, i, n) && n > 0 ==> DigitsFrom(s, i, n)
    ensures DigitsFrom(s, i, n) && n > 0 ==> DigitsAt(s, i, n)
  {
    if DigitsAt(s, i, n) {
      forall k: int | i <= k < i + n ensures DigitAt(s, k) { assert Digit(s[i..i+n][k-i]); }
    }
    if DigitsFrom(s, i, n) && n > 0 {
      assert DigitAt(s, i + n - 1);
      var t := s[i..i+n];
      forall k | 0 <= k < |t| ensures Digit(t[k]) { assert DigitAt(s, i + k); }
    }
  }

  lemma TwoIs(s: string, i: nat)
    requires DigitsAt(s, i, 2)
    ensures NumberAt(s, i, 2) == Two(s, i)
  {
    var t := s[i..i+2];
    assert t[..1] == [s[i]] && [s[i]][..0] == "";
    assert Value([s[i]]) == DigitValue(s[i]);
  }

  lemma FourIs(s: string, i: nat)
    requires DigitsAt(s, i, 4)
    ensures NumberAt(s, i, 4) == Four(s, i)
  {
    var t := s[i..i+4];
    assert t[..3][..2] == s[i..i+2] && t[..3] == s[i..i+3] && Digit(t[0]) && Digit(t[1]) && Digit(t[2]) && Digit(t[3]);
    assert AllDigits(s[i..i+2]) by { assert s[i..i+2] == t[..2]; }
    TwoIs(s, i);
    assert Value(s[i..i+3]) == Value(s[i..i+2]) * 10 + DigitValue(s[i+2]);
  }

  lemma DatePartExactly(s: string)
    ensures DatePart(s) <==> (|s| >= 19 && DigitsFrom(s, 0, 4) && s[4] == '-' && DigitsFrom(s, 5, 2) && s[7] == '-'
      && DigitsFrom(s, 8, 2) && DigitsFrom(s, 11, 2) && s[13] == ':' && DigitsFrom(s, 14, 2) && s[16] == ':' && DigitsFrom(s, 17, 2))
  {
    hide DigitsAt, DigitsFrom;
    DigitsFromAt(s, 0, 4);
    DigitsFromAt(s, 5, 2);
    DigitsFromAt(s, 8, 2);
    DigitsFromAt(s, 11, 2);
    DigitsFromAt(s, 14, 2);
    DigitsFromAt(s, 17, 2);
  }

  lemma ZoneExactly(s: string, z: nat)
    requires z < |s|
    ensures ZonePart(s[z..]) <==> ZoneShape(s, z)
  {
    hide DigitsAt, DigitsFrom;
    var t := s[z..];
    assert t[0] == s[z] && |t| == |s| - z;
    if |t| == 1 { assert t == [s[z]] && "Z" == ['Z'] && "z" == ['z']; }
    if |t| == 6 {
      assert t[3] == s[z+3] && t[1..3] == s[z+1..z+3] && t[4..6] == s[z+4..z+6];
      ZoneDigits(s, z, 1);
      ZoneDigits(s, z, 4);
      DigitsFromAt(s, z + 1, 2);
      DigitsFromAt(s, z + 4, 2);
    }
  }

  lemma ZoneDigits(s: string, z: nat, i: nat)
    requires z + i + 2 <= |s|
    ensures DigitsAt(s[z..], i, 2) <==> DigitsAt(s, z + i, 2)
    ensures DigitsAt(s[z..], i, 2) ==> NumberAt(s[z..], i, 2) == NumberAt(s, z + i, 2)
  {
    assert s[z..][i..i+2] == s[z+i..z+i+2];
  }

  /** The scan takes exactly the texts of this shape, and finds the zone where it is. */
  lemma ShapeExactly(s: string, z: nat)
    ensures Shape(s, z) <==> Lexical(s) && ZoneAt(s) == z
  {
    hide DatePart, ZonePart, DigitsEnd, AllDigits;
    DatePartExactly(s);
    if z < |s| { ZoneExactly(s, z); }
    if Shape(s, z) && z != 19 { FractionEnds(s, z); }
    if Lexical(s) && ZoneAt(s) == z {
      if z == |s| { assert s[z..] == ""; NoZone(); }
      FractionRuns(s);
    }
    assert |s| >= 19 ==> s[19..19] == "";
  }

  lemma NoZone()
    ensures !ZonePart("")
  {
  }

  lemma FractionEnds(s: string, z: nat)
    requires 21 <= z < |s| && s[19] == '.' && DigitsFrom(s, 20, z - 20) && !DigitAt(s, z)
    ensures ZoneAt(s) == z
  {
    DigitsFromAt(s, 20, z - 20);
    DigitsEndUnique(s, 20, z);
  }

  lemma FractionRuns(s: string)
    requires |s| >= 19
    ensures ZoneAt(s) > 19 ==> s[19] == '.' && DigitsFrom(s, 20, ZoneAt(s) - 20)
    ensures ZoneAt(s) == 19 ==> At(s, 19) != '.'
  {
    var z := ZoneAt(s);
    if z > 20 { DigitsFromAt(s, 20, z - 20); }
  }

  /** What the reader makes of a text is what its characters say. */
  lemma FieldsExactly(s: string, z: nat)
    requires Shape(s, z)
    ensures Lexical(s) && ZoneAt(s) == z
    ensures var f := Read(s);
      && f.y == Four(s, 0) && f.m == Two(s, 5) && f.d == Two(s, 8) && f.h == Two(s, 11) && f.minute == Two(s, 14) && f.sec == Two(s, 17)
      && f.offset == East(s, z) && f.fraction == if z == 19 then "" else s[20..z]
    ensures InRange(s) <==> Possible(s, z)
  {
    hide CivilDate, Date, DigitsFrom, DigitsAt, NumberAt, Two, Four, ZonePart, DigitsEnd;
    ShapeExactly(s, z);
    DatePartDigits(s);
    FourIs(s, 0);
    TwoIs(s, 5);
    TwoIs(s, 8);
    TwoIs(s, 11);
    TwoIs(s, 14);
    TwoIs(s, 17);
    OffsetExactly(s, z);
    CalendarExactly(Four(s, 0), Two(s, 5), Two(s, 8));
  }

  lemma DatePartDigits(s: string)
    requires DatePart(s)
    ensures DigitsAt(s, 0, 4) && DigitsAt(s, 5, 2) && DigitsAt(s, 8, 2) && DigitsAt(s, 11, 2) && DigitsAt(s, 14, 2) && DigitsAt(s, 17, 2)
    ensures NumberAt(s, 0, 4) >= 0
  {
  }

  lemma OffsetExactly(s: string, z: nat)
    requires Shape(s, z) && ZonePart(s[z..])
    ensures Offset(s[z..]) == East(s, z)
    ensures OffsetInRange(s[z..]) <==> (|s| == z + 6 ==> Two(s, z + 1) <= 23 && Two(s, z + 4) <= 59)
  {
    hide DigitsFrom, DigitsAt, NumberAt, Two;
    assert |s[z..]| == |s| - z && s[z..][0] == s[z];
    if |s| == z + 6 {
      ZoneDigits(s, z, 1);
      ZoneDigits(s, z, 4);
      DigitsFromAt(s, z + 1, 2);
      DigitsFromAt(s, z + 4, 2);
      TwoIs(s, z + 1);
      TwoIs(s, z + 4);
    }
  }

  const MINUTES_OF_ALL_YEARS := 3652425 * 1440

  /** The normaliser by numbers: it answers exactly for texts of the shape whose numbers are possible and whose
      minute of UTC lies in the years 0 to 9999. */
  lemma AnsweredExactly(s: string)
    ensures Normalized(s) != "" <==>
      exists z :: Shape(s, z) && Possible(s, z) && 0 <= UtcMinute(s, z) < MINUTES_OF_ALL_YEARS
  {
    hide Lexical, InRange, Normalized, Shape, Possible, Read, CivilDays, DayNumber;
    RefusedExactly(s);
    AllYears();
    if Lexical(s) {
      LongEnough(s);
      InstantIs(s);
      ShapeExactly(s, ZoneAt(s));
      FieldsExactly(s, ZoneAt(s));
      if InRange(s) { MinutesExactly(s, ZoneAt(s)); }
    }
    forall z | Shape(s, z) ensures Lexical(s) && ZoneAt(s) == z { ShapeExactly(s, z); }
  }

  lemma LongEnough(s: string)
    requires Lexical(s)
    ensures |s| >= 19
  {
  }

  lemma AllYears()
    ensures EndOfTime() == MINUTES_OF_ALL_YEARS
  {
    YearsCounted(10000);
  }

  lemma MinutesExactly(s: string, z: nat)
    requires Shape(s, z) && Possible(s, z)
    ensures Instant(s) && Minutes(s) == UtcMinute(s, z)
  {
    hide Lexical, InRange, Shape, Read, CivilDays, DayNumber, CivilDate;
    FieldsExactly(s, z);
    CalendarExactly(Four(s, 0), Two(s, 5), Two(s, 8));
    PossibleDate(s, z);
    YearIsNatural(s, z);
  }

  lemma PossibleDate(s: string, z: nat)
    requires Shape(s, z) && Possible(s, z)
    ensures CivilDate(Four(s, 0), Two(s, 5), Two(s, 8)) && 1 <= Two(s, 5) <= 12
  {
  }

  lemma YearIsNatural(s: string, z: nat)
    requires Shape(s, z)
    ensures Four(s, 0) >= 0
  {
    assert DigitAt(s, 0) && DigitAt(s, 1) && DigitAt(s, 2) && DigitAt(s, 3);
  }

  /** And its answer is the one spelling of the same minute and second: zone Z, upper case, six digits of the
      fraction, cut or filled up with zeros. */
  lemma AnswerExactly(s: string, z: nat)
    requires Shape(s, z) && Normalized(s) != ""
    ensures var t := Normalized(s);
      && |t| == 27 && Shape(t, 26) && Possible(s, z) && Possible(t, 26) && UtcMinute(t, 26) == UtcMinute(s, z)
      && Two(t, 17) == Two(s, 17) && t[10] == 'T' && t[19] == '.' && t[26] == 'Z'
    ensures forall i :: 20 <= i < 26 ==> Normalized(s)[i] == if i < z then s[i] else '0'
  {
    hide Lexical, InRange, Normalized, Shape, Possible, Read, CivilDays, DayNumber, UtcMinute, Two, Four, Instant, Minutes, Micros;
    var t := Normalized(s);
    NormalizedPreserves(s);
    FieldsExactly(s, z);
    InstantIs(s);
    InstantIs(t);
    MinutesExactly(s, z);
    StampPlaces(s);
    ShapeExactly(t, 26);
    FieldsExactly(t, 26);
    MinutesExactly(t, 26);
    MicrosAre(Read(s).fraction);
    assert t[20..26] == Micros(Read(s).fraction);
    FractionIs(s, z);
    forall i | 20 <= i < 26 ensures t[i] == if i < z then s[i] else '0' {
      assert t[i] == t[20..26][i-20];
      if i < z { assert s[20..z][i-20] == s[i]; }
    }
  }

  lemma InstantIs(s: string)
    ensures Instant(s) <==> Lexical(s) && InRange(s)
  {
  }

  lemma FractionIs(s: string, z: nat)
    requires Shape(s, z)
    ensures z == 19 || 21 <= z < |s|
  {
  }

  lemma {:induction false} ZerosAre(n: nat)
    ensures forall k :: 0 <= k < n ==> Zeros(n)[k] == '0'
  {
    if n > 0 { ZerosAre(n - 1); }
  }

  lemma MicrosAre(f: string)
    requires AllDigits(f)
    ensures forall k :: 0 <= k < 6 ==> Micros(f)[k] == if k < |f| then f[k] else '0'
  {
    hide AllDigits;
    if |f| < 6 { ZerosAre(6 - |f|); }
  }

  /** Where the parts of an answer stand. */
  lemma StampPlaces(s: string)
    requires Normalized(s) != ""
    ensures Instant(s) && var t := Normalized(s);
      |t| == 27 && t[10] == 'T' && t[19] == '.' && t[26] == 'Z' && t[20..26] == Micros(Read(s).fraction) && Lexical(t) && ZoneAt(t) == 26
  {
    hide Fixed, Micros, Read, Normalized, Lexical, InRange, Carried, DayNumber, DigitsEnd;
    NormalizedPreserves(s);
    NormalizedIs(s);
    var c := Landed(s);
    StampShape(c, Read(s).sec, Read(s).fraction);
    InstantIs(Normalized(s));
  }

  lemma StampShape(c: Carry, sec: nat, f: string)
    requires c.y >= 0 && c.m >= 0 && c.d >= 0 && c.total >= 0 && AllDigits(f)
    ensures var t := Stamp(c, sec, f); t[10] == 'T' && t[19] == '.' && t[26] == 'Z' && t[20..26] == Micros(f) && ZoneAt(t) == 26
  {
    hide Fixed, Micros;
    var t := Stamp(c, sec, f);
    assert t[20..26] == Micros(f);
    DigitsEndUnique(t, 20, 26);
  }
}
