/** A history cursor: the sink instance that issued it and a byte offset, in one spelling only. */
module Cursor {
  import opened Decimal
  import opened Wrappers

  /** The pieces of a text between its separators. */
  function Split(s: string, sep: char): (ps: seq<string>)
    ensures |ps| >= 1
  {
    if s == "" then [""]
    else if s[0] == sep then [""] + Split(s[1..], sep)
    else
      var rest := Split(s[1..], sep);
      [[s[0]] + rest[0]] + rest[1..]
  }

  lemma {:induction false} SplitAlone(s: string, c: char)
    requires c !in s
    ensures Split(s, c) == [s]
  {
    if s != "" {
      SplitAlone(s[1..], c);
      assert [s[0]] + s[1..] == s;
    }
  }

  lemma {:induction false} SplitPair(a: string, b: string, c: char)
    requires c !in a && c !in b
    ensures Split(a + [c] + b, c) == [a, b]
  {
    var s := a + [c] + b;
    if a == "" {
      assert s[1..] == b;
      SplitAlone(b, c);
    } else {
      assert s[1..] == a[1..] + [c] + b;
      SplitPair(a[1..], b, c);
      assert [a[0]] + a[1..] == a;
    }
  }

  /** Joining gives the text back. */
  function Joined(ps: seq<string>, c: char): string
    requires |ps| >= 1
  {
    if |ps| == 1 then ps[0] else ps[0] + [c] + Joined(ps[1..], c)
  }

  lemma {:induction false} SplitJoins(s: string, c: char)
    ensures Joined(Split(s, c), c) == s
  {
    if s != "" {
      SplitJoins(s[1..], c);
      var rest, ps := Split(s[1..], c), Split(s, c);
      if s[0] == c {
        assert ps[1..] == rest;
        assert "" + [c] + s[1..] == s;
      } else {
        assert ps[1..] == rest[1..];
        if |rest| > 1 { assert [s[0]] + rest[0] + [c] + Joined(rest[1..], c) == [s[0]] + (rest[0] + [c] + Joined(rest[1..], c)); }
      }
    }
  }

  /** `strconv.ParseInt(s, 10, 64)`: an optional sign, then digits, within an int64. */
  function ParseInt(s: string): (n: Option<int>)
    ensures n.Some? ==> MIN_I64 <= n.value <= MAX_I64
  {
    var signed := s != "" && (s[0] == '+' || s[0] == '-');
    var d := if signed then s[1..] else s;
    if d == "" || !AllDigits(d) then None
    else
      var v: int := Value(d);
      var n := if signed && s[0] == '-' then -v else v;
      if MIN_I64 <= n <= MAX_I64 then Some(n) else None
  }

  lemma NumIsDigits(n: nat)
    ensures AllDigits(Decimal.Num(n)) && Value(Decimal.Num(n)) == n && ':' !in Decimal.Num(n)
  {
    ValueOfDigits(n);
    if n == 0 { assert "0"[..0] == ""; }
    var s := Decimal.Num(n);
    forall i | 0 <= i < |s| ensures s[i] != ':' { assert Digit(s[i]); }
  }

  lemma ParseOfNum(n: nat)
    requires n <= MAX_I64
    ensures ParseInt(Decimal.Num(n)) == Some(n)
  {
    NumIsDigits(n);
    assert Digit(Decimal.Num(n)[0]);
  }

  function Spelled(epoch: string, offset: nat): (c: string)
    ensures c != ""
  {
    epoch + ":" + Decimal.Num(offset)
  }

  /** The offset a cursor of this sink names; none if it is not one of its cursors. */
  function OffsetOf(epoch: string, cursor: string): (o: Option<nat>) {
    if cursor == "" then Some(0)
    else
      var parts := Split(cursor, ':');
      if |parts| != 2 || parts[0] != epoch then None
      else
        var n := ParseInt(parts[1]);
        if n.None? || n.value < 0 || Decimal.Num(n.value) != parts[1] then None else Some(n.value)
  }

  /** Exactly the cursors the sink itself spells are taken, at the offset they were spelled for:
      signs, leading zeros, other sinks' cursors and offsets outside an int64 are not. */
  lemma OffsetExactly(epoch: string, cursor: string, offset: nat)
    requires ':' !in epoch && cursor != ""
    ensures OffsetOf(epoch, cursor) == Some(offset) <==> cursor == Spelled(epoch, offset) && offset <= MAX_I64
  {
    if cursor == Spelled(epoch, offset) && offset <= MAX_I64 {
      NumIsDigits(offset);
      SplitPair(epoch, Decimal.Num(offset), ':');
      ParseOfNum(offset);
    }
    if OffsetOf(epoch, cursor) == Some(offset) {
      SplitJoins(cursor, ':');
      assert Joined(Split(cursor, ':')[1..], ':') == Split(cursor, ':')[1];
    }
  }

  lemma SpelledOnce(epoch: string, a: nat, b: nat)
    requires Spelled(epoch, a) == Spelled(epoch, b)
    ensures a == b
  {
    var h := epoch + ":";
    assert Spelled(epoch, a)[|h|..] == Decimal.Num(a) && Spelled(epoch, b)[|h|..] == Decimal.Num(b);
    NumIsDigits(a);
    NumIsDigits(b);
  }
}
