/** UTF-8 as the wire codec writes and checks it (section 3 of RFC 3629).
    A byte is a char: Go's strings and byte slices are both `string` here, and shifts
    and masks are spelled as division and remainder. */
module Utf8 {

  /** A Unicode scalar value: a code point that is not a surrogate. */
  predicate Scalar(cp: int) {
    0 <= cp <= 0x10FFFF && !(0xD800 <= cp <= 0xDFFF)
  }

  function Byte(n: int): char
    requires 0 <= n < 256
  {
    n as char
  }

  /** The bytes `appendRune` adds for one code point. */
  function Rune(cp: int): (b: string)
    requires 0 <= cp <= 0x10FFFF
    ensures 1 <= |b| <= 4
  {
    if cp < 0x80 then [Byte(cp)]
    else if cp < 0x800 then [Byte(0xC0 + cp / 64), Byte(0x80 + cp % 64)]
    else if cp < 0x10000 then [Byte(0xE0 + cp / 64 / 64), Byte(0x80 + cp / 64 % 64), Byte(0x80 + cp % 64)]
    else [Byte(0xF0 + cp / 64 / 64 / 64), Byte(0x80 + cp / 64 / 64 % 64), Byte(0x80 + cp / 64 % 64), Byte(0x80 + cp % 64)]
  }

  /** The UTF-8 text of a sequence of code points: the reference the validator is measured against. */
  function Encoded(cps: seq<int>): (b: string)
    requires forall cp :: cp in cps ==> Scalar(cp)
  {
    if cps == [] then "" else assert Scalar(cps[0]); Rune(cps[0]) + Encoded(cps[1..])
  }

  /** A byte of the form 10xxxxxx. */
  predicate Continuation(c: char) {
    c as int / 64 == 2
  }

  /** How many bytes the lead byte announces; 0 for a byte that cannot lead. */
  function Announced(c: char): (n: nat)
    ensures n <= 4
  {
    var v := c as int;
    if v < 0x80 then 1 else if v / 32 == 6 then 2 else if v / 16 == 14 then 3 else if v / 8 == 30 then 4 else 0
  }

  /** The code point spelled by the n bytes at i. */
  function CodePoint(b: string, i: nat, n: nat): (cp: int)
    requires 1 <= n <= 4 && i + n <= |b| && Announced(b[i]) == n
    requires forall k :: i < k < i + n ==> Continuation(b[k])
    ensures 0 <= cp < 0x200000
  {
    if n == 1 then b[i] as int
    else if n == 2 then b[i] as int % 32 * 64 + b[i+1] as int % 64
    else if n == 3 then (b[i] as int % 16 * 64 + b[i+1] as int % 64) * 64 + b[i+2] as int % 64
    else ((b[i] as int % 8 * 64 + b[i+1] as int % 64) * 64 + b[i+2] as int % 64) * 64 + b[i+3] as int % 64
  }

  function Lowest(n: nat): int
    requires 1 <= n <= 4
  {
    [0, 0, 0x80, 0x800, 0x10000][n]
  }

  /** The validator accepts one character at i, of n bytes. */
  predicate CharAt(b: string, i: nat, n: nat) {
    && 1 <= n <= 4 && i + n <= |b| && Announced(b[i]) == n
    && (forall k :: i < k < i + n ==> Continuation(b[k]))
    && var cp := CodePoint(b, i, n);
       Lowest(n) <= cp && Scalar(cp)
  }

  predicate ValidFrom(b: string, i: nat)
    decreases |b| - i
  {
    i >= |b| || (CharAt(b, i, Announced(b[i])) && ValidFrom(b, i + Announced(b[i])))
  }

  predicate Valid(b: string) {
    ValidFrom(b, 0)
  }

  lemma Sixes(hi: int, lo: int)
    requires 0 <= lo < 64
    ensures (hi * 64 + lo) / 64 == hi && (hi * 64 + lo) % 64 == lo
  {
  }

  /** The payload bits of a lead or continuation byte, with the marker taken off. */
  lemma Marker(c: char)
    ensures c as int / 64 == 2 ==> c as int % 64 == c as int - 0x80
    ensures c as int / 32 == 6 ==> c as int % 32 == c as int - 0xC0
    ensures c as int / 16 == 14 ==> c as int % 16 == c as int - 0xE0
    ensures c as int / 8 == 30 ==> c as int % 8 == c as int - 0xF0
  {
  }

  /** Sextets of a three-part or four-part number. */
  lemma Sextets(a: int, b: int, c: int, d: int)
    requires 0 <= a < 16 && 0 <= b < 64 && 0 <= c < 64 && 0 <= d < 64
    ensures var hi := a * 64 + b; hi / 64 == a && hi % 64 == b
    ensures var hi := a * 64 + b; (hi * 64 + c) / 64 == hi && (hi * 64 + c) % 64 == c
    ensures var hi := (a * 64 + b) * 64 + c; (hi * 64 + d) / 64 == hi && (hi * 64 + d) % 64 == d
  {
    Sixes(a, b);
    Sixes(a * 64 + b, c);
    Sixes((a * 64 + b) * 64 + c, d);
  }

  /** Decoding one accepted character and writing it again gives its own bytes. */
  lemma CharIsRune(b: string, i: nat, n: nat)
    requires CharAt(b, i, n)
    ensures b[i..i+n] == Rune(CodePoint(b, i, n))
  {
    match n
    case 1 => assert b[i..i+1] == [b[i]];
    case 2 => TwoIsRune(b, i);
    case 3 => ThreeIsRune(b, i);
    case 4 => FourIsRune(b, i);
  }

  lemma TwoIsRune(b: string, i: nat)
    requires CharAt(b, i, 2)
    ensures b[i..i+2] == Rune(CodePoint(b, i, 2))
  {
    Marker(b[i]); Marker(b[i+1]);
    Sixes(b[i] as int - 0xC0, b[i+1] as int - 0x80);
    assert b[i..i+2] == [b[i], b[i+1]];
  }

  lemma ThreeIsRune(b: string, i: nat)
    requires CharAt(b, i, 3)
    ensures b[i..i+3] == Rune(CodePoint(b, i, 3))
  {
    Marker(b[i]); Marker(b[i+1]); Marker(b[i+2]);
    Sextets(b[i] as int - 0xE0, b[i+1] as int - 0x80, b[i+2] as int - 0x80, 0);
    assert b[i..i+3] == [b[i], b[i+1], b[i+2]];
  }

  lemma FourIsRune(b: string, i: nat)
    requires CharAt(b, i, 4)
    ensures b[i..i+4] == Rune(CodePoint(b, i, 4))
  {
    Marker(b[i]); Marker(b[i+1]); Marker(b[i+2]); Marker(b[i+3]);
    Sextets(b[i] as int - 0xF0, b[i+1] as int - 0x80, b[i+2] as int - 0x80, b[i+3] as int - 0x80);
    assert b[i..i+4] == [b[i], b[i+1], b[i+2], b[i+3]];
  }

  /** What `appendRune` writes for a scalar value is one accepted character spelling that value. */
  lemma RuneIsChar(b: string, i: nat, cp: int)
    requires Scalar(cp) && i + |Rune(cp)| <= |b| && b[i..i+|Rune(cp)|] == Rune(cp)
    ensures CharAt(b, i, |Rune(cp)|) && CodePoint(b, i, |Rune(cp)|) == cp
  {
    var r := Rune(cp);
    forall k | 0 <= k < |r| ensures b[i+k] == r[k] { assert b[i..i+|r|][k] == b[i+k]; }
    if |r| == 1 { OneByte(b, i, cp); }
    else if |r| == 2 { TwoBytes(b, i, cp); }
    else if |r| == 3 { ThreeBytes(b, i, cp); }
    else { FourBytes(b, i, cp); }
  }

  /** The bytes of the value stand at i. */
  predicate Stands(b: string, i: nat, cp: int)
    requires Scalar(cp)
  {
    i + |Rune(cp)| <= |b| && forall k :: 0 <= k < |Rune(cp)| ==> b[i+k] == Rune(cp)[k]
  }

  lemma OneByte(b: string, i: nat, cp: int)
    requires Scalar(cp) && |Rune(cp)| == 1 && Stands(b, i, cp)
    ensures CharAt(b, i, 1) && CodePoint(b, i, 1) == cp
  {
    assert b[i+0] == Rune(cp)[0];
  }

  lemma TwoBytes(b: string, i: nat, cp: int)
    requires Scalar(cp) && |Rune(cp)| == 2 && Stands(b, i, cp)
    ensures CharAt(b, i, 2) && CodePoint(b, i, 2) == cp
  {
    assert b[i+0] == Rune(cp)[0] && b[i+1] == Rune(cp)[1];
  }

  lemma ThreeBytes(b: string, i: nat, cp: int)
    requires Scalar(cp) && |Rune(cp)| == 3 && Stands(b, i, cp)
    ensures CharAt(b, i, 3) && CodePoint(b, i, 3) == cp
  {
    assert b[i+0] == Rune(cp)[0] && b[i+1] == Rune(cp)[1] && b[i+2] == Rune(cp)[2];
  }

  lemma FourBytes(b: string, i: nat, cp: int)
    requires Scalar(cp) && |Rune(cp)| == 4 && Stands(b, i, cp)
    ensures CharAt(b, i, 4) && CodePoint(b, i, 4) == cp
  {
    assert b[i+0] == Rune(cp)[0] && b[i+1] == Rune(cp)[1] && b[i+2] == Rune(cp)[2] && b[i+3] == Rune(cp)[3];
  }

  /** A character is judged by its own bytes, wherever they stand. */
  lemma CharShift(p: string, s: string, j: nat, n: nat)
    ensures CharAt(p + s, |p| + j, n) == CharAt(s, j, n)
  {
    if 1 <= n <= 4 && j + n <= |s| {
      assert (p + s)[|p| + j..|p| + j + n] == s[j..j + n];
      assert (p + s)[|p| + j] == s[j];
      if CharAt(s, j, n) {
        forall k | |p| + j < k < |p| + j + n ensures Continuation((p + s)[k]) {
          assert (p + s)[k] == s[k - |p|];
        }
      } else if CharAt(p + s, |p| + j, n) {
        forall k | j < k < j + n ensures Continuation(s[k]) {
          assert (p + s)[|p| + k] == s[k];
        }
      }
    }
  }

  lemma {:induction false} ValidShift(p: string, s: string, j: nat)
    requires j <= |s|
    ensures ValidFrom(p + s, |p| + j) == ValidFrom(s, j)
    decreases |s| - j
  {
    if j < |s| {
      var n := Announced(s[j]);
      assert (p + s)[|p| + j] == s[j];
      CharShift(p, s, j, n);
      if CharAt(s, j, n) { ValidShift(p, s, j + n); }
    }
  }

  /** The code points of an accepted text. */
  function Decoded(b: string): (cps: seq<int>)
    requires Valid(b)
    ensures forall cp :: cp in cps ==> Scalar(cp)
    ensures Encoded(cps) == b
  {
    if b == "" then [] else
      var n := Announced(b[0]);
      CharIsRune(b, 0, n);
      assert b[..n] + b[n..] == b;
      ValidShift(b[..n], b[n..], 0);
      var rest := Decoded(b[n..]);
      var cps := [CodePoint(b, 0, n)] + rest;
      assert cps[1..] == rest;
      cps
  }

  lemma {:induction false} EncodedIsValid(cps: seq<int>)
    requires forall cp :: cp in cps ==> Scalar(cp)
    ensures Valid(Encoded(cps))
  {
    if cps != [] {
      assert Scalar(cps[0]);
      var r, rest := Rune(cps[0]), Encoded(cps[1..]);
      EncodedIsValid(cps[1..]);
      assert (r + rest)[0..|r|] == r;
      RuneIsChar(r + rest, 0, cps[0]);
      assert Announced((r + rest)[0]) == |r|;
      ValidShift(r, rest, 0);
    }
  }

  /** The validator accepts exactly the concatenations of `appendRune` over Unicode scalar values. */
  lemma ValidExactly(b: string)
    ensures Valid(b) <==> exists cps :: (forall cp :: cp in cps ==> Scalar(cp)) && Encoded(cps) == b
  {
    if Valid(b) {
      assert Encoded(Decoded(b)) == b;
    }
    if cps :| (forall cp :: cp in cps ==> Scalar(cp)) && Encoded(cps) == b {
      EncodedIsValid(cps);
    }
  }

  lemma {:induction false} ValidConcat(a: string, b: string)
    requires Valid(a)
    ensures Valid(a + b) == Valid(b)
    decreases |a|
  {
    if a == "" {
      assert a + b == b;
    } else {
      var n := Announced(a[0]);
      CharAppend(a, b, n);
      assert a[..n] + a[n..] == a && a[..n] + (a[n..] + b) == a + b;
      ValidShift(a[..n], a[n..], 0);
      ValidShift(a[..n], a[n..] + b, 0);
      ValidConcat(a[n..], b);
    }
  }

  lemma CharAppend(a: string, b: string, n: nat)
    requires CharAt(a, 0, n)
    ensures CharAt(a + b, 0, n)
  {
    forall k | 0 <= k < n ensures (a + b)[k] == a[k] {}
    forall k | 0 < k < n ensures Continuation((a + b)[k]) { assert Continuation(a[k]); }
  }

  lemma CharCut(b: string, n: nat)
    requires b != "" && CharAt(b, 0, Announced(b[0])) && 0 < n < |b| && !Continuation(b[n])
    ensures Announced(b[0]) <= n && Valid(b[..Announced(b[0])])
  {
    var m := Announced(b[0]);
    forall k | 0 < k < m ensures b[k] != b[n] { assert Continuation(b[k]); }
    assert m <= n;
    assert b[..m][0] == b[0];
    forall k | 0 < k < m ensures Continuation(b[..m][k]) { assert Continuation(b[k]); }
    assert CharAt(b[..m], 0, m);
  }

  /** A text cut where a character may start is a text: what cutting a message relies on. */
  lemma {:induction false} ValidCut(b: string, n: nat)
    requires Valid(b) && n < |b| && !Continuation(b[n])
    ensures Valid(b[..n])
    decreases |b|
  {
    hide Valid, CharAt, Continuation, Announced;
    if n == 0 {
      NothingIsValid();
    } else {
      var m := Announced(b[0]);
      StartsWithChar(b);
      CharCut(b, n);
      assert b[..m] + b[m..] == b;
      ValidConcat(b[..m], b[m..]);
      ValidCut(b[m..], n - m);
      assert b[m..][..n-m] == b[m..n] && b[..n] == b[..m] + b[m..n];
      ValidConcat(b[..m], b[m..n]);
    }
  }

  lemma NothingIsValid()
    ensures Valid("")
  {
  }

  lemma StartsWithChar(b: string)
    requires Valid(b) && b != ""
    ensures CharAt(b, 0, Announced(b[0])) && 1 <= Announced(b[0]) <= |b|
  {
  }

  lemma {:induction false} AsciiValid(b: string)
    requires forall k :: 0 <= k < |b| ==> b[k] as int < 0x80
    ensures Valid(b)
  {
    if b != "" {
      AsciiValid(b[1..]);
      assert [b[0]] + b[1..] == b;
      ValidShift([b[0]], b[1..], 0);
    }
  }

  /** The validator's loop: one character a turn. */
  method ValidUTF8(b: string) returns (ok: bool)
    ensures ok == Valid(b)
  {
    var i := 0;
    while i < |b|
      invariant 0 <= i <= |b|
      invariant Valid(b) == ValidFrom(b, i)
    {
      var n := CharLength(b, i);
      if n == 0 { return false; }
      i := i + n;
    }
    return true;
  }

  /** One turn: the lead byte announces a length, the code point is gathered six bits
      at a time and then judged by its range. 0 refuses. */
  method CharLength(b: string, i: nat) returns (n: nat)
    requires i < |b|
    ensures n == if CharAt(b, i, Announced(b[i])) then Announced(b[i]) else 0
  {
    var c := b[i] as int;
    var cp;
    if c < 0x80 {
      return 1;
    } else if c / 32 == 6 {
      n, cp := 2, c % 32;
    } else if c / 16 == 14 {
      n, cp := 3, c % 16;
    } else if c / 8 == 30 {
      n, cp := 4, c % 8;
    } else {
      return 0;
    }
    if i + n > |b| { return 0; }
    ghost var lead := cp;
    var k := 1;
    while k < n
      invariant 1 <= k <= n
      invariant forall j :: i < j < i + k ==> Continuation(b[j])
      invariant cp == Gathered(b, i, k, lead)
    {
      if b[i+k] as int / 64 != 2 { return 0; }
      cp := cp * 64 + b[i+k] as int % 64;
      k := k + 1;
    }
    GatheredIsCodePoint(b, i, n, lead);
    JudgedByRange(b, i, n);
    if cp < Lowest(n) || cp > 0x10FFFF || (cp >= 0xD800 && cp <= 0xDFFF) { return 0; }
  }

  /** Once the bytes are continuations, the code point's range decides. */
  lemma JudgedByRange(b: string, i: nat, n: nat)
    requires 2 <= n <= 4 && i + n <= |b| && Announced(b[i]) == n && forall k :: i < k < i + n ==> Continuation(b[k])
    ensures CharAt(b, i, n) <==> Lowest(n) <= CodePoint(b, i, n) && Scalar(CodePoint(b, i, n))
  {
    hide CodePoint;
  }

  lemma GatheredIsCodePoint(b: string, i: nat, n: nat, lead: int)
    requires 2 <= n <= 4 && i + n <= |b| && Announced(b[i]) == n
    requires forall k :: i < k < i + n ==> Continuation(b[k])
    requires lead == b[i] as int % [32, 16, 8][n-2]
    ensures Gathered(b, i, n, lead) == CodePoint(b, i, n)
  {
    assert Gathered(b, i, 1, lead) == lead;
    assert Gathered(b, i, 2, lead) == lead * 64 + b[i+1] as int % 64;
    if n > 2 { assert Gathered(b, i, 3, lead) == Gathered(b, i, 2, lead) * 64 + b[i+2] as int % 64; }
  }

  ghost function Gathered(b: string, i: nat, k: nat, lead: int): int
    requires 1 <= k && i + k <= |b|
  {
    if k == 1 then lead else Gathered(b, i, k - 1, lead) * 64 + b[i+k-1] as int % 64
  }
}
