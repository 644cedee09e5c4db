/** The grammar of values and containers (RFC 8259) as a relation on positions, and that the readers accept
    exactly it. */
module Grammar {
  import opened Decimal
  import opened Lexer
  import opened Parser
  import opened Depth
  import opened Tokens
  import opened RoundTrip

  // ---- containers by their spans ----

  /** Where an item of a container stands. */
  datatype Span = Span(from: nat, to: nat)

  /** An item between a and b, blanks around it, and the comma and the items that follow. */
  ghost predicate Items(buf: string, a: nat, b: nat, xs: seq<Span>)
    decreases |xs|
  {
    xs != [] && exists e: nat :: Item(buf, a, e, xs[0]) && Follows(buf, e, b, xs)
  }

  ghost predicate Follows(buf: string, e: nat, b: nat, xs: seq<Span>)
    requires xs != []
    decreases |xs|, 0
  {
    e <= b <= |buf| && (if |xs| == 1 then e == b else e < b && buf[e] as int == 44 && Items(buf, e + 1, b, xs[1..]))
  }

  predicate Item(buf: string, a: nat, e: nat, x: Span) {
    Gap(buf, a, x.from) && x.from < x.to && Gap(buf, x.to, e)
  }

  /** A list: brackets around nothing but blanks, or around items. */
  ghost predicate ListText(buf: string, a: nat, b: nat, xs: seq<Span>) {
    a + 2 <= b <= |buf| && buf[a] as int == 91 && buf[b-1] as int == 93
    && (if xs == [] then Gap(buf, a + 1, b - 1) else Items(buf, a + 1, b - 1, xs))
  }

  /** A member of an object: its key, and where its value stands. */
  datatype Entry = Entry(key: string, value: Span)

  ghost predicate Members(buf: string, a: nat, b: nat, es: seq<Entry>)
    decreases |es|
  {
    es != [] && exists e: nat :: MemberAt(buf, a, e, es[0]) && MoreMembers(buf, e, b, es)
  }

  ghost predicate MoreMembers(buf: string, e: nat, b: nat, es: seq<Entry>)
    requires es != []
    decreases |es|, 0
  {
    e <= b <= |buf| && (if |es| == 1 then e == b else e < b && buf[e] as int == 44 && Members(buf, e + 1, b, es[1..]))
  }

  /** Blanks, a string, blanks, a colon, blanks, the value, blanks. */
  ghost predicate MemberAt(buf: string, a: nat, e: nat, m: Entry) {
    KeyText(buf, a, m.key, m.value.from) && m.value.from < m.value.to && Gap(buf, m.value.to, e)
  }

  ghost predicate KeyText(buf: string, a: nat, key: string, v: nat) {
    exists c: nat, k: nat, d: nat :: KeyParts(buf, a, c, k, d, key, v)
  }

  predicate KeyParts(buf: string, a: nat, c: nat, k: nat, d: nat, key: string, v: nat) {
    Gap(buf, a, c) && StrAt(buf, c) == Ok(key, k) && Gap(buf, k, d) && d < |buf| && buf[d] as int == 58 && Gap(buf, d + 1, v)
  }

  ghost predicate ObjectText(buf: string, a: nat, b: nat, es: seq<Entry>) {
    a + 2 <= b <= |buf| && buf[a] as int == 123 && buf[b-1] as int == 125
    && (if es == [] then Gap(buf, a + 1, b - 1) else Members(buf, a + 1, b - 1, es))
  }

  // ---- the pieces of a container, as the readers find them ----

  /** Something that is not a blank stands here. */
  predicate Solid(buf: string, p: nat) { p < |buf| && !IsBlank(buf[p]) }

  lemma WsThere(buf: string, a: nat, p: nat)
    requires Gap(buf, a, p) && Solid(buf, p)
    ensures Ws(buf, a) == p
  {
    WsExactly(buf, a, p);
  }

  lemma WsIsGap(buf: string, a: nat)
    requires a <= |buf|
    ensures Gap(buf, a, Ws(buf, a)) && (Ws(buf, a) < |buf| ==> Solid(buf, Ws(buf, a)))
  {
    WsExactly(buf, a, Ws(buf, a));
  }

  /** A key is read exactly where its text stands, up to something solid. */
  lemma KeyExactly(buf: string, a: nat, key: string, v: nat)
    requires a <= |buf| && Solid(buf, v)
    ensures KeyAt(buf, a) == Ok(key, v) <==> KeyText(buf, a, key, v)
  {
    hide StrAt, Gap, Ws;
    if KeyText(buf, a, key, v) {
      var c: nat, k: nat, d: nat :| KeyParts(buf, a, c, k, d, key, v);
      StringStarts(buf, c, key, k);
      WsThere(buf, a, c);
      WsThere(buf, k, d);
      WsThere(buf, d + 1, v);
    }
    if KeyAt(buf, a) == Ok(key, v) { KeyIs(buf, a); }
  }

  lemma KeyIs(buf: string, a: nat)
    requires a <= |buf| && KeyAt(buf, a).Ok?
    ensures KeyText(buf, a, KeyAt(buf, a).value, KeyAt(buf, a).pos)
  {
    hide StrAt, Gap, Ws;
    var c := Ws(buf, a);
    var k := StrAt(buf, c);
    var d := Ws(buf, k.pos);
    WsIsGap(buf, a);
    WsIsGap(buf, k.pos);
    WsIsGap(buf, d + 1);
    assert KeyParts(buf, a, c, k.pos, d, KeyAt(buf, a).value, KeyAt(buf, a).pos);
  }

  lemma StringStarts(buf: string, c: nat, key: string, k: nat)
    requires c <= |buf| && StrAt(buf, c) == Ok(key, k)
    ensures Solid(buf, c) && buf[c] == '"' && k <= |buf|
  {
  }

  /** What stands behind an item: a comma, or the closing byte. */
  lemma AfterExactly(buf: string, p: nat, e: nat, shut: char)
    requires p <= |buf| && (shut == ']' || shut == '}')
    ensures Gap(buf, p, e) && e < |buf| && buf[e] as int == 44 ==> After(buf, p, shut) == Next.More(e + 1)
    ensures Gap(buf, p, e) && e < |buf| && buf[e] == shut ==> After(buf, p, shut) == Shut(e + 1)
  {
    if Gap(buf, p, e) && e < |buf| && (buf[e] as int == 44 || buf[e] == shut) { WsThere(buf, p, e); }
  }

  lemma AfterIs(buf: string, p: nat, shut: char)
    requires p <= |buf| && (shut == ']' || shut == '}')
    ensures var n := After(buf, p, shut);
      && (n.More? ==> Gap(buf, p, n.pos - 1) && p < n.pos <= |buf| && buf[n.pos-1] as int == 44)
      && (n.Shut? ==> Gap(buf, p, n.pos - 1) && p < n.pos <= |buf| && buf[n.pos-1] == shut)
  {
    WsIsGap(buf, p);
  }

  // ---- values ----

  /** A value from a to b: a string, a number, one of three words, or a container of values. */
  ghost predicate Value(buf: string, a: nat, b: nat)
    decreases b - a, 1
  {
    || LeafText(buf, a, b)
    || (exists xs: seq<Span> :: ListText(buf, a, b, xs) && ValuesOf(buf, a, b, xs))
    || (exists es: seq<Entry> :: ObjectText(buf, a, b, es) && ValuesOf(buf, a, b, Spans(es)))
  }

  /** Every span lies inside and holds a value. */
  ghost predicate ValuesOf(buf: string, a: nat, b: nat, xs: seq<Span>)
    decreases b - a, 0
  {
    forall i :: 0 <= i < |xs| ==> a < xs[i].from && xs[i].from <= xs[i].to < b && Value(buf, xs[i].from, xs[i].to)
  }

  ghost predicate LeafText(buf: string, a: nat, b: nat) {
    || (a <= |buf| && exists s :: StrAt(buf, a) == Ok(s, b))
    || IsNumber(buf, a, b)
    || (a <= b <= |buf| && (buf[a..b] == "true" || buf[a..b] == "false" || buf[a..b] == "null"))
  }

  function Spans(es: seq<Entry>): (xs: seq<Span>)
    ensures |xs| == |es|
  {
    seq(|es|, i requires 0 <= i < |es| => es[i].value)
  }

  // ---- what the walk takes is in the grammar ----

  lemma LeafWalked(buf: string, a: nat)
    requires a <= |buf| && At(buf, a) != '{' && At(buf, a) != '[' && Skip(buf, a, 0).Ok?
    ensures LeafText(buf, a, Skip(buf, a, 0).pos)
  {
    hide SkipNumber, StrAt, IsNumber;
    var b := Skip(buf, a, 0).pos;
    if At(buf, a) == '"' {
      assert StrAt(buf, a) == Ok(StrAt(buf, a).value, b);
    } else if At(buf, a) == '-' || Digit(At(buf, a)) {
      NumberWritten(buf, a);
    }
  }

  lemma {:induction false} WalkIsValue(buf: string, a: nat)
    requires a <= |buf| && Walk(buf, a).Ok?
    ensures Value(buf, a, Walk(buf, a).pos)
    decreases |buf| - a, 0
  {
    hide WalkItems, Items, Members, Skip, LeafText, Ws;
    var c, b := At(buf, a), Walk(buf, a).pos;
    if c == '[' {
      var p := Ws(buf, a + 1);
      WsIsGap(buf, a + 1);
      if At(buf, p) == ']' {
        assert ListText(buf, a, b, []);
      } else {
        var xs := WalkIsItems(buf, a, p);
        ItemsEarlier(buf, a + 1, p, b - 1, xs);
        assert ListText(buf, a, b, xs);
      }
    } else if c == '{' {
      var p := Ws(buf, a + 1);
      WsIsGap(buf, a + 1);
      if At(buf, p) == '}' {
        assert ObjectText(buf, a, b, []);
      } else {
        var es := WalkIsMembers(buf, a, p);
        MembersEarlier(buf, a + 1, p, b - 1, es);
        assert ObjectText(buf, a, b, es);
      }
    } else {
      LeafWalked(buf, a);
    }
  }

  lemma GapsJoin(buf: string, a: nat, p: nat, q: nat)
    requires Gap(buf, a, p) && Gap(buf, p, q)
    ensures Gap(buf, a, q)
  {
  }

  /** Items may begin in the blanks before them. */
  lemma ItemsEarlier(buf: string, a: nat, p: nat, b: nat, xs: seq<Span>)
    requires Gap(buf, a, p) && Items(buf, p, b, xs)
    ensures Items(buf, a, b, xs)
  {
    hide Gap;
    var e: nat :| Item(buf, p, e, xs[0]) && Follows(buf, e, b, xs);
    GapsJoin(buf, a, p, xs[0].from);
    assert Item(buf, a, e, xs[0]);
  }

  lemma MembersEarlier(buf: string, a: nat, p: nat, b: nat, es: seq<Entry>)
    requires Gap(buf, a, p) && Members(buf, p, b, es)
    ensures Members(buf, a, b, es)
  {
    hide Gap, StrAt;
    var e: nat :| MemberAt(buf, p, e, es[0]) && MoreMembers(buf, e, b, es);
    var c: nat, k: nat, d: nat :| KeyParts(buf, p, c, k, d, es[0].key, es[0].value.from);
    GapsJoin(buf, a, p, c);
    assert KeyParts(buf, a, c, k, d, es[0].key, es[0].value.from);
    assert MemberAt(buf, a, e, es[0]);
  }

  lemma {:induction false} WalkIsItems(buf: string, o: nat, a: nat) returns (xs: seq<Span>)
    requires o < a <= |buf| && WalkItems(buf, a, '[').Ok?
    ensures var b := WalkItems(buf, a, '[').pos; b >= 1 && buf[b-1] == ']' && xs != [] && Items(buf, a, b - 1, xs) && ValuesOf(buf, o, b, xs)
    decreases |buf| - a, 1
  {
    hide Walk, Ws, After, Value, Gap;
    var p := Ws(buf, a);
    WsIsGap(buf, a);
    WalkIsValue(buf, p);
    var q := Walk(buf, p).pos;
    AfterIs(buf, q, ']');
    var n := After(buf, q, ']');
    var x, b := Span(p, q), WalkItems(buf, a, '[').pos;
    assert Item(buf, a, n.pos - 1, x);
    if n.More? {
      var rest := WalkIsItems(buf, o, n.pos);
      xs := [x] + rest;
      assert xs[1..] == rest;
      assert Follows(buf, n.pos - 1, b - 1, xs);
    } else {
      xs := [x];
      assert Follows(buf, n.pos - 1, b - 1, xs);
    }
  }

  lemma {:induction false} WalkIsMembers(buf: string, o: nat, a: nat) returns (es: seq<Entry>)
    requires o < a <= |buf| && WalkItems(buf, a, '{').Ok?
    ensures var b := WalkItems(buf, a, '{').pos; b >= 1 && buf[b-1] == '}' && es != [] && Members(buf, a, b - 1, es) && ValuesOf(buf, o, b, Spans(es))
    decreases |buf| - a, 1
  {
    hide Walk, Ws, After, Value, Gap, KeyAt, KeyText;
    var k := KeyAt(buf, a);
    KeyIs(buf, a);
    WalkIsValue(buf, k.pos);
    var q := Walk(buf, k.pos).pos;
    AfterIs(buf, q, '}');
    var n := After(buf, q, '}');
    var m, b := Entry(k.value, Span(k.pos, q)), WalkItems(buf, a, '{').pos;
    assert MemberAt(buf, a, n.pos - 1, m);
    if n.More? {
      var rest := WalkIsMembers(buf, o, n.pos);
      es := [m] + rest;
      assert es[1..] == rest;
      assert MoreMembers(buf, n.pos - 1, b - 1, es);
      assert forall i :: 0 < i < |es| ==> Spans(es)[i] == Spans(rest)[i-1];
    } else {
      es := [m];
      assert MoreMembers(buf, n.pos - 1, b - 1, es);
    }
  }

  // ---- and what is in the grammar is walked ----

  lemma LeafRead(buf: string, a: nat, b: nat)
    requires LeafText(buf, a, b) && !Clings(At(buf, b))
    ensures a < b <= |buf| && Solid(buf, a) && buf[a] != '[' && buf[a] != '{' && Skip(buf, a, 0) == Ok((), b)
  {
    hide SkipNumber, StrAt, IsNumber;
    if a <= |buf| && exists s :: StrAt(buf, a) == Ok(s, b) {
      var s :| StrAt(buf, a) == Ok(s, b);
      StringStarts(buf, a, s, b);
    } else if IsNumber(buf, a, b) {
      NumberRead(buf, a, b);
      NumberStarts(buf, a);
    } else {
      assert buf[a..b][0] == buf[a];
    }
    assert Skip(buf, a, 0).Ok? ==> Skip(buf, a, 0).value == ();
  }

  lemma NumberStarts(buf: string, a: nat)
    requires a < |buf| && SkipNumber(buf, a).Ok?
    ensures buf[a] == '-' || Digit(buf[a])
  {
  }

  /** A value begins with something solid and does not end where it begins. */
  lemma ValueIs(buf: string, a: nat, b: nat)
    requires Value(buf, a, b) && !Clings(At(buf, b))
    ensures a < b <= |buf| && Solid(buf, a)
  {
    hide Items, Members, Gap, LeafText;
    if LeafText(buf, a, b) { LeafRead(buf, a, b); }
  }

  /** Nothing numeric stands where an item of a container ends. */
  lemma EndsSolidly(buf: string, q: nat, e: nat)
    requires Gap(buf, q, e) && (e < |buf| ==> buf[e] == ',' || buf[e] == ']' || buf[e] == '}')
    ensures !Clings(At(buf, q))
  {
  }

  lemma {:induction false} ValueWalked(buf: string, a: nat, b: nat)
    requires Value(buf, a, b) && !Clings(At(buf, b))
    ensures a < b <= |buf| && Walk(buf, a).Ok? && Walk(buf, a).pos == b
    decreases b - a, 2
  {
    hide WalkItems, Items, Members, Gap, LeafText, Skip, Ws;
    ValueIs(buf, a, b);
    if LeafText(buf, a, b) {
      LeafRead(buf, a, b);
    } else if exists xs: seq<Span> :: ListText(buf, a, b, xs) && ValuesOf(buf, a, b, xs) {
      var xs: seq<Span> :| ListText(buf, a, b, xs) && ValuesOf(buf, a, b, xs);
      if xs == [] {
        WsThere(buf, a + 1, b - 1);
      } else {
        ItemsWalked(buf, a, b, a + 1, b - 1, xs);
        WalkLater(buf, a + 1, '[');
      }
    } else {
      var es: seq<Entry> :| ObjectText(buf, a, b, es) && ValuesOf(buf, a, b, Spans(es));
      if es == [] {
        WsThere(buf, a + 1, b - 1);
      } else {
        MembersWalked(buf, a, b, a + 1, b - 1, es);
        WalkLater(buf, a + 1, '{');
      }
    }
  }

  /** The walk of a container's items may begin in the blanks before them. */
  lemma WalkLater(buf: string, a: nat, open: char)
    requires a <= |buf| && (open == '[' || open == '{') && WalkItems(buf, a, open).Ok?
    ensures WalkItems(buf, Ws(buf, a), open) == WalkItems(buf, a, open)
    ensures At(buf, Ws(buf, a)) != Shutter(open)
  {
    hide Walk, After, StrAt, Ws;
    WsIsGap(buf, a);
    WsExactly(buf, Ws(buf, a), Ws(buf, a));
    if open == '[' { NothingShut(buf, Ws(buf, a)); }
  }

  lemma NothingShut(buf: string, p: nat)
    requires p <= |buf| && Walk(buf, p).Ok?
    ensures At(buf, p) != ']' && At(buf, p) != '}'
  {
    hide WalkItems, StrAt, SkipNumber;
  }

  lemma {:induction false} ItemsWalked(buf: string, o: nat, u: nat, a: nat, b: nat, xs: seq<Span>)
    requires Items(buf, a, b, xs) && b < |buf| && buf[b] == ']' && ValuesOf(buf, o, u, xs)
    ensures WalkItems(buf, a, '[').Ok? && WalkItems(buf, a, '[').pos == b + 1
    decreases u - o, 1, |xs|
  {
    hide Walk, Ws, After, Value, Gap;
    var e: nat :| Item(buf, a, e, xs[0]) && Follows(buf, e, b, xs);
    var x := xs[0];
    assert Value(buf, x.from, x.to);
    EndsSolidly(buf, x.to, e);
    ValueWalked(buf, x.from, x.to);
    ValueIs(buf, x.from, x.to);
    WsThere(buf, a, x.from);
    AfterExactly(buf, x.to, e, ']');
    if |xs| > 1 {
      assert ValuesOf(buf, o, u, xs[1..]);
      ItemsWalked(buf, o, u, e + 1, b, xs[1..]);
    }
  }

  lemma {:induction false} MembersWalked(buf: string, o: nat, u: nat, a: nat, b: nat, es: seq<Entry>)
    requires Members(buf, a, b, es) && b < |buf| && buf[b] == '}' && ValuesOf(buf, o, u, Spans(es))
    ensures WalkItems(buf, a, '{').Ok? && WalkItems(buf, a, '{').pos == b + 1
    decreases u - o, 1, |es|
  {
    hide Walk, Ws, After, Value, Gap, KeyAt, KeyText;
    var e: nat :| MemberAt(buf, a, e, es[0]) && MoreMembers(buf, e, b, es);
    var x := es[0].value;
    assert Spans(es)[0] == x;
    EndsSolidly(buf, x.to, e);
    ValueWalked(buf, x.from, x.to);
    ValueIs(buf, x.from, x.to);
    KeyBegins(buf, a, es[0].key, x.from);
    KeyExactly(buf, a, es[0].key, x.from);
    AfterExactly(buf, x.to, e, '}');
    if |es| > 1 {
      assert forall i :: 0 <= i < |es| - 1 ==> Spans(es[1..])[i] == Spans(es)[i+1];
      assert ValuesOf(buf, o, u, Spans(es[1..]));
      MembersWalked(buf, o, u, e + 1, b, es[1..]);
    }
  }

  lemma KeyBegins(buf: string, a: nat, key: string, v: nat)
    requires KeyText(buf, a, key, v)
    ensures a <= |buf|
  {
    hide StrAt;
  }

  /** What the skipper walks is the grammar: a value ends here, and its nesting fits. */
  lemma ValueExactly(buf: string, a: nat, b: nat)
    requires a <= |buf| && !Clings(At(buf, b))
    ensures Value(buf, a, b) <==> Walk(buf, a).Ok? && Walk(buf, a).pos == b
  {
    hide Walk, Value;
    if Value(buf, a, b) { ValueWalked(buf, a, b); }
    if Walk(buf, a).Ok? && Walk(buf, a).pos == b { WalkIsValue(buf, a); }
  }

  /** So an opaque value is accepted, up to b, exactly if it is a value of the grammar nested no deeper than the
      limit allows. */
  lemma OpaqueExactly(buf: string, a: nat, b: nat, depth: nat)
    requires a <= |buf| && !Clings(At(buf, b))
    ensures Skip(buf, a, depth) == Ok((), b) <==> Value(buf, a, b) && Walk(buf, a).Ok? && Below(depth, Walk(buf, a).value)
  {
    hide Walk, Value, Skip, Below;
    ValueExactly(buf, a, b);
    SkipExactly(buf, a, depth);
    assert Skip(buf, a, depth).Ok? ==> Skip(buf, a, depth).value == ();
  }
}
