/** What the typed readers of containers accept, stated over the members that stand in the text. */
module Objects {
  import opened Decimal
  import opened Lexer
  import opened Schema
  import opened Parser
  import opened Tokens
  import opened Grammar

  /** A value that is accepted begins with something solid. */
  lemma ParsedSolid(k: Kind, buf: string, p: nat, depth: nat)
    requires p <= |buf| && WfKind(k) && Parse(k, buf, p, depth).Ok?
    ensures Solid(buf, p)
  {
    hide Parse, WfKind;
    SkipFollows(k, buf, p, depth);
    SkipSolid(buf, p, depth);
  }

  lemma SkipSolid(buf: string, p: nat, depth: nat)
    requires p <= |buf| && Skip(buf, p, depth).Ok?
    ensures Solid(buf, p)
  {
    hide SkipItems, StrAt, SkipNumber;
  }

  // ---- lists ----

  ghost predicate Elements(e: Kind, buf: string, depth: nat, xs: seq<Span>, vs: seq<Val>)
    requires WfKind(e)
  {
    |xs| == |vs| && forall i :: 0 <= i < |xs| ==> ElementAt(e, buf, depth, xs[i], vs[i])
  }

  predicate ElementAt(e: Kind, buf: string, depth: nat, x: Span, v: Val)
    requires WfKind(e)
  {
    x.from <= |buf| && Parse(e, buf, x.from, depth) == Ok(v, x.to)
  }

  lemma {:induction false} ItemsRead(e: Kind, buf: string, a: nat, b: nat, depth: nat, xs: seq<Span>, vs: seq<Val>, acc: seq<Val>)
    requires WfKind(e) && Items(buf, a, b, xs) && b < |buf| && buf[b] == ']' && Elements(e, buf, depth, xs, vs)
    ensures a <= |buf| && ListItems(e, buf, a, depth, acc) == Ok(List(acc + vs), b + 1)
    decreases |xs|
  {
    hide Parse, Ws, After, Gap, WfKind;
    var q: nat :| Item(buf, a, q, xs[0]) && Follows(buf, q, b, xs);
    assert ElementAt(e, buf, depth, xs[0], vs[0]);
    GapIs(buf, a, xs[0].from);
    ParsedSolid(e, buf, xs[0].from, depth);
    WsThere(buf, a, xs[0].from);
    AfterExactly(buf, xs[0].to, q, ']');
    if |xs| > 1 {
      ItemsRead(e, buf, q + 1, b, depth, xs[1..], vs[1..], acc + [vs[0]]);
      assert acc + [vs[0]] + vs[1..] == acc + vs;
    } else {
      assert acc + [vs[0]] == acc + vs;
    }
  }

  lemma GapIs(buf: string, a: nat, b: nat)
    requires Gap(buf, a, b)
    ensures a <= b <= |buf|
  {
  }

  lemma {:induction false} ItemsFound(e: Kind, buf: string, a: nat, depth: nat, acc: seq<Val>) returns (xs: seq<Span>, vs: seq<Val>)
    requires a <= |buf| && WfKind(e) && ListItems(e, buf, a, depth, acc).Ok?
    ensures var r := ListItems(e, buf, a, depth, acc);
      r.pos >= 1 && buf[r.pos-1] == ']' && Items(buf, a, r.pos - 1, xs) && Elements(e, buf, depth, xs, vs) && r.value == List(acc + vs)
    decreases |buf| - a
  {
    hide Parse, Ws, After, Gap, WfKind;
    var p := Ws(buf, a);
    WsIsGap(buf, a);
    var v := Parse(e, buf, p, depth);
    AfterIs(buf, v.pos, ']');
    var n := After(buf, v.pos, ']');
    var x, b := Span(p, v.pos), ListItems(e, buf, a, depth, acc).pos;
    assert Item(buf, a, n.pos - 1, x);
    if n.More? {
      var ys, ws := ItemsFound(e, buf, n.pos, depth, acc + [v.value]);
      xs, vs := [x] + ys, [v.value] + ws;
      assert xs[1..] == ys && acc + [v.value] + ws == acc + vs;
    } else {
      xs, vs := [x], [v.value];
    }
    assert Follows(buf, n.pos - 1, b - 1, xs);
  }

  /** A list is accepted exactly if it is a list in the grammar, one level further down, each of whose items
      the element's reader accepts whole; and its value is their values in order. */
  lemma ListExactly(e: Kind, buf: string, a: nat, b: nat, depth: nat, vs: seq<Val>)
    requires a <= |buf| && WfKind(e)
    ensures Parse(Many(e), buf, a, depth) == Ok(List(vs), b) <==>
      depth < DEPTH_LIMIT && exists xs :: ListText(buf, a, b, xs) && Elements(e, buf, depth + 1, xs, vs)
  {
    hide Items, Elements, Gap, Ws, ListItems;
    if Parse(Many(e), buf, a, depth) == Ok(List(vs), b) {
      var p := Ws(buf, a + 1);
      WsIsGap(buf, a + 1);
      NoElements(e, buf, depth + 1);
      if At(buf, p) == ']' {
        assert ListText(buf, a, b, []);
      } else {
        var xs, ws := ItemsFound(e, buf, p, depth + 1, []);
        ItemsEarlier(buf, a + 1, p, b - 1, xs);
        ItemsAreSome(buf, p, b - 1, xs);
        assert [] + ws == ws;
        assert ListText(buf, a, b, xs);
      }
    }
    forall xs | depth < DEPTH_LIMIT && ListText(buf, a, b, xs) && Elements(e, buf, depth + 1, xs, vs)
      ensures Parse(Many(e), buf, a, depth) == Ok(List(vs), b)
    {
      ListTaken(e, buf, a, b, depth, xs, vs);
    }
  }

  lemma ItemsAreSome(buf: string, a: nat, b: nat, xs: seq<Span>)
    requires Items(buf, a, b, xs)
    ensures xs != []
  {
  }

  lemma NoElements(e: Kind, buf: string, depth: nat)
    requires WfKind(e)
    ensures forall vs :: Elements(e, buf, depth, [], vs) <==> vs == []
  {
  }

  lemma ListTaken(e: Kind, buf: string, a: nat, b: nat, depth: nat, xs: seq<Span>, vs: seq<Val>)
    requires a <= |buf| && WfKind(e) && depth < DEPTH_LIMIT && ListText(buf, a, b, xs) && Elements(e, buf, depth + 1, xs, vs)
    ensures Parse(Many(e), buf, a, depth) == Ok(List(vs), b)
  {
    hide Items, Elements, Gap, Ws, ListItems;
    NoElements(e, buf, depth + 1);
    if xs == [] {
      WsThere(buf, a + 1, b - 1);
    } else {
      ItemsRead(e, buf, a + 1, b - 1, depth + 1, xs, vs, []);
      assert [] + vs == vs;
      ListLater(e, buf, a + 1, depth + 1);
    }
  }

  /** The items may begin in the blanks before them. */
  lemma ListLater(e: Kind, buf: string, a: nat, depth: nat)
    requires a <= |buf| && WfKind(e) && ListItems(e, buf, a, depth, []).Ok?
    ensures ListItems(e, buf, Ws(buf, a), depth, []) == ListItems(e, buf, a, depth, []) && At(buf, Ws(buf, a)) != ']'
  {
    hide Parse, ListRest, Ws, WfKind;
    WsTwice(buf, a);
    NotShut(e, buf, Ws(buf, a), depth);
  }

  lemma WsTwice(buf: string, a: nat)
    requires a <= |buf|
    ensures Ws(buf, Ws(buf, a)) == Ws(buf, a)
  {
    hide Ws;
    WsIsGap(buf, a);
    WsExactly(buf, Ws(buf, a), Ws(buf, a));
  }

  lemma NotShut(k: Kind, buf: string, p: nat, depth: nat)
    requires p <= |buf| && WfKind(k) && Parse(k, buf, p, depth).Ok?
    ensures At(buf, p) != ']' && At(buf, p) != '}'
  {
    hide Parse, WfKind;
    SkipFollows(k, buf, p, depth);
    SkipNotShut(buf, p, depth);
  }

  lemma SkipNotShut(buf: string, p: nat, depth: nat)
    requires p <= |buf| && Skip(buf, p, depth).Ok?
    ensures At(buf, p) != ']' && At(buf, p) != '}'
  {
    hide SkipItems, StrAt, SkipNumber;
  }

  // ---- maps ----

  /** The members' values are strings, these ones. */
  ghost predicate Texts(buf: string, es: seq<Entry>, vals: seq<string>) {
    |es| == |vals| && forall i :: 0 <= i < |es| ==> TextAt(buf, es[i].value, vals[i])
  }

  predicate TextAt(buf: string, x: Span, val: string) { x.from <= |buf| && StrAt(buf, x.from) == Ok(val, x.to) }

  function Put(m: map<string, string>, es: seq<Entry>, vals: seq<string>): map<string, string>
    requires |es| == |vals|
    decreases |es|
  {
    if es == [] then m else Put(m[es[0].key := vals[0]], es[1..], vals[1..])
  }

  /** The map holds the keys that stand in the text, each with its last value. */
  ghost predicate LastWins(m: map<string, string>, es: seq<Entry>, vals: seq<string>)
    requires |es| == |vals|
  {
    && (forall k :: k in m ==> exists i :: 0 <= i < |es| && es[i].key == k)
    && (forall i :: 0 <= i < |es| ==> es[i].key in m)
    && (forall i :: 0 <= i < |es| && LastOf(es, i) ==> m[es[i].key] == vals[i])
  }

  predicate LastOf(es: seq<Entry>, i: nat)
    requires i < |es|
  {
    forall j :: i < j < |es| ==> es[j].key != es[i].key
  }

  predicate HasKey(es: seq<Entry>, k: string) { exists i :: 0 <= i < |es| && es[i].key == k }

  lemma HasKeyFirst(es: seq<Entry>, k: string)
    requires es != []
    ensures HasKey(es, k) <==> es[0].key == k || HasKey(es[1..], k)
  {
    if HasKey(es, k) {
      var i :| 0 <= i < |es| && es[i].key == k;
      if i > 0 { assert es[1..][i-1].key == k; }
    }
    if HasKey(es[1..], k) {
      var i :| 0 <= i < |es| - 1 && es[1..][i].key == k;
      assert es[i+1].key == k;
    }
  }

  lemma {:induction false} PutKeys(m: map<string, string>, es: seq<Entry>, vals: seq<string>, k: string)
    requires |es| == |vals|
    ensures k in Put(m, es, vals) <==> k in m || HasKey(es, k)
    ensures k in m && !HasKey(es, k) ==> Put(m, es, vals)[k] == m[k]
    decreases |es|
  {
    if es != [] {
      HasKeyFirst(es, k);
      PutKeys(m[es[0].key := vals[0]], es[1..], vals[1..], k);
    }
  }

  lemma {:induction false} PutLast(m: map<string, string>, es: seq<Entry>, vals: seq<string>, i: nat)
    requires |es| == |vals| && i < |es| && LastOf(es, i)
    ensures es[i].key in Put(m, es, vals) && Put(m, es, vals)[es[i].key] == vals[i]
    decreases |es|
  {
    var n := m[es[0].key := vals[0]];
    if i > 0 {
      assert forall j :: 0 <= j < |es| - 1 ==> es[1..][j] == es[j+1];
      PutLast(n, es[1..], vals[1..], i - 1);
    } else {
      PutKeys(n, es[1..], vals[1..], es[0].key);
    }
  }

  /** There is one such map. */
  lemma LastWinsOnce(m: map<string, string>, n: map<string, string>, es: seq<Entry>, vals: seq<string>)
    requires |es| == |vals| && LastWins(m, es, vals) && LastWins(n, es, vals)
    ensures m == n
  {
    forall k | k in m ensures k in n && n[k] == m[k] {
      var i :| 0 <= i < |es| && es[i].key == k;
      var j := LastIndex(es, i);
      assert es[j].key == k && LastOf(es, j);
    }
    forall k | k in n ensures k in m {
      var i :| 0 <= i < |es| && es[i].key == k;
    }
  }

  lemma {:induction false} LastIndex(es: seq<Entry>, i: nat) returns (j: nat)
    requires i < |es|
    ensures i <= j < |es| && es[j].key == es[i].key && LastOf(es, j)
    decreases |es| - i
  {
    if k :| i < k < |es| && es[k].key == es[i].key { j := LastIndex(es, k); } else { j := i; }
  }

  lemma TextSolid(buf: string, x: Span, val: string)
    requires TextAt(buf, x, val)
    ensures Solid(buf, x.from) && x.from < x.to <= |buf|
  {
  }

  lemma {:induction false} PairsRead(buf: string, a: nat, b: nat, es: seq<Entry>, vals: seq<string>, m: map<string, string>)
    requires Members(buf, a, b, es) && b < |buf| && buf[b] == '}' && Texts(buf, es, vals)
    ensures a <= |buf| && PairItems(buf, a, m) == Ok(Map(Put(m, es, vals)), b + 1)
    decreases |es|
  {
    hide Ws, After, Gap, KeyAt, KeyText, StrAt;
    var q: nat :| MemberAt(buf, a, q, es[0]) && MoreMembers(buf, q, b, es);
    var x := es[0].value;
    assert TextAt(buf, x, vals[0]);
    TextSolid(buf, x, vals[0]);
    KeyBegins(buf, a, es[0].key, x.from);
    KeyExactly(buf, a, es[0].key, x.from);
    AfterExactly(buf, x.to, q, '}');
    if |es| > 1 { PairsRead(buf, q + 1, b, es[1..], vals[1..], m[es[0].key := vals[0]]); }
    else { PutOne(m, es, vals); }
  }

  lemma PutOne(m: map<string, string>, es: seq<Entry>, vals: seq<string>)
    requires |es| == |vals| == 1
    ensures Put(m, es, vals) == m[es[0].key := vals[0]]
  {
    assert es[1..] == [] && vals[1..] == [];
  }

  lemma {:induction false} PairsFound(buf: string, a: nat, m: map<string, string>) returns (es: seq<Entry>, vals: seq<string>)
    requires a <= |buf| && PairItems(buf, a, m).Ok?
    ensures var r := PairItems(buf, a, m);
      r.pos >= 1 && buf[r.pos-1] == '}' && es != [] && Members(buf, a, r.pos - 1, es) && Texts(buf, es, vals) && r.value == Map(Put(m, es, vals))
    decreases |buf| - a
  {
    hide Ws, After, Gap, KeyAt, KeyText, StrAt;
    var k := KeyAt(buf, a);
    KeyIs(buf, a);
    var v := StrAt(buf, k.pos);
    AfterIs(buf, v.pos, '}');
    var n := After(buf, v.pos, '}');
    var x, b := Span(k.pos, v.pos), PairItems(buf, a, m).pos;
    TextSolid(buf, x, v.value);
    assert MemberAt(buf, a, n.pos - 1, Entry(k.value, x));
    if n.More? {
      var fs, ws := PairsFound(buf, n.pos, m[k.value := v.value]);
      es, vals := [Entry(k.value, x)] + fs, [v.value] + ws;
      assert es[1..] == fs && vals[1..] == ws;
    } else {
      es, vals := [Entry(k.value, x)], [v.value];
      PutOne(m, es, vals);
    }
    assert MoreMembers(buf, n.pos - 1, b - 1, es);
  }

  /** A map is accepted exactly if it is an object in the grammar whose values are strings; it holds the keys
      that stand there, a repeated one with its last value. */
  lemma MapExactly(buf: string, a: nat, b: nat, depth: nat, m: map<string, string>)
    requires a <= |buf|
    ensures Parse(Pairs, buf, a, depth) == Ok(Map(m), b) <==>
      depth < DEPTH_LIMIT && exists es, vals :: ObjectText(buf, a, b, es) && Texts(buf, es, vals) && |es| == |vals| && LastWins(m, es, vals)
  {
    hide Members, Gap, Ws, PairItems, Texts, LastWins, Put;
    if Parse(Pairs, buf, a, depth) == Ok(Map(m), b) {
      var p := Ws(buf, a + 1);
      WsIsGap(buf, a + 1);
      if At(buf, p) == '}' {
        NoTexts(buf);
        PutWins([], []);
        assert ObjectText(buf, a, b, []);
      } else {
        var es, vals := PairsFound(buf, p, map[]);
        MembersEarlier(buf, a + 1, p, b - 1, es);
        TextsCount(buf, es, vals);
        PutWins(es, vals);
        assert ObjectText(buf, a, b, es);
      }
    }
    forall es, vals | depth < DEPTH_LIMIT && ObjectText(buf, a, b, es) && Texts(buf, es, vals) && |es| == |vals| && LastWins(m, es, vals)
      ensures Parse(Pairs, buf, a, depth) == Ok(Map(m), b)
    {
      TextsCount(buf, es, vals);
      MapTaken(buf, a, b, depth, es, vals);
      PutWins(es, vals);
      LastWinsOnce(m, Put(map[], es, vals), es, vals);
    }
  }

  lemma NoTexts(buf: string)
    ensures Texts(buf, [], []) && Put(map[], [], []) == map[]
  {
  }

  lemma TextsCount(buf: string, es: seq<Entry>, vals: seq<string>)
    requires Texts(buf, es, vals)
    ensures |es| == |vals|
  {
  }

  lemma PutWins(es: seq<Entry>, vals: seq<string>)
    requires |es| == |vals|
    ensures LastWins(Put(map[], es, vals), es, vals)
  {
    hide Put, LastOf;
    var m := Put(map[], es, vals);
    forall k | k in m ensures exists i :: 0 <= i < |es| && es[i].key == k { PutKeys(map[], es, vals, k); }
    forall i | 0 <= i < |es| ensures es[i].key in m { PutKeys(map[], es, vals, es[i].key); }
    forall i | 0 <= i < |es| && LastOf(es, i) ensures m[es[i].key] == vals[i] { PutLast(map[], es, vals, i); }
  }

  lemma MapTaken(buf: string, a: nat, b: nat, depth: nat, es: seq<Entry>, vals: seq<string>)
    requires a <= |buf| && depth < DEPTH_LIMIT && ObjectText(buf, a, b, es) && Texts(buf, es, vals) && |es| == |vals|
    ensures Parse(Pairs, buf, a, depth) == Ok(Map(Put(map[], es, vals)), b)
  {
    hide Members, Gap, Ws, PairItems, Texts;
    if es == [] {
      WsThere(buf, a + 1, b - 1);
    } else {
      PairsRead(buf, a + 1, b - 1, es, vals, map[]);
      PairsLater(buf, a + 1);
    }
  }

  lemma PairsLater(buf: string, a: nat)
    requires a <= |buf| && PairItems(buf, a, map[]).Ok?
    ensures PairItems(buf, Ws(buf, a), map[]) == PairItems(buf, a, map[]) && At(buf, Ws(buf, a)) != '}'
  {
    hide StrAt, Ws, After;
    WsTwice(buf, a);
  }
}
