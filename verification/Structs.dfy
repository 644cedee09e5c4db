/** Struct decoders: what they accept and what they refuse, stated over the members that stand in the text. */
module Structs {
  import opened Decimal
  import opened Lexer
  import opened Schema
  import opened Parser
  import opened Tokens
  import opened Grammar
  import opened Objects

  // ---- the table, looked up by name ----

  predicate Names(s: Struct, j: nat, key: string) { j < |s.fields| && s.fields[j].name == key }

  ghost predicate Knows(s: Struct, key: string) { exists j: nat :: Names(s, j, key) }

  lemma {:induction false} IndexOfNone(fields: seq<Field>, key: string, j: nat)
    requires IndexOf(fields, key) == |fields| && j < |fields|
    ensures fields[j].name != key
  {
    if j > 0 { IndexOfNone(fields[1..], key, j - 1); }
  }

  lemma IndexExactly(s: Struct, key: string, j: nat)
    requires WfStruct(s)
    ensures Names(s, j, key) <==> IndexOf(s.fields, key) == j < |s.fields|
    ensures Knows(s, key) <==> IndexOf(s.fields, key) < |s.fields|
  {
    if Names(s, j, key) { IndexOfName(s.fields, j); }
    if IndexOf(s.fields, key) < |s.fields| { assert Names(s, IndexOf(s.fields, key), key); }
    else if Knows(s, key) {
      var i: nat :| Names(s, i, key);
      IndexOfNone(s.fields, key, i);
    }
  }

  // ---- members that are right ----

  /** The member's value is one its field takes; an unknown member is skipped, if the table allows any. */
  predicate Right(s: Struct, buf: string, depth: nat, m: Entry)
    requires WfStruct(s)
  {
    && m.value.from <= |buf|
    && (var j := IndexOf(s.fields, m.key);
        if j < |s.fields| then
          FieldsAreWf(s, j);
          var v := Parse(s.fields[j].kind, buf, m.value.from, depth);
          v.Ok? && v.pos == m.value.to
        else s.grant && Skip(buf, m.value.from, depth) == Ok((), m.value.to))
  }

  /** No known key stands twice. */
  predicate Once(s: Struct, es: seq<Entry>) {
    forall i, j :: 0 <= i < j < |es| && es[i].key == es[j].key ==> IndexOf(s.fields, es[i].key) == |s.fields|
  }

  ghost predicate AllRight(s: Struct, buf: string, depth: nat, es: seq<Entry>)
    requires WfStruct(s)
  {
    (forall i :: 0 <= i < |es| ==> Right(s, buf, depth, es[i])) && Once(s, es)
  }

  function Taking(s: Struct, buf: string, depth: nat, fs: seq<Val>, m: Entry): (gs: seq<Val>)
    requires WfStruct(s) && |fs| == |s.fields| && Right(s, buf, depth, m)
    ensures |gs| == |fs|
  {
    var j := IndexOf(s.fields, m.key);
    if j < |s.fields| then
      FieldsAreWf(s, j);
      fs[j := Parse(s.fields[j].kind, buf, m.value.from, depth).value]
    else fs
  }

  function Seeing(s: Struct, seen: set<nat>, m: Entry): set<nat> {
    var j := IndexOf(s.fields, m.key);
    if j < |s.fields| then seen + {j} else seen
  }

  /** The fields once these members have been taken, and which of them were seen. */
  function TakenFields(s: Struct, buf: string, depth: nat, fs: seq<Val>, es: seq<Entry>): (gs: seq<Val>)
    requires WfStruct(s) && |fs| == |s.fields| && forall i :: 0 <= i < |es| ==> Right(s, buf, depth, es[i])
    ensures |gs| == |fs|
    decreases |es|
  {
    if es == [] then fs else TakenFields(s, buf, depth, Taking(s, buf, depth, fs, es[0]), es[1..])
  }

  function SeenFields(s: Struct, seen: set<nat>, es: seq<Entry>): set<nat>
    decreases |es|
  {
    if es == [] then seen else SeenFields(s, Seeing(s, seen, es[0]), es[1..])
  }

  /** No member is one of those seen before. */
  predicate Fresh(s: Struct, seen: set<nat>, es: seq<Entry>) {
    forall i :: 0 <= i < |es| && IndexOf(s.fields, es[i].key) < |s.fields| ==> IndexOf(s.fields, es[i].key) !in seen
  }

  lemma FreshAfter(s: Struct, seen: set<nat>, es: seq<Entry>)
    requires WfStruct(s) && es != [] && Fresh(s, seen, es) && Once(s, es)
    ensures Fresh(s, Seeing(s, seen, es[0]), es[1..]) && Once(s, es[1..])
  {
    hide IndexOf;
    var rest := es[1..];
    assert forall i :: 0 <= i < |rest| ==> rest[i] == es[i+1];
    forall i | 0 <= i < |rest| && IndexOf(s.fields, rest[i].key) < |s.fields| ensures IndexOf(s.fields, rest[i].key) !in Seeing(s, seen, es[0]) {
      assert rest[i] == es[i+1];
      SameIndex(s, es[0].key, es[i+1].key);
    }
  }

  lemma SameIndex(s: Struct, a: string, b: string)
    ensures IndexOf(s.fields, a) == IndexOf(s.fields, b) < |s.fields| ==> a == b
  {
  }

  /** One right member read: the loop goes on behind it. */
  lemma MemberRead(s: Struct, buf: string, a: nat, q: nat, depth: nat, m: Entry, fs: seq<Val>, seen: set<nat>)
    requires WfStruct(s) && |fs| == |s.fields| && MemberAt(buf, a, q, m) && Right(s, buf, depth, m)
    requires IndexOf(s.fields, m.key) < |s.fields| ==> IndexOf(s.fields, m.key) !in seen
    ensures a <= |buf| && m.value.to <= |buf|
    ensures Member(s, buf, a, depth, fs, seen) == Rest(s, buf, m.value.to, depth, Taking(s, buf, depth, fs, m), Seeing(s, seen, m))
  {
    hide Ws, Gap, KeyAt, KeyText, Parse, Skip, WfKind, Rest, Member, IndexOf;
    var x, j := m.value, IndexOf(s.fields, m.key);
    KeyBegins(buf, a, m.key, x.from);
    if j < |s.fields| {
      FieldsAreWf(s, j);
      ParsedSolid(s.fields[j].kind, buf, x.from, depth);
    } else {
      SkipSolid(buf, x.from, depth);
    }
    KeyExactly(buf, a, m.key, x.from);
    MemberUnfold(s, buf, a, depth, fs, seen);
  }

  lemma {:induction false} MembersRead(s: Struct, buf: string, a: nat, b: nat, depth: nat, es: seq<Entry>, fs: seq<Val>, seen: set<nat>)
    requires WfStruct(s) && |fs| == |s.fields| && Members(buf, a, b, es) && b < |buf| && buf[b] == '}'
    requires AllRight(s, buf, depth, es) && Fresh(s, seen, es)
    ensures a <= |buf|
    ensures Member(s, buf, a, depth, fs, seen) == Finish(s, TakenFields(s, buf, depth, fs, es), SeenFields(s, seen, es), b + 1)
    decreases |es|
  {
    hide Ws, After, Gap, KeyAt, KeyText, WfKind, Member, Rest, Finish, Right, Taking, Seeing, IndexOf, Once;
    var q: nat :| MemberAt(buf, a, q, es[0]) && MoreMembers(buf, q, b, es);
    var m := es[0];
    MemberRead(s, buf, a, q, depth, m, fs, seen);
    var gs, saw := Taking(s, buf, depth, fs, m), Seeing(s, seen, m);
    RestUnfold(s, buf, m.value.to, depth, gs, saw);
    AfterExactly(buf, m.value.to, q, '}');
    if |es| > 1 {
      FreshAfter(s, seen, es);
      MembersRead(s, buf, q + 1, b, depth, es[1..], gs, saw);
    }
  }

  /** The members of an accepted object, as the loop found them. */
  lemma {:induction false} MembersFound(s: Struct, buf: string, a: nat, depth: nat, fs: seq<Val>, seen: set<nat>) returns (es: seq<Entry>)
    requires a <= |buf| && WfStruct(s) && |fs| == |s.fields| && Member(s, buf, a, depth, fs, seen).Ok?
    ensures var b := Member(s, buf, a, depth, fs, seen).pos;
      b >= 1 && buf[b-1] == '}' && es != [] && Members(buf, a, b - 1, es) && AllRight(s, buf, depth, es) && Fresh(s, seen, es)
    decreases |buf| - a
  {
    hide Ws, After, Gap, KeyAt, KeyText, WfKind, Member, Rest, Finish, Parse, Skip, IndexOf;
    MemberUnfold(s, buf, a, depth, fs, seen);
    var k := KeyAt(buf, a);
    KeyIs(buf, a);
    var j := IndexOf(s.fields, k.value);
    var to, gs, saw;
    if j < |s.fields| {
      var v := Parse(s.fields[j].kind, buf, k.pos, depth);
      to, gs, saw := v.pos, fs[j := v.value], seen + {j};
    } else {
      to, gs, saw := Skip(buf, k.pos, depth).pos, fs, seen;
    }
    var m := Entry(k.value, Span(k.pos, to));
    RestUnfold(s, buf, to, depth, gs, saw);
    AfterIs(buf, to, '}');
    var n, b := After(buf, to, '}'), Member(s, buf, a, depth, fs, seen).pos;
    FinishEnds(s, gs, saw, if n.Shut? then n.pos else 0);
    assert MemberAt(buf, a, n.pos - 1, m);
    if j == |s.fields| { assert Skip(buf, k.pos, depth).value == (); }
    assert m.key == k.value && m.value.from == k.pos && m.value.to == to;
    assert Seeing(s, seen, m) == saw;
    assert Right(s, buf, depth, m);
    if n.More? {
      var rest := MembersFound(s, buf, n.pos, depth, gs, saw);
      es := [m] + rest;
      assert es[1..] == rest;
      assert MoreMembers(buf, n.pos - 1, b - 1, es);
      OnceMore(s, buf, depth, seen, es);
    } else {
      es := [m];
      assert MoreMembers(buf, n.pos - 1, b - 1, es);
    }
  }

  lemma FinishEnds(s: Struct, fs: seq<Val>, seen: set<nat>, pos: nat)
    requires WfStruct(s) && |fs| == |s.fields|
    ensures Finish(s, fs, seen, pos).Ok? ==> Finish(s, fs, seen, pos).pos == pos
  {
  }

  lemma OnceMore(s: Struct, buf: string, depth: nat, seen: set<nat>, es: seq<Entry>)
    requires WfStruct(s) && es != [] && Right(s, buf, depth, es[0]) && AllRight(s, buf, depth, es[1..])
    requires Fresh(s, Seeing(s, seen, es[0]), es[1..])
    requires IndexOf(s.fields, es[0].key) < |s.fields| ==> IndexOf(s.fields, es[0].key) !in seen
    ensures AllRight(s, buf, depth, es) && Fresh(s, seen, es)
  {
    hide IndexOf, Right;
    var rest := es[1..];
    assert forall i :: 0 < i < |es| ==> es[i] == rest[i-1];
  }

  // ---- the fields that come of it ----

  lemma {:induction false} SeenExactly(s: Struct, seen: set<nat>, es: seq<Entry>, j: nat)
    requires WfStruct(s) && j < |s.fields|
    ensures j in SeenFields(s, seen, es) <==> j in seen || HasKey(es, s.fields[j].name)
    decreases |es|
  {
    hide IndexOf;
    if es != [] {
      HasKeyFirst(es, s.fields[j].name);
      IndexExactly(s, es[0].key, j);
      SeenExactly(s, Seeing(s, seen, es[0]), es[1..], j);
    }
  }

  /** A field without a member keeps what it had; one with a member has that member's value. */
  lemma {:induction false} TakenWithout(s: Struct, buf: string, depth: nat, fs: seq<Val>, es: seq<Entry>, j: nat)
    requires WfStruct(s) && |fs| == |s.fields| && (forall i :: 0 <= i < |es| ==> Right(s, buf, depth, es[i]))
    requires j < |s.fields| && !HasKey(es, s.fields[j].name)
    ensures TakenFields(s, buf, depth, fs, es)[j] == fs[j]
    decreases |es|
  {
    hide IndexOf, Right, Parse;
    if es != [] {
      HasKeyFirst(es, s.fields[j].name);
      IndexExactly(s, es[0].key, j);
      TakenWithout(s, buf, depth, Taking(s, buf, depth, fs, es[0]), es[1..], j);
    }
  }

  lemma {:induction false} TakenWith(s: Struct, buf: string, depth: nat, fs: seq<Val>, es: seq<Entry>, i: nat, j: nat)
    requires WfStruct(s) && |fs| == |s.fields| && AllRight(s, buf, depth, es)
    requires i < |es| && j < |s.fields| && es[i].key == s.fields[j].name
    ensures WfKind(s.fields[j].kind) && es[i].value.from <= |buf|
    ensures Parse(s.fields[j].kind, buf, es[i].value.from, depth) == Ok(TakenFields(s, buf, depth, fs, es)[j], es[i].value.to)
    decreases |es|
  {
    hide IndexOf, Parse, WfKind;
    FieldsAreWf(s, j);
    IndexExactly(s, es[i].key, j);
    assert Right(s, buf, depth, es[i]);
    var gs, rest := Taking(s, buf, depth, fs, es[0]), es[1..];
    assert forall k :: 0 <= k < |rest| ==> rest[k] == es[k+1];
    if i > 0 {
      TakenWith(s, buf, depth, gs, rest, i - 1, j);
    } else {
      NotAgain(s, es, j);
      TakenWithout(s, buf, depth, gs, rest, j);
    }
  }

  lemma NotAgain(s: Struct, es: seq<Entry>, j: nat)
    requires es != [] && Once(s, es) && IndexOf(s.fields, es[0].key) == j < |s.fields|
    ensures !HasKey(es[1..], es[0].key)
  {
    hide IndexOf;
    assert forall k :: 0 <= k < |es| - 1 ==> es[1..][k] == es[k+1];
  }

  // ---- the whole object ----

  /** Required fields stand in the text. */
  ghost predicate Complete(s: Struct, es: seq<Entry>) {
    forall j :: 0 <= j < |s.fields| && s.fields[j].required ==> HasKey(es, s.fields[j].name)
  }

  /** The value of field j: its member's, or the zero of its kind. */
  ghost predicate FieldIs(s: Struct, buf: string, depth: nat, es: seq<Entry>, j: nat, v: Val)
    requires WfStruct(s) && j < |s.fields|
  {
    && (!HasKey(es, s.fields[j].name) ==> v == Zero(s.fields[j].kind))
    && (forall i :: 0 <= i < |es| && es[i].key == s.fields[j].name ==> MemberValue(s, buf, depth, es[i], j, v))
  }

  predicate MemberValue(s: Struct, buf: string, depth: nat, m: Entry, j: nat, v: Val)
    requires WfStruct(s) && j < |s.fields|
  {
    m.value.from <= |buf| && (FieldsAreWf(s, j); Parse(s.fields[j].kind, buf, m.value.from, depth) == Ok(v, m.value.to))
  }

  ghost predicate FieldsAre(s: Struct, buf: string, depth: nat, es: seq<Entry>, fs: seq<Val>)
    requires WfStruct(s)
  {
    |fs| == |s.fields| && forall j :: 0 <= j < |fs| ==> FieldIs(s, buf, depth, es, j, fs[j])
  }

  predicate RuleKept(r: Rule, first: Val) {
    match r case Free => true case Equals(n) => first == Num(n) case OneOf(names) => exists i :: 0 <= i < |names| && first == Str(names[i])
  }

  /** With nothing missing, the rule about the first field decides. */
  function Judgement(s: Struct, fs: seq<Val>, b: nat): Parsed<Val> {
    if fs != [] && RuleKept(s.rule, fs[0]) then Ok(Obj(fs), b)
    else Refused(match s.rule case Equals(_) => BadSchema case _ => BadEnum, b)
  }

  lemma ObjectTaken(s: Struct, buf: string, a: nat, b: nat, depth: nat, es: seq<Entry>)
    requires WfStruct(s) && ObjectText(buf, a, b, es) && AllRight(s, buf, depth + 1, es) && depth < DEPTH_LIMIT
    ensures Parse(Object(s), buf, a, depth) ==
      Finish(s, TakenFields(s, buf, depth + 1, ZeroFields(s), es), SeenFields(s, {}, es), b)
  {
    hide Members, Gap, Ws, Member, Finish, TakenFields, SeenFields, Right, Once, WfKind;
    ObjectUnfold(s, buf, a, depth);
    if es == [] {
      WsThere(buf, a + 1, b - 1);
      NothingTaken(s, buf, depth + 1, es);
    } else {
      FreshAtFirst(s, es);
      MembersRead(s, buf, a + 1, b - 1, depth + 1, es, ZeroFields(s), {});
      MemberLater(s, buf, a + 1, b - 1, depth + 1, es);
    }
  }

  lemma NothingTaken(s: Struct, buf: string, depth: nat, es: seq<Entry>)
    requires WfStruct(s) && es == []
    ensures TakenFields(s, buf, depth, ZeroFields(s), es) == ZeroFields(s) && SeenFields(s, {}, es) == {}
  {
  }

  lemma FreshAtFirst(s: Struct, es: seq<Entry>)
    ensures Fresh(s, {}, es)
  {
  }

  /** The members may begin in the blanks before them. */
  lemma MemberLater(s: Struct, buf: string, a: nat, b: nat, depth: nat, es: seq<Entry>)
    requires WfStruct(s) && Members(buf, a, b, es)
    ensures a <= |buf| && At(buf, Ws(buf, a)) != '}'
    ensures Member(s, buf, Ws(buf, a), depth, ZeroFields(s), {}) == Member(s, buf, a, depth, ZeroFields(s), {})
  {
    hide Ws, Gap, Member, KeyAt, StrAt;
    var q: nat :| MemberAt(buf, a, q, es[0]) && MoreMembers(buf, q, b, es);
    var c: nat, k: nat, d: nat :| KeyParts(buf, a, c, k, d, es[0].key, es[0].value.from);
    StringStarts(buf, c, es[0].key, k);
    WsThere(buf, a, c);
    WsTwice(buf, a);
    SameKey(buf, a);
    MemberUnfold(s, buf, a, depth, ZeroFields(s), {});
    MemberUnfold(s, buf, Ws(buf, a), depth, ZeroFields(s), {});
  }

  lemma SameKey(buf: string, a: nat)
    requires a <= |buf| && Ws(buf, Ws(buf, a)) == Ws(buf, a)
    ensures KeyAt(buf, Ws(buf, a)) == KeyAt(buf, a)
  {
    hide Ws, StrAt;
  }

  /** An object whose members are all right is judged by what is missing, then by the rule; it is refused at
      its end, or it is its members' values and zeros. */
  lemma ObjectJudged(s: Struct, buf: string, a: nat, b: nat, depth: nat, es: seq<Entry>)
    requires WfStruct(s) && ObjectText(buf, a, b, es) && AllRight(s, buf, depth + 1, es) && depth < DEPTH_LIMIT
    ensures var r := Parse(Object(s), buf, a, depth);
      if !Complete(s, es) then r == Refused(MissingField, b)
      else exists fs :: FieldsAre(s, buf, depth + 1, es, fs) && r == Judgement(s, fs, b)
  {
    hide Members, Gap, TakenFields, SeenFields, Right, Once, Parse, FieldIs, Finish, Complete, Judgement, HasKey;
    ObjectTaken(s, buf, a, b, depth, es);
    var fs, seen := TakenFields(s, buf, depth + 1, ZeroFields(s), es), SeenFields(s, {}, es);
    forall j: nat | j < |s.fields| ensures j in seen <==> HasKey(es, s.fields[j].name) { SeenExactly(s, {}, es, j); }
    forall j: nat | j < |s.fields| ensures FieldIs(s, buf, depth + 1, es, j, fs[j]) { FieldTaken(s, buf, depth + 1, es, j); }
    assert FieldsAre(s, buf, depth + 1, es, fs);
    FinishIs(s, fs, seen, es, b);
  }

  lemma FinishIs(s: Struct, fs: seq<Val>, seen: set<nat>, es: seq<Entry>, b: nat)
    requires WfStruct(s) && |fs| == |s.fields| && forall j: nat :: j < |s.fields| ==> (j in seen <==> HasKey(es, s.fields[j].name))
    ensures Finish(s, fs, seen, b) == if !Complete(s, es) then Refused(MissingField, b) else Judgement(s, fs, b)
  {
    hide HasKey;
    if fs != [] && s.rule.OneOf? && fs[0].Str? && fs[0].s in s.rule.names {
      var i :| 0 <= i < |s.rule.names| && s.rule.names[i] == fs[0].s;
      assert fs[0] == Str(s.rule.names[i]);
    }
  }

  lemma FieldTaken(s: Struct, buf: string, depth: nat, es: seq<Entry>, j: nat)
    requires WfStruct(s) && AllRight(s, buf, depth, es) && j < |s.fields|
    ensures FieldIs(s, buf, depth, es, j, TakenFields(s, buf, depth, ZeroFields(s), es)[j])
  {
    hide TakenFields, Right, Parse, WfKind;
    if !HasKey(es, s.fields[j].name) { TakenWithout(s, buf, depth, ZeroFields(s), es, j); }
    forall i | 0 <= i < |es| && es[i].key == s.fields[j].name
      ensures MemberValue(s, buf, depth, es[i], j, TakenFields(s, buf, depth, ZeroFields(s), es)[j])
    {
      TakenWith(s, buf, depth, ZeroFields(s), es, i, j);
    }
  }

  /** An accepted object is an object in the grammar whose members are all right. */
  lemma ObjectFound(s: Struct, buf: string, a: nat, depth: nat) returns (es: seq<Entry>)
    requires a <= |buf| && WfStruct(s) && Parse(Object(s), buf, a, depth).Ok?
    ensures depth < DEPTH_LIMIT && ObjectText(buf, a, Parse(Object(s), buf, a, depth).pos, es) && AllRight(s, buf, depth + 1, es)
  {
    hide Members, Gap, Ws, Member, Finish, Parse, Right, Once, WfKind;
    if At(buf, a) != '{' { NoObject(s, buf, a, depth); }
    ObjectUnfold(s, buf, a, depth);
    var b := Parse(Object(s), buf, a, depth).pos;
    var p := Ws(buf, a + 1);
    WsIsGap(buf, a + 1);
    if At(buf, p) == '}' {
      es := [];
      FinishEnds(s, ZeroFields(s), {}, p + 1);
      NothingWrong(s, buf, depth + 1);
    } else {
      es := MembersFound(s, buf, p, depth + 1, ZeroFields(s), {});
      MembersEarlier(buf, a + 1, p, b - 1, es);
    }
  }

  lemma NothingWrong(s: Struct, buf: string, depth: nat)
    requires WfStruct(s)
    ensures AllRight(s, buf, depth, [])
  {
  }

  lemma FieldsOnce(s: Struct, buf: string, depth: nat, es: seq<Entry>, fs: seq<Val>, gs: seq<Val>)
    requires WfStruct(s) && FieldsAre(s, buf, depth, es, fs) && FieldsAre(s, buf, depth, es, gs)
    ensures fs == gs
  {
    hide Parse, WfKind;
    forall j | 0 <= j < |fs| ensures fs[j] == gs[j] {
      assert FieldIs(s, buf, depth, es, j, fs[j]) && FieldIs(s, buf, depth, es, j, gs[j]);
      if HasKey(es, s.fields[j].name) {
        var i :| 0 <= i < |es| && es[i].key == s.fields[j].name;
        assert MemberValue(s, buf, depth, es[i], j, fs[j]) && MemberValue(s, buf, depth, es[i], j, gs[j]);
      }
    }
  }

  /** Members all right, nothing missing, the rule kept, and these the values. */
  ghost predicate Accepts(s: Struct, buf: string, a: nat, b: nat, depth: nat, es: seq<Entry>, fs: seq<Val>)
    requires WfStruct(s)
  {
    && ObjectText(buf, a, b, es) && AllRight(s, buf, depth + 1, es) && Complete(s, es)
    && FieldsAre(s, buf, depth + 1, es, fs) && fs != [] && RuleKept(s.rule, fs[0])
  }

  /** A struct is accepted exactly if it is an object in the grammar, one level further down, whose members are
      right, that has every required field and keeps its table's rule; and its value is then its members'. */
  lemma ObjectExactly(s: Struct, buf: string, a: nat, b: nat, depth: nat, fs: seq<Val>)
    requires a <= |buf| && WfStruct(s)
    ensures Parse(Object(s), buf, a, depth) == Ok(Obj(fs), b) <==>
      depth < DEPTH_LIMIT && exists es :: Accepts(s, buf, a, b, depth, es, fs)
  {
    hide ObjectText, AllRight, FieldsAre, Complete, Parse, RuleKept, WfKind;
    if Parse(Object(s), buf, a, depth) == Ok(Obj(fs), b) {
      var es := ObjectFound(s, buf, a, depth);
      ObjectJudged(s, buf, a, b, depth, es);
      var gs :| FieldsAre(s, buf, depth + 1, es, gs) && Parse(Object(s), buf, a, depth) == Judgement(s, gs, b);
      assert gs == fs && Accepts(s, buf, a, b, depth, es, fs);
    }
    forall es | depth < DEPTH_LIMIT && Accepts(s, buf, a, b, depth, es, fs)
      ensures Parse(Object(s), buf, a, depth) == Ok(Obj(fs), b)
    {
      ObjectJudged(s, buf, a, b, depth, es);
      var gs :| FieldsAre(s, buf, depth + 1, es, gs) && Parse(Object(s), buf, a, depth) == Judgement(s, gs, b);
      FieldsOnce(s, buf, depth + 1, es, fs, gs);
    }
  }
}
