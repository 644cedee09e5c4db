/** The recursive-descent reader as a function: typed values by table, opaque values by syntax alone. */
module Parser {
  import opened Decimal
  import opened Timestamp
  import opened Lexer
  import opened Schema
  import Utf8

  const DEPTH_LIMIT := 64

  /** After an item: another one, the end of the container, or neither. */
  datatype Next = More(pos: nat) | Shut(pos: nat) | Bad(at: nat)

  function After(buf: string, pos: nat, shut: char): (n: Next)
    requires pos <= |buf| && (shut == ']' || shut == '}')
    ensures n.More? || n.Shut? ==> pos < n.pos <= |buf|
  {
    var p := Ws(buf, pos);
    if At(buf, p) == ',' then More(p + 1) else if At(buf, p) == shut then Shut(p + 1) else Bad(p)
  }

  /** A key, its colon, and the blanks after it. */
  function KeyAt(buf: string, pos: nat): (r: Parsed<string>)
    requires pos <= |buf|
    ensures r.Ok? ==> pos < r.pos <= |buf| && Utf8.Valid(r.value)
  {
    var p := Ws(buf, pos);
    if At(buf, p) != '"' then Refused(Malformed, p)
    else
      var k := StrAt(buf, p);
      if k.Refused? then k
      else
        var q := Ws(buf, k.pos);
        if At(buf, q) != ':' then Refused(Malformed, q) else Ok(k.value, Ws(buf, q + 1))
  }

  /** Into a container at pos: the position after the opening byte and the blanks there, at the next depth. */
  function Enter(buf: string, pos: nat, depth: nat): (r: Parsed<()>)
    requires pos < |buf|
    ensures r.Ok? ==> pos < r.pos <= |buf|
  {
    if depth + 1 > DEPTH_LIMIT then Refused(DepthExceeded, pos) else Ok((), Ws(buf, pos + 1))
  }

  // ---- opaque values ----

  /** `skipValue`. */
  function Skip(buf: string, pos: nat, depth: nat): (r: Parsed<()>)
    requires pos <= |buf|
    ensures r.Ok? ==> pos < r.pos <= |buf|
    decreases |buf| - pos, 0
  {
    var c := At(buf, pos);
    if c == '"' then
      var s := StrAt(buf, pos);
      if s.Ok? then Ok((), s.pos) else Refused(s.word, s.at)
    else if c == '{' || c == '[' then
      var e := Enter(buf, pos, depth);
      if e.Refused? then e
      else if At(buf, e.pos) == Shutter(c) then Ok((), e.pos + 1)
      else SkipItems(buf, e.pos, depth + 1, c)
    else if c == 't' then Literal(buf, pos, "true")
    else if c == 'f' then Literal(buf, pos, "false")
    else if c == 'n' then Literal(buf, pos, "null")
    else if c == '-' || Digit(c) then SkipNumber(buf, pos)
    else Refused(Malformed, pos)
  }

  function Shutter(open: char): (c: char)
    ensures c == ']' || c == '}'
  {
    if open == '[' then ']' else '}'
  }

  function SkipItems(buf: string, pos: nat, depth: nat, open: char): (r: Parsed<()>)
    requires pos <= |buf|
    ensures r.Ok? ==> pos < r.pos <= |buf|
    decreases |buf| - pos, 1
  {
    var k := if open == '{' then KeyAt(buf, pos) else Ok("", Ws(buf, pos));
    if k.Refused? then Refused(k.word, k.at)
    else
      var v := Skip(buf, k.pos, depth);
      if v.Refused? then v
      else match After(buf, v.pos, Shutter(open))
        case More(p) => SkipItems(buf, p, depth, open)
        case Shut(p) => Ok((), p)
        case Bad(p) => Refused(Malformed, p)
  }

  // ---- typed values ----

  function Lift(r: Parsed<string>): Parsed<Val> {
    match r case Ok(s, p) => Ok(Str(s), p) case Refused(w, a) => Refused(w, a)
  }

  /** `timestamp`: a refusal of the instant points back at its first byte. */
  function TimeAt(buf: string, pos: nat): (r: Parsed<Val>)
    requires pos <= |buf|
    ensures r.Ok? ==> pos < r.pos <= |buf|
  {
    var s := StrAt(buf, pos);
    if s.Refused? then Refused(s.word, s.at)
    else if Normalized(s.value) == "" then Refused(BadTimestamp, pos)
    else Ok(Str(s.value), s.pos)
  }

  /** `rawValue`: the bytes the skipper walked. */
  function RawAt(buf: string, pos: nat, depth: nat): (r: Parsed<Val>)
    requires pos <= |buf|
    ensures r.Ok? ==> pos < r.pos <= |buf|
  {
    var s := Skip(buf, pos, depth);
    if s.Refused? then Refused(s.word, s.at) else Ok(Str(buf[pos..s.pos]), s.pos)
  }

  function Parse(k: Kind, buf: string, pos: nat, depth: nat): (r: Parsed<Val>)
    requires pos <= |buf| && WfKind(k)
    ensures r.Ok? ==> pos < r.pos <= |buf|
    decreases |buf| - pos, 0
  {
    match k
    case Text => Lift(StrAt(buf, pos))
    case Time => TimeAt(buf, pos)
    case Raw => RawAt(buf, pos, depth)
    case Int(min, max) =>
      (match IntegerAt(buf, pos, min, max) case Ok(n, p) => Ok(Num(n), p) case Refused(w, a) => Refused(w, a))
    case Flag =>
      (match FlagAt(buf, pos) case Ok(b, p) => Ok(Bool(b), p) case Refused(w, a) => Refused(w, a))
    case Pairs =>
      if At(buf, pos) != '{' then Refused(WrongType, pos) else
        var e := Enter(buf, pos, depth);
        if e.Refused? then Refused(e.word, e.at)
        else if At(buf, e.pos) == '}' then Ok(Map(map[]), e.pos + 1)
        else PairItems(buf, e.pos, map[])
    case Many(elem) =>
      if At(buf, pos) != '[' then Refused(WrongType, pos) else
        var e := Enter(buf, pos, depth);
        if e.Refused? then Refused(e.word, e.at)
        else if At(buf, e.pos) == ']' then Ok(List([]), e.pos + 1)
        else ListItems(elem, buf, e.pos, depth + 1, [])
    case Object(s) =>
      if At(buf, pos) != '{' then Refused(WrongType, pos) else
        var e := Enter(buf, pos, depth);
        if e.Refused? then Refused(e.word, e.at)
        else if At(buf, e.pos) == '}' then Finish(s, ZeroFields(s), {}, e.pos + 1)
        else Member(s, buf, e.pos, depth + 1, ZeroFields(s), {})
  }

  /** `strMap`: a repeated key keeps its last value. */
  function PairItems(buf: string, pos: nat, m: map<string, string>): (r: Parsed<Val>)
    requires pos <= |buf|
    ensures r.Ok? ==> pos < r.pos <= |buf|
    decreases |buf| - pos
  {
    var k := KeyAt(buf, pos);
    if k.Refused? then Refused(k.word, k.at)
    else
      var v := StrAt(buf, k.pos);
      if v.Refused? then Refused(v.word, v.at)
      else match After(buf, v.pos, '}')
        case More(p) => PairItems(buf, p, m[k.value := v.value])
        case Shut(p) => Ok(Map(m[k.value := v.value]), p)
        case Bad(p) => Refused(Malformed, p)
  }

  function ListItems(elem: Kind, buf: string, pos: nat, depth: nat, acc: seq<Val>): (r: Parsed<Val>)
    requires pos <= |buf| && WfKind(elem)
    ensures r.Ok? ==> pos < r.pos <= |buf|
    decreases |buf| - pos, 2
  {
    var v := Parse(elem, buf, Ws(buf, pos), depth);
    if v.Refused? then v else ListRest(elem, buf, v.pos, depth, acc + [v.value])
  }

  function ListRest(elem: Kind, buf: string, pos: nat, depth: nat, acc: seq<Val>): (r: Parsed<Val>)
    requires pos <= |buf| && WfKind(elem)
    ensures r.Ok? ==> pos < r.pos <= |buf|
    decreases |buf| - pos, 1
  {
    match After(buf, pos, ']')
    case More(p) => ListItems(elem, buf, p, depth, acc)
    case Shut(p) => Ok(List(acc), p)
    case Bad(p) => Refused(Malformed, p)
  }

  /** The zero struct a decoder starts from. */
  function ZeroFields(s: Struct): (fs: seq<Val>)
    ensures |fs| == |s.fields|
  {
    seq(|s.fields|, i requires 0 <= i < |s.fields| => Zero(s.fields[i].kind))
  }

  predicate WfStruct(s: Struct) { WfKind(Object(s)) }

  /** One turn of a decoder's loop: a key, then the value its field asks for. */
  function Member(s: Struct, buf: string, pos: nat, depth: nat, fs: seq<Val>, seen: set<nat>): (r: Parsed<Val>)
    requires pos <= |buf| && WfStruct(s) && |fs| == |s.fields|
    ensures r.Ok? ==> pos < r.pos <= |buf|
    decreases |buf| - pos, 2
  {
    var k := KeyAt(buf, pos);
    if k.Refused? then Refused(k.word, k.at)
    else
      var i := IndexOf(s.fields, k.value);
      if i == |s.fields| then
        if !s.grant then Refused(UnknownField, k.pos)
        else
          var u := Skip(buf, k.pos, depth);
          if u.Refused? then Refused(u.word, u.at) else Rest(s, buf, u.pos, depth, fs, seen)
      else if i in seen then Refused(DuplicateField, k.pos)
      else
        assert s.fields[i] in s.fields;
        var v := Parse(s.fields[i].kind, buf, k.pos, depth);
        if v.Refused? then v else Rest(s, buf, v.pos, depth, fs[i := v.value], seen + {i})
  }

  function Rest(s: Struct, buf: string, pos: nat, depth: nat, fs: seq<Val>, seen: set<nat>): (r: Parsed<Val>)
    requires pos <= |buf| && WfStruct(s) && |fs| == |s.fields|
    ensures r.Ok? ==> pos < r.pos <= |buf|
    decreases |buf| - pos, 1
  {
    match After(buf, pos, '}')
    case More(p) => Member(s, buf, p, depth, fs, seen)
    case Shut(p) => Finish(s, fs, seen, p)
    case Bad(p) => Refused(Malformed, p)
  }

  /** The checks behind the closing brace. */
  function Finish(s: Struct, fs: seq<Val>, seen: set<nat>, pos: nat): (r: Parsed<Val>)
    requires WfStruct(s) && |fs| == |s.fields|
    ensures r.Ok? ==> r.pos == pos
  {
    if exists i :: 0 <= i < |s.fields| && s.fields[i].required && i !in seen then Refused(MissingField, pos)
    else if !Obeys(s.rule, fs[0]) then Refused(if s.rule.Equals? then BadSchema else BadEnum, pos)
    else Ok(Obj(fs), pos)
  }

  // ---- a decoder's loop, unfolded ----

  lemma ObjectUnfold(s: Struct, buf: string, pos: nat, depth: nat)
    requires pos < |buf| && buf[pos] == '{' && WfStruct(s)
    ensures Parse(Object(s), buf, pos, depth) ==
      if depth + 1 > DEPTH_LIMIT then Refused(DepthExceeded, pos)
      else var p := Ws(buf, pos + 1);
        if At(buf, p) == '}' then Finish(s, ZeroFields(s), {}, p + 1) else Member(s, buf, p, depth + 1, ZeroFields(s), {})
  {
  }

  lemma NoObject(s: Struct, buf: string, pos: nat, depth: nat)
    requires pos <= |buf| && At(buf, pos) != '{' && WfStruct(s)
    ensures Parse(Object(s), buf, pos, depth) == Refused(WrongType, pos)
  {
  }

  lemma RestUnfold(s: Struct, buf: string, pos: nat, depth: nat, fs: seq<Val>, seen: set<nat>)
    requires pos <= |buf| && WfStruct(s) && |fs| == |s.fields|
    ensures var n := After(buf, pos, '}');
      Rest(s, buf, pos, depth, fs, seen) ==
        if n.More? then Member(s, buf, n.pos, depth, fs, seen) else if n.Shut? then Finish(s, fs, seen, n.pos) else Refused(Malformed, n.at)
  {
  }

  lemma MemberUnfold(s: Struct, buf: string, pos: nat, depth: nat, fs: seq<Val>, seen: set<nat>)
    requires pos <= |buf| && WfStruct(s) && |fs| == |s.fields|
    ensures var k := KeyAt(buf, pos);
      k.Refused? ==> Member(s, buf, pos, depth, fs, seen) == Refused(k.word, k.at)
    ensures var k := KeyAt(buf, pos);
      k.Ok? && IndexOf(s.fields, k.value) == |s.fields| ==> var u := Skip(buf, k.pos, depth);
        Member(s, buf, pos, depth, fs, seen) ==
          if !s.grant then Refused(UnknownField, k.pos) else if u.Refused? then Refused(u.word, u.at) else Rest(s, buf, u.pos, depth, fs, seen)
    ensures var k := KeyAt(buf, pos);
      k.Ok? && IndexOf(s.fields, k.value) < |s.fields| ==> var i := IndexOf(s.fields, k.value);
        WfKind(s.fields[i].kind) && var v := Parse(s.fields[i].kind, buf, k.pos, depth);
        Member(s, buf, pos, depth, fs, seen) ==
          if i in seen then Refused(DuplicateField, k.pos) else if v.Refused? then v
          else Rest(s, buf, v.pos, depth, fs[i := v.value], seen + {i})
  {
    hide Parse, Skip, Rest;
    var k := KeyAt(buf, pos);
    if k.Ok? && IndexOf(s.fields, k.value) < |s.fields| { FieldsAreWf(s, IndexOf(s.fields, k.value)); }
  }

  lemma FieldsAreWf(s: Struct, i: nat)
    requires WfStruct(s) && i < |s.fields|
    ensures WfKind(s.fields[i].kind)
  {
    assert s.fields[i] in s.fields;
  }

  // ---- the skipper follows every typed reader ----

  /** Whenever a typed reader takes a value, the skipper takes it from the same position and depth and
      ends at the same position: a frame's arguments are cut exactly where they will be decoded. */
  lemma {:induction false} SkipFollows(k: Kind, buf: string, pos: nat, depth: nat)
    requires pos <= |buf| && WfKind(k) && Parse(k, buf, pos, depth).Ok?
    ensures Skip(buf, pos, depth) == Ok((), Parse(k, buf, pos, depth).pos)
    decreases |buf| - pos, 0
  {
    hide Ws, PairItems, ListItems, Member, SkipItems, Finish, Normalized, SkipNumber;
    match k
    case Text =>
    case Time =>
    case Raw => assert Skip(buf, pos, depth).value == ();
    case Int(min, max) => SkipFollowsInteger(buf, pos, min, max);
    case Flag =>
    case Pairs =>
      var e := Enter(buf, pos, depth);
      if At(buf, e.pos) != '}' { SkipFollowsPairs(buf, e.pos, depth + 1, map[]); }
    case Many(elem) =>
      var e := Enter(buf, pos, depth);
      if At(buf, e.pos) != ']' { SkipFollowsList(elem, buf, e.pos, depth + 1, []); }
    case Object(s) =>
      var e := Enter(buf, pos, depth);
      if At(buf, e.pos) != '}' { SkipFollowsMember(s, buf, e.pos, depth + 1, ZeroFields(s), {}); }
  }

  lemma {:induction false} SkipFollowsPairs(buf: string, pos: nat, depth: nat, m: map<string, string>)
    requires pos <= |buf| && PairItems(buf, pos, m).Ok?
    ensures SkipItems(buf, pos, depth, '{') == Ok((), PairItems(buf, pos, m).pos)
    decreases |buf| - pos
  {
    var k := KeyAt(buf, pos);
    var v := StrAt(buf, k.pos);
    assert Skip(buf, k.pos, depth) == Ok((), v.pos);
    var n := After(buf, v.pos, '}');
    if n.More? { SkipFollowsPairs(buf, n.pos, depth, m[k.value := v.value]); }
  }

  lemma {:induction false} SkipFollowsList(elem: Kind, buf: string, pos: nat, depth: nat, acc: seq<Val>)
    requires pos <= |buf| && WfKind(elem) && ListItems(elem, buf, pos, depth, acc).Ok?
    ensures SkipItems(buf, pos, depth, '[') == Ok((), ListItems(elem, buf, pos, depth, acc).pos)
    decreases |buf| - pos, 1
  {
    var p := Ws(buf, pos);
    SkipFollows(elem, buf, p, depth);
    var v := Parse(elem, buf, p, depth);
    var n := After(buf, v.pos, ']');
    if n.More? { SkipFollowsList(elem, buf, n.pos, depth, acc + [v.value]); }
  }

  lemma {:induction false} SkipFollowsMember(s: Struct, buf: string, pos: nat, depth: nat, fs: seq<Val>, seen: set<nat>)
    requires pos <= |buf| && WfStruct(s) && |fs| == |s.fields| && Member(s, buf, pos, depth, fs, seen).Ok?
    ensures SkipItems(buf, pos, depth, '{') == Ok((), Member(s, buf, pos, depth, fs, seen).pos)
    decreases |buf| - pos, 1
  {
    var k := KeyAt(buf, pos);
    var i := IndexOf(s.fields, k.value);
    var fs', seen' := fs, seen;
    if i < |s.fields| {
      assert s.fields[i] in s.fields;
      SkipFollows(s.fields[i].kind, buf, k.pos, depth);
      fs', seen' := fs[i := Parse(s.fields[i].kind, buf, k.pos, depth).value], seen + {i};
    }
    var v := Skip(buf, k.pos, depth);
    assert Member(s, buf, pos, depth, fs, seen) == Rest(s, buf, v.pos, depth, fs', seen');
    var n := After(buf, v.pos, '}');
    if n.More? { SkipFollowsMember(s, buf, n.pos, depth, fs', seen'); }
  }

  // ---- what a reader accepts can be written ----

  predicate Sound(k: Kind, v: Val) {
    Typed(k, v) && Clean(k, v) && Blocked(k, v) == []
  }

  /** A decoded value is well typed, all its strings are UTF-8, and its encoder will not refuse it. */
  lemma {:induction false} ParsedIsSound(k: Kind, buf: string, pos: nat, depth: nat)
    requires pos <= |buf| && WfKind(k) && Parse(k, buf, pos, depth).Ok?
    ensures Sound(k, Parse(k, buf, pos, depth).value)
    decreases |buf| - pos, 0
  {
    hide Ws, Skip, StrAt, PairItems, ListItems, Member, Finish, Normalized, IntegerAt, FlagAt;
    match k
    case Text =>
    case Time =>
    case Raw =>
    case Int(min, max) =>
      var r := IntegerAt(buf, pos, min, max);
      IntegerExactly(buf, pos, min, max, r.value, r.pos);
    case Flag =>
    case Pairs =>
      var e := Enter(buf, pos, depth);
      if At(buf, e.pos) != '}' { PairsAreSound(buf, e.pos, map[]); }
    case Many(elem) =>
      var e := Enter(buf, pos, depth);
      if At(buf, e.pos) != ']' { ListIsSound(elem, buf, e.pos, depth + 1, []); } else { SoundListIsSound(elem, []); }
    case Object(s) =>
      var e := Enter(buf, pos, depth);
      EmptyRefused(s, e.pos + 1);
      if At(buf, e.pos) != '}' { MemberIsSound(s, buf, e.pos, depth + 1, ZeroFields(s), {}); }
  }

  /** No table here accepts the empty object: its first field is required. */
  lemma EmptyRefused(s: Struct, pos: nat)
    requires WfStruct(s)
    ensures Finish(s, ZeroFields(s), {}, pos) == Refused(MissingField, pos)
  {
    assert s.fields[0].required && 0 !in {};
  }

  lemma {:induction false} PairsAreSound(buf: string, pos: nat, m: map<string, string>)
    requires pos <= |buf| && ValidPairs(m) && PairItems(buf, pos, m).Ok?
    ensures PairItems(buf, pos, m).value.Map? && ValidPairs(PairItems(buf, pos, m).value.m)
    decreases |buf| - pos
  {
    var k := KeyAt(buf, pos);
    var v := StrAt(buf, k.pos);
    var n := After(buf, v.pos, '}');
    if n.More? { PairsAreSound(buf, n.pos, m[k.value := v.value]); }
  }

  predicate SoundList(elem: Kind, vs: seq<Val>) {
    forall i :: 0 <= i < |vs| ==> Sound(elem, vs[i])
  }

  lemma SoundListIsSound(elem: Kind, vs: seq<Val>)
    requires SoundList(elem, vs)
    ensures Sound(Many(elem), List(vs))
  {
    forall x | x in vs ensures Typed(elem, x) && Clean(elem, x) {
      var i :| 0 <= i < |vs| && vs[i] == x;
      assert Sound(elem, vs[i]);
    }
    BlockedInNone(Many(elem), vs);
  }

  lemma {:induction false} ListIsSound(elem: Kind, buf: string, pos: nat, depth: nat, acc: seq<Val>)
    requires pos <= |buf| && WfKind(elem) && SoundList(elem, acc) && ListItems(elem, buf, pos, depth, acc).Ok?
    ensures Sound(Many(elem), ListItems(elem, buf, pos, depth, acc).value)
    decreases |buf| - pos, 1
  {
    hide Sound, After, Ws, Parse, WfKind;
    var p := Ws(buf, pos);
    ParsedIsSound(elem, buf, p, depth);
    var v := Parse(elem, buf, p, depth);
    var n := After(buf, v.pos, ']');
    if n.More? { ListIsSound(elem, buf, n.pos, depth, acc + [v.value]); } else { SoundListIsSound(elem, acc + [v.value]); }
  }

  /** Each field is either decoded and sound, or still zero. */
  predicate SoundSoFar(s: Struct, fs: seq<Val>, seen: set<nat>) {
    && |fs| == |s.fields|
    && forall i :: 0 <= i < |fs| ==> if i in seen then Sound(s.fields[i].kind, fs[i]) else fs[i] == Zero(s.fields[i].kind)
  }

  lemma FinishIsSound(s: Struct, fs: seq<Val>, seen: set<nat>, pos: nat)
    requires WfStruct(s) && SoundSoFar(s, fs, seen) && Finish(s, fs, seen, pos).Ok?
    ensures Sound(Object(s), Obj(fs))
  {
    forall i | 0 <= i < |fs| ensures Sound(s.fields[i].kind, fs[i]) {
      assert s.fields[i] in s.fields;
      if i !in seen { ZeroIsSound(s.fields[i].kind); }
    }
    assert Typed(Object(s), Obj(fs)) && Clean(Object(s), Obj(fs));
    BlockedFromNone(Object(s), Obj(fs), 0);
  }

  lemma ZeroIsSound(k: Kind)
    requires Optional(k)
    ensures Sound(k, Zero(k))
  {
    if k.Text? { Utf8.AsciiValid(""); }
  }

  lemma {:induction false} MemberIsSound(s: Struct, buf: string, pos: nat, depth: nat, fs: seq<Val>, seen: set<nat>)
    requires pos <= |buf| && WfStruct(s) && SoundSoFar(s, fs, seen) && Member(s, buf, pos, depth, fs, seen).Ok?
    ensures Sound(Object(s), Member(s, buf, pos, depth, fs, seen).value)
    decreases |buf| - pos, 1
  {
    var k := KeyAt(buf, pos);
    var i := IndexOf(s.fields, k.value);
    var fs', seen', q;
    if i < |s.fields| {
      assert s.fields[i] in s.fields;
      ParsedIsSound(s.fields[i].kind, buf, k.pos, depth);
      var v := Parse(s.fields[i].kind, buf, k.pos, depth);
      fs', seen', q := fs[i := v.value], seen + {i}, v.pos;
    } else {
      fs', seen', q := fs, seen, Skip(buf, k.pos, depth).pos;
    }
    assert SoundSoFar(s, fs', seen');
    assert Member(s, buf, pos, depth, fs, seen) == Rest(s, buf, q, depth, fs', seen');
    var n := After(buf, q, '}');
    if n.More? { MemberIsSound(s, buf, n.pos, depth, fs', seen'); } else { FinishIsSound(s, fs', seen', n.pos); }
  }
}
