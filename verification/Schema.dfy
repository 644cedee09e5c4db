/** The tables the codec is generated from (logging.thrift): every generated encoder and decoder is
    one loop over such a table, so the model keeps the loop once and the tables as values. */
module Schema {
  import opened Decimal
  import opened Timestamp
  import Utf8

  datatype Kind = Text | Int(min: int, max: int) | Flag | Time | Pairs | Raw | Many(elem: Kind) | Object(s: Struct)
  datatype Field = Field(name: string, kind: Kind, required: bool)
  /** What a decoder and an encoder check about the first field once all are read. */
  datatype Rule = Free | Equals(n: int) | OneOf(names: seq<string>)
  datatype Struct = Struct(fields: seq<Field>, grant: bool, rule: Rule)

  /** A decoded value: an object holds one value a field, in table order. */
  datatype Val = Str(s: string) | Num(n: int) | Bool(b: bool) | Map(m: map<string, string>) | List(vs: seq<Val>) | Obj(fs: seq<Val>)

  /** Go's zero value, which an optional field keeps when it is absent. */
  function Zero(k: Kind): Val {
    match k
    case Text | Time | Raw => Str("")
    case Int(_, _) => Num(0)
    case Flag => Bool(false)
    case Pairs => Map(map[])
    case Many(_) => List([])
    case Object(_) => Obj([])
  }

  predicate Optional(k: Kind) { k.Text? || k.Pairs? || k.Many? }

  /** The position of a key in the table, or its length if the table has no such key. */
  function IndexOf(fields: seq<Field>, key: string): (i: nat)
    ensures i <= |fields|
    ensures i < |fields| ==> fields[i].name == key
  {
    if fields == [] || fields[0].name == key then 0 else 1 + IndexOf(fields[1..], key)
  }

  predicate Distinct(fields: seq<Field>) {
    forall i, j :: 0 <= i < j < |fields| ==> fields[i].name != fields[j].name
  }

  lemma {:induction false} IndexOfName(fields: seq<Field>, i: nat)
    requires Distinct(fields) && i < |fields|
    ensures IndexOf(fields, fields[i].name) == i
  {
    if i > 0 {
      assert fields[0].name != fields[i].name;
      IndexOfName(fields[1..], i - 1);
    }
  }

  /** A table the generator can have produced: a required first field, distinct ASCII names. */
  predicate WfKind(k: Kind) {
    match k
    case Int(min, max) => MIN_I64 <= min <= max <= MAX_I64
    case Many(e) => WfKind(e)
    case Object(s) =>
      && s.fields != [] && s.fields[0].required && Distinct(s.fields)
      && (s.rule.Equals? ==> s.fields[0].kind.Int?) && (s.rule.OneOf? ==> s.fields[0].kind.Text?)
      && (forall f :: f in s.fields ==> WfKind(f.kind) && (f.required || Optional(f.kind)) && Utf8.Valid(f.name))
    case _ => true
  }

  /** The value has the shape its kind asks for. */
  predicate Typed(k: Kind, v: Val)
    decreases k
  {
    match k
    case Text | Time | Raw => v.Str?
    case Int(min, max) => v.Num? && min <= v.n <= max
    case Flag => v.Bool?
    case Pairs => v.Map?
    case Many(e) => v.List? && forall x :: x in v.vs ==> Typed(e, x)
    case Object(s) => v.Obj? && |v.fs| == |s.fields| && forall i :: 0 <= i < |v.fs| ==> Typed(s.fields[i].kind, v.fs[i])
  }

  predicate TypedAll(e: Kind, vs: seq<Val>) { forall x :: x in vs ==> Typed(e, x) }

  predicate ValidPairs(m: map<string, string>) {
    forall x :: x in m ==> Utf8.Valid(x) && Utf8.Valid(m[x])
  }

  /** Every string in it is UTF-8. (A timestamp that can be printed always is; raw text is not judged here.) */
  predicate Clean(k: Kind, v: Val)
    requires Typed(k, v)
    decreases k
  {
    match k
    case Text => Utf8.Valid(v.s)
    case Pairs => ValidPairs(v.m)
    case Many(e) => forall x :: x in v.vs ==> Clean(e, x)
    case Object(s) => forall i :: 0 <= i < |v.fs| ==> Clean(s.fields[i].kind, v.fs[i])
    case _ => true
  }

  predicate Obeys(r: Rule, first: Val) {
    match r
    case Free => true
    case Equals(n) => first == Num(n)
    case OneOf(names) => first.Str? && first.s in names
  }

  /** The word an encoder refuses with, if it refuses: the rule first, then the fields in order. */
  function Blocked(k: Kind, v: Val): (w: seq<Word>)
    requires Typed(k, v)
    ensures |w| <= 1
    decreases k, 1, 0
  {
    match k
    case Time => if Normalized(v.s) == "" then [BadTimestamp] else []
    case Many(e) => BlockedIn(k, v.vs)
    case Object(s) =>
      if |v.fs| > 0 && !Obeys(s.rule, v.fs[0]) then (if s.rule.Equals? then [BadSchema] else [BadEnum])
      else BlockedFrom(k, v, 0)
    case _ => []
  }

  function BlockedIn(k: Kind, vs: seq<Val>): (w: seq<Word>)
    requires k.Many? && forall x :: x in vs ==> Typed(k.elem, x)
    ensures |w| <= 1
    decreases k, 0, |vs|
  {
    if vs == [] then [] else
      var w := Blocked(k.elem, vs[0]);
      if w != [] then w else BlockedIn(k, vs[1..])
  }

  function BlockedFrom(k: Kind, v: Val, i: nat): (w: seq<Word>)
    requires k.Object? && Typed(k, v) && i <= |v.fs|
    ensures |w| <= 1
    decreases k, 0, |v.fs| - i
  {
    if i == |v.fs| then [] else
      var w := Blocked(k.s.fields[i].kind, v.fs[i]);
      if w != [] then w else BlockedFrom(k, v, i + 1)
  }

  /** What the value is once written and read: every time in the writer's spelling. */
  function Norm(k: Kind, v: Val): (n: Val)
    requires Typed(k, v)
    ensures Typed(k, n)
    decreases k
  {
    match k
    case Time => Str(Normalized(v.s))
    case Many(e) => List(seq(|v.vs|, i requires 0 <= i < |v.vs| => Norm(e, v.vs[i])))
    case Object(s) => Obj(seq(|v.fs|, i requires 0 <= i < |v.fs| => Norm(s.fields[i].kind, v.fs[i])))
    case _ => v
  }

  /** How many containers deep a value of the kind can be. */
  function Height(k: Kind): (h: nat)
    decreases k, 0
  {
    match k
    case Pairs => 1
    case Many(e) => 1 + Height(e)
    case Object(s) => 1 + Tallest(s.fields)
    case _ => 0
  }

  function Tallest(fields: seq<Field>): (h: nat)
    decreases fields, 0
  {
    if fields == [] then 0 else
      var h, t := Height(fields[0].kind), Tallest(fields[1..]);
      if h > t then h else t
  }

  lemma {:induction false} FieldHeight(fields: seq<Field>, i: nat)
    requires i < |fields|
    ensures Height(fields[i].kind) <= Tallest(fields)
  {
    if i > 0 { FieldHeight(fields[1..], i - 1); }
  }

  lemma {:induction false} BlockedElsewhere(k: Kind, vs: seq<Val>, i: nat)
    requires k.Many? && (forall x :: x in vs ==> Typed(k.elem, x)) && i < |vs| && BlockedIn(k, vs) == []
    ensures Blocked(k.elem, vs[i]) == []
  {
    if i > 0 { BlockedElsewhere(k, vs[1..], i - 1); }
  }

  lemma {:induction false} BlockedLater(k: Kind, v: Val, i: nat, j: nat)
    requires k.Object? && Typed(k, v) && i <= j < |v.fs| && BlockedFrom(k, v, i) == []
    ensures Blocked(k.s.fields[j].kind, v.fs[j]) == []
    decreases j - i
  {
    if i < j { BlockedLater(k, v, i + 1, j); }
  }

  // ---- writing twice ----

  lemma {:induction false} BlockedInNone(k: Kind, vs: seq<Val>)
    requires k.Many? && (forall x :: x in vs ==> Typed(k.elem, x))
    requires forall i :: 0 <= i < |vs| ==> Blocked(k.elem, vs[i]) == []
    ensures BlockedIn(k, vs) == []
  {
    if vs != [] {
      assert Blocked(k.elem, vs[0]) == [];
      BlockedInNone(k, vs[1..]);
    }
  }

  lemma {:induction false} BlockedFromNone(k: Kind, v: Val, i: nat)
    requires k.Object? && Typed(k, v) && i <= |v.fs|
    requires forall j :: i <= j < |v.fs| ==> Blocked(k.s.fields[j].kind, v.fs[j]) == []
    ensures BlockedFrom(k, v, i) == []
    decreases |v.fs| - i
  {
    if i < |v.fs| { BlockedFromNone(k, v, i + 1); }
  }

  /** A value that can be written can be written again after it has been read, and is already normal. */
  lemma {:induction false} NormAgain(k: Kind, v: Val)
    requires WfKind(k) && Typed(k, v) && Blocked(k, v) == []
    ensures Blocked(k, Norm(k, v)) == [] && Norm(k, Norm(k, v)) == Norm(k, v)
    ensures Clean(k, v) ==> Clean(k, Norm(k, v))
    decreases k
  {
    match k
    case Time => NormalizedFixpoint(v.s);
    case Many(e) => NormAgainMany(k, v);
    case Object(s) => NormAgainObject(k, v);
    case _ =>
  }

  lemma {:induction false} NormAgainMany(k: Kind, v: Val)
    requires k.Many? && WfKind(k) && Typed(k, v) && Blocked(k, v) == []
    ensures Blocked(k, Norm(k, v)) == [] && Norm(k, Norm(k, v)) == Norm(k, v)
    ensures Clean(k, v) ==> Clean(k, Norm(k, v))
    decreases k, 0
  {
    var n := Norm(k, v);
    forall i | 0 <= i < |v.vs|
      ensures Blocked(k.elem, n.vs[i]) == [] && Norm(k.elem, n.vs[i]) == n.vs[i]
      ensures Clean(k, v) ==> Clean(k.elem, n.vs[i])
    {
      BlockedElsewhere(k, v.vs, i);
      NormAgain(k.elem, v.vs[i]);
    }
    BlockedInNone(k, n.vs);
    assert Norm(k, n).vs == n.vs;
  }

  lemma {:induction false} NormAgainObject(k: Kind, v: Val)
    requires k.Object? && WfKind(k) && Typed(k, v) && Blocked(k, v) == []
    ensures Blocked(k, Norm(k, v)) == [] && Norm(k, Norm(k, v)) == Norm(k, v)
    ensures Clean(k, v) ==> Clean(k, Norm(k, v))
    decreases k, 0
  {
    var n := Norm(k, v);
    forall i | 0 <= i < |v.fs|
      ensures Blocked(k.s.fields[i].kind, n.fs[i]) == [] && Norm(k.s.fields[i].kind, n.fs[i]) == n.fs[i]
      ensures Clean(k, v) ==> Clean(k.s.fields[i].kind, n.fs[i])
    {
      BlockedLater(k, v, 0, i);
      assert k.s.fields[i] in k.s.fields;
      NormAgain(k.s.fields[i].kind, v.fs[i]);
    }
    BlockedFromNone(k, n, 0);
    assert Norm(k, n).fs == n.fs;
  }
}
