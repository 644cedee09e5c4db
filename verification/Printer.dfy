/** The encoders: two-space indentation, table order, optional zeros left out, map keys in byte order. */
module Printer {
  import D = Decimal
  import opened Timestamp
  import opened Lexer
  import opened Schema

  // ---- key order ----

  /** `byteLess`: bytewise, the shorter first when one is a prefix of the other. */
  predicate Less(a: string, b: string) {
    if b == "" then false
    else if a == "" then true
    else if a[0] != b[0] then a[0] < b[0]
    else Less(a[1..], b[1..])
  }

  lemma {:induction false} LessTotal(a: string, b: string)
    ensures a == b || Less(a, b) || Less(b, a)
    ensures !(Less(a, b) && Less(b, a)) && !Less(a, a)
  {
    if a != "" && b != "" && a[0] == b[0] {
      LessTotal(a[1..], b[1..]);
      if a[1..] == b[1..] { assert a == [a[0]] + a[1..] && b == [b[0]] + b[1..]; }
    }
    if a != "" { LessIrreflexive(a); }
  }

  lemma {:induction false} LessIrreflexive(a: string)
    ensures !Less(a, a)
  {
    if a != "" { LessIrreflexive(a[1..]); }
  }

  lemma {:induction false} LessTransitive(a: string, b: string, c: string)
    requires Less(a, b) && Less(b, c)
    ensures Less(a, c)
  {
    if a != "" && a[0] == b[0] && b[0] == c[0] { LessTransitive(a[1..], b[1..], c[1..]); }
  }

  predicate Ascending(ks: seq<string>) {
    forall i, j :: 0 <= i < j < |ks| ==> Less(ks[i], ks[j])
  }

  /** The keys of a map in byte order: each once. */
  ghost predicate Listing(ks: seq<string>, keys: set<string>) {
    Ascending(ks) && forall x :: x in ks <==> x in keys
  }

  lemma FirstKey(b: seq<string>, keys: set<string>)
    requires Listing(b, keys) && b != []
    ensures b[0] in keys
  {
    assert b[0] in b;
  }

  /** There is only one: two ascending listings of one key set are the same sequence. */
  lemma {:induction false} ListingUnique(a: seq<string>, b: seq<string>, keys: set<string>)
    requires Listing(a, keys) && Listing(b, keys)
    ensures a == b
    decreases |a|
  {
    if a == [] {
      if b != [] { FirstKey(b, keys); }
    } else {
      assert a[0] in keys && a[0] in b;
      FirstIsLeast(a, b, keys);
      var rest := keys - {a[0]};
      TailListing(a, keys);
      TailListing(b, keys);
      ListingUnique(a[1..], b[1..], rest);
      assert a == [a[0]] + a[1..] && b == [b[0]] + b[1..];
    }
  }

  lemma FirstIsLeast(a: seq<string>, b: seq<string>, keys: set<string>)
    requires Listing(a, keys) && Listing(b, keys) && a != [] && b != []
    ensures a[0] == b[0]
  {
    assert a[0] in b && b[0] in a;
    var i :| 0 <= i < |b| && b[i] == a[0];
    var j :| 0 <= j < |a| && a[j] == b[0];
    if i > 0 && j > 0 {
      assert Less(b[0], a[0]) && Less(a[0], b[0]);
      LessTotal(a[0], b[0]);
    }
  }

  lemma TailListing(a: seq<string>, keys: set<string>)
    requires Listing(a, keys) && a != []
    ensures Listing(a[1..], keys - {a[0]})
  {
    forall x ensures x in a[1..] <==> x in keys - {a[0]} {
      if x in a[1..] {
        var i :| 0 < i < |a| && a[i] == x;
        LessIrreflexive(a[0]);
        assert x in a;
      }
      if x in keys - {a[0]} { assert x in a; var i :| 0 <= i < |a| && a[i] == x; assert a[1..][i-1] == x; }
    }
  }

  lemma {:induction false} LeastKey(keys: set<string>) returns (k: string)
    requires keys != {}
    ensures k in keys && forall x :: x in keys && x != k ==> Less(k, x)
    decreases |keys|
  {
    k :| k in keys;
    if keys != {k} {
      var m := LeastKey(keys - {k});
      LessTotal(k, m);
      if Less(k, m) {
        forall x | x in keys && x != k ensures Less(k, x) {
          if x != m { LessTransitive(k, m, x); }
        }
      } else {
        k := m;
      }
    }
  }

  predicate Least(k: string, keys: set<string>) {
    k in keys && forall x :: x in keys ==> x == k || Less(k, x)
  }

  lemma LeastUnique(keys: set<string>, a: string, b: string)
    requires Least(a, keys) && Least(b, keys)
    ensures a == b
  {
    LessTotal(a, b);
  }

  lemma PrependLeast(k: string, rest: seq<string>, keys: set<string>)
    requires Least(k, keys) && Listing(rest, keys - {k})
    ensures Listing([k] + rest, keys)
  {
    var ks := [k] + rest;
    forall x ensures x in ks <==> x in keys {
      assert x in ks <==> x == k || x in rest;
    }
    forall i, j | 0 <= i < j < |ks| ensures Less(ks[i], ks[j]) {
      assert ks[j] == rest[j-1];
      assert rest[j-1] in rest;
    }
  }

  /** The listing of a key set, as a function: what every iteration order of the map sorts to. */
  function SortedKeys(keys: set<string>): (ks: seq<string>)
    ensures Listing(ks, keys)
    decreases |keys|
  {
    if keys == {} then []
    else
      assert exists k :: Least(k, keys) by { var k := LeastKey(keys); assert Least(k, keys); }
      assert forall a, b :: Least(a, keys) && Least(b, keys) ==> a == b by {
        forall a, b | Least(a, keys) && Least(b, keys) ensures a == b { LeastUnique(keys, a, b); }
      }
      var k :| k in keys && Least(k, keys);
      PrependLeast(k, SortedKeys(keys - {k}), keys);
      [k] + SortedKeys(keys - {k})
  }

  /** One exchange of neighbours, as the inner loop makes it. */
  predicate SortedBut(ks: seq<string>, n: nat, j: nat) {
    && j <= n < |ks|
    && (forall a, b :: 0 <= a < b <= n && a != j && b != j ==> Less(ks[a], ks[b]))
    && (forall b :: j < b <= n ==> Less(ks[j], ks[b]))
  }

  lemma ExchangeKeeps(ks: seq<string>, n: nat, j: nat)
    requires SortedBut(ks, n, j) && 0 < j && Less(ks[j], ks[j-1])
    ensures SortedBut(ks[j := ks[j-1]][j-1 := ks[j]], n, j - 1)
  {
  }

  lemma SettledIsSorted(ks: seq<string>, n: nat, j: nat)
    requires SortedBut(ks, n, j) && (j == 0 || Less(ks[j-1], ks[j]))
    ensures Ascending(ks[..n+1])
  {
    forall a, b | 0 <= a < b <= n ensures Less(ks[a], ks[b]) {
      if b == j && a < j - 1 { LessTransitive(ks[a], ks[j-1], ks[j]); }
    }
  }

  predicate NoRepeats(ks: seq<string>) {
    forall a, b :: 0 <= a < b < |ks| ==> ks[a] != ks[b]
  }

  ghost predicate SameElements(ks: seq<string>, keys: set<string>) {
    NoRepeats(ks) && forall x :: x in ks <==> x in keys
  }

  lemma ExchangeElements(ks: seq<string>, i: nat, j: nat, keys: set<string>)
    requires SameElements(ks, keys) && i < j < |ks|
    ensures SameElements(ks[j := ks[i]][i := ks[j]], keys)
  {
    var t := ks[j := ks[i]][i := ks[j]];
    forall x ensures x in t <==> x in keys {
      if x in ks {
        var k :| 0 <= k < |ks| && ks[k] == x;
        assert t[if k == i then j else if k == j then i else k] == x;
      }
      if x in t {
        var k :| 0 <= k < |t| && t[k] == x;
        assert ks[if k == i then j else if k == j then i else k] == x;
      }
    }
  }

  /** `sortedKeys`: the keys in whatever order the map gives them, sorted in place by insertion. */
  method KeysInOrder(m: map<string, string>) returns (ks: seq<string>)
    ensures ks == SortedKeys(m.Keys)
  {
    var found, left := [], m.Keys;
    while left != {}
      invariant left <= m.Keys && SameElements(found, m.Keys - left)
      decreases left
    {
      var k :| k in left;
      found, left := found + [k], left - {k};
    }
    var keys := new string[|found|](i requires 0 <= i < |found| => found[i]);
    assert keys[..] == found;
    SortInPlace(keys, m.Keys);
    ks := keys[..];
    ListingUnique(ks, SortedKeys(m.Keys), m.Keys);
  }

  method SortInPlace(keys: array<string>, ghost all: set<string>)
    requires SameElements(keys[..], all)
    modifies keys
    ensures Listing(keys[..], all)
  {
    var i := 1;
    while i < keys.Length
      invariant 1 <= i
      invariant SameElements(keys[..], all)
      invariant Ascending(keys[..if i < keys.Length then i else keys.Length])
    {
      Insert(keys, i, all);
      i := i + 1;
      assert keys[..if i < keys.Length then i else keys.Length] == keys[..i];
    }
    assert keys[..if i < keys.Length then i else keys.Length] == keys[..];
  }

  method Insert(keys: array<string>, i: nat, ghost all: set<string>)
    requires 1 <= i < keys.Length && SameElements(keys[..], all) && Ascending(keys[..i])
    modifies keys
    ensures SameElements(keys[..], all) && Ascending(keys[..i+1])
  {
    var j := i;
    assert SortedBut(keys[..], i, j) by {
      forall a, b | 0 <= a < b <= i && a != i && b != i ensures Less(keys[..][a], keys[..][b]) {
        assert keys[..i][a] == keys[a] && keys[..i][b] == keys[b];
      }
    }
    while j > 0 && Less(keys[j], keys[j-1])
      invariant 0 <= j <= i
      invariant SameElements(keys[..], all) && SortedBut(keys[..], i, j)
    {
      ghost var was := keys[..];
      ExchangeKeeps(was, i, j);
      ExchangeElements(was, j - 1, j, all);
      keys[j], keys[j-1] := keys[j-1], keys[j];
      assert keys[..] == was[j := was[j-1]][j-1 := was[j]];
      j := j - 1;
    }
    if j > 0 {
      assert keys[..][j-1] != keys[..][j];
      LessTotal(keys[j-1], keys[j]);
    }
    SettledIsSorted(keys[..], i, j);
  }

  // ---- text ----

  function Pad(depth: nat): (s: string)
    ensures |s| == 2 * depth && forall k :: 0 <= k < |s| ==> s[k] == ' '
  {
    seq(2 * depth, _ => ' ')
  }

  /** One key and its value on a line of its own, the comma or the line end not included. */
  function Entry(name: string, value: string, depth: nat): string {
    Pad(depth) + (Quoted(name) + ": " + value)
  }

  function Closing(depth: nat, shut: char): string { "\n" + Pad(depth) + [shut] }

  /** The entries of a map after the first has been begun. */
  function PairLines(ks: seq<string>, m: map<string, string>, depth: nat): string
    requires forall k :: k in ks ==> k in m
  {
    if ks == [] then "" else
      assert ks[0] in m;
      ",\n" + Entry(ks[0], Quoted(m[ks[0]]), depth) + PairLines(ks[1..], m, depth)
  }

  function PrintPairs(m: map<string, string>, depth: nat): string {
    var ks := SortedKeys(m.Keys);
    if ks == [] then "{}" else
      assert ks[0] in m;
      "{\n" + Entry(ks[0], Quoted(m[ks[0]]), depth + 1) + PairLines(ks[1..], m, depth + 1) + Closing(depth, '}')
  }

  /** Whether an encoder writes the field at all. */
  predicate Present(f: Field, v: Val) { f.required || v != Zero(f.kind) }

  /** What the encoder of a kind appends at a depth, for a value it does not refuse. */
  function Print(k: Kind, v: Val, depth: nat): string
    requires Typed(k, v)
    decreases k, 1, 0
  {
    match k
    case Text => Quoted(v.s)
    case Raw => v.s
    case Time => Quoted(Normalized(v.s))
    case Int(_, _) => D.Num(v.n)
    case Flag => if v.b then "true" else "false"
    case Pairs => PrintPairs(v.m, depth)
    case Many(e) =>
      if v.vs == [] then "[]" else
        "[\n" + (Pad(depth + 1) + Print(e, v.vs[0], depth + 1)) + ItemLines(k, v.vs[1..], depth + 1) + Closing(depth, ']')
    case Object(s) =>
      if v.fs == [] then "{}" else
        "{\n" + Entry(s.fields[0].name, Print(s.fields[0].kind, v.fs[0], depth + 1), depth + 1)
        + FieldLines(k, v, 1, depth + 1) + Closing(depth, '}')
  }

  function ItemLines(k: Kind, vs: seq<Val>, depth: nat): string
    requires k.Many? && TypedAll(k.elem, vs)
    decreases k, 0, |vs|
  {
    if vs == [] then "" else ",\n" + (Pad(depth) + Print(k.elem, vs[0], depth)) + ItemLines(k, vs[1..], depth)
  }

  function FieldLines(k: Kind, v: Val, i: nat, depth: nat): string
    requires k.Object? && Typed(k, v) && i <= |v.fs|
    decreases k, 0, |v.fs| - i
  {
    if i == |v.fs| then ""
    else if Present(k.s.fields[i], v.fs[i]) then
      ",\n" + Entry(k.s.fields[i].name, Print(k.s.fields[i].kind, v.fs[i], depth), depth) + FieldLines(k, v, i + 1, depth)
    else FieldLines(k, v, i + 1, depth)
  }
}
