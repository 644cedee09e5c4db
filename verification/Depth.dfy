/** What the depth limit means: a text is accepted at a depth exactly if its nesting fits below the limit. */
module Depth {
  import opened Decimal
  import opened Lexer
  import opened Schema
  import opened Parser

  /** The skipper without its limit: where the value at pos ends, and how many containers deep it goes. */
  function Walk(buf: string, pos: nat): (r: Parsed<nat>)
    requires pos <= |buf|
    ensures r.Ok? ==> pos < r.pos <= |buf|
    decreases |buf| - pos, 0
  {
    var c := At(buf, pos);
    if c == '{' || c == '[' then
      var p := Ws(buf, pos + 1);
      if At(buf, p) == Shutter(c) then Ok(1, p + 1)
      else
        var items := WalkItems(buf, p, c);
        if items.Ok? then Ok(1 + items.value, items.pos) else items
    else
      var leaf := Skip(buf, pos, 0);
      if leaf.Ok? then Ok(0, leaf.pos) else Refused(leaf.word, leaf.at)
  }

  /** The items of a container from pos on: the deepest of them. */
  function WalkItems(buf: string, pos: nat, open: char): (r: Parsed<nat>)
    requires pos <= |buf|
    ensures r.Ok? ==> pos < r.pos <= |buf|
    decreases |buf| - pos, 1
  {
    var k := if open == '{' then KeyAt(buf, pos) else Ok("", Ws(buf, pos));
    if k.Refused? then Refused(k.word, k.at)
    else
      var v := Walk(buf, k.pos);
      if v.Refused? then v
      else match After(buf, v.pos, Shutter(open))
        case More(p) =>
          var rest := WalkItems(buf, p, open);
          if rest.Ok? then Ok(if v.value > rest.value then v.value else rest.value, rest.pos) else rest
        case Shut(p) => Ok(v.value, p)
        case Bad(p) => Refused(Malformed, p)
  }

  /** So many containers more fit at this depth. */
  predicate Below(depth: nat, height: nat) { height == 0 || depth + height <= DEPTH_LIMIT }

  /** A leaf does not look at the depth. */
  lemma LeafAnywhere(buf: string, pos: nat, depth: nat)
    requires pos <= |buf| && At(buf, pos) != '{' && At(buf, pos) != '['
    ensures Skip(buf, pos, depth) == Skip(buf, pos, 0)
  {
    hide SkipItems, StrAt, SkipNumber, Literal;
  }

  /** The limit is the only thing the skipper asks beyond the walk: it accepts exactly the values whose
      nesting fits below the limit, to the same end, and refuses every other. */
  lemma {:induction false} SkipExactly(buf: string, pos: nat, depth: nat)
    requires pos <= |buf|
    ensures var w := Walk(buf, pos);
      if w.Ok? && Below(depth, w.value) then Skip(buf, pos, depth) == Ok((), w.pos) else Skip(buf, pos, depth).Refused?
    decreases |buf| - pos, 0
  {
    hide SkipItems, WalkItems, StrAt, SkipNumber, Literal, Ws;
    var c := At(buf, pos);
    if c == '{' || c == '[' {
      var p := Ws(buf, pos + 1);
      if At(buf, p) != Shutter(c) { ItemsExactly(buf, p, depth + 1, c); }
    } else {
      LeafAnywhere(buf, pos, depth);
      var leaf := Skip(buf, pos, 0);
      assert leaf.Ok? ==> leaf.value == ();
    }
  }

  lemma {:induction false} ItemsExactly(buf: string, pos: nat, depth: nat, open: char)
    requires pos <= |buf|
    ensures var w := WalkItems(buf, pos, open);
      if w.Ok? && Below(depth, w.value) then SkipItems(buf, pos, depth, open) == Ok((), w.pos)
      else SkipItems(buf, pos, depth, open).Refused?
    decreases |buf| - pos, 1
  {
    hide Skip, Walk, After, KeyAt, Ws;
    var k := if open == '{' then KeyAt(buf, pos) else Ok("", Ws(buf, pos));
    if k.Ok? {
      SkipExactly(buf, k.pos, depth);
      var v := Walk(buf, k.pos);
      if v.Ok? {
        var n := After(buf, v.pos, Shutter(open));
        if n.More? { ItemsExactly(buf, n.pos, depth, open); }
      }
    }
  }

  /** Whatever a typed reader of any table accepts is nested no deeper than the limit, and ends where the walk does. */
  lemma AcceptedIsShallow(k: Kind, buf: string, pos: nat, depth: nat)
    requires pos <= |buf| && WfKind(k) && Parse(k, buf, pos, depth).Ok?
    ensures var w := Walk(buf, pos);
      w.Ok? && w.pos == Parse(k, buf, pos, depth).pos && Below(depth, w.value)
  {
    hide Skip, Walk, Parse, WfKind;
    SkipFollows(k, buf, pos, depth);
    SkipExactly(buf, pos, depth);
  }
}
