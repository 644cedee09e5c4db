/** The provenance chain: what each hop is worth to whoever assesses it, and the keyed bindings that
    outlive the path. */
module Provenance {
  import opened Decimal
  import opened Records
  import opened Wrappers
  import opened Messages
  import Utf8

  const SELF := "self"
  const UNKNOWN: int64 := -1

  datatype Standing = Claimed | Asserted | Vouched | Established

  predicate Trusted(s: Standing) { s.Vouched? || s.Established? }

  function Rank(s: Standing): nat { match s case Claimed => 0 case Asserted => 1 case Vouched => 2 case Established => 3 }

  /** The canonical rendering of a record and the keyed digest, neither looked into. */
  datatype Seal = Seal(render: Record -> Option<string>, mac: (string, string) -> string)

  /** Who may attest the hops beneath it, and the keys held. */
  datatype Policy = Policy(relay: Option<Attestation -> bool>, keys: map<string, string>)

  predicate Authorised(p: Policy, a: Attestation) { p.relay.Some? && p.relay.value(a) }

  // ---- bindings ----

  /** The record as it stood when the hop was appended, the hop's own digest empty. */
  function CutAt(r: Record, hop: nat): Record
    requires hop < |r.identity|
  {
    var chain := r.identity[..hop+1];
    r.(schema := if r.schema == 0 then 1 else r.schema, identity := chain[hop := chain[hop].(mac := "")])
  }

  predicate BindingHolds(c: Seal, r: Record, hop: nat, key: string)
    requires hop < |r.identity|
  {
    var b := c.render(CutAt(r, hop));
    b.Some? && c.mac(b.value, key) == r.identity[hop].mac
  }

  /** What `Bind` makes of the chain; a record that cannot be rendered keeps the key and no digest. */
  function Bound(c: Seal, r: Record, hop: nat, keyId: string, key: string): (chain: seq<Attestation>)
    requires hop < |r.identity|
  {
    var named := r.identity[hop := r.identity[hop].(key := keyId, mac := "")];
    var b := c.render(CutAt(r.(identity := named), hop));
    if b.None? then named else named[hop := named[hop].(mac := c.mac(b.value, key))]
  }

  // ---- standing ----

  /** A hop that claims verification and is not the writer's own claim. */
  predicate Genuine(a: Attestation) { a.attester != SELF && a.verified }

  /** The same stamp, wherever it sits and whatever was bound to it afterwards. */
  predicate SameStamp(a: Attestation, b: Attestation) {
    a.(hop := 0, key := "", mac := "") == b.(hop := 0, key := "", mac := "")
  }

  predicate Anchored(r: Record, anchor: Option<Attestation>, k: nat)
    requires k < |r.identity|
  {
    k == |r.identity| - 1 && anchor.Some? && SameStamp(r.identity[k], anchor.value)
  }

  predicate Sealed(c: Seal, r: Record, p: Policy, k: nat)
    requires k < |r.identity|
  {
    var a := r.identity[k];
    a.mac != "" && a.key in p.keys && BindingHolds(c, r, k, p.keys[a.key])
  }

  /** `Assess`, hop by hop from the top. */
  function StandingAt(c: Seal, r: Record, anchor: Option<Attestation>, p: Policy, k: nat): Standing
    requires k < |r.identity|
    decreases |r.identity| - k
  {
    var a := r.identity[k];
    if a.attester == SELF && a.verified then Asserted
    else if a.attester == SELF || !a.verified then Claimed
    else if Anchored(r, anchor, k) then Established
    else if Sealed(c, r, p, k) then Vouched
    else if k + 1 < |r.identity| && Trusted(StandingAt(c, r, anchor, p, k + 1)) && Authorised(p, r.identity[k+1]) then Vouched
    else Asserted
  }

  /** The loop, from the anchor down. */
  method Assess(c: Seal, r: Record, anchor: Option<Attestation>, p: Policy) returns (st: array<Standing>)
    ensures fresh(st) && st.Length == |r.identity|
    ensures forall k :: 0 <= k < st.Length ==> st[k] == StandingAt(c, r, anchor, p, k)
  {
    var id := r.identity;
    var n := |id|;
    st := new Standing[n](_ => Claimed);
    var k := n - 1;
    while k >= 0
      invariant -1 <= k < n
      invariant forall i :: k < i < n ==> st[i] == StandingAt(c, r, anchor, p, i)
    {
      var a := id[k];
      if a.attester == SELF && a.verified {
        st[k] := Asserted;
      } else if a.attester == SELF || !a.verified {
        st[k] := Claimed;
      } else if k == n - 1 && anchor.Some? && SameStamp(a, anchor.value) {
        st[k] := Established;
      } else if a.mac != "" && a.key in p.keys && BindingHolds(c, r, k, p.keys[a.key]) {
        st[k] := Vouched;
      } else if k + 1 < n && Trusted(st[k+1]) && p.relay.Some? && p.relay.value(id[k+1]) {
        st[k] := Vouched;
      } else {
        st[k] := Asserted;
      }
      k := k - 1;
    }
  }

  // ---- standing is path reachability ----

  /** Trust that needs no hop above it: the matching anchor at the end, or a binding under a held key. */
  predicate Root(c: Seal, r: Record, anchor: Option<Attestation>, p: Policy, j: nat)
    requires j < |r.identity|
  {
    Genuine(r.identity[j]) && (Anchored(r, anchor, j) || Sealed(c, r, p, j))
  }

  /** Every hop above k up to j is genuine and may vouch for the next. */
  predicate Path(r: Record, p: Policy, k: nat, j: nat)
    requires k <= j < |r.identity|
  {
    forall i :: k < i <= j ==> Genuine(r.identity[i]) && Authorised(p, r.identity[i])
  }

  ghost predicate Reached(c: Seal, r: Record, anchor: Option<Attestation>, p: Policy, k: nat)
    requires k < |r.identity|
  {
    Genuine(r.identity[k]) && exists j :: k <= j < |r.identity| && Root(c, r, anchor, p, j) && Path(r, p, k, j)
  }

  lemma StandingUnfold(c: Seal, r: Record, anchor: Option<Attestation>, p: Policy, k: nat)
    requires k < |r.identity|
    ensures Trusted(StandingAt(c, r, anchor, p, k)) <==>
      Genuine(r.identity[k]) && (Anchored(r, anchor, k) || Sealed(c, r, p, k)
        || (k + 1 < |r.identity| && Trusted(StandingAt(c, r, anchor, p, k + 1)) && Authorised(p, r.identity[k+1])))
  {
    hide Anchored, Sealed, Authorised;
  }

  /** A hop stands Vouched or better exactly if a path of authorised hops reaches it from a root. */
  lemma {:induction false} StandingExactly(c: Seal, r: Record, anchor: Option<Attestation>, p: Policy, k: nat)
    requires k < |r.identity|
    ensures Trusted(StandingAt(c, r, anchor, p, k)) <==> Reached(c, r, anchor, p, k)
    decreases |r.identity| - k
  {
    hide Genuine, Authorised, Anchored, Sealed;
    StandingUnfold(c, r, anchor, p, k);
    hide StandingAt;
    if k + 1 < |r.identity| {
      StandingExactly(c, r, anchor, p, k + 1);
      if Reached(c, r, anchor, p, k + 1) && Genuine(r.identity[k]) && Authorised(p, r.identity[k+1]) {
        var j :| k + 1 <= j < |r.identity| && Root(c, r, anchor, p, j) && Path(r, p, k + 1, j);
        assert Path(r, p, k, j);
      }
    }
    if Trusted(StandingAt(c, r, anchor, p, k)) && Root(c, r, anchor, p, k) { assert Path(r, p, k, k); }
    if Reached(c, r, anchor, p, k) {
      var j :| k <= j < |r.identity| && Root(c, r, anchor, p, j) && Path(r, p, k, j);
      if j > k { assert Path(r, p, k + 1, j); }
    }
  }

  /** The one thing above Vouched: the assessor's own stamp, at the end of the chain. */
  lemma EstablishedExactly(c: Seal, r: Record, anchor: Option<Attestation>, p: Policy, k: nat)
    requires k < |r.identity|
    ensures StandingAt(c, r, anchor, p, k).Established? <==> Genuine(r.identity[k]) && Anchored(r, anchor, k)
  {
  }

  /** A file no service wrote can only make claims. */
  lemma NothingFromNothing(c: Seal, r: Record, p: Policy, k: nat)
    requires k < |r.identity| && p.keys == map[]
    ensures !Trusted(StandingAt(c, r, None, p, k))
  {
    StandingExactly(c, r, None, p, k);
  }

  ghost predicate Wider(p: Policy, q: Policy) {
    && (forall a :: Authorised(p, a) ==> Authorised(q, a))
    && (forall k :: k in p.keys ==> k in q.keys && q.keys[k] == p.keys[k])
  }

  /** Trusting more never lowers a standing. */
  lemma {:induction false} PolicyMonotone(c: Seal, r: Record, anchor: Option<Attestation>, p: Policy, q: Policy, k: nat)
    requires k < |r.identity| && Wider(p, q)
    ensures Rank(StandingAt(c, r, anchor, p, k)) <= Rank(StandingAt(c, r, anchor, q, k))
    decreases |r.identity| - k
  {
    if k + 1 < |r.identity| { PolicyMonotone(c, r, anchor, p, q, k + 1); }
  }

  /** Without keys a standing is decided by the hop and those above it alone: rewriting what is beneath
      moves nothing. */
  lemma {:induction false} OnlyFromAbove(c: Seal, r: Record, s: Record, anchor: Option<Attestation>, p: Policy, k: nat)
    requires k < |r.identity| == |s.identity| && r.identity[k..] == s.identity[k..] && p.keys == map[]
    ensures StandingAt(c, r, anchor, p, k) == StandingAt(c, s, anchor, p, k)
    decreases |r.identity| - k
  {
    assert r.identity[k] == r.identity[k..][0] && s.identity[k] == s.identity[k..][0];
    if k + 1 < |r.identity| {
      assert r.identity[k+1..] == r.identity[k..][1..] && s.identity[k+1..] == s.identity[k..][1..];
      assert r.identity[k+1] == r.identity[k..][1] && s.identity[k+1] == s.identity[k..][1];
      OnlyFromAbove(c, r, s, anchor, p, k + 1);
    }
  }

  // ---- who wrote it ----

  datatype Assessed = Assessed(chain: seq<Attestation>, standing: seq<Standing>)

  function Author(pv: Assessed): Option<Attestation>
    requires |pv.chain| == |pv.standing|
  {
    if |pv.chain| > 1 && Trusted(pv.standing[1]) then Some(pv.chain[1]) else None
  }

  function ImmediatePeer(pv: Assessed): Option<Attestation>
    requires |pv.chain| == |pv.standing|
  {
    var n := |pv.chain|;
    if n > 0 && pv.standing[n-1] == Established then Some(pv.chain[n-1]) else None
  }

  /** The writer's own claim: the first hop that says so, at hop 0. */
  function Claim(chain: seq<Attestation>): (c: Option<Attestation>)
    ensures c.Some? ==> exists i :: FirstClaim(chain, i) && c.value == chain[i]
    ensures c.None? ==> forall a :: a in chain ==> !SelfClaim(a)
  {
    if chain == [] then None
    else if SelfClaim(chain[0]) then
      assert FirstClaim(chain, 0);
      Some(chain[0])
    else
      var c := Claim(chain[1..]);
      assert forall i :: FirstClaim(chain[1..], i) ==> FirstClaim(chain, i + 1);
      assert c.None? ==> forall a :: a in chain ==> a == chain[0] || a in chain[1..];
      c
  }

  predicate SelfClaim(a: Attestation) { a.attester == SELF && a.hop == 0 }

  predicate FirstClaim(chain: seq<Attestation>, i: int) {
    0 <= i < |chain| && SelfClaim(chain[i]) && forall j :: 0 <= j < i ==> !SelfClaim(chain[j])
  }

  predicate Contradicts(about: Attestation, claim: Attestation) {
    || (about.host != "" && claim.host != "" && about.host != claim.host)
    || (about.pid != UNKNOWN && claim.pid != UNKNOWN && about.pid != claim.pid)
  }

  predicate Disputed(pv: Assessed)
    requires |pv.chain| == |pv.standing|
  {
    var claim, about := Claim(pv.chain), Author(pv);
    claim.Some? && about.Some? && Contradicts(about.value, claim.value)
  }

  ghost predicate Assesses(pv: Assessed, c: Seal, r: Record, anchor: Option<Attestation>, p: Policy) {
    && pv.chain == r.identity && |pv.standing| == |r.identity|
    && forall k :: 0 <= k < |pv.standing| ==> pv.standing[k] == StandingAt(c, r, anchor, p, k)
  }

  /** An author is named only when the path reaches hop 1, and a dispute only by such an author. */
  lemma AuthorExactly(pv: Assessed, c: Seal, r: Record, anchor: Option<Attestation>, p: Policy)
    requires Assesses(pv, c, r, anchor, p)
    ensures Author(pv).Some? <==> |r.identity| > 1 && Reached(c, r, anchor, p, 1)
    ensures Author(pv).Some? ==> Author(pv).value == r.identity[1]
    ensures Disputed(pv) <==>
      (|r.identity| > 1 && Reached(c, r, anchor, p, 1) && exists i :: FirstClaim(r.identity, i) && Contradicts(r.identity[1], r.identity[i]))
    ensures ImmediatePeer(pv).Some? <==> r.identity != [] && Genuine(r.identity[|r.identity|-1]) && Anchored(r, anchor, |r.identity| - 1)
  {
    if |r.identity| > 1 { StandingExactly(c, r, anchor, p, 1); }
  }

  // ---- a service's own part ----

  const UNCLAIMED := "unclaimed"
  const WRITER_CLAIM := "logging.writer_claim"
  const PEER_ERROR := "logging.peer_error"

  function Unclaimed(): Attestation {
    Attestation(UNCLAIMED, false, 0, "", "", "", "", UNKNOWN, UNKNOWN, UNKNOWN, "", "")
  }

  /** A receiving service: the key it binds its stamps with, if it has one. */
  datatype Service = Service(keyId: string, key: Option<string>)
  /** What the platform answered about the peer, or why it could not. */
  datatype Answer = Peer(stamp: Attestation) | Error(text: string)

  /** Hop 0 belongs to the writer: a record without a chain is given an explicit one. */
  function WithClaim(r: Record): (s: Record)
    ensures s.identity != [] && r.identity <= s.identity
  {
    if r.identity == [] then r.(identity := [Unclaimed()], attrs := r.attrs[WRITER_CLAIM := "absent"]) else r
  }

  predicate Holds64(r: Record) { |r.identity| < MAX_I64 }

  /** `Server.Accept`. */
  function Accepted(c: Seal, v: Service, r: Record, a: Answer): Record
    requires Holds64(r)
  {
    var s := WithClaim(r);
    match a
    case Error(text) => s.(attrs := s.attrs[PEER_ERROR := text])
    case Peer(stamp) =>
      var hop := |s.identity|;
      var t := s.(identity := s.identity + [stamp.(hop := hop as int64)]);
      if v.key.None? then t else t.(identity := Bound(c, t, hop, v.keyId, v.key.value))
  }

  /** `Bind`, in place on the chain the record holds. */
  method Bind(c: Seal, r: Record, chain: array<Attestation>, hop: nat, keyId: string, key: string)
    requires hop < chain.Length
    modifies chain
    ensures chain[..] == Bound(c, r.(identity := old(chain[..])), hop, keyId, key)
  {
    chain[hop] := chain[hop].(key := keyId);
    chain[hop] := chain[hop].(mac := "");
    var named := r.(identity := chain[..]);
    assert chain[..] == old(chain[..])[hop := old(chain[hop]).(key := keyId, mac := "")];
    var b := c.render(CutAt(named, hop));
    if b.None? { return; }
    chain[hop] := chain[hop].(mac := c.mac(b.value, key));
    assert chain[..] == named.identity[hop := named.identity[hop].(mac := c.mac(b.value, key))];
  }

  /** `Accept`, on copies: the caller's chain is never written to. */
  method Accept(c: Seal, v: Service, head: Record, caller: array<Attestation>, a: Answer) returns (rest: Record, chain: array<Attestation>)
    requires caller.Length < MAX_I64
    ensures fresh(chain) && caller[..] == old(caller[..])
    ensures rest.(identity := chain[..]) == Accepted(c, v, head.(identity := caller[..]), a)
  {
    rest := head;
    var n := caller.Length;
    var attrs := head.attrs;
    if n == 0 {
      chain := new Attestation[1](_ => Unclaimed());
      attrs := attrs[WRITER_CLAIM := "absent"];
    } else {
      chain := new Attestation[n](i requires 0 <= i < n reads caller => caller[i]);
    }
    assert chain[..] == WithClaim(head.(identity := caller[..])).identity;
    if a.Error? {
      rest := rest.(attrs := attrs[PEER_ERROR := a.text]);
      return;
    }
    rest := rest.(attrs := attrs);
    var hop := chain.Length;
    var longer := new Attestation[hop + 1](i requires 0 <= i <= hop reads chain => if i < hop then chain[i] else a.stamp.(hop := hop as int64));
    assert longer[..] == chain[..] + [a.stamp.(hop := hop as int64)];
    chain := longer;
    if v.key.Some? { Bind(c, rest, chain, hop, v.keyId, v.key.value); }
  }

  /** The record's own time, level, message and job are never touched, nor any hop already there; a
      stamp, if there is one, is the last hop and carries its position. */
  lemma AcceptAppends(c: Seal, v: Service, r: Record, a: Answer)
    requires Holds64(r)
    ensures var s := Accepted(c, v, r, a);
      && r.identity <= s.identity && s.identity != []
      && s.(identity := [], attrs := map[]) == r.(identity := [], attrs := map[])
    ensures var s := Accepted(c, v, r, a);
      if r.identity == [] then s.identity[0] == Unclaimed() && WRITER_CLAIM in s.attrs && s.attrs[WRITER_CLAIM] == "absent"
      else forall k :: k in r.attrs && (k != PEER_ERROR || a.Peer?) ==> k in s.attrs && s.attrs[k] == r.attrs[k]
    ensures var s := Accepted(c, v, r, a); a.Error? ==> s.identity == WithClaim(r).identity && s.attrs == WithClaim(r).attrs[PEER_ERROR := a.text]
    ensures var s := Accepted(c, v, r, a); a.Peer? ==> s.attrs == WithClaim(r).attrs && |s.identity| == |WithClaim(r).identity| + 1
    ensures var s := Accepted(c, v, r, a); var last := s.identity[|s.identity|-1];
      a.Peer? ==> SameStamp(last, a.stamp) && last.hop as int == |s.identity| - 1
  {
  }

  /** The peer a service vouches for stands Established to that service. */
  lemma OwnStampEstablished(c: Seal, v: Service, r: Record, a: Answer, p: Policy)
    requires Holds64(r) && a.Peer? && Genuine(a.stamp)
    ensures var s := Accepted(c, v, r, a);
      StandingAt(c, s, Some(a.stamp), p, |s.identity| - 1).Established?
  {
    AcceptAppends(c, v, r, a);
    var s := Accepted(c, v, r, a);
    EstablishedExactly(c, s, Some(a.stamp), p, |s.identity| - 1);
  }

  // ---- bindings outlive the path ----

  lemma BoundHolds(c: Seal, v: Service, r: Record, a: Answer)
    requires Holds64(r) && a.Peer? && v.key.Some?
    ensures var s := Accepted(c, v, r, a); var hop := |s.identity| - 1;
      && s.identity[hop].key == v.keyId
      && (c.render(CutAt(s, hop)).Some? <==> BindingHolds(c, s, hop, v.key.value))
  {
    var s := Accepted(c, v, r, a);
    var hop := |s.identity| - 1;
    var t := WithClaim(r).(identity := WithClaim(r).identity + [a.stamp.(hop := hop as int64)]);
    var named := t.identity[hop := t.identity[hop].(key := v.keyId, mac := "")];
    assert CutAt(t.(identity := named), hop).identity == CutAt(s, hop).identity;
  }

  datatype Stop = Stop(service: Service, answer: Answer)

  /** A record handed on from service to service. */
  function Carried(c: Seal, r: Record, stops: seq<Stop>): (s: Record)
    requires |r.identity| + |stops| < MAX_I64 - 1
    ensures |s.identity| <= |r.identity| + |stops| + 1 && (r.identity != [] ==> |s.identity| <= |r.identity| + |stops|)
    decreases |stops|
  {
    if stops == [] then r else Accepted(c, stops[|stops|-1].service, Carried(c, r, stops[..|stops|-1]), stops[|stops|-1].answer)
  }

  /** Hops whose cut is the same hold the same bindings. */
  lemma SameCut(c: Seal, r: Record, s: Record, hop: nat)
    requires hop < |r.identity| && r.identity <= s.identity && r.(identity := []) == s.(identity := [])
    ensures CutAt(r, hop) == CutAt(s, hop) && s.identity[hop] == r.identity[hop]
    ensures forall key :: BindingHolds(c, r, hop, key) <==> BindingHolds(c, s, hop, key)
  {
    assert r.identity[..hop+1] == s.identity[..hop+1];
    assert CutAt(r, hop).identity == CutAt(s, hop).identity;
  }

  /** Any number of further services whose attesters answer leave what was bound as it was. */
  lemma {:induction false} CarriedKeeps(c: Seal, r: Record, stops: seq<Stop>)
    requires |r.identity| + |stops| < MAX_I64 - 1 && r.identity != []
    requires forall i :: 0 <= i < |stops| ==> stops[i].answer.Peer?
    ensures r.identity <= Carried(c, r, stops).identity && r.(identity := []) == Carried(c, r, stops).(identity := [])
    decreases |stops|
  {
    if stops != [] { CarriedKeeps(c, r, stops[..|stops|-1]); }
  }

  /** After any further journey on which every attester answers, a service's binding holds exactly if the
      record could be rendered when it was made; and then a genuine stamp stands Vouched or better to every
      holder of the key, with whatever anchor and relay policy. */
  lemma BoundEvidenceSurvives(c: Seal, v: Service, r: Record, a: Answer, stops: seq<Stop>, anchor: Option<Attestation>, p: Policy)
    requires Holds64(r) && a.Peer? && v.key.Some?
    requires |r.identity| + |stops| < MAX_I64 - 3 && forall i :: 0 <= i < |stops| ==> stops[i].answer.Peer?
    ensures var s := Accepted(c, v, r, a); var hop := |s.identity| - 1; var t := Carried(c, s, stops);
      hop < |t.identity| && t.identity[hop] == s.identity[hop]
      && (BindingHolds(c, t, hop, v.key.value) <==> c.render(CutAt(s, hop)).Some?)
    ensures var s := Accepted(c, v, r, a); var hop := |s.identity| - 1; var t := Carried(c, s, stops);
      Genuine(a.stamp) && c.render(CutAt(s, hop)).Some? && s.identity[hop].mac != "" && v.keyId in p.keys && p.keys[v.keyId] == v.key.value
      ==> Trusted(StandingAt(c, t, anchor, p, hop))
  {
    hide CutAt, Accepted;
    AcceptAppends(c, v, r, a);
    var s := Accepted(c, v, r, a);
    var hop := |s.identity| - 1;
    BoundHolds(c, v, r, a);
    CarriedKeeps(c, s, stops);
    SameCut(c, s, Carried(c, s, stops), hop);
  }

  lemma CutIsClean(r: Record, hop: nat)
    requires hop < |r.identity| && CleanRecord(r)
    ensures CleanRecord(CutAt(r, hop))
  {
    Utf8.AsciiValid("");
  }

  /** What the last attester that did not answer said. */
  function LastError(stops: seq<Stop>): Option<string> {
    if stops == [] then None
    else match stops[|stops|-1].answer case Error(text) => Some(text) case Peer(_) => LastError(stops[..|stops|-1])
  }

  /** A journey adds hops, and the last error if there was one; it changes nothing else. */
  lemma {:induction false} JourneyAdds(c: Seal, r: Record, stops: seq<Stop>)
    requires |r.identity| + |stops| < MAX_I64 - 1 && r.identity != []
    ensures var t := Carried(c, r, stops); var e := LastError(stops);
      && r.identity <= t.identity && t.(identity := [], attrs := map[]) == r.(identity := [], attrs := map[])
      && t.attrs == if e.None? then r.attrs else r.attrs[PEER_ERROR := e.value]
    decreases |stops|
  {
    if stops != [] { JourneyAdds(c, r, stops[..|stops|-1]); }
  }

  lemma ErrorIsClean(r: Record, s: Record, text: string)
    requires CleanRecord(r) && Utf8.Valid(text) && s == r.(attrs := r.attrs[PEER_ERROR := text])
    ensures CleanRecord(s)
  {
    hide Utf8.Valid;
    Utf8.AsciiValid(PEER_ERROR);
  }

  /** Different renderings and digests for different UTF-8 records: what a collision-free seal gives. */
  ghost predicate Injective(c: Seal) {
    && (forall x, y :: CleanRecord(x) && CleanRecord(y) && c.render(x).Some? && c.render(x) == c.render(y) ==> x == y)
    && (forall x, y, k :: c.mac(x, k) == c.mac(y, k) ==> x == y)
  }

  /** Under an injective seal a binding tells apart any two cuts. */
  lemma BindingTells(c: Seal, r: Record, s: Record, hop: nat, key: string)
    requires Injective(c) && hop < |r.identity| && hop < |s.identity| && r.identity[hop].mac == s.identity[hop].mac
    requires CleanRecord(CutAt(r, hop)) && CleanRecord(CutAt(s, hop)) && BindingHolds(c, r, hop, key)
    ensures BindingHolds(c, s, hop, key) <==> CutAt(s, hop) == CutAt(r, hop)
  {
    hide CleanRecord, CutAt;
  }

  /** The bindings beneath cover the attribute that an attester's error adds. After any journey an earlier
      binding holds exactly if the attributes are what they were, that is, if no attester failed or the last
      error says what the record said before: a binding broken on the way comes back when it does. */
  lemma PeerErrorBreaks(c: Seal, r: Record, stops: seq<Stop>, hop: nat, key: string)
    requires |r.identity| + |stops| < MAX_I64 - 1 && hop < |r.identity| && BindingHolds(c, r, hop, key)
    requires CleanRecord(r) && Injective(c) && (LastError(stops).Some? ==> Utf8.Valid(LastError(stops).value))
    ensures var t := Carried(c, r, stops); var e := LastError(stops);
      hop < |t.identity|
      && (BindingHolds(c, t, hop, key) <==> t.attrs == r.attrs)
      && (BindingHolds(c, t, hop, key) <==> (e.Some? ==> PEER_ERROR in r.attrs && r.attrs[PEER_ERROR] == e.value))
  {
    hide CleanRecord, Injective, Carried, BindingHolds, LastError;
    JourneyAdds(c, r, stops);
    var t, e := Carried(c, r, stops), LastError(stops);
    assert t.identity[..hop+1] == r.identity[..hop+1];
    var u := r.(attrs := t.attrs);
    assert CutAt(u, hop) == CutAt(t, hop);
    if e.Some? { ErrorIsClean(r, u, e.value); } else { assert u == r; }
    CutIsClean(r, hop);
    CutIsClean(u, hop);
    BindingTells(c, r, t, hop, key);
    assert CutAt(t, hop) == CutAt(r, hop) <==> t.attrs == r.attrs by {
      assert CutAt(t, hop).attrs == t.attrs && CutAt(r, hop).attrs == r.attrs;
    }
    if e.Some? { assert t.attrs == r.attrs <==> PEER_ERROR in r.attrs && r.attrs[PEER_ERROR] == e.value; }
  }

  /** So a second refusal by the same attester in the same words breaks nothing, injective or not, if the
      record could be rendered when it was bound. */
  lemma RepeatedErrorKeepsBinding(c: Seal)
    ensures var first := Accepted(c, Service("k", Some("secret")), Record(1, "", 0, "m", [Unclaimed()], "", map[]), Error("no peer"));
      var bound := Accepted(c, Service("k", Some("secret")), first, Peer(Unclaimed().(attester := "so_peercred", verified := true)));
      var later := Accepted(c, Service("k", Some("secret")), bound, Error("no peer"));
      |bound.identity| == |later.identity| == 2 && (BindingHolds(c, later, 1, "secret") <==> c.render(CutAt(bound, 1)).Some?)
  {
    var v := Service("k", Some("secret"));
    var peer := Peer(Unclaimed().(attester := "so_peercred", verified := true));
    var first := Accepted(c, v, Record(1, "", 0, "m", [Unclaimed()], "", map[]), Error("no peer"));
    var bound := Accepted(c, v, first, peer);
    BoundHolds(c, v, first, peer);
    assert bound.attrs[PEER_ERROR := "no peer"] == bound.attrs;
  }
}
