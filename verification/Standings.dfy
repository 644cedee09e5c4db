/** What a standing and a binding rest on, field by field. */
module Standings {
  import opened Provenance
  import opened Records
  import opened Wrappers
  import opened Decimal
  import Messages

  /** The hop asserts that a mechanism other than the writer's own word established its subject. */
  predicate Speaks(a: Attestation) { a.attester != "self" && a.verified }

  /** The same statement about the same party. Where it sits and what it is bound with do not matter. */
  predicate Agree(a: Attestation, b: Attestation) {
    && a.attester == b.attester && a.verified == b.verified
    && a.program == b.program && a.host == b.host && a.user == b.user && a.exe == b.exe
    && a.uid == b.uid && a.gid == b.gid && a.pid == b.pid
  }

  /** The hop is the assessor's own stamp. */
  predicate Own(r: Record, anchor: Option<Attestation>, k: nat)
    requires k < |r.identity|
  {
    k == |r.identity| - 1 && anchor.Some? && Agree(r.identity[k], anchor.value)
  }

  /** What a binding at a hop is made over: the record with its schema settled, the hops beneath, and the hop
      itself without its digest. */
  ghost predicate Covers(r: Record, hop: nat, s: Record)
    requires hop < |r.identity|
  {
    && s.schema == (if r.schema == 0 then 1 else r.schema)
    && s.time == r.time && s.level == r.level && s.msg == r.msg && s.job == r.job && s.attrs == r.attrs
    && |s.identity| == hop + 1 && (forall i :: 0 <= i < hop ==> s.identity[i] == r.identity[i])
    && Agree(s.identity[hop], r.identity[hop]) && s.identity[hop].hop == r.identity[hop].hop
    && s.identity[hop].key == r.identity[hop].key && s.identity[hop].mac == ""
  }

  lemma CutExactly(r: Record, hop: nat, s: Record)
    requires hop < |r.identity|
    ensures Covers(r, hop, s) <==> s == CutAt(r, hop)
  {
    var cut := CutAt(r, hop);
    assert Covers(r, hop, cut);
    if Covers(r, hop, s) {
      assert s.identity[hop] == cut.identity[hop];
      assert s.identity == cut.identity;
    }
  }

  /** The hop's digest is that of what it covers. */
  ghost predicate Bears(c: Seal, r: Record, hop: nat, key: string)
    requires hop < |r.identity|
  {
    exists s :: Covers(r, hop, s) && c.render(s).Some? && c.mac(c.render(s).value, key) == r.identity[hop].mac
  }

  lemma BindingExactly(c: Seal, r: Record, hop: nat, key: string)
    requires hop < |r.identity|
    ensures BindingHolds(c, r, hop, key) <==> Bears(c, r, hop, key)
  {
    hide Covers, CutAt;
    forall s ensures Covers(r, hop, s) <==> s == CutAt(r, hop) { CutExactly(r, hop, s); }
  }

  /** The hop is bound under a key the assessor holds. */
  ghost predicate Held(c: Seal, r: Record, p: Policy, k: nat)
    requires k < |r.identity|
  {
    r.identity[k].mac != "" && r.identity[k].key in p.keys && Bears(c, r, k, p.keys[r.identity[k].key])
  }

  /** An unbroken chain of verified hops from k up to one the assessor trusts by itself, each above k that of a
      party allowed to vouch for the next. */
  ghost predicate Backed(c: Seal, r: Record, anchor: Option<Attestation>, p: Policy, k: nat) {
    exists j :: k <= j < |r.identity| && BackedFrom(c, r, anchor, p, k, j)
  }

  ghost predicate BackedFrom(c: Seal, r: Record, anchor: Option<Attestation>, p: Policy, k: nat, j: nat)
    requires k <= j < |r.identity|
  {
    && (forall i :: k <= i <= j ==> Speaks(r.identity[i]))
    && (forall i :: k < i <= j ==> p.relay.Some? && p.relay.value(r.identity[i]))
    && (Own(r, anchor, j) || Held(c, r, p, j))
  }

  lemma OwnIs(r: Record, anchor: Option<Attestation>, k: nat)
    requires k < |r.identity|
    ensures Anchored(r, anchor, k) <==> Own(r, anchor, k)
  {
  }

  lemma HeldIs(c: Seal, r: Record, p: Policy, k: nat)
    requires k < |r.identity|
    ensures Sealed(c, r, p, k) <==> Held(c, r, p, k)
  {
    hide BindingHolds, Bears;
    var a := r.identity[k];
    if a.key in p.keys { BindingExactly(c, r, k, p.keys[a.key]); }
  }

  lemma BackedIs(c: Seal, r: Record, anchor: Option<Attestation>, p: Policy, k: nat)
    requires k < |r.identity|
    ensures Reached(c, r, anchor, p, k) <==> Backed(c, r, anchor, p, k)
  {
    hide Anchored, Own, Sealed, Held;
    forall j | k <= j < |r.identity|
      ensures Genuine(r.identity[k]) && Root(c, r, anchor, p, j) && Path(r, p, k, j) <==> BackedFrom(c, r, anchor, p, k, j)
    {
      OwnIs(r, anchor, j);
      HeldIs(c, r, p, j);
    }
  }

  /** Every standing, from the hops' own words, the anchor, the relays and the keys:
      Claimed if the hop says it is unverified; Established if it is verified, not the writer's, and the
      assessor's own stamp at the end of the chain; Vouched if the path or a binding reaches it otherwise;
      Asserted if nothing does. */
  lemma StandingsExactly(c: Seal, r: Record, anchor: Option<Attestation>, p: Policy, k: nat)
    requires k < |r.identity|
    ensures StandingAt(c, r, anchor, p, k) ==
      if !r.identity[k].verified then Claimed
      else if Speaks(r.identity[k]) && Own(r, anchor, k) then Established
      else if Backed(c, r, anchor, p, k) then Vouched
      else Asserted
  {
    hide Reached, Backed, Own, Anchored, Sealed;
    StandingExactly(c, r, anchor, p, k);
    BackedIs(c, r, anchor, p, k);
    EstablishedExactly(c, r, anchor, p, k);
    OwnIs(r, anchor, k);
    Unreached(c, r, anchor, p, k);
  }

  lemma Unreached(c: Seal, r: Record, anchor: Option<Attestation>, p: Policy, k: nat)
    requires k < |r.identity|
    ensures StandingAt(c, r, anchor, p, k).Claimed? <==> !r.identity[k].verified
  {
    hide Anchored, Sealed;
  }

  /** The first hop that is the writer's own claim. */
  ghost predicate WritersClaim(chain: seq<Attestation>, i: int) {
    && 0 <= i < |chain| && chain[i].attester == "self" && chain[i].hop == 0
    && forall j :: 0 <= j < i ==> chain[j].attester != "self" || chain[j].hop != 0
  }

  /** Both name a host and not the same, or both establish a process and not the same. */
  predicate Differ(a: Attestation, b: Attestation) {
    || (a.host != "" && b.host != "" && a.host != b.host)
    || (a.pid != -1 && b.pid != -1 && a.pid != b.pid)
  }

  /** The author is hop 1, where a path or a binding reaches it; the immediate peer is the last hop, where it is
      the assessor's own stamp; and the record is disputed exactly where the author differs from the claim. */
  lemma PartiesExactly(pv: Assessed, c: Seal, r: Record, anchor: Option<Attestation>, p: Policy)
    requires Assesses(pv, c, r, anchor, p)
    ensures var n := |r.identity|;
      && Author(pv) == (if n > 1 && Backed(c, r, anchor, p, 1) then Some(r.identity[1]) else None)
      && ImmediatePeer(pv) == (if n > 0 && Speaks(r.identity[n-1]) && Own(r, anchor, n - 1) then Some(r.identity[n-1]) else None)
      && (Disputed(pv) <==> n > 1 && Backed(c, r, anchor, p, 1) && exists i :: WritersClaim(r.identity, i) && Differ(r.identity[1], r.identity[i]))
  {
    hide Backed, Reached, Own, Anchored, StandingAt, Contradicts, FirstClaim;
    var n := |r.identity|;
    AuthorExactly(pv, c, r, anchor, p);
    if n > 1 { BackedIs(c, r, anchor, p, 1); }
    if n > 0 { OwnIs(r, anchor, n - 1); }
    forall i ensures FirstClaim(r.identity, i) <==> WritersClaim(r.identity, i) { ClaimIs(r.identity, i); }
    forall a, b ensures Contradicts(a, b) <==> Differ(a, b) { DifferIs(a, b); }
  }

  lemma ClaimIs(chain: seq<Attestation>, i: int)
    ensures FirstClaim(chain, i) <==> WritersClaim(chain, i)
  {
  }

  lemma DifferIs(a: Attestation, b: Attestation)
    ensures Contradicts(a, b) <==> Differ(a, b)
  {
  }

  // ---- what a service makes of a record ----

  /** The hop bears the digest under the key, or none where the record cannot be rendered. */
  ghost predicate Digested(c: Seal, r: Record, hop: nat, key: string)
    requires hop < |r.identity|
  {
    exists s :: Covers(r, hop, s) && r.identity[hop].mac == if c.render(s).Some? then c.mac(c.render(s).value, key) else ""
  }

  /** The chain a service starts from: the record's own, or one hop that says the writer claimed nothing. */
  function Opened(r: Record): seq<Attestation> {
    if r.identity == [] then [Attestation("unclaimed", false, 0, "", "", "", "", -1, -1, -1, "", "")] else r.identity
  }

  function Noted(r: Record): map<string, string> {
    if r.identity == [] then r.attrs["logging.writer_claim" := "absent"] else r.attrs
  }

  /** `Accept`, field by field. */
  lemma AcceptedExactly(c: Seal, v: Service, r: Record, a: Answer)
    requires Holds64(r)
    ensures var s := Accepted(c, v, r, a);
      s.schema == r.schema && s.time == r.time && s.level == r.level && s.msg == r.msg && s.job == r.job
    ensures var s := Accepted(c, v, r, a);
      a.Error? ==> s.identity == Opened(r) && s.attrs == Noted(r)["logging.peer_error" := a.text]
    ensures var s := Accepted(c, v, r, a); var n := |Opened(r)|;
      a.Peer? ==> (
        && s.attrs == Noted(r) && |s.identity| == n + 1 && s.identity[..n] == Opened(r)
        && Agree(s.identity[n], a.stamp) && s.identity[n].hop as int == n
        && (if v.key.Some? then s.identity[n].key == v.keyId && Digested(c, s, n, v.key.value)
            else s.identity[n].key == a.stamp.key && s.identity[n].mac == a.stamp.mac))
  {
    hide Covers, Digested;
    if a.Peer? && v.key.Some? {
      hide Bound;
      var n := |Opened(r)|;
      var t := WithClaim(r).(identity := Opened(r) + [a.stamp.(hop := n as int64)]);
      BoundExactly(c, t, n, v.keyId, v.key.value);
      assert Accepted(c, v, r, a) == t.(identity := Bound(c, t, n, v.keyId, v.key.value));
      assert t.identity[..n] == Opened(r) && Bound(c, t, n, v.keyId, v.key.value)[..n] == Opened(r);
    }
  }

  /** `Bind`: the hop's key and digest, nothing else. */
  lemma BoundExactly(c: Seal, r: Record, hop: nat, keyId: string, key: string)
    requires hop < |r.identity|
    ensures var b := Bound(c, r, hop, keyId, key);
      && |b| == |r.identity| && (forall i :: 0 <= i < |b| && i != hop ==> b[i] == r.identity[i])
      && Agree(b[hop], r.identity[hop]) && b[hop].hop == r.identity[hop].hop && b[hop].key == keyId
      && Digested(c, r.(identity := b), hop, key)
  {
    hide Covers;
    var b := Bound(c, r, hop, keyId, key);
    var named := r.(identity := r.identity[hop := r.identity[hop].(key := keyId, mac := "")]);
    var s := CutAt(named, hop);
    assert s.identity == CutAt(r.(identity := b), hop).identity;
    CutExactly(r.(identity := b), hop, s);
  }

  // ---- what a binding covers ----

  /** The same bound content: everything but what came after the hop and its digest. */
  ghost predicate SameCovered(r: Record, s: Record, hop: nat)
    requires hop < |r.identity| && hop < |s.identity|
  {
    && (if r.schema == 0 then 1 else r.schema) == (if s.schema == 0 then 1 else s.schema)
    && r.time == s.time && r.level == s.level && r.msg == s.msg && r.job == s.job && r.attrs == s.attrs
    && (forall i :: 0 <= i < hop ==> r.identity[i] == s.identity[i])
    && Agree(r.identity[hop], s.identity[hop]) && r.identity[hop].hop == s.identity[hop].hop && r.identity[hop].key == s.identity[hop].key
  }

  /** Under an injective seal a binding that holds of one record holds of another with the same digest exactly
      if they agree in all it covers: schema, time, level, message, job, attributes, the hops beneath and the
      stamp itself. Hops added later are not covered. */
  lemma BindingCovers(c: Seal, r: Record, s: Record, hop: nat, key: string)
    requires Injective(c) && hop < |r.identity| && hop < |s.identity| && r.identity[hop].mac == s.identity[hop].mac
    requires Messages.CleanRecord(r) && Messages.CleanRecord(s) && BindingHolds(c, r, hop, key)
    ensures BindingHolds(c, s, hop, key) <==> SameCovered(r, s, hop)
  {
    hide CutAt, Covers, BindingHolds, Injective, SameCovered, Messages.CleanRecord;
    CutIsClean(r, hop);
    CutIsClean(s, hop);
    BindingTells(c, r, s, hop, key);
    CutExactly(r, hop, CutAt(r, hop));
    CutExactly(s, hop, CutAt(r, hop));
    CoveredIs(r, s, hop, CutAt(r, hop));
  }

  lemma CoveredIs(r: Record, s: Record, hop: nat, t: Record)
    requires hop < |r.identity| && hop < |s.identity| && Covers(r, hop, t)
    ensures Covers(s, hop, t) <==> SameCovered(r, s, hop)
  {
  }
}
