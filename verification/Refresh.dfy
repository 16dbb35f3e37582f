/** `_refresh_proposal_after_declarations`: what it makes of a proposal, and when the rest of the transcript survives
    it. */
module Refresh {
  import opened Wrappers
  import opened Chains
  import opened Reports
  import opened Negotiation
  import opened NegotiationRuns
  import opened NegotiationTheorems

  /** On any transcript whatever: afterwards each binding of the proposal names the last declaration of its party before
      it, in participant order, with the hash that declaration now has; all else but the links is as it was. */
  lemma RefreshBinds(env: Env, t: Transcript, p: nat)
    requires p < |t| && PayloadOf(t[p]).Propose?
    ensures var u := Refreshed(env, t, p);
      && Settled(env, u) && Unsigned(u)
      && (forall i :: 0 <= i < |u| && i != p ==> u[i].content == t[i].content)
      && PayloadOf(u[p]).Propose?
      && PayloadOf(u[p]).result
         == PayloadOf(t[p]).result.(bindings := CurrentBindings(u[..p], PayloadOf(t[p]).result.participants))
      && BindsInOrder(u[..p], PayloadOf(t[p]).result.participants, PayloadOf(u[p]).result.bindings)
      && PayloadOf(u[p]).resultHash == env.objectHash(ResultObject(PayloadOf(u[p]).result))
  {
    var t1, u := Rehashed(env, {}, t), Refreshed(env, t, p);
    BindingsInOrder(u[..p], PayloadOf(t[p]).result.participants);
    RehashPayload(env, {}, t, p);
    var t2 := Rebound(env, t1, p);
    RehashSettles(env, {}, t2);
    UnsignedByRehash(env, t2);
    forall i | 0 <= i < |t| ensures u[i].content == t2[i].content && t1[i].content == t[i].content {
      RehashPayload(env, {}, t2, i);
      RehashPayload(env, {}, t, i);
    }
    RefreshKeepsPrefix(env, t, p);
    SameBindings(t1[..p], u[..p], PayloadOf(t1[p]).result.participants);
  }

  /** The positions of the participants that have declared. */
  ghost function HaveDeclared(before: Transcript, participants: seq<string>): set<nat> {
    set k: nat | k < |participants| && exists d :: 0 <= d < |before| && Declares(before[d], participants[k])
  }

  /** `b` holds what the last declaration of `party` says and what it is found under. */
  ghost predicate NamesLast(before: Transcript, party: string, b: Binding) {
    exists d :: 0 <= d < |before| && Declares(before[d], party)
      && (forall e :: d < e < |before| ==> !Declares(before[e], party))
      && b == Binding(party, PayloadOf(before[d]).capabilitiesId, before[d].content.id, before[d].hash)
  }

  /** One binding for each participant that has declared, in the order of the participants, to its last declaration. */
  ghost predicate BindsInOrder(before: Transcript, participants: seq<string>, bindings: seq<Binding>) {
    exists f: seq<nat> :: Enumerates(f, HaveDeclared(before, participants)) && |f| == |bindings|
      && forall k :: 0 <= k < |f| ==> f[k] < |participants| && NamesLast(before, participants[f[k]], bindings[k])
  }

  lemma {:induction false} BindingsInOrder(before: Transcript, participants: seq<string>)
    ensures BindsInOrder(before, participants, CurrentBindings(before, participants))
  {
    var f := BindingPositions(before, participants);
    assert Enumerates(f, HaveDeclared(before, participants));
  }

  lemma {:induction false} BindingPositions(before: Transcript, participants: seq<string>) returns (f: seq<nat>)
    ensures Enumerates(f, HaveDeclared(before, participants)) && |f| == |CurrentBindings(before, participants)|
    ensures forall k :: 0 <= k < |f| ==>
              f[k] < |participants| && NamesLast(before, participants[f[k]], CurrentBindings(before, participants)[k])
  {
    if participants == [] {
      f := [];
    } else {
      var n := |participants| - 1;
      f := BindingPositions(before, participants[..n]);
      LastMayDeclare(before, participants);
      var d := LastDeclaration(before, participants[n]);
      if d.Some? {
        assert NamesLast(before, participants[n], BindingTo(before[d.value]));
        EnumeratesNext(f, HaveDeclared(before, participants[..n]), n);
        f := f + [n];
      }
    }
  }

  lemma {:induction false} LastMayDeclare(before: Transcript, participants: seq<string>)
    requires participants != []
    ensures var n := |participants| - 1;
      HaveDeclared(before, participants)
      == HaveDeclared(before, participants[..n])
         + (if LastDeclaration(before, participants[n]).Some? then {n} else {})
  {
  }

  /** Changing the proposal moves no hash before it. */
  lemma RefreshKeepsPrefix(env: Env, t: Transcript, p: nat)
    requires p < |t| && PayloadOf(t[p]).Propose?
    ensures Same(Rehashed(env, {}, t)[..p], Refreshed(env, t, p)[..p])
  {
    var t1, u := Rehashed(env, {}, t), Refreshed(env, t, p);
    RehashPayload(env, {}, t, p);
    var t2 := Rebound(env, t1, p);
    assert Contents(t2)[..p] == Contents(t)[..p] by {
      forall i | 0 <= i < p ensures Contents(t2)[i] == Contents(t)[i] {
        RehashPayload(env, {}, t, i);
      }
    }
    ChainPrefix(env.h, Contents(t2), p);
    ChainPrefix(env.h, Contents(t), p);
    forall i | 0 <= i < p ensures t1[..p][i].(signatures := None) == u[..p][i].(signatures := None) {
      RehashAt(env, {}, t, i);
      RehashAt(env, {}, t2, i);
      assert Chain(env.h, Contents(t))[..p][i] == Chain(env.h, Contents(t2))[..p][i];
    }
  }

  lemma {:induction false} SameBindings(t: Transcript, u: Transcript, participants: seq<string>)
    requires Same(t, u)
    ensures CurrentBindings(t, participants) == CurrentBindings(u, participants)
  {
    if participants == [] {
    } else {
      var n := |participants| - 1;
      SameBindings(t, u, participants[..n]);
      SameDeclarations(t, u, participants[n]);
      var d := LastDeclaration(t, participants[n]);
      if d.Some? {
        assert t[d.value].(signatures := None) == u[d.value].(signatures := None);
        assert t[d.value].(signatures := None).content == t[d.value].content
          && u[d.value].(signatures := None).content == u[d.value].content;
        assert t[d.value].(signatures := None).hash == u[d.value].(signatures := None).hash;
      }
    }
  }

  lemma {:induction false} CurrentBindingsHold(before: Transcript, participants: seq<string>, b: Binding)
    ensures b in CurrentBindings(before, participants) <==>
            b.partyId in participants && LastDeclaration(before, b.partyId).Some?
            && b == BindingTo(before[LastDeclaration(before, b.partyId).value])
  {
    if participants == [] {
    } else {
      var n := |participants| - 1;
      CurrentBindingsHold(before, participants[..n], b);
      assert participants == participants[..n] + [participants[n]];
    }
  }

  // ---- what the refresh makes of any transcript

  /** The proposal as the refresh writes it: bound to the last declarations before it, its result hashed again. */
  function Renewed(env: Env, t: Transcript, p: nat): Content<Entry>
    requires p < |t| && PayloadOf(t[p]).Propose?
  {
    WithBindings(env, t[p], CurrentBindings(t[..p], PayloadOf(t[p]).result.participants)).content
  }

  ghost predicate Current(env: Env, t: Transcript, p: nat)
    requires p < |t| && PayloadOf(t[p]).Propose?
  {
    t[p].content == Renewed(env, t, p)
  }

  /** What stays: every content but that of `p`, and all hashes before `p`. */
  ghost predicate Around(env: Env, t: Transcript, u: Transcript, p: nat) {
    && |u| == |t| && p < |t| && PayloadOf(t[p]).Propose?
    && (forall i :: 0 <= i < |t| && i != p ==> u[i].content == t[i].content)
    && u[p].content == Renewed(env, t, p)
    && (forall i :: 0 <= i < p ==> u[i].hash == t[i].hash)
  }

  /** Compared with what a mere rehash makes of the transcript, whatever that was before. */
  lemma RefreshAround(env: Env, t: Transcript, p: nat)
    requires p < |t| && PayloadOf(t[p]).Propose?
    ensures var t1, u := Rehashed(env, {}, t), Refreshed(env, t, p);
      && t1[p].content == t[p].content && Around(env, t1, u, p) && Settled(env, t1) && Settled(env, u)
      && Same(t1[..p], u[..p])
  {
    var t1, u := Rehashed(env, {}, t), Refreshed(env, t, p);
    RehashPayload(env, {}, t, p);
    var t2 := Rebound(env, t1, p);
    RehashSettles(env, {}, t);
    RehashSettles(env, {}, t2);
    RefreshKeepsPrefix(env, t, p);
    forall i | 0 <= i < |t| ensures u[i].content == t2[i].content {
      RehashPayload(env, {}, t2, i);
    }
    forall i | 0 <= i < p ensures u[i].hash == t1[i].hash {
      assert t1[..p][i].(signatures := None).hash == u[..p][i].(signatures := None).hash;
    }
  }

  lemma RefreshedIsCurrent(env: Env, t: Transcript, p: nat)
    requires p < |t| && PayloadOf(t[p]).Propose?
    ensures PayloadOf(Refreshed(env, t, p)[p]).Propose? && Current(env, Refreshed(env, t, p), p)
  {
    var t1, u := Rehashed(env, {}, t), Refreshed(env, t, p);
    RefreshAround(env, t, p);
    SameBindings(t1[..p], u[..p], PayloadOf(t[p]).result.participants);
  }

  /** Links, hashes and signatures that were there leave no trace, and a second refresh changes nothing. */
  lemma RefreshTwice(env: Env, t: Transcript, v: Transcript, p: nat)
    requires p < |t| && PayloadOf(t[p]).Propose? && Contents(v) == Contents(t)
    ensures PayloadOf(v[p]).Propose? && Refreshed(env, v, p) == Refreshed(env, t, p)
    ensures PayloadOf(Refreshed(env, t, p)[p]).Propose?
    ensures Refreshed(env, Refreshed(env, t, p), p) == Refreshed(env, t, p)
  {
    assert Contents(v)[p] == Contents(t)[p];
    RehashContentsOnly(env, {}, v, t);
    var u := Refreshed(env, t, p);
    RefreshedIsCurrent(env, t, p);
    RefreshAround(env, t, p);
    CurrentRebound(env, u, p);
    RehashPayload(env, {}, t, p);
    RehashContents(env, {}, Rebound(env, Rehashed(env, {}, t), p));
    RehashContentsOnly(env, {}, Rebound(env, Rehashed(env, {}, u), p), Rebound(env, Rehashed(env, {}, t), p));
  }

  lemma CurrentRebound(env: Env, u: Transcript, p: nat)
    requires p < |u| && PayloadOf(u[p]).Propose? && Settled(env, u) && Current(env, u, p)
    ensures PayloadOf(Rehashed(env, {}, u)[p]).Propose?
    ensures Contents(Rebound(env, Rehashed(env, {}, u), p)) == Contents(u)
  {
    var r := Rehashed(env, {}, u);
    RehashSame(env, {}, u);
    SameFront(u, r, p);
    SameBindings(u[..p], r[..p], PayloadOf(u[p]).result.participants);
    forall i | 0 <= i < |u| ensures r[i].content == u[i].content {
      RehashPayload(env, {}, u, i);
    }
  }

  // ---- when it restores the invariant

  /** What a proposal owes to the messages before it, bindings and result hash aside. */
  ghost predicate Fits(before: Transcript, c: Content<Entry>) {
    && c.payload.payload.Propose? && before != []
    && c.session == before[0].content.session && c.payload.contractId == before[0].content.payload.contractId
    && c.payload.payload.result.session == before[0].content.session
    && c.payload.payload.result.contractId == before[0].content.payload.contractId
    && c.payload.payload.revision == c.payload.payload.result.revision
  }

  /** Contents alone: whatever hashes, links, signatures, bindings and result hash there are. */
  ghost predicate Restorable(env: Env, t: Transcript, p: nat)
    requires p < |t|
  {
    InOrder(t) && Inv(env, Rehashed(env, {}, t[..p])) && Fits(t[..p], t[p].content)
  }

  ghost predicate GroundedBehind(env: Env, t: Transcript, p: nat) {
    forall i :: p < i < |t| ==> Grounded(env, t[..i], t[i].content)
  }

  /** On any transcript, however stale: afterwards the proposal is current, and the invariant of the runs holds exactly
      when the messages before it, rehashed, have it, the proposal fits them, and each message behind it is grounded in
      what is then before it.  For a proposal that comes last that is a condition on the contents alone. */
  lemma RefreshRestores(env: Env, t: Transcript, p: nat)
    requires p < |t| && PayloadOf(t[p]).Propose?
    ensures PayloadOf(Refreshed(env, t, p)[p]).Propose? && Current(env, Refreshed(env, t, p), p)
    ensures Inv(env, Refreshed(env, t, p))
       <==> Restorable(env, t, p) && GroundedBehind(env, Refreshed(env, t, p), p)
  {
    RefreshedIsCurrent(env, t, p);
    RefreshOrder(env, t, p);
    RefreshedPrefixInv(env, t, p);
    RefreshedFits(env, t, p);
    GroundedParts(env, Refreshed(env, t, p), p);
  }

  lemma RefreshOrder(env: Env, t: Transcript, p: nat)
    requires p < |t| && PayloadOf(t[p]).Propose?
    ensures var u := Refreshed(env, t, p);
      && (InOrder(u) <==> InOrder(t)) && Settled(env, u)
      && forall i :: p < i < |t| ==> u[i].content == t[i].content
  {
    var u := Refreshed(env, t, p);
    RefreshAround(env, t, p);
    forall i | 0 <= i < |t| ensures u[i].content.id == t[i].content.id && (i != p ==> u[i].content == t[i].content) {
      RehashPayload(env, {}, t, i);
    }
  }

  lemma {:induction false} RefreshedPrefixInv(env: Env, t: Transcript, p: nat)
    requires p < |t| && PayloadOf(t[p]).Propose?
    ensures InOrder(t) ==> (Inv(env, Rehashed(env, {}, t[..p])) <==> AllGrounded(env, Refreshed(env, t, p)[..p]))
  {
    var front := Rehashed(env, {}, t[..p]);
    RehashSettles(env, {}, t[..p]);
    RehashedFront(env, t, p);
    RefreshKeepsPrefix(env, t, p);
    SameBothGrounded(env, Rehashed(env, {}, t)[..p], Refreshed(env, t, p)[..p]);
    SameBothGrounded(env, front, Rehashed(env, {}, t)[..p]);
    forall i | 0 <= i < p ensures front[i].content == t[i].content {
      RehashPayload(env, {}, t[..p], i);
    }
  }

  lemma RehashedFront(env: Env, t: Transcript, p: nat)
    requires p <= |t|
    ensures Same(Rehashed(env, {}, t[..p]), Rehashed(env, {}, t)[..p])
  {
    assert Contents(t[..p]) == Contents(t)[..p];
    ChainPrefix(env.h, Contents(t), p);
    forall i | 0 <= i < p
      ensures Rehashed(env, {}, t[..p])[i].(signatures := None) == Rehashed(env, {}, t)[..p][i].(signatures := None)
    {
      RehashAt(env, {}, t[..p], i);
      RehashAt(env, {}, t, i);
      assert Chain(env.h, Contents(t))[..p][i] == Chain(env.h, Contents(t))[i];
    }
  }

  lemma {:induction false} SameBothGrounded(env: Env, t: Transcript, u: Transcript)
    requires Same(t, u)
    ensures AllGrounded(env, t) <==> AllGrounded(env, u)
  {
    if AllGrounded(env, t) {
      SameAllGrounded(env, t, u);
    } else if AllGrounded(env, u) {
      SameAllGrounded(env, u, t);
    }
  }

  lemma RefreshedFits(env: Env, t: Transcript, p: nat)
    requires p < |t| && PayloadOf(t[p]).Propose?
    ensures Grounded(env, Refreshed(env, t, p)[..p], Refreshed(env, t, p)[p].content) <==> Fits(t[..p], t[p].content)
  {
    var u := Refreshed(env, t, p);
    RefreshAround(env, t, p);
    RefreshBinds(env, t, p);
    assert p > 0 ==> u[..p][0].content == t[..p][0].content;
    forall b | b in PayloadOf(u[p]).result.bindings
      ensures exists e :: 0 <= e < |u[..p]| && BindingHolds(b, u[..p][e])
    {
      CurrentBindingsHold(u[..p], PayloadOf(t[p]).result.participants, b);
      assert BindingHolds(b, u[..p][LastDeclaration(u[..p], b.partyId).value]);
    }
  }

  lemma {:induction false} GroundedParts(env: Env, u: Transcript, p: nat)
    requires p < |u|
    ensures AllGrounded(env, u)
       <==> AllGrounded(env, u[..p]) && Grounded(env, u[..p], u[p].content) && GroundedBehind(env, u, p)
  {
    if AllGrounded(env, u) {
      forall i | 0 <= i < |u| ensures Grounded(env, u[..i], u[i].content) {
        GroundedAt(env, u, i);
      }
      FrontGrounded(env, u, p);
    } else if AllGrounded(env, u[..p]) && Grounded(env, u[..p], u[p].content) && GroundedBehind(env, u, p) {
      forall i | 0 <= i < |u| ensures Grounded(env, u[..i], u[i].content) {
        if i < p {
          GroundedAt(env, u[..p], i);
          assert u[..p][..i] == u[..i];
        }
      }
      AllGroundedFrom(env, u);
    }
  }

  lemma {:induction false} FrontGrounded(env: Env, u: Transcript, p: nat)
    requires AllGrounded(env, u) && p <= |u|
    ensures AllGrounded(env, u[..p])
  {
    forall i | 0 <= i < p ensures Grounded(env, u[..p][..i], u[..p][i].content) {
      GroundedAt(env, u, i);
      assert u[..p][..i] == u[..i];
    }
    AllGroundedFrom(env, u[..p]);
  }

  lemma {:induction false} AllGroundedFrom(env: Env, t: Transcript)
    requires forall i :: 0 <= i < |t| ==> Grounded(env, t[..i], t[i].content)
    ensures AllGrounded(env, t)
  {
    if t == [] {
    } else {
      var front := t[..|t| - 1];
      forall i | 0 <= i < |front| ensures Grounded(env, front[..i], front[i].content) {
        assert front[..i] == t[..i];
      }
      AllGroundedFrom(env, front);
    }
  }

  // ---- messages behind the proposal

  ghost predicate Offers(m: Msg<Entry>, negotiationId: string, resultHash: Digest) {
    PayloadOf(m).Propose? && negotiationId == PayloadOf(m).result.negotiationId && resultHash == PayloadOf(m).resultHash
  }

  /** What message `i` is bound to is only there as long as proposal `p` is not renewed: a decision's proposal or a
      proposal's declaration is not in front of `p`, or a contract's result is offered by `p` alone. */
  ghost predicate LeansOn(env: Env, t: Transcript, p: nat, i: nat)
    requires p < i < |t| && PayloadOf(t[p]).Propose?
  {
    match PayloadOf(t[i])
    case Decide(_, _, _, _, _, _) => !exists q :: 0 <= q < p && Binds(PayloadOf(t[i]), t[q])
    case Propose(_, result, _, _) =>
      exists b :: b in result.bindings && !exists e :: 0 <= e < p && BindingHolds(b, t[e])
    case ContractPropose(negotiationId, resultHash, _, _) =>
      && !(negotiationId == PayloadOf(t[p]).result.negotiationId
           && resultHash == Renewed(env, t, p).payload.payload.resultHash)
      && !exists q :: 0 <= q < i && q != p && Offers(t[q], negotiationId, resultHash)
    case _ => false
  }

  ghost predicate NoneLeans(env: Env, t: Transcript, p: nat)
    requires p < |t| && PayloadOf(t[p]).Propose?
  {
    forall i :: p < i < |t| ==> !LeansOn(env, t, p, i)
  }

  /** When the messages behind the proposal are grounded after a mere rehash: they are after the refresh if the proposal
      is current already, or if none of them leans on it; with an injective hash, only then. */
  lemma RefreshKeepsInv(env: Env, t: Transcript, p: nat)
    requires p < |t| && PayloadOf(t[p]).Propose? && Restorable(env, t, p)
    requires GroundedBehind(env, Rehashed(env, {}, t), p)
    ensures PayloadOf(Rehashed(env, {}, t)[p]).Propose?
    ensures var t1, u := Rehashed(env, {}, t), Refreshed(env, t, p);
      && (Current(env, t1, p) || NoneLeans(env, t1, p) ==> Inv(env, u))
      && (Injective(env.h) && Inv(env, u) ==> Current(env, t1, p) || NoneLeans(env, t1, p))
  {
    RefreshAround(env, t, p);
    RefreshRestores(env, t, p);
    GroundedStays(env, Rehashed(env, {}, t), Refreshed(env, t, p), p);
    LeansNoMore(env, Rehashed(env, {}, t), Refreshed(env, t, p), p);
  }

  lemma GroundedStays(env: Env, t: Transcript, u: Transcript, p: nat)
    requires 0 < p && Around(env, t, u, p) && Settled(env, t) && Settled(env, u) && GroundedBehind(env, t, p)
    ensures Current(env, t, p) || NoneLeans(env, t, p) ==> GroundedBehind(env, u, p)
  {
    if Current(env, t, p) {
      CurrentSame(env, t, u, p);
      forall i | p < i < |t| ensures Grounded(env, u[..i], u[i].content) {
        SameFront(t, u, i);
        SameGrounded(env, t[..i], u[..i], t[i].content);
      }
    } else if NoneLeans(env, t, p) {
      forall i | p < i < |t| ensures Grounded(env, u[..i], u[i].content) {
        GroundedAgain(env, t, u, p, i);
      }
    }
  }

  lemma LeansNoMore(env: Env, t: Transcript, u: Transcript, p: nat)
    requires Around(env, t, u, p) && Settled(env, t) && Settled(env, u) && GroundedBehind(env, t, p)
    ensures Injective(env.h) && Inv(env, u) ==> Current(env, t, p) || NoneLeans(env, t, p)
  {
    if Injective(env.h) && Inv(env, u) && !Current(env, t, p) {
      forall i | p < i < |t| ensures !LeansOn(env, t, p, i) {
        NothingLeans(env, t, u, p, i);
      }
    }
  }

  /** A renewed proposal that was current is as it was, and so is everything. */
  lemma CurrentSame(env: Env, t: Transcript, u: Transcript, p: nat)
    requires Around(env, t, u, p) && Settled(env, t) && Settled(env, u) && Current(env, t, p)
    ensures Same(t, u)
  {
    assert Contents(t) == Contents(u);
    forall i | 0 <= i < |t| ensures t[i].(signatures := None) == u[i].(signatures := None) {
      BareChain(env.h, t, i);
      BareChain(env.h, u, i);
    }
  }

  lemma SameFront(t: Transcript, u: Transcript, i: nat)
    requires Same(t, u) && i <= |t|
    ensures Same(t[..i], u[..i])
  {
    forall k | 0 <= k < i ensures t[..i][k].(signatures := None) == u[..i][k].(signatures := None) {
      assert t[k].(signatures := None) == u[k].(signatures := None);
    }
  }

  lemma {:induction false} SameDeclarers(t: Transcript, u: Transcript, n: nat, party: string)
    requires n <= |t| && n <= |u| && forall i :: 0 <= i < n ==> (Declares(t[i], party) <==> Declares(u[i], party))
    ensures LastDeclaration(t[..n], party) == LastDeclaration(u[..n], party)
  {
    if n == 0 {
    } else {
      assert t[..n][..n - 1] == t[..n - 1] && u[..n][..n - 1] == u[..n - 1];
      SameDeclarers(t, u, n - 1, party);
    }
  }

  lemma GroundedAgain(env: Env, t: Transcript, u: Transcript, p: nat, i: nat)
    requires 0 < p && Around(env, t, u, p) && p < i < |t| && !LeansOn(env, t, p, i)
    requires Grounded(env, t[..i], t[i].content)
    ensures Grounded(env, u[..i], u[i].content)
  {
    assert u[..i][0].content == t[..i][0].content;
    match PayloadOf(t[i])
    case Declare(party, _, _, _) =>
      SameDeclarers(t, u, i, party);
    case Propose(_, result, _, _) =>
      forall b | b in result.bindings ensures exists e :: 0 <= e < |u[..i]| && BindingHolds(b, u[..i][e]) {
        var e :| 0 <= e < p && BindingHolds(b, t[e]);
        assert BindingHolds(b, u[..i][e]);
      }
    case Decide(_, _, _, _, _, _) =>
      var q :| 0 <= q < p && Binds(PayloadOf(t[i]), t[q]);
      assert Binds(PayloadOf(t[i]), u[..i][q]);
    case ContractPropose(negotiationId, resultHash, _, _) =>
      ContractBehind(env, t, u, p, i);
    case _ =>
  }

  lemma ContractBehind(env: Env, t: Transcript, u: Transcript, p: nat, i: nat)
    requires Around(env, t, u, p) && p < i < |t| && !LeansOn(env, t, p, i) && PayloadOf(t[i]).ContractPropose?
    ensures exists q :: 0 <= q < |u[..i]| && PayloadOf(u[..i][q]).Propose?
                     && PayloadOf(t[i]).negotiationId == PayloadOf(u[..i][q]).result.negotiationId
                     && PayloadOf(t[i]).resultHash == PayloadOf(u[..i][q]).resultHash
  {
    var negotiationId, resultHash := PayloadOf(t[i]).negotiationId, PayloadOf(t[i]).resultHash;
    if negotiationId == PayloadOf(t[p]).result.negotiationId
       && resultHash == Renewed(env, t, p).payload.payload.resultHash {
      assert PayloadOf(u[..i][p]).Propose?;
    } else {
      var q :| 0 <= q < i && q != p && Offers(t[q], negotiationId, resultHash);
      assert PayloadOf(u[..i][q]).Propose?;
    }
  }

  // ---- hashes captured before the refresh

  /** From the renewed proposal on no hash is as it was anywhere, if renewing it changed it. */
  lemma HashesMove(env: Env, t: Transcript, u: Transcript, p: nat, j: nat, k: nat)
    requires Injective(env.h) && Settled(env, t) && Settled(env, u) && |u| == |t| && p <= j < |t| && k < |u|
    requires u[p].content != t[p].content
    ensures u[k].hash != t[j].hash
  {
    BareChain(env.h, t, j);
    BareChain(env.h, u, k);
    assert t[j].(signatures := None).hash == t[j].hash && u[k].(signatures := None).hash == u[k].hash;
    HashNamesHistory(env.h, Contents(t), j, Contents(u), k);
    DifferFrom(Contents(t), Contents(u), p, j + 1, k + 1);
  }

  lemma DifferFrom<T>(s: seq<T>, t: seq<T>, p: nat, m: nat, n: nat)
    requires p < m <= |s| && n <= |t| && p < |t| && s[p] != t[p]
    ensures s[..m] != t[..n]
  {
    if p < n {
      assert s[..m][p] == s[p] && t[..n][p] == t[p];
    } else {
      assert |s[..m]| != |t[..n]|;
    }
  }

  /** The hash of message `j` before a refresh, as projections and revisions carry one, stays that message's hash if `j`
      stands before the proposal or the proposal was current already; otherwise, with an injective hash, it is no
      message's hash any more. */
  lemma CapturedHash(env: Env, t: Transcript, p: nat, j: nat)
    requires p < |t| && PayloadOf(t[p]).Propose? && j < |t|
    ensures PayloadOf(Rehashed(env, {}, t)[p]).Propose?
    ensures var t1, u := Rehashed(env, {}, t), Refreshed(env, t, p);
      && (j < p || Current(env, t1, p) ==> u[j].hash == t1[j].hash)
      && (Injective(env.h) && (exists k :: 0 <= k < |u| && u[k].hash == t1[j].hash) ==> j < p || Current(env, t1, p))
  {
    var t1, u := Rehashed(env, {}, t), Refreshed(env, t, p);
    RefreshAround(env, t, p);
    if Current(env, t1, p) {
      CurrentSame(env, t1, u, p);
      assert t1[j].(signatures := None).hash == u[j].(signatures := None).hash;
    } else if Injective(env.h) && j >= p {
      forall k | 0 <= k < |u| ensures u[k].hash != t1[j].hash {
        HashesMove(env, t1, u, p, j, k);
      }
    }
  }

  /** A transcript of any run can be refreshed anywhere: both lemmas above apply to it. */
  lemma {:induction false} InvRestorable(env: Env, t: Transcript, p: nat)
    requires Inv(env, t) && p < |t| && PayloadOf(t[p]).Propose?
    ensures Restorable(env, t, p) && GroundedBehind(env, Rehashed(env, {}, t), p)
    ensures Same(t, Rehashed(env, {}, t))
  {
    RehashSame(env, {}, t);
    SameAllGrounded(env, t, Rehashed(env, {}, t));
    GroundedParts(env, Rehashed(env, {}, t), p);
    GroundedParts(env, t, p);
    FrontRestorable(env, t, p);
    GroundedAt(env, t, p);
  }

  lemma {:induction false} FrontRestorable(env: Env, t: Transcript, p: nat)
    requires InOrder(t) && p < |t| && AllGrounded(env, t[..p]) && Same(t, Rehashed(env, {}, t))
    ensures Inv(env, Rehashed(env, {}, t[..p]))
  {
    RehashSettles(env, {}, t[..p]);
    RehashedFront(env, t, p);
    SameFront(t, Rehashed(env, {}, t), p);
    SameBothGrounded(env, t[..p], Rehashed(env, {}, t)[..p]);
    SameBothGrounded(env, Rehashed(env, {}, t[..p]), Rehashed(env, {}, t)[..p]);
    forall i | 0 <= i < p ensures Rehashed(env, {}, t[..p])[i].content == t[i].content {
      RehashPayload(env, {}, t[..p], i);
    }
  }

  /** The invariant does not speak of a projection's as-of hash: one that names a proposal which is not current goes
      stale when that is refreshed, while the invariant holds before and after. */
  lemma ProjectionGoesStale(env: Env, t: Transcript, slug: string, result: NegResult, asOf: Digest)
    requires Injective(env.h) && Inv(env, t) && t != [] && PayloadOf(t[|t| - 1]).Propose?
    requires !Current(env, t, |t| - 1) && t[|t| - 1].hash == Some(asOf)
    ensures Projection(env, t, asOf, None, slug, result).Some?
    ensures var v, p := Projection(env, t, asOf, None, slug, result).value, |t| - 1;
      && Inv(env, v) && |v| == |t| + 1 && v[p] == t[p] && PayloadOf(v[p + 1]).Sync?
      && PayloadOf(v[p + 1]).state.asOf == v[p].hash
      && (var u := Refreshed(env, v, p);
          Inv(env, u) && PayloadOf(u[p + 1]) == PayloadOf(v[p + 1])
          && forall k :: 0 <= k < |u| ==> u[k].hash != Some(asOf))
  {
    var p := |t| - 1;
    ProjectionStep(env, t, asOf, None, slug, result);
    var v := Projection(env, t, asOf, None, slug, result).value;
    KeptSignatures(t, v);
    assert v[..p] == t[..p];
    StaleAfterRefresh(env, v, p, asOf);
  }

  lemma StaleAfterRefresh(env: Env, v: Transcript, p: nat, asOf: Digest)
    requires Injective(env.h) && Inv(env, v) && |v| == p + 2 && PayloadOf(v[p]).Propose? && PayloadOf(v[p + 1]).Sync?
    requires !Current(env, v, p) && v[p].hash == Some(asOf)
    ensures var u := Refreshed(env, v, p);
      && Inv(env, u) && PayloadOf(u[p + 1]) == PayloadOf(v[p + 1])
      && forall k :: 0 <= k < |u| ==> u[k].hash != Some(asOf)
  {
    var v1 := Rehashed(env, {}, v);
    InvRestorable(env, v, p);
    assert v[p].(signatures := None) == v1[p].(signatures := None);
    assert v[p].(signatures := None).hash == v1[p].(signatures := None).hash;
    SameCurrent(env, v, v1, p);
    assert v[p + 1].(signatures := None).content == v1[p + 1].(signatures := None).content;
    RefreshOrder(env, v, p);
    RefreshKeepsInv(env, v, p);
    CapturedHash(env, v, p, p);
  }

  lemma SameCurrent(env: Env, t: Transcript, u: Transcript, p: nat)
    requires Same(t, u) && p < |t| && PayloadOf(t[p]).Propose?
    ensures PayloadOf(u[p]).Propose? && (Current(env, t, p) <==> Current(env, u, p))
  {
    assert t[p].(signatures := None).content == u[p].(signatures := None).content;
    SameFront(t, u, p);
    SameBindings(t[..p], u[..p], PayloadOf(t[p]).result.participants);
  }

  // ---- the converse

  lemma NothingLeans(env: Env, t: Transcript, u: Transcript, p: nat, i: nat)
    requires Around(env, t, u, p) && !Current(env, t, p) && p < i < |t| && Injective(env.h)
    requires Settled(env, t) && Grounded(env, t[..i], t[i].content) && Inv(env, u)
    ensures !LeansOn(env, t, p, i)
  {
    GroundedAt(env, u, i);
    match PayloadOf(t[i])
    case Decide(_, _, _, _, _, _) => DecisionFree(env, t, u, p, i);
    case Propose(_, result, _, _) =>
      forall b | b in result.bindings ensures exists e :: 0 <= e < p && BindingHolds(b, t[e]) {
        BindingFree(env, t, u, p, i, b);
      }
    case ContractPropose(_, _, _, _) => ContractFree(env, t, u, p, i);
    case _ =>
  }

  lemma DecisionFree(env: Env, t: Transcript, u: Transcript, p: nat, i: nat)
    requires Around(env, t, u, p) && !Current(env, t, p) && p < i < |t| && Injective(env.h) && PayloadOf(t[i]).Decide?
    requires Settled(env, t) && Grounded(env, t[..i], t[i].content) && Inv(env, u)
    ensures exists q :: 0 <= q < p && Binds(PayloadOf(t[i]), t[q])
  {
    var q :| 0 <= q < |t[..i]| && Binds(PayloadOf(t[i]), t[..i][q]);
    var q' := ProposalOf(env, u, i);
    if q >= p {
      HashesMove(env, t, u, p, q, q');
    }
  }

  lemma BindingFree(env: Env, t: Transcript, u: Transcript, p: nat, i: nat, b: Binding)
    requires Around(env, t, u, p) && !Current(env, t, p) && p < i < |t| && Injective(env.h) && PayloadOf(t[i]).Propose?
    requires b in PayloadOf(t[i]).result.bindings
    requires Settled(env, t) && Grounded(env, t[..i], t[i].content) && Inv(env, u)
    ensures exists e :: 0 <= e < p && BindingHolds(b, t[e])
  {
    var e :| 0 <= e < |t[..i]| && BindingHolds(b, t[..i][e]);
    var e' := DeclarationOf(env, u, i, b);
    if e >= p {
      HashesMove(env, t, u, p, e, e');
    }
  }

  lemma DeclarationOf(env: Env, t: Transcript, i: nat, b: Binding) returns (e: nat)
    requires AllGrounded(env, t) && i < |t| && PayloadOf(t[i]).Propose? && b in PayloadOf(t[i]).result.bindings
    ensures e < i && BindingHolds(b, t[e])
  {
    GroundedAt(env, t, i);
    e :| 0 <= e < |t[..i]| && BindingHolds(b, t[..i][e]);
  }

  lemma {:induction false} ContractFree(env: Env, t: Transcript, u: Transcript, p: nat, i: nat)
    requires Around(env, t, u, p) && p < i < |t| && PayloadOf(t[i]).ContractPropose? && AllGrounded(env, u)
    ensures !LeansOn(env, t, p, i)
  {
    var q := OfferOf(env, u, i);
    if q != p {
      assert Offers(t[q], PayloadOf(t[i]).negotiationId, PayloadOf(t[i]).resultHash);
    }
  }

  lemma OfferOf(env: Env, t: Transcript, i: nat) returns (q: nat)
    requires AllGrounded(env, t) && i < |t| && PayloadOf(t[i]).ContractPropose?
    ensures q < i && Offers(t[q], PayloadOf(t[i]).negotiationId, PayloadOf(t[i]).resultHash)
  {
    GroundedAt(env, t, i);
    q :| 0 <= q < |t[..i]| && Offers(t[..i][q], PayloadOf(t[i]).negotiationId, PayloadOf(t[i]).resultHash);
  }

  // ---- the first proposal

  predicate Opens(m: Msg<Entry>) { PayloadOf(m).Propose? && PayloadOf(m).revision == 1 }

  lemma {:induction false} SameOpeners(t: Transcript, u: Transcript)
    requires |t| == |u| && forall i :: 0 <= i < |t| ==> (Opens(t[i]) <==> Opens(u[i]))
    ensures FirstProposal(t) == FirstProposal(u)
  {
    if t == [] {
    } else {
      SameOpeners(t[..|t| - 1], u[..|u| - 1]);
      assert Opens(t[|t| - 1]) <==> Opens(u[|u| - 1]);
    }
  }

  lemma {:induction false} RefreshKeepsFirst(env: Env, t: Transcript, p: nat)
    requires p < |t| && PayloadOf(t[p]).Propose?
    ensures FirstProposal(Refreshed(env, t, p)) == FirstProposal(t)
  {
    RefreshOpeners(env, t, p);
    SameOpeners(t, Refreshed(env, t, p));
  }

  lemma RefreshOpeners(env: Env, t: Transcript, p: nat)
    requires p < |t| && PayloadOf(t[p]).Propose?
    ensures forall i :: 0 <= i < |t| ==> (Opens(t[i]) <==> Opens(Refreshed(env, t, p)[i]))
  {
    RefreshAround(env, t, p);
    forall i | 0 <= i < |t| ensures Opens(t[i]) <==> Opens(Refreshed(env, t, p)[i]) {
      RehashPayload(env, {}, t, i);
    }
  }

  lemma {:induction false} RefreshSound(env: Env, t: Transcript, p: nat)
    requires p < |t| && PayloadOf(t[p]).Propose?
    ensures var u := Refreshed(env, t, p);
      && PayloadOf(u[p]).Propose? && Current(env, u, p)
      && (Inv(env, u) && FirstProposal(u).Some?
          <==> Restorable(env, t, p) && GroundedBehind(env, u, p) && FirstProposal(t).Some?)
  {
    RefreshRestores(env, t, p);
    RefreshKeepsFirst(env, t, p);
  }

  // ---- edited transcripts

  /** What the fixtures edit before a refresh: what a declaration offers, what a proposal selects. */
  ghost predicate EditedMessage(m: Msg<Entry>, n: Msg<Entry>) {
    && n.content == m.content.(payload := Entry(m.content.payload.contractId, PayloadOf(n)))
    && match PayloadOf(m)
       case Declare(_, _, _, _) => PayloadOf(n).Declare? && PayloadOf(n) == PayloadOf(m).(offer := PayloadOf(n).offer)
       case Propose(_, result, _, _) =>
         && PayloadOf(n).Propose?
         && PayloadOf(n) == PayloadOf(m).(result := result.(selected := PayloadOf(n).result.selected))
       case _ => PayloadOf(n) == PayloadOf(m)
  }

  /** Links, hashes and signatures of `u` may be anything. */
  ghost predicate Edited(t: Transcript, u: Transcript) {
    |u| == |t| && forall i :: 0 <= i < |t| ==> EditedMessage(t[i], u[i])
  }

  /** Declarations and one proposal, edited at will: refreshing the proposal restores the invariant. */
  lemma {:induction false} EditedRefresh(env: Env, t: Transcript, u: Transcript, p: nat)
    requires Inv(env, t) && |t| == p + 1 && PayloadOf(t[p]).Propose? && Edited(t, u)
    requires forall i :: 0 <= i < p ==> PayloadOf(t[i]).Declare?
    ensures PayloadOf(u[p]).Propose? && Inv(env, Refreshed(env, u, p))
    ensures FirstProposal(Refreshed(env, u, p)) == FirstProposal(t)
  {
    assert EditedMessage(t[p], u[p]);
    EditedPrefix(env, t, u, p);
    EditedFits(env, t, u, p);
    forall i | 0 <= i < |t| ensures u[i].content.id == t[i].content.id {
      assert EditedMessage(t[i], u[i]);
    }
    RefreshRestores(env, u, p);
    RefreshKeepsFirst(env, u, p);
    forall i | 0 <= i < |t| ensures Opens(t[i]) <==> Opens(u[i]) {
      assert EditedMessage(t[i], u[i]);
    }
    SameOpeners(t, u);
  }

  lemma EditedPrefix(env: Env, t: Transcript, u: Transcript, p: nat)
    requires Inv(env, t) && |t| == p + 1 && Edited(t, u) && forall i :: 0 <= i < p ==> PayloadOf(t[i]).Declare?
    ensures Inv(env, Rehashed(env, {}, u[..p]))
  {
    var v := Rehashed(env, {}, u[..p]);
    RehashSettles(env, {}, u[..p]);
    forall i | 0 <= i < p ensures v[i].content == u[i].content && EditedMessage(t[i], u[i]) {
      RehashPayload(env, {}, u[..p], i);
    }
    forall i | 0 <= i < p ensures Grounded(env, v[..i], v[i].content) {
      DeclarationGrounded(env, t, v, i);
    }
    AllGroundedFrom(env, v);
  }

  lemma {:induction false} DeclarationGrounded(env: Env, t: Transcript, v: Transcript, i: nat)
    requires AllGrounded(env, t) && i < |v| < |t| && forall k :: 0 <= k < |v| ==> PayloadOf(t[k]).Declare?
    requires forall k :: 0 <= k < |v| ==> EditedMessage(t[k], v[k])
    ensures Grounded(env, v[..i], v[i].content)
  {
    GroundedAt(env, t, i);
    assert EditedMessage(t[i], v[i]) && EditedMessage(t[0], v[0]);
    var party := PayloadOf(t[i]).partyId;
    SameDeclarers(t, v, i, party);
    var d := LastDeclaration(t[..i], party);
    assert d.Some? ==> EditedMessage(t[d.value], v[d.value]);
  }

  lemma {:induction false} EditedFits(env: Env, t: Transcript, u: Transcript, p: nat)
    requires AllGrounded(env, t) && p < |t| && PayloadOf(t[p]).Propose? && Edited(t, u)
    ensures Fits(u[..p], u[p].content)
  {
    GroundedAt(env, t, p);
    assert EditedMessage(t[p], u[p]) && EditedMessage(t[0], u[0]);
  }

  // ---- runs after a refresh

  /** A refresh that restores the invariant, then any run: the invariant holds, nothing the refresh left is changed but
      signatures, and the proposal is still bound to the declarations before it. */
  lemma {:induction false} RunAfterRefresh(env: Env, t: Transcript, p: nat, steps: seq<Step>)
    requires p < |t| && PayloadOf(t[p]).Propose? && Inv(env, Refreshed(env, t, p))
    requires FirstProposal(Refreshed(env, t, p)).Some? && Run(env, Refreshed(env, t, p), steps).Some?
    ensures var u, end := Refreshed(env, t, p), Run(env, Refreshed(env, t, p), steps).value;
      Inv(env, end) && Extends(u, end) && PayloadOf(end[p]).Propose? && Current(env, end, p)
  {
    var u, end := Refreshed(env, t, p), Run(env, Refreshed(env, t, p), steps).value;
    RefreshedIsCurrent(env, t, p);
    RunKeepsInv(env, u, steps);
    ExtendsAt(u, end, p);
    CurrentStays(env, u, end, p);
  }

  lemma CurrentStays(env: Env, t: Transcript, u: Transcript, p: nat)
    requires Extends(t, u) && p < |t| && PayloadOf(t[p]).Propose? && u[p].content == t[p].content && Current(env, t, p)
    ensures Current(env, u, p)
  {
    SameFront(t, u[..|t|], p);
    assert u[..|t|][..p] == u[..p];
    SameBindings(t[..p], u[..p], PayloadOf(t[p]).result.participants);
  }

  /** What `build_negotiation` returns without acceptances, contract and projection, edited at will and refreshed, and
      any run from there. */
  lemma {:induction false} EveryEditedRun(env: Env, b: Build, t: Transcript, steps: seq<Step>)
    requires !b.includeAcceptances && !b.includeContract && !b.includeProjection && Edited(Built(env, b), t)
    ensures |t| == 3 && PayloadOf(t[2]).Propose?
    ensures var u := Refreshed(env, t, 2);
      && Inv(env, u) && FirstProposal(u) == Some(2)
      && (Run(env, u, steps).Some? ==>
            var end := Run(env, u, steps).value;
            && Inv(env, end) && Extends(u, end) && FirstProposal(end) == Some(2)
            && PayloadOf(end[2]).Propose? && Current(env, end, 2))
  {
    BuiltInv(env, b);
    BuiltProposal(env, b);
    EditedRefresh(env, Built(env, b), t, 2);
    if Run(env, Refreshed(env, t, 2), steps).Some? {
      RunAfterRefresh(env, t, 2, steps);
      RunKeepsInv(env, Refreshed(env, t, 2), steps);
    }
  }

  /** The edits of one fixture: new offers for the declarations in front, and another selection. */
  function Reoffered(t: Transcript, offers: seq<string>, selected: Selected): (u: Transcript)
    ensures |u| == |t|
  {
    seq(|t|, i requires 0 <= i < |t| =>
      if i < |offers| && PayloadOf(t[i]).Declare? then WithOffer(t[i], offers[i])
      else if PayloadOf(t[i]).Propose? then WithSelection(t[i], selected)
      else t[i])
  }

  function WithOffer(m: Msg<Entry>, offer: string): Msg<Entry>
    requires PayloadOf(m).Declare?
  {
    m.(content := m.content.(payload := Entry(m.content.payload.contractId, PayloadOf(m).(offer := offer))))
  }

  function WithSelection(m: Msg<Entry>, selected: Selected): Msg<Entry>
    requires PayloadOf(m).Propose?
  {
    m.(content := m.content.(payload := Entry(m.content.payload.contractId,
      PayloadOf(m).(result := PayloadOf(m).result.(selected := selected)))))
  }

  lemma ReofferedIsEdited(t: Transcript, offers: seq<string>, selected: Selected)
    ensures Edited(t, Reoffered(t, offers, selected))
  {
    forall i | 0 <= i < |t| ensures EditedMessage(t[i], Reoffered(t, offers, selected)[i]) {
      assert PayloadOf(t[i]).Declare? ==> PayloadOf(t[i]).(offer := PayloadOf(t[i]).offer) == PayloadOf(t[i]);
    }
  }

  lemma {:induction false} ReofferedRefresh(env: Env, t: Transcript, offers: seq<string>, selected: Selected)
    requires Inv(env, t) && |t| == |offers| + 1 && PayloadOf(t[|offers|]).Propose?
    requires forall i :: 0 <= i < |offers| ==> PayloadOf(t[i]).Declare?
    ensures var u, p := Reoffered(t, offers, selected), |offers|;
      && PayloadOf(u[p]).Propose? && Inv(env, Refreshed(env, u, p))
      && FirstProposal(Refreshed(env, u, p)) == FirstProposal(t)
  {
    ReofferedIsEdited(t, offers, selected);
    EditedRefresh(env, t, Reoffered(t, offers, selected), |offers|);
  }

  lemma ReofferedFields(env: Env, t: Transcript, offers: seq<string>, selected: Selected)
    requires |t| == |offers| + 1 && PayloadOf(t[|offers|]).Propose?
    requires forall i :: 0 <= i < |offers| ==> PayloadOf(t[i]).Declare?
    ensures PayloadOf(Reoffered(t, offers, selected)[|offers|]).Propose?
    ensures var v := Refreshed(env, Reoffered(t, offers, selected), |offers|);
      && (forall i :: 0 <= i < |offers| ==> PayloadOf(v[i]).Declare? && PayloadOf(v[i]).offer == offers[i])
      && PayloadOf(v[|offers|]).Propose? && PayloadOf(v[|offers|]).result.selected == selected
  {
    RefreshBinds(env, Reoffered(t, offers, selected), |offers|);
  }
}
