/** What every run of the negotiation builder keeps. */
module NegotiationRuns {
  import opened Wrappers
  import opened Chains
  import opened Negotiation

  // ---- the invariant

  ghost predicate InOrder(t: Transcript) {
    forall i :: 0 <= i < |t| ==> t[i].content.id == Some(MessageId(i + 1))
  }

  /** The ids are m1, m2, ... in order, read as text. */
  lemma InOrderExact(t: Transcript)
    ensures InOrder(t) <==> forall i :: 0 <= i < |t| ==> Numbered(t[i].content.id, i + 1)
  {
    forall i | 0 <= i < |t| ensures t[i].content.id == Some(MessageId(i + 1)) <==> Numbered(t[i].content.id, i + 1) {
      MessageIdExact(t[i].content.id, i + 1);
    }
  }

  /** A message is unsigned, or carries exactly its sender's signature over its own hash. */
  ghost predicate SealedBySender(env: Env, m: Msg<Entry>) {
    m.signatures == None || (m.hash.Some? && m.signatures == Some([env.sign(m.hash.value, m.content.sender)]))
  }

  ghost predicate Settled(env: Env, t: Transcript) {
    IsChain(env.h, t) && forall i :: 0 <= i < |t| ==> SealedBySender(env, t[i])
  }

  /** Decision `d` names proposal `m`: its id, its hash, its revision, its negotiation and its result hash. */
  ghost predicate Binds(d: Payload, m: Msg<Entry>)
    requires d.Decide?
  {
    var p := PayloadOf(m);
    && p.Propose?
    && d.proposalId == m.content.id && d.proposalHash == m.hash
    && d.revision == p.revision && d.negotiationId == p.result.negotiationId && d.resultHash == p.resultHash
  }

  /** Message `d` of `t` is the decision of `sender` on proposal `p` of `t`. */
  ghost predicate DecidesOn(t: Transcript, d: nat, sender: string, accept: bool, p: nat) {
    && d < |t| && p < |t| && t[d].content.sender == Some(sender)
    && PayloadOf(t[d]).Decide? && PayloadOf(t[d]).accepted == accept && Binds(PayloadOf(t[d]), t[p])
  }

  ghost predicate BindingHolds(b: Binding, m: Msg<Entry>) {
    PayloadOf(m).Declare? && b == BindingTo(m)
  }

  /** What message content `c` owes to the messages before it. */
  ghost predicate Grounded(env: Env, before: Transcript, c: Content<Entry>) {
    && (before != [] ==>
          c.session == before[0].content.session && c.payload.contractId == before[0].content.payload.contractId)
    && match c.payload.payload
       case Declare(party, capabilitiesId, supersedesId, _) =>
         var d := LastDeclaration(before, party);
         if d.None? then supersedesId == None
         else var last := PayloadOf(before[d.value]).capabilitiesId;
              supersedesId == Some(last) && capabilitiesId == last + "-next"
       case Propose(revision, result, resultHash, supersedesProposal) =>
         && before != [] && result.session == before[0].content.session
         && result.contractId == before[0].content.payload.contractId
         && resultHash == env.objectHash(ResultObject(result)) && revision == result.revision
         && (forall b :: b in result.bindings ==> exists e :: 0 <= e < |before| && BindingHolds(b, before[e]))
       case Decide(_, _, _, _, _, _) => exists p :: 0 <= p < |before| && Binds(c.payload.payload, before[p])
       case ContractPropose(negotiationId, resultHash, _, _) =>
         exists p :: 0 <= p < |before| && PayloadOf(before[p]).Propose?
                  && negotiationId == PayloadOf(before[p]).result.negotiationId
                  && resultHash == PayloadOf(before[p]).resultHash
       case ContractAccept => true
       case Sync(_, state, stateHash, _) => stateHash == env.objectHash(StateObject(state))
  }

  ghost predicate AllGrounded(env: Env, t: Transcript) {
    t == [] || (AllGrounded(env, t[..|t| - 1]) && Grounded(env, t[..|t| - 1], t[|t| - 1].content))
  }

  lemma {:induction false} GroundedAt(env: Env, t: Transcript, i: nat)
    requires AllGrounded(env, t) && i < |t|
    ensures Grounded(env, t[..i], t[i].content)
  {
    if i == |t| - 1 {
    } else {
      GroundedAt(env, t[..|t| - 1], i);
      assert t[..|t| - 1][..i] == t[..i];
    }
  }

  ghost predicate Inv(env: Env, t: Transcript) {
    InOrder(t) && Settled(env, t) && AllGrounded(env, t)
  }

  // ---- signatures aside

  /** The same messages, whatever the signatures. */
  ghost predicate Same(t: Transcript, u: Transcript) {
    |t| == |u| && forall i :: 0 <= i < |t| ==> t[i].(signatures := None) == u[i].(signatures := None)
  }

  ghost predicate Extends(t: Transcript, u: Transcript) {
    |t| <= |u| && Same(t, u[..|t|])
  }

  lemma {:induction false} SameDeclarations(t: Transcript, u: Transcript, party: string)
    requires Same(t, u)
    ensures LastDeclaration(t, party) == LastDeclaration(u, party)
  {
    if t == [] {
    } else {
      assert t[|t| - 1].(signatures := None).content == u[|u| - 1].(signatures := None).content;
      SameDeclarations(t[..|t| - 1], u[..|u| - 1], party);
    }
  }

  lemma SameGrounded(env: Env, t: Transcript, u: Transcript, c: Content<Entry>)
    requires Same(t, u) && Grounded(env, t, c)
    ensures Grounded(env, u, c)
  {
    forall i | 0 <= i < |t| ensures t[i].content == u[i].content && t[i].hash == u[i].hash {
      assert t[i].(signatures := None) == u[i].(signatures := None);
    }
    match c.payload.payload
    case Declare(party, _, _, _) =>
      SameDeclarations(t, u, party);
    case Propose(_, result, _, _) =>
      forall b | b in result.bindings ensures exists e :: 0 <= e < |u| && BindingHolds(b, u[e]) {
        var e :| 0 <= e < |t| && BindingHolds(b, t[e]);
        assert BindingHolds(b, u[e]);
      }
    case Decide(_, _, _, _, _, _) =>
      var p :| 0 <= p < |t| && Binds(c.payload.payload, t[p]);
      assert Binds(c.payload.payload, u[p]);
    case ContractPropose(negotiationId, resultHash, _, _) =>
      var p :| 0 <= p < |t| && PayloadOf(t[p]).Propose?
                  && negotiationId == PayloadOf(t[p]).result.negotiationId && resultHash == PayloadOf(t[p]).resultHash;
      assert PayloadOf(u[p]).Propose?;
    case _ =>
  }

  lemma {:induction false} SameAllGrounded(env: Env, t: Transcript, u: Transcript)
    requires Same(t, u) && AllGrounded(env, t)
    ensures AllGrounded(env, u)
  {
    if t == [] {
    } else {
      var n := |t| - 1;
      SameAllGrounded(env, t[..n], u[..n]);
      SameGrounded(env, t[..n], u[..n], t[n].content);
      assert t[n].(signatures := None).content == u[n].(signatures := None).content;
    }
  }

  // ---- rehashing a settled transcript

  lemma RehashAt(env: Env, ids: set<Option<string>>, t: Transcript, i: nat)
    requires i < |t|
    ensures Rehashed(env, ids, t)[i].(signatures := None) == Chain(env.h, Contents(t))[i].(signatures := None)
    ensures SealedBySender(env, Rehashed(env, ids, t)[i])
    ensures HasSignature(Rehashed(env, ids, t)[i]) <==> t[i].content.id in ids
  {
    ChainAt(env.h, Contents(t), i);
  }

  /** Whatever is rehashed is settled. */
  lemma RehashSettles(env: Env, ids: set<Option<string>>, t: Transcript)
    ensures Settled(env, Rehashed(env, ids, t))
  {
    var r, c := Rehashed(env, ids, t), Chain(env.h, Contents(t));
    forall i | 0 <= i < |t|
      ensures r[i].hash == Some(env.h(r[i].Unsigned())) && r[i].prev == Head(r[..i]) && SealedBySender(env, r[i]) {
      RehashAt(env, ids, t, i);
      ChainAt(env.h, Contents(t), i);
      if i > 0 {
        RehashAt(env, ids, t, i - 1);
        assert r[..i][i - 1].hash == c[..i][i - 1].hash;
      }
    }
  }

  /** Rehashing a settled transcript changes nothing but signatures. */
  lemma RehashSame(env: Env, ids: set<Option<string>>, t: Transcript)
    requires Settled(env, t)
    ensures Same(t, Rehashed(env, ids, t))
  {
    forall i | 0 <= i < |t| ensures t[i].(signatures := None) == Rehashed(env, ids, t)[i].(signatures := None) {
      BareChain(env.h, t, i);
      RehashAt(env, ids, t, i);
    }
  }

  /** Appending to a settled transcript and rehashing all of it leaves every earlier message as it was, signatures
      aside, whoever is signed now, and links the new one to the last. */
  lemma RehashAppend(env: Env, ids: set<Option<string>>, t: Transcript, m: Msg<Entry>)
    requires Settled(env, t)
    ensures Extends(t, Rehashed(env, ids, t + [m]))
    ensures Rehashed(env, ids, t + [m])[|t|].content == m.content
  {
    var r, cs := Rehashed(env, ids, t + [m]), Contents(t);
    assert Contents(t + [m]) == cs + [m.content];
    ChainAppend(env.h, cs, m.content);
    forall i | 0 <= i < |t| ensures t[i].(signatures := None) == r[..|t|][i].(signatures := None) {
      BareChain(env.h, t, i);
      RehashAt(env, ids, t + [m], i);
    }
    RehashAt(env, ids, t + [m], |t|);
  }

  lemma RehashContentsOnly(env: Env, ids: set<Option<string>>, t: Transcript, u: Transcript)
    requires Contents(t) == Contents(u)
    ensures Rehashed(env, ids, t) == Rehashed(env, ids, u)
  {
    assert |t| == |Contents(t)| == |u|;
  }

  lemma OneMoreInOrder(t: Transcript, r: Transcript)
    requires InOrder(t) && Extends(t, r) && |r| == |t| + 1 && r[|t|].content.id == Some(MessageId(|t| + 1))
    ensures InOrder(r)
  {
    forall i | 0 <= i < |r| ensures r[i].content.id == Some(MessageId(i + 1)) {
      if i < |t| {
        ExtendsAt(t, r, i);
      }
    }
  }

  /** The step every append comes down to. */
  lemma AppendKeepsInv(env: Env, ids: set<Option<string>>, t: Transcript, m: Msg<Entry>)
    requires Inv(env, t) && m.content.id == Some(MessageId(|t| + 1)) && Grounded(env, t, m.content)
    ensures Inv(env, Rehashed(env, ids, t + [m])) && Extends(t, Rehashed(env, ids, t + [m]))
    ensures Rehashed(env, ids, t + [m])[|t|].content == m.content
  {
    var r := Rehashed(env, ids, t + [m]);
    RehashAppend(env, ids, t, m);
    RehashSettles(env, ids, t + [m]);
    OneMoreInOrder(t, r);
    SameAllGrounded(env, t, r[..|t|]);
    SameGrounded(env, t, r[..|t|], m.content);
  }

  /** When exactly the signed messages are signed again, earlier messages are kept whole, and the new one is signed
      exactly when the object appended carried a signature. */
  lemma PreservingAppend(env: Env, t: Transcript, m: Msg<Entry>)
    requires Inv(env, t) && m.content.id == Some(MessageId(|t| + 1))
    ensures RehashPreserving(env, t + [m])[..|t|] == t
    ensures HasSignature(RehashPreserving(env, t + [m])[|t|]) <==> HasSignature(m)
  {
    var u := t + [m];
    var ids := SignedIds(u);
    RehashAppend(env, ids, t, m);
    var r := Rehashed(env, ids, u);
    forall i | 0 <= i <= |t| ensures u[i].content.id in ids <==> HasSignature(u[i]) {
      SignedIdsMember(u, i);
    }
    forall i | 0 <= i < |t| ensures r[..|t|][i] == t[i] {
      assert r[..|t|][i].(signatures := None) == t[i].(signatures := None);
      RehashAt(env, ids, u, i);
      assert SealedBySender(env, t[i]) && SealedBySender(env, r[i]);
    }
    RehashAt(env, ids, u, |t|);
  }

  /** `_rehash_preserving_signatures` on any transcript: the signed ids stay the same, and every message keeps being
      signed or not exactly when no unsigned message shares its id with a signed one. */
  lemma PreservingRehash(env: Env, t: Transcript)
    ensures SignedIds(RehashPreserving(env, t)) == SignedIds(t)
    ensures (forall i :: 0 <= i < |t| ==> (HasSignature(RehashPreserving(env, t)[i]) <==> HasSignature(t[i])))
       <==> !exists i, j :: 0 <= i < |t| && 0 <= j < |t|
                            && HasSignature(t[i]) && !HasSignature(t[j]) && t[i].content.id == t[j].content.id
  {
    PreservedAt(env, t);
    PreservedIds(t, RehashPreserving(env, t));
    SharedIds(t);
  }

  lemma PreservedAt(env: Env, t: Transcript)
    ensures var r := RehashPreserving(env, t);
      forall i :: 0 <= i < |t| ==>
        r[i].content == t[i].content && (HasSignature(r[i]) <==> t[i].content.id in SignedIds(t))
  {
    forall i | 0 <= i < |t|
      ensures RehashPreserving(env, t)[i].content == t[i].content
      ensures HasSignature(RehashPreserving(env, t)[i]) <==> t[i].content.id in SignedIds(t)
    {
      RehashPayload(env, SignedIds(t), t, i);
      RehashAt(env, SignedIds(t), t, i);
    }
  }

  lemma PreservedIds(t: Transcript, r: Transcript)
    requires |r| == |t|
    requires forall i :: 0 <= i < |t| ==>
              r[i].content == t[i].content && (HasSignature(r[i]) <==> t[i].content.id in SignedIds(t))
    ensures SignedIds(r) == SignedIds(t)
  {
    forall id ensures id in SignedIds(r) <==> id in SignedIds(t) {
      if id in SignedIds(t) {
        var m :| m in t && HasSignature(m) && m.content.id == id;
        var i :| 0 <= i < |t| && t[i] == m;
        assert r[i] in r && r[i].content.id == id;
      }
      if id in SignedIds(r) {
        var m :| m in r && HasSignature(m) && m.content.id == id;
        var i :| 0 <= i < |r| && r[i] == m;
      }
    }
  }

  /** Which ids count as signed. */
  lemma SharedIds(t: Transcript)
    ensures forall j :: 0 <= j < |t| ==>
      (t[j].content.id in SignedIds(t)
       <==> exists i :: 0 <= i < |t| && HasSignature(t[i]) && t[i].content.id == t[j].content.id)
  {
    forall j | 0 <= j < |t|
      ensures t[j].content.id in SignedIds(t)
              <==> exists i :: 0 <= i < |t| && HasSignature(t[i]) && t[i].content.id == t[j].content.id
    {
      if t[j].content.id in SignedIds(t) {
        var m :| m in t && HasSignature(m) && m.content.id == t[j].content.id;
        var i :| 0 <= i < |t| && t[i] == m;
      }
    }
  }

  lemma SignedIdsMember(u: Transcript, i: nat)
    requires i < |u| && InOrder(u)
    ensures u[i].content.id in SignedIds(u) <==> HasSignature(u[i])
  {
    if u[i].content.id in SignedIds(u) {
      var m :| m in u && HasSignature(m) && m.content.id == u[i].content.id;
      var j :| 0 <= j < |u| && u[j] == m;
      MessageIdInjective(i + 1, j + 1);
    }
  }

  // ---- the steps

  lemma {:induction false} OneSessionAndContract(env: Env, t: Transcript, i: nat)
    requires AllGrounded(env, t) && i < |t|
    ensures t[i].content.session == t[0].content.session
            && t[i].content.payload.contractId == t[0].content.payload.contractId
  {
    if i > 0 {
      GroundedAt(env, t, i);
      assert t[..i][0] == t[0];
    }
  }

  lemma {:induction false} DecisionGrounded(env: Env, t: Transcript, p: nat, m: Msg<Entry>)
    requires AllGrounded(env, t) && p < |t| && PayloadOf(t[p]).Propose? && PayloadOf(m).Decide?
             && Binds(PayloadOf(m), t[p])
    requires m.content.session == t[p].content.session
             && m.content.payload.contractId == t[p].content.payload.contractId
    ensures Grounded(env, t, m.content)
  {
    OneSessionAndContract(env, t, p);
  }

  lemma {:induction false} ProposalGrounded(env: Env, t: Transcript, p: nat, m: Msg<Entry>)
    requires AllGrounded(env, t) && p < |t| && PayloadOf(t[p]).Propose? && PayloadOf(m).Propose?
    requires var r := PayloadOf(m).result; var first := PayloadOf(t[p]).result;
      && r.session == first.session && r.contractId == first.contractId && r.bindings == first.bindings
      && m.content.session == r.session && m.content.payload.contractId == r.contractId
      && PayloadOf(m).resultHash == env.objectHash(ResultObject(r)) && PayloadOf(m).revision == r.revision
    ensures Grounded(env, t, m.content)
  {
    GroundedAt(env, t, p);
    assert t[..p] != [] && t[..p][0] == t[0];
    forall b | b in PayloadOf(m).result.bindings ensures exists e :: 0 <= e < |t| && BindingHolds(b, t[e]) {
      var e :| 0 <= e < |t[..p]| && BindingHolds(b, t[..p][e]);
      assert BindingHolds(b, t[e]);
    }
  }

  /** What a step that preserves signatures does: it appends messages that are not signed. */
  ghost predicate Appended(env: Env, t: Transcript, u: Transcript) {
    Inv(env, u) && |t| <= |u| && u[..|t|] == t && forall i :: |t| <= i < |u| ==> !HasSignature(u[i])
  }

  lemma UnsignedAppend(env: Env, t: Transcript, m: Msg<Entry>)
    requires Inv(env, t) && m.content.id == Some(MessageId(|t| + 1)) && Grounded(env, t, m.content) && !HasSignature(m)
    ensures Appended(env, t, RehashPreserving(env, t + [m]))
    ensures RehashPreserving(env, t + [m])[|t|].content == m.content
  {
    AppendKeepsInv(env, SignedIds(t + [m]), t, m);
    PreservingAppend(env, t, m);
  }

  lemma {:induction false} DecisionStep(env: Env, t: Transcript, sender: string, accept: bool, proposal: Option<nat>)
    requires Inv(env, t) && Decision(env, t, sender, accept, proposal).Some?
    ensures var u := Decision(env, t, sender, accept, proposal).value;
      && Appended(env, t, u) && |u| == |t| + 1
      && DecidesOn(u, |t|, sender, accept, if proposal.Some? then proposal.value else LastProposal(t).value)
  {
    var p := if proposal.Some? then proposal.value else LastProposal(t).value;
    var m := DecisionMessage(|t| + 1, sender, accept, t[p]);
    DecisionGrounded(env, t, p, m);
    UnsignedAppend(env, t, m);
    assert Decision(env, t, sender, accept, proposal).value[..|t|][p] == t[p];
  }

  lemma AppendedTwice(env: Env, t: Transcript, next: Transcript, u: Transcript)
    requires Appended(env, t, next) && Appended(env, next, u)
    ensures Appended(env, t, u)
  {
    assert u[..|t|] == u[..|next|][..|t|];
    forall i | |t| <= i < |u| ensures !HasSignature(u[i]) {
      if i < |next| {
        assert u[..|next|][i] == u[i];
      }
    }
  }

  /** The messages from `n` on: each sender's acceptance of `p`. */
  ghost predicate AcceptedInTurn(u: Transcript, n: nat, senders: seq<string>, p: nat) {
    forall k :: 0 <= k < |senders| ==> DecidesOn(u, n + k, senders[k], true, p)
  }

  lemma {:induction false} DecisionsStep(env: Env, t: Transcript, senders: seq<string>, p: nat)
    requires Inv(env, t) && p < |t| && PayloadOf(t[p]).Propose?
    ensures Decisions(env, t, senders, p).Some?
    ensures var u := Decisions(env, t, senders, p).value;
      Appended(env, t, u) && |u| == |t| + |senders| && AcceptedInTurn(u, |t|, senders, p)
    decreases |senders|
  {
    if senders != [] {
      var next := FirstDecision(env, t, senders[0], p);
      DecisionsStep(env, next, senders[1..], p);
      DecidedThenAll(env, t, next, Decisions(env, next, senders[1..], p).value, senders, p);
    } else {
      assert t[..|t|] == t;
    }
  }

  lemma FirstDecision(env: Env, t: Transcript, sender: string, p: nat) returns (next: Transcript)
    requires Inv(env, t) && p < |t| && PayloadOf(t[p]).Propose?
    ensures Decision(env, t, sender, true, Some(p)) == Some(next) && Inv(env, next)
    ensures Appended(env, t, next) && |next| == |t| + 1 && DecidesOn(next, |t|, sender, true, p) && next[p] == t[p]
  {
    DecisionStep(env, t, sender, true, Some(p));
    next := Decision(env, t, sender, true, Some(p)).value;
    assert next[..|t|][p] == t[p];
  }

  lemma DecidedThenAll(env: Env, t: Transcript, next: Transcript, u: Transcript, senders: seq<string>, p: nat)
    requires Appended(env, t, next) && |next| == |t| + 1 && p < |t| && senders != []
    requires DecidesOn(next, |t|, senders[0], true, p)
    requires Appended(env, next, u) && |u| == |next| + |senders[1..]|
    requires AcceptedInTurn(u, |next|, senders[1..], p)
    ensures Appended(env, t, u) && |u| == |t| + |senders| && AcceptedInTurn(u, |t|, senders, p)
  {
    DecisionStays(env, t, next, u, senders[0], p);
    AllDecided(u, |t|, senders, p);
  }

  lemma AllDecided(u: Transcript, n: nat, senders: seq<string>, p: nat)
    requires senders != [] && DecidesOn(u, n, senders[0], true, p)
    requires AcceptedInTurn(u, n + 1, senders[1..], p)
    ensures AcceptedInTurn(u, n, senders, p)
  {
    forall k | 0 <= k < |senders| ensures DecidesOn(u, n + k, senders[k], true, p) {
      if k > 0 {
        assert senders[1..][k - 1] == senders[k];
        assert DecidesOn(u, n + 1 + (k - 1), senders[1..][k - 1], true, p);
      }
    }
  }

  lemma DecisionStays(env: Env, t: Transcript, next: Transcript, u: Transcript, sender: string, p: nat)
    requires Appended(env, t, next) && |next| == |t| + 1 && p < |t| && DecidesOn(next, |t|, sender, true, p)
    requires Appended(env, next, u)
    ensures Appended(env, t, u) && DecidesOn(u, |t|, sender, true, p)
  {
    AppendedTwice(env, t, next, u);
    assert u[..|next|][|t|] == next[|t|] && u[..|next|][p] == next[p];
  }

  lemma NewProposalStep(env: Env, t: Transcript, f: nat, result: NegResult)
    requires Inv(env, t) && f < |t| && PayloadOf(t[f]).Propose?
    requires var first := PayloadOf(t[f]).result;
      result.session == first.session && result.contractId == first.contractId && result.bindings == first.bindings
    ensures var m := ProposalMessage(env, |t| + 1, PARTY_B, result, None);
      Appended(env, t, RehashPreserving(env, t + [m])) && RehashPreserving(env, t + [m])[|t|].content == m.content
  {
    var m := ProposalMessage(env, |t| + 1, PARTY_B, result, None);
    ProposalGrounded(env, t, f, m);
    UnsignedAppend(env, t, m);
  }

  /** Acceptances of the message appended last. */
  lemma {:induction false} ThenDecisions(env: Env, t: Transcript, next: Transcript, senders: seq<string>)
    requires Appended(env, t, next) && |next| == |t| + 1 && PayloadOf(next[|t|]).Propose?
    ensures Decisions(env, next, senders, |t|).Some?
    ensures var u := Decisions(env, next, senders, |t|).value;
      && Appended(env, t, u) && |u| == |t| + 1 + |senders| && u[|t|] == next[|t|]
      && forall k :: 0 <= k < |senders| ==> DecidesOn(u, |t| + 1 + k, senders[k], true, |t|)
  {
    DecisionsStep(env, next, senders, |t|);
    var u := Decisions(env, next, senders, |t|).value;
    AppendedTwice(env, t, next, u);
    assert u[..|next|][|t|] == next[|t|];
  }

  /** Message `|t|` is that proposal, and the listed senders accept it, in turn. */
  lemma {:induction false} NewNegotiationStep(env: Env, t: Transcript, suffix: string, supersedes: Option<string>,
                                              selected: Option<Selected>, acceptors: seq<string>)
    requires Inv(env, t) && FirstProposal(t).Some?
    ensures NewNegotiation(env, t, suffix, supersedes, selected, acceptors).Some?
    ensures var u := NewNegotiation(env, t, suffix, supersedes, selected, acceptors).value;
      && Appended(env, t, u) && |u| == |t| + 1 + |acceptors|
      && PayloadOf(u[|t|]).Propose? && u[|t|].content.sender == Some(PARTY_B)
      && (var first, new' := PayloadOf(t[FirstProposal(t).value]).result, PayloadOf(u[|t|]).result;
          && new'.negotiationId == first.negotiationId + "-" + suffix && new'.revision == 1
          && new'.supersedes == supersedes
          && new'.bindings == first.bindings && new'.participants == first.participants
          && new'.selected == if selected.Some? then selected.value else first.selected)
      && forall k :: 0 <= k < |acceptors| ==> DecidesOn(u, |t| + 1 + k, acceptors[k], true, |t|)
  {
    var f := FirstProposal(t).value;
    var result := NewResult(PayloadOf(t[f]).result, suffix, supersedes, selected);
    NewProposalStep(env, t, f, result);
    ThenDecisions(env, t, RehashPreserving(env, t + [ProposalMessage(env, |t| + 1, PARTY_B, result, None)]), acceptors);
  }

  lemma {:induction false} SupersessionStep(env: Env, t: Transcript, party: string)
    requires Inv(env, t) && Supersession(env, t, party).Some?
    ensures var u := Supersession(env, t, party).value;
      && Inv(env, u) && |u| == |t| + 1 && u[..|t|] == t && Declares(u[|t|], party)
      && (HasSignature(u[|t|]) <==> HasSignature(t[LastDeclaration(t, party).value]))
  {
    var d := LastDeclaration(t, party).value;
    var latest := t[d];
    var payload := PayloadOf(latest);
    var copy := latest.(content := latest.content.(
      id := Some(MessageId(|t| + 1)),
      payload := Entry(latest.content.payload.contractId,
                       payload.(capabilitiesId := payload.capabilitiesId + "-next",
                                supersedesId := Some(payload.capabilitiesId)))));
    OneSessionAndContract(env, t, d);
    assert Grounded(env, t, copy.content);
    AppendKeepsInv(env, SignedIds(t + [copy]), t, copy);
    PreservingAppend(env, t, copy);
  }

  lemma ProjectionStep(env: Env, t: Transcript, asOf: Digest, head: Option<Digest>, slug: string, result: NegResult)
    requires Inv(env, t) && t != []
    ensures var u := Projection(env, t, asOf, head, slug, result).value;
      && Appended(env, t, u) && |u| == |t| + 1 && PayloadOf(u[|t|]).Sync?
      && PayloadOf(u[|t|]).state.asOf == Some(asOf) && PayloadOf(u[|t|]).state.session == t[0].content.session
      && PayloadOf(u[|t|]).state.resultHash == env.objectHash(ResultObject(result))
      && PayloadOf(u[|t|]).headHash == (if head.Some? && head.value != "" then head else Some(asOf))
  {
    var branchHead := if head.Some? && head.value != "" then head else Some(asOf);
    var m := ProjectionMessage(env, |t| + 1, t[0].content.session, t[0].content.payload.contractId, slug, Some(asOf),
                               branchHead, result);
    UnsignedAppend(env, t, m);
  }

  // ---- appending several messages before rehashing

  lemma ExtendsTransitive(t: Transcript, u: Transcript, v: Transcript)
    requires Extends(t, u) && Extends(u, v)
    ensures Extends(t, v)
  {
    forall i | 0 <= i < |t| ensures t[i].(signatures := None) == v[..|t|][i].(signatures := None) {
      assert u[..|t|][i].(signatures := None) == t[i].(signatures := None);
      assert v[..|u|][i].(signatures := None) == u[i].(signatures := None);
    }
  }

  lemma ExtendsAt(t: Transcript, u: Transcript, i: nat)
    requires Extends(t, u) && i < |t|
    ensures t[i].content == u[i].content && t[i].hash == u[i].hash && t[i].prev == u[i].prev
  {
    assert u[..|t|][i].(signatures := None) == t[i].(signatures := None);
  }

  /** Rehashing after each append or once after all comes to the same. */
  lemma RehashTwice(env: Env, ids: set<Option<string>>, t: Transcript, ms: seq<Msg<Entry>>, m: Msg<Entry>)
    ensures Rehashed(env, ids, t + (ms + [m])) == Rehashed(env, ids, Rehashed(env, ids, t + ms) + [m])
  {
    RehashContents(env, ids, t + ms);
    var r := Rehashed(env, ids, t + ms);
    forall i | 0 <= i < |t| + |ms| + 1 ensures Contents(t + (ms + [m]))[i] == Contents(r + [m])[i] {
      if i < |t| + |ms| {
        assert Contents(r)[i] == Contents(t + ms)[i];
      }
    }
    RehashContentsOnly(env, ids, t + (ms + [m]), r + [m]);
  }

  lemma AcceptancesKeepInv(env: Env, ids: set<Option<string>>, t: Transcript, senders: seq<string>, p: nat)
    requires Inv(env, t) && p < |t| && PayloadOf(t[p]).Propose? && senders != []
    ensures var u := Rehashed(env, ids, t + Acceptances(|t| + 1, senders, t[p]));
      Inv(env, u) && Extends(t, u) && |u| == |t| + |senders|
  {
    var n := |senders| - 1;
    var ms := Acceptances(|t| + 1, senders[..n], t[p]);
    var m := DecisionMessage(|t| + |senders|, senders[n], true, t[p]);
    assert Acceptances(|t| + 1, senders, t[p]) == ms + [m];
    if n == 0 {
      assert ms == [] && t + (ms + [m]) == t + [m];
      DecisionGrounded(env, t, p, m);
      AppendKeepsInv(env, ids, t, m);
    } else {
      AcceptancesKeepInv(env, ids, t, senders[..n], p);
      var u := Rehashed(env, ids, t + ms);
      ExtendsAt(t, u, p);
      DecisionGrounded(env, u, p, m);
      AppendKeepsInv(env, ids, u, m);
      RehashTwice(env, ids, t, ms, m);
      ExtendsTransitive(t, u, Rehashed(env, ids, u + [m]));
    }
  }

  /** Acceptances bind the proposal as it stands after the rehash. */
  lemma AcceptancesBind(env: Env, ids: set<Option<string>>, t: Transcript, senders: seq<string>, p: nat, k: nat)
    requires p < |t| && PayloadOf(t[p]).Propose? && k < |senders|
    requires Extends(t, Rehashed(env, ids, t + Acceptances(|t| + 1, senders, t[p])))
    ensures DecidesOn(Rehashed(env, ids, t + Acceptances(|t| + 1, senders, t[p])), |t| + k, senders[k], true, p)
  {
    var u := t + Acceptances(|t| + 1, senders, t[p]);
    ExtendsAt(t, Rehashed(env, ids, u), p);
    RehashPayload(env, ids, u, |t| + k);
  }

  lemma DecidesOnStays(t: Transcript, u: Transcript, d: nat, sender: string, accept: bool, p: nat)
    requires Extends(t, u) && DecidesOn(t, d, sender, accept, p)
    ensures DecidesOn(u, d, sender, accept, p)
  {
    ExtendsAt(t, u, d);
    ExtendsAt(t, u, p);
  }
}
