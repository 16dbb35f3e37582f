/** The builder itself: a list of message objects, rehashed in place after every append.  Every method is proved to do
    what the definition of the same step in `Negotiation` says; what all runs of those steps keep is proved there. */
module Negotiators {
  import opened Wrappers
  import opened Chains
  import opened ChainLoops
  import opened Negotiation
  import opened NegotiationRuns
  import opened NegotiationTheorems
  import opened Refresh

  class Negotiator {
    const env: Env
    var messages: seq<Message<Entry>>

    function View(): (t: Transcript)
      reads this, messages
      ensures |t| == |messages|
    {
      Views(messages)
    }

    /** The list holds each message object once. */
    ghost predicate Valid()
      reads this
    {
      Distinct(messages)
    }

    /** What the constructor establishes and every step keeps. */
    ghost predicate Sound()
      reads this, messages
    {
      Valid() && Inv(env, View()) && FirstProposal(View()).Some?
    }

    /** Appending new objects is all any method does to the list. */
    twostate predicate Grown()
      reads this
    {
      && Valid() && old(messages) <= messages
      && forall k :: |old(messages)| <= k < |messages| ==> fresh(messages[k])
    }

    method RehashAll(signedIds: set<Option<string>>)
      requires Valid()
      modifies messages
      ensures View() == Rehashed(env, signedIds, old(View()))
    {
      ChainLoops.Rehash(env.h, env.sign, messages, signedIds);
    }

    method RehashKeepingSignatures()
      requires Valid()
      modifies messages
      ensures View() == RehashPreserving(env, old(View()))
    {
      var signedIds := set m | m in messages && m.signatures.Some? && m.signatures.value != [] :: m.content.id;
      assert signedIds == SignedIds(View()) by {
        forall id | id in signedIds ensures id in SignedIds(View()) {
          var m :| m in messages && m.signatures.Some? && m.signatures.value != [] && m.content.id == id;
          var i :| 0 <= i < |messages| && messages[i] == m;
          assert View()[i] == m.View();
        }
        forall id | id in SignedIds(View()) ensures id in signedIds {
          var m :| m in View() && HasSignature(m) && m.content.id == id;
          var i :| 0 <= i < |messages| && View()[i] == m;
          assert messages[i].View() == m;
        }
      }
      RehashAll(signedIds);
    }

    method Append(m: Msg<Entry>) returns (message: Message<Entry>)
      requires Valid()
      modifies this
      ensures Grown() && messages == old(messages) + [message]
      ensures View() == old(View()) + [m]
    {
      message := new Message(m);
      messages := messages + [message];
    }

    // ---- append_decision

    method FindLastProposal() returns (last: Option<nat>)
      ensures last == LastProposal(View())
    {
      ghost var t := View();
      var i := |messages|;
      assert t[..i] == t;
      while i > 0 && !messages[i - 1].content.payload.payload.Propose?
        invariant 0 <= i <= |messages| && LastProposal(t) == LastProposal(t[..i])
      {
        assert t[..i][..i - 1] == t[..i - 1] && t[..i][i - 1] == t[i - 1];
        i := i - 1;
      }
      if i == 0 {
        return None;
      }
      assert t[..i][i - 1] == t[i - 1];
      last := Some(i - 1);
    }

    /** `proposal or next(...)`: the given object, or the last proposal; None: the source raises. */
    method AppendDecision(sender: string, accept: bool, proposal: Message?<Entry>, ghost p: Option<nat>)
        returns (message: Option<Message<Entry>>)
      requires Valid()
      requires proposal == null <==> p.None?
      requires p.Some? ==> p.value < |messages| && messages[p.value] == proposal
      modifies this, messages
      ensures Grown()
      ensures message.Some? <==> Decision(env, old(View()), sender, accept, p).Some?
      ensures message.Some? ==> View() == Decision(env, old(View()), sender, accept, p).value
      ensures message.None? ==> messages == old(messages) && View() == old(View())
    {
      ghost var t := View();
      var source := proposal;
      ghost var q := p;
      if source == null {
        var last := FindLastProposal();
        if last.None? {
          return None;
        }
        source := messages[last.value];
        q := last;
      }
      assert t[q.value] == source.View();
      if !source.content.payload.payload.Propose? {
        return None;
      }
      var decision := DecisionMessage(|messages| + 1, sender, accept, source.View());
      var added := Append(decision);
      RehashKeepingSignatures();
      message := Some(added);
    }

    // ---- append_new_negotiation and the two signature-dropping steps

    method FindFirstProposal() returns (f: Option<nat>)
      ensures f == FirstProposal(View())
    {
      ghost var t := View();
      f := None;
      for i := 0 to |messages|
        invariant f == None && FirstProposal(t[..i]) == None
      {
        assert t[..i + 1][..i] == t[..i];
        if messages[i].content.payload.payload.Propose? && messages[i].content.payload.payload.revision == 1 {
          assert FirstProposal(t[..i + 1]) == Some(i);
          FirstProposalFound(t, i + 1);
          return Some(i);
        }
      }
      assert t[..|messages|] == t;
    }

    lemma {:induction false} FirstProposalFound(t: Transcript, k: nat)
      requires k <= |t| && FirstProposal(t[..k]).Some?
      ensures FirstProposal(t) == FirstProposal(t[..k])
    {
      if k == |t| {
        assert t[..k] == t;
      } else {
        assert t[..|t| - 1][..k] == t[..k];
        FirstProposalFound(t[..|t| - 1], k);
      }
    }

    method AppendNewNegotiation(suffix: string, supersedes: Option<string>, selected: Option<Selected>,
                                acceptors: seq<string>)
        returns (proposal: Option<Message<Entry>>)
      requires Valid()
      modifies this, messages
      ensures Grown()
      ensures proposal.Some? <==> FirstProposal(old(View())).Some?
      ensures proposal.Some?
              ==> NewNegotiation(env, old(View()), suffix, supersedes, selected, acceptors) == Some(View())
      ensures proposal.None? ==> messages == old(messages) && View() == old(View())
    {
      ghost var t := View();
      var f := FindFirstProposal();
      if f.None? {
        return None;
      }
      var result := NewResult(messages[f.value].content.payload.payload.result, suffix, supersedes, selected);
      var m := ProposalMessage(env, |messages| + 1, PARTY_B, result, None);
      var added := Append(m);
      RehashKeepingSignatures();
      RehashPayload(env, SignedIds(t + [m]), t + [m], |t|);
      AcceptInTurn(acceptors, added, |t|);
      proposal := Some(added);
    }

    /** `append_decision` by each of the listed senders on one proposal. */
    method AcceptInTurn(acceptors: seq<string>, proposal: Message<Entry>, ghost p: nat)
      requires Valid() && p < |messages| && messages[p] == proposal && PayloadOf(View()[p]).Propose?
      modifies this, messages
      ensures Grown() && Decisions(env, old(View()), acceptors, p) == Some(View())
    {
      ghost var goal := Decisions(env, View(), acceptors, p);
      for i := 0 to |acceptors|
        invariant Grown() && p < |messages| && messages[p] == proposal && PayloadOf(View()[p]).Propose?
        invariant goal == Decisions(env, View(), acceptors[i..], p)
      {
        assert acceptors[i..][0] == acceptors[i] && acceptors[i..][1..] == acceptors[i + 1..];
        ghost var before := View();
        var decided := AppendDecision(acceptors[i], true, proposal, Some(p));
        DecisionKeepsPayload(env, before, acceptors[i], true, p, p);
      }
    }

    lemma DecisionKeepsPayload(env: Env, t: Transcript, sender: string, accept: bool, p: nat, i: nat)
      requires p < |t| && PayloadOf(t[p]).Propose? && i < |t|
      ensures Decision(env, t, sender, accept, Some(p)).Some?
      ensures |Decision(env, t, sender, accept, Some(p)).value| == |t| + 1
      ensures PayloadOf(Decision(env, t, sender, accept, Some(p)).value[i]) == PayloadOf(t[i])
    {
      var u := t + [DecisionMessage(|t| + 1, sender, accept, t[p])];
      RehashPayload(env, SignedIds(u), u, i);
    }

    /** The messages of one `messages.append` after another, before the list is rehashed. */
    method AppendAll(ms: seq<Msg<Entry>>)
      requires Valid()
      modifies this
      ensures Grown() && |messages| == |old(messages)| + |ms|
      ensures View() == old(View()) + ms
    {
      for i := 0 to |ms|
        invariant Grown() && |messages| == |old(messages)| + i
        invariant View() == old(View()) + ms[..i]
      {
        var message := Append(ms[i]);
      }
    }

    method AppendRejectionAndRevision(acceptRevision: bool, revision: int, wrongSupersession: bool) returns (ok: bool)
      requires Valid()
      modifies this, messages
      ensures Grown()
      ensures ok <==> RejectionAndRevision(env, old(View()), acceptRevision, revision, wrongSupersession).Some?
      ensures ok ==> RejectionAndRevision(env, old(View()), acceptRevision, revision, wrongSupersession) == Some(View())
      ensures !ok ==> messages == old(messages) && View() == old(View())
    {
      ghost var t := View();
      var f := FindFirstProposal();
      if f.None? {
        return false;
      }
      RejectionParts(env, t, f.value, acceptRevision, revision, wrongSupersession);
      var first := messages[f.value];
      Reject(first, f.value);
      ghost var t1 := View();
      assert |t1| == |t| + 1 && first.View() == t1[f.value];
      Revise(first, revision, wrongSupersession, acceptRevision, f.value);
      ok := true;
    }

    lemma RejectionParts(env: Env, t: Transcript, f: nat, accept: bool, revision: int, wrong: bool)
      requires FirstProposal(t) == Some(f)
      ensures var t1 := Rehashed(env, {}, t + [RejectionMessage(|t| + 1, t[f])]);
        && PayloadOf(t1[f]).Propose?
        && (var t2 := Rehashed(env, {}, t1 + [RevisionMessage(env, |t1| + 1, t1[f], revision, wrong)]);
            RejectionAndRevision(env, t, accept, revision, wrong) == if accept then AcceptLast(env, t2) else Some(t2))
    {
      RehashPayload(env, {}, t + [RejectionMessage(|t| + 1, t[f])], f);
    }

    method Reject(first: Message<Entry>, ghost f: nat)
      requires Valid() && f < |messages| && messages[f] == first && PayloadOf(View()[f]).Propose?
      modifies this, messages
      ensures Grown() && |messages| == |old(messages)| + 1
      ensures View() == Rehashed(env, {}, old(View()) + [RejectionMessage(|old(messages)| + 1, old(View())[f])])
      ensures first.View() == View()[f]
    {
      assert View()[f] == first.View();
      var rejection := AppendUnsigned(RejectionMessage(|messages| + 1, first.View()));
      assert View()[f] == first.View();
    }

    /** Appends a revision of proposal `first`, whose hash is read now, and both acceptances if asked for. */
    method Revise(first: Message<Entry>, revision: int, wrong: bool, accept: bool, ghost f: nat)
      requires Valid() && f < |messages| && messages[f] == first && PayloadOf(first.View()).Propose?
      modifies this, messages
      ensures Grown()
      ensures var t2 := Rehashed(env, {},
              old(View()) + [RevisionMessage(env, |old(messages)| + 1, old(first.View()), revision, wrong)]);
        Some(View()) == if accept then AcceptLast(env, t2) else Some(t2)
    {
      var revised := AppendUnsigned(RevisionMessage(env, |messages| + 1, first.View(), revision, wrong));
      if accept {
        AcceptByBoth(revised);
      }
    }

    /** Appends one message and rehashes without signing anything. */
    method AppendUnsigned(m: Msg<Entry>) returns (message: Message<Entry>)
      requires Valid()
      modifies this, messages
      ensures Grown() && messages == old(messages) + [message]
      ensures View() == Rehashed(env, {}, old(View()) + [m]) && PayloadOf(message.View()) == PayloadOf(m)
    {
      ghost var t := View();
      message := Append(m);
      RehashAll({});
      RehashPayload(env, {}, t + [m], |t|);
      assert View()[|t|] == message.View();
    }

    method AppendSupersedingNegotiation() returns (ok: bool)
      requires Valid()
      modifies this, messages
      ensures Grown()
      ensures ok <==> SupersedingNegotiation(env, old(View())).Some?
      ensures ok ==> SupersedingNegotiation(env, old(View())) == Some(View())
      ensures !ok ==> messages == old(messages) && View() == old(View())
    {
      ghost var t := View();
      var f := FindFirstProposal();
      if f.None? {
        return false;
      }
      var first := messages[f.value].content.payload.payload.result;
      var result := first.(negotiationId := first.negotiationId + "-next", supersedes := Some(first.negotiationId),
                           revision := 1);
      var proposal := AppendUnsigned(ProposalMessage(env, |messages| + 1, PARTY_B, result, None));
      AcceptByBoth(proposal);
      ok := true;
    }

    /** Both parties accept the proposal just appended; one rehash at the end. */
    method AcceptByBoth(proposal: Message<Entry>)
      requires Valid() && messages != [] && messages[|messages| - 1] == proposal
      requires PayloadOf(proposal.View()).Propose?
      modifies this, messages
      ensures Grown()
      ensures AcceptLast(env, old(View())) == Some(View())
    {
      var view := proposal.View();
      assert View()[|messages| - 1] == view;
      AppendAll(Acceptances(|messages| + 1, [PARTY_A, PARTY_B], view));
      RehashAll({});
    }

    // ---- append_declaration_supersession and append_projection

    method AppendDeclarationSupersession(party: string) returns (message: Option<Message<Entry>>)
      requires Valid()
      modifies this, messages
      ensures Grown()
      ensures message.Some? <==> Supersession(env, old(View()), party).Some?
      ensures message.Some? ==> Supersession(env, old(View()), party) == Some(View())
      ensures message.None? ==> messages == old(messages) && View() == old(View())
    {
      ghost var t := View();
      var i := |messages|;
      while i > 0 && !Declares(messages[i - 1].View(), party)
        invariant 0 <= i <= |messages| && LastDeclaration(t, party) == LastDeclaration(t[..i], party)
      {
        assert t[..i][..i - 1] == t[..i - 1] && t[..i][i - 1] == t[i - 1];
        i := i - 1;
      }
      if i == 0 {
        return None;
      }
      assert t[..i][i - 1] == t[i - 1] == messages[i - 1].View();
      var declaration := messages[i - 1].View();
      var payload := PayloadOf(declaration);
      declaration := declaration.(content := declaration.content.(
        id := Some(MessageId(|messages| + 1)),
        payload := Entry(declaration.content.payload.contractId,
                         payload.(capabilitiesId := payload.capabilitiesId + "-next",
                                  supersedesId := Some(payload.capabilitiesId)))));
      var added := Append(declaration);
      RehashKeepingSignatures();
      message := Some(added);
    }

    method AppendProjection(asOf: Digest, head: Option<Digest>, slug: string, result: NegResult)
        returns (message: Option<Message<Entry>>)
      requires Valid()
      modifies this, messages
      ensures Grown()
      ensures message.Some? <==> Projection(env, old(View()), asOf, head, slug, result).Some?
      ensures message.Some? ==> Projection(env, old(View()), asOf, head, slug, result) == Some(View())
      ensures message.None? ==> messages == old(messages) && View() == old(View())
    {
      if messages == [] {
        return None;
      }
      assert View()[0] == messages[0].View();
      var branchHead := if head.Some? && head.value != "" then head else Some(asOf);
      var added := Append(ProjectionMessage(env, |messages| + 1, messages[0].content.session,
                                            messages[0].content.payload.contractId,
                                            slug, Some(asOf), branchHead, result));
      RehashKeepingSignatures();
      message := Some(added);
    }

    // ---- _refresh_proposal_after_declarations

    /** Whatever the messages have become, the class invariant holds again exactly when the contents allow it. */
    method RefreshProposal(p: nat)
      requires Valid() && p < |messages| && PayloadOf(View()[p]).Propose?
      modifies messages
      ensures View() == Refreshed(env, old(View()), p)
      ensures PayloadOf(View()[p]).Propose? && Current(env, View(), p)
      ensures Sound() <==> Restorable(env, old(View()), p) && GroundedBehind(env, View(), p)
                           && FirstProposal(old(View())).Some?
    {
      RefreshSound(env, View(), p);
      Rebind(p);
    }

    method Rebind(p: nat)
      requires Valid() && p < |messages| && PayloadOf(View()[p]).Propose?
      modifies messages
      ensures View() == Refreshed(env, old(View()), p)
    {
      ghost var t := View();
      RehashAll({});
      ghost var t1 := View();
      RehashPayload(env, {}, t, p);
      assert t1[p] == messages[p].View();
      var latest := LatestDeclarations(p);
      var bindings := BindingsTo(latest, messages[p].content.payload.payload.result.participants, p);
      messages[p].content := WithBindings(env, messages[p].View(), bindings).content;
      assert View() == Rebound(env, t1, p);
      RehashAll({});
    }

    /** The `latest` dictionary: the last declaration object of each party among the first `p` messages. */
    method LatestDeclarations(p: nat) returns (latest: map<string, Message<Entry>>)
      requires p <= |messages|
      ensures LatestUpTo(latest, p)
    {
      latest := map[];
      for i := 0 to p
        invariant LatestUpTo(latest, i)
      {
        ghost var t := View();
        assert t[..i + 1][..i] == t[..i] && t[..i + 1][i] == messages[i].View();
        if messages[i].content.payload.payload.Declare? {
          latest := latest[messages[i].content.payload.payload.partyId := messages[i]];
        }
      }
    }

    ghost predicate LatestUpTo(latest: map<string, Message<Entry>>, p: nat)
      requires p <= |messages|
      reads this, messages
    {
      forall party :: (party in latest <==> LastDeclaration(View()[..p], party).Some?)
                   && (party in latest ==> latest[party] == messages[LastDeclaration(View()[..p], party).value])
    }

    method BindingsTo(latest: map<string, Message<Entry>>, participants: seq<string>, p: nat)
        returns (bindings: seq<Binding>)
      requires p <= |messages| && LatestUpTo(latest, p)
      ensures bindings == CurrentBindings(View()[..p], participants)
    {
      bindings := [];
      ghost var before := View()[..p];
      for k := 0 to |participants|
        invariant bindings == CurrentBindings(before, participants[..k])
      {
        assert participants[..k + 1][..k] == participants[..k];
        if participants[k] in latest {
          var d := latest[participants[k]];
          assert before[LastDeclaration(before, participants[k]).value] == d.View();
          bindings := bindings
            + [Binding(participants[k], d.content.payload.payload.capabilitiesId, d.content.id, d.hash)];
        }
      }
      assert participants[..|participants|] == participants;
    }

    /** Fixtures P12, N12, N13, N18 and N76 to N78: new offers for the declarations in front of an open proposal and
        another selection for it, written into the messages, then the refresh. */
    method ReviseOffers(offers: seq<string>, selected: Selected)
      requires Sound() && |messages| == |offers| + 1 && PayloadOf(View()[|offers|]).Propose?
      requires forall i :: 0 <= i < |offers| ==> PayloadOf(View()[i]).Declare?
      modifies messages
      ensures View() == Refreshed(env, Reoffered(old(View()), offers, selected), |offers|)
      ensures Sound() && PayloadOf(View()[|offers|]).Propose? && Current(env, View(), |offers|)
      ensures forall i :: 0 <= i < |offers| ==> PayloadOf(View()[i]).Declare? && PayloadOf(View()[i]).offer == offers[i]
      ensures PayloadOf(View()[|offers|]).result.selected == selected
    {
      ReofferedRefresh(env, View(), offers, selected);
      ReofferedFields(env, View(), offers, selected);
      EditOffers(offers, selected);
      RefreshProposal(|offers|);
    }

    method EditOffers(offers: seq<string>, selected: Selected)
      requires Valid() && |messages| == |offers| + 1 && PayloadOf(View()[|offers|]).Propose?
      requires forall i :: 0 <= i < |offers| ==> PayloadOf(View()[i]).Declare?
      modifies messages
      ensures View() == Reoffered(old(View()), offers, selected)
    {
      ghost var t := View();
      var p := |offers|;
      assert forall k :: 0 <= k < |messages| ==> messages[k].View() == t[k];
      for i := 0 to p
        invariant forall k :: 0 <= k < i ==> messages[k].View() == WithOffer(t[k], offers[k])
        invariant forall k :: i <= k < |messages| ==> messages[k].View() == t[k]
      {
        messages[i].content := WithOffer(messages[i].View(), offers[i]).content;
      }
      messages[p].content := WithSelection(messages[p].View(), selected).content;
    }

    // ---- build_negotiation

    /** Starts from the empty list and leaves what `build_negotiation` returns. */
    constructor (env: Env, b: Build)
      ensures Sound() && fresh(messages) && View() == Built(env, b) && this.env == env
    {
      this.env := env;
      messages := [];
      new;
      BuildDeclarations(b);
      BuildRest(b);
      BuiltInv(env, b);
    }

    method BuildDeclarations(b: Build)
      requires messages == []
      modifies this
      ensures Grown() && View() == Declared(env, b)
    {
      ghost var declarations := [b.Declaration(1, PARTY_A, "s", b.offerA), b.Declaration(2, PARTY_B, "t", b.offerB)];
      AppendAll([b.Declaration(1, PARTY_A, "s", b.offerA), b.Declaration(2, PARTY_B, "t", b.offerB)]);
      assert View() == [] + declarations == declarations;
      RehashAll({});
    }

    method BuildRest(b: Build)
      requires Valid() && View() == Declared(env, b)
      modifies this, messages
      ensures Grown() && View() == Built(env, b)
    {
      var proposal := BuildProposal(b);
      if b.includeAcceptances {
        BuildAcceptances(b, proposal);
      }
      if b.includeContract {
        BuildContract(b);
      }
      if b.includeProjection {
        BuildProjection(b);
      }
    }

    method BuildProposal(b: Build) returns (proposal: Message<Entry>)
      requires Valid() && View() == Declared(env, b)
      modifies this, messages
      ensures Grown() && |messages| == 3 && proposal == messages[2]
      ensures View() == Proposed(env, b)
    {
      var bindings: seq<Binding> := [];
      ghost var t := View();
      for i := 0 to |messages|
        invariant bindings == BindingsOf(t[..i])
      {
        assert t[..i + 1][..i] == t[..i] && t[..i + 1][i] == messages[i].View();
        if messages[i].content.payload.payload.Declare? {
          bindings := bindings + [BindingTo(messages[i].View())];
        }
      }
      assert t[..|messages|] == t;
      var result := NegResult("neg-" + b.slug + "-1", 1, b.Session(), b.ContractId(), [PARTY_A, PARTY_B], bindings,
                              b.selected, None);
      proposal := AppendUnsigned(ProposalMessage(env, |messages| + 1, PARTY_A, result, None));
    }

    method BuildAcceptances(b: Build, proposal: Message<Entry>)
      requires Valid() && View() == Proposed(env, b) && proposal == messages[2] && b.includeAcceptances
      modifies this, messages
      ensures Grown() && View() == Accepted(env, b)
    {
      var senders := if b.duplicateAcceptance then [PARTY_A, PARTY_A, PARTY_B] else [PARTY_A, PARTY_B];
      ProposedProposes(env, b);
      assert View()[2] == proposal.View();
      AppendAll(Acceptances(|messages| + 1, senders, proposal.View()));
      SealAcceptances(b.signedAcceptances);
    }

    method BuildContract(b: Build)
      requires Valid() && View() == Accepted(env, b) && b.includeContract
      modifies this, messages
      ensures Grown() && View() == Contracted(env, b)
    {
      AppendAll([ContractMessage(env, b, |messages| + 1), ContractAcceptance(b, |messages| + 2)]);
      SealAcceptances(b.signedAcceptances);
    }

    method BuildProjection(b: Build)
      requires Valid() && View() == Contracted(env, b) && b.includeProjection
      modifies this, messages
      ensures Grown() && View() == Built(env, b)
    {
      var asOf := if messages == [] then None else messages[|messages| - 1].hash;
      assert messages != [] ==> View()[|messages| - 1] == messages[|messages| - 1].View();
      AppendAll([ProjectionMessage(env, |messages| + 1, b.Session(), b.ContractId(), b.slug, asOf, asOf,
                                   InitialResult(env, b))]);
      SealAcceptances(b.signedAcceptances);
    }

    /** Rehashes with the ids of the acceptances as the ones to sign, or none. */
    method SealAcceptances(signed: bool)
      requires Valid()
      modifies messages
      ensures View() == Rehashed(env, AcceptanceIds(signed, old(View())), old(View()))
    {
      var signedIds := set m | m in messages && signed && IsAcceptance(m.View()) :: m.content.id;
      assert signedIds == AcceptanceIds(signed, View()) by {
        forall id | id in signedIds ensures id in AcceptanceIds(signed, View()) {
          var m :| m in messages && signed && IsAcceptance(m.View()) && m.content.id == id;
          var i :| 0 <= i < |messages| && messages[i] == m;
          assert View()[i] == m.View();
        }
        forall id | id in AcceptanceIds(signed, View()) ensures id in signedIds {
          var m :| m in View() && signed && IsAcceptance(m) && m.content.id == id;
          var i :| 0 <= i < |messages| && View()[i] == m;
          assert messages[i].View() == m;
        }
      }
      RehashAll(signedIds);
    }

    // ---- runs

    /** Any step, from any state: what it does, and what it keeps. */
    method Perform(step: Step) returns (ok: bool)
      requires Sound()
      modifies this, messages
      ensures Grown() && Sound() && Extends(old(View()), View())
      ensures ok <==> !Refused(old(View()), step)
      ensures ok ==> Apply(env, old(View()), step) == Some(View())
      ensures !ok ==> messages == old(messages) && View() == old(View())
    {
      ghost var t := View();
      ok := Dispatch(step);
      StepKeepsInv(env, t, step);
      if ok {
        FirstProposalStays(t, View());
      } else {
        PrefixExtends(t, t);
      }
    }

    method Dispatch(step: Step) returns (ok: bool)
      requires Valid()
      modifies this, messages
      ensures Grown()
      ensures ok <==> Apply(env, old(View()), step).Some?
      ensures ok ==> Apply(env, old(View()), step) == Some(View())
      ensures !ok ==> messages == old(messages) && View() == old(View())
    {
      match step {
        case AppendDecision(sender, accept, proposal) =>
          if proposal.Some? && proposal.value >= |messages| {
            return false;
          }
          var source: Message?<Entry> := if proposal.Some? then messages[proposal.value] else null;
          var added := AppendDecision(sender, accept, source, proposal);
          ok := added.Some?;
        case AppendNewNegotiation(suffix, supersedes, selected, acceptors) =>
          var added := AppendNewNegotiation(suffix, supersedes, selected, acceptors);
          ok := added.Some?;
        case AppendDeclarationSupersession(party) =>
          var added := AppendDeclarationSupersession(party);
          ok := added.Some?;
        case AppendProjection(asOf, head, slug, result) =>
          var added := AppendProjection(asOf, head, slug, result);
          ok := added.Some?;
        case AppendRejectionAndRevision(accept, revision, wrong) =>
          ok := AppendRejectionAndRevision(accept, revision, wrong);
        case AppendSupersedingNegotiation =>
          ok := AppendSupersedingNegotiation();
      }
    }
  }
}
