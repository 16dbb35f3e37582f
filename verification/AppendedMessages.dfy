/** What the append steps write, field by field. */
module AppendedMessages {
  import opened Wrappers
  import opened Chains
  import opened Negotiation
  import opened NegotiationRuns
  import opened NegotiationTheorems

  /** `append_decision`: about the given proposal, or the last one. */
  lemma Decided(env: Env, t: Transcript, sender: string, accept: bool, proposal: Option<nat>) returns (p: nat)
    requires Inv(env, t) && Decision(env, t, sender, accept, proposal).Some?
    ensures p < |t| && PayloadOf(t[p]).Propose? && (proposal.Some? ==> p == proposal.value)
    ensures proposal.None? ==> forall i :: p < i < |t| ==> !PayloadOf(t[i]).Propose?
    ensures var u := Decision(env, t, sender, accept, proposal).value;
      && |u| == |t| + 1
      && u[|t|].content
         == Content(t[p].content.session, Some(MessageId(|t| + 1)), Some(sender),
                    Entry(t[p].content.payload.contractId,
                          Decide(accept, PayloadOf(t[p]).result.negotiationId, PayloadOf(t[p]).revision,
                                 t[p].content.id, t[p].hash, PayloadOf(t[p]).resultHash)))
  {
    p := if proposal.Some? then proposal.value else LastProposal(t).value;
    var u := t + [DecisionMessage(|t| + 1, sender, accept, t[p])];
    RehashPayload(env, SignedIds(u), u, |t|);
  }

  /** The first proposal of revision 1: all other steps start from its result. */
  ghost predicate IsFirst(t: Transcript, f: nat) {
    && f < |t| && PayloadOf(t[f]).Propose? && PayloadOf(t[f]).revision == 1
    && forall i :: 0 <= i < f ==> !(PayloadOf(t[i]).Propose? && PayloadOf(t[i]).revision == 1)
  }

  /** A proposal in the session and contract its result names. */
  function Offer(env: Env, index: nat, sender: string, result: NegResult,
                 superseded: Option<(Option<string>, Option<Digest>)>): Content<Entry> {
    Content(result.session, Some(MessageId(index)), Some(sender),
            Entry(result.contractId,
                  Propose(result.revision, result, env.objectHash(ResultObject(result)), superseded)))
  }

  /** `append_new_negotiation`; the acceptances behind it are described by `NewNegotiationStep`. */
  lemma NewlyProposed(env: Env, t: Transcript, suffix: string, supersedes: Option<string>, selected: Option<Selected>,
                      acceptors: seq<string>) returns (f: nat)
    requires Inv(env, t) && FirstProposal(t).Some?
    ensures IsFirst(t, f) && NewNegotiation(env, t, suffix, supersedes, selected, acceptors).Some?
    ensures var u, r := NewNegotiation(env, t, suffix, supersedes, selected, acceptors).value, PayloadOf(t[f]).result;
      && |t| < |u|
      && u[|t|].content
         == Offer(env, |t| + 1, "agent:T",
                  NegResult(r.negotiationId + "-" + suffix, 1, r.session, r.contractId, r.participants, r.bindings,
                            if selected.Some? then selected.value else r.selected, supersedes), None)
  {
    f := FirstProposal(t).value;
    var result := NewResult(PayloadOf(t[f]).result, suffix, supersedes, selected);
    NewProposalStep(env, t, f, result);
    NewNegotiationStep(env, t, suffix, supersedes, selected, acceptors);
    ThenDecisions(env, t, RehashPreserving(env, t + [ProposalMessage(env, |t| + 1, PARTY_B, result, None)]), acceptors);
  }

  /** `append_declaration_supersession`: the last declaration of the party once more, under the next id. */
  lemma Superseded(env: Env, t: Transcript, party: string) returns (d: nat)
    requires Inv(env, t) && Supersession(env, t, party).Some?
    ensures d < |t| && Declares(t[d], party) && forall i :: d < i < |t| ==> !Declares(t[i], party)
    ensures var u, last := Supersession(env, t, party).value, PayloadOf(t[d]);
      && |u| == |t| + 1
      && u[|t|].content
         == Content(t[d].content.session, Some(MessageId(|t| + 1)), t[d].content.sender,
                    Entry(t[d].content.payload.contractId,
                          Declare(party, last.capabilitiesId + "-next", Some(last.capabilitiesId), last.offer)))
  {
    d := LastDeclaration(t, party).value;
    var latest := t[d];
    var payload := PayloadOf(latest);
    var copy := latest.(content := latest.content.(
      id := Some(MessageId(|t| + 1)),
      payload := Entry(latest.content.payload.contractId,
                       payload.(capabilitiesId := payload.capabilitiesId + "-next",
                                supersedesId := Some(payload.capabilitiesId)))));
    RehashPayload(env, SignedIds(t + [copy]), t + [copy], |t|);
  }

  /** `append_projection`: of the given result, in the session and contract of the first message. */
  lemma Projecting(env: Env, t: Transcript, asOf: Digest, head: Option<Digest>, slug: string, result: NegResult)
    requires t != []
    ensures Projection(env, t, asOf, head, slug, result).Some?
    ensures var u := Projection(env, t, asOf, head, slug, result).value;
            var state := State(t[0].content.session, t[0].content.payload.contractId, Some(asOf),
                               result.selected.profiles, result.selected.compositionHash,
                               env.objectHash(ResultObject(result)),
                               result.selected.extensions + {"EXT-OBJECT-RESYNC"}, result.participants);
      && |u| == |t| + 1
      && u[|t|].content
         == Content(t[0].content.session, Some(MessageId(|t| + 1)), Some("agent:T"),
                    Entry(t[0].content.payload.contractId,
                          Sync("sync-" + slug, state, env.objectHash(StateObject(state)),
                               if head.Some? && head.value != "" then head else Some(asOf))))
  {
    var branchHead := if head.Some? && head.value != "" then head else Some(asOf);
    var u := t + [ProjectionMessage(env, |t| + 1, t[0].content.session, t[0].content.payload.contractId, slug,
                                    Some(asOf), branchHead, result)];
    RehashPayload(env, SignedIds(u), u, |t|);
  }

  /** `append_rejection_and_revision`; the acceptances behind it are described by `RejectionStep`. */
  lemma RejectedThenRevised(env: Env, t: Transcript, accept: bool, revision: int, wrong: bool) returns (f: nat)
    requires Inv(env, t) && FirstProposal(t).Some?
    ensures IsFirst(t, f) && RejectionAndRevision(env, t, accept, revision, wrong).Some?
    ensures var u, r := RejectionAndRevision(env, t, accept, revision, wrong).value, PayloadOf(t[f]).result;
      && |t| + 1 < |u|
      && u[|t|].content
         == Content(r.session, Some(MessageId(|t| + 1)), Some("agent:T"),
                    Entry(r.contractId, Decide(false, r.negotiationId, 1, t[f].content.id, t[f].hash,
                                               PayloadOf(t[f]).resultHash)))
      && u[|t| + 1].content
         == Offer(env, |t| + 2, "agent:S", r.(revision := revision),
                  Some((t[f].content.id,
                        if wrong then Some("sha256:AAAAAAAAAAAAAAAAAAAAAAAAAAAAAAAAAAAAAAAAAAA") else t[f].hash)))
  {
    f := FirstProposal(t).value;
    RejectionStep(env, t, accept, revision, wrong);
    var u := RejectionAndRevision(env, t, accept, revision, wrong).value;
    RejectedFields(env, t, u, f);
    RevisedFields(env, t, u, f, revision, wrong);
  }

  lemma {:induction false} RejectedFields(env: Env, t: Transcript, u: Transcript, f: nat)
    requires Inv(env, t) && Inv(env, u) && Extends(t, u) && FirstProposal(t) == Some(f)
    requires |t| < |u| && DecidesOn(u, |t|, PARTY_B, false, f)
    ensures var r := PayloadOf(t[f]).result;
      u[|t|].content
      == Content(r.session, Some(MessageId(|t| + 1)), Some("agent:T"),
                 Entry(r.contractId, Decide(false, r.negotiationId, 1, t[f].content.id, t[f].hash,
                                            PayloadOf(t[f]).resultHash)))
  {
    ExtendsAt(t, u, f);
    ExtendsAt(t, u, 0);
    ResultFits(env, t, f);
    OneSessionAndContract(env, u, |t|);
  }

  lemma ResultFits(env: Env, t: Transcript, f: nat)
    requires Inv(env, t) && f < |t| && PayloadOf(t[f]).Propose?
    ensures PayloadOf(t[f]).result.session == t[0].content.session
    ensures PayloadOf(t[f]).result.contractId == t[0].content.payload.contractId
    ensures PayloadOf(t[f]).revision == PayloadOf(t[f]).result.revision
  {
    GroundedAt(env, t, f);
  }

  lemma {:induction false} RevisedFields(env: Env, t: Transcript, u: Transcript, f: nat, revision: int, wrong: bool)
    requires Inv(env, t) && Inv(env, u) && Extends(t, u) && FirstProposal(t) == Some(f)
    requires Revises(u, |t| + 1, f, revision, wrong)
    ensures u[|t| + 1].content
         == Offer(env, |t| + 2, "agent:S", PayloadOf(t[f]).result.(revision := revision),
                  Some((t[f].content.id,
                        if wrong then Some("sha256:AAAAAAAAAAAAAAAAAAAAAAAAAAAAAAAAAAAAAAAAAAA") else t[f].hash)))
  {
    ExtendsAt(t, u, f);
    RevisionFields(env, u, |t| + 1, revision);
  }

  lemma RevisionFields(env: Env, u: Transcript, i: nat, revision: int)
    requires Inv(env, u) && 0 < i < |u| && PayloadOf(u[i]).Propose? && PayloadOf(u[i]).result.revision == revision
    ensures PayloadOf(u[i]).revision == revision
    ensures PayloadOf(u[i]).resultHash == env.objectHash(ResultObject(PayloadOf(u[i]).result))
    ensures u[i].content.session == PayloadOf(u[i]).result.session
    ensures u[i].content.payload.contractId == PayloadOf(u[i]).result.contractId
  {
    GroundedAt(env, u, i);
  }

  /** `append_superseding_negotiation`; the acceptances behind it are described by `SupersedingStep`. */
  lemma SupersedingProposal(env: Env, t: Transcript) returns (f: nat)
    requires Inv(env, t) && FirstProposal(t).Some?
    ensures IsFirst(t, f) && SupersedingNegotiation(env, t).Some?
    ensures var u, r := SupersedingNegotiation(env, t).value, PayloadOf(t[f]).result;
      && |t| < |u|
      && u[|t|].content
         == Offer(env, |t| + 1, "agent:T",
                  NegResult(r.negotiationId + "-next", 1, r.session, r.contractId, r.participants, r.bindings,
                            r.selected, Some(r.negotiationId)), None)
  {
    f := FirstProposal(t).value;
    var t1 := SupersedingProposed(env, t, f);
    ThenAccepted(env, t, t1);
  }
}
