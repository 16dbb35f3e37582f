/** What `build_negotiation` writes, message by message and field by field. */
module BuiltMessages {
  import opened Wrappers
  import opened Chains
  import opened Negotiation
  import opened NegotiationRuns
  import opened NegotiationTheorems

  /** A message of this session and contract. */
  function Written(b: Build, id: string, sender: string, payload: Payload): Content<Entry> {
    Content(Some("session-" + b.slug), Some(id), Some(sender), Entry("contract-" + b.slug, payload))
  }

  lemma FirstIds()
    ensures MessageId(1) == "m1" && MessageId(2) == "m2" && MessageId(3) == "m3"
  {
  }

  lemma CapabilityIds(slug: string)
    ensures "cap-" + slug + "-" + "s" + "-1" == "cap-" + slug + "-s-1"
    ensures "cap-" + slug + "-" + "t" + "-1" == "cap-" + slug + "-t-1"
  {
  }

  lemma Declarations(env: Env, b: Build)
    ensures var t := Built(env, b);
      && |t| > 2
      && t[0].content == Written(b, "m1", "agent:S", Declare("agent:S", "cap-" + b.slug + "-s-1", None, b.offerA))
      && t[1].content == Written(b, "m2", "agent:T", Declare("agent:T", "cap-" + b.slug + "-t-1", None, b.offerB))
  {
    FirstIds();
    CapabilityIds(b.slug);
    BuiltProposal(env, b);
    DeclaredInv(env, b);
    ProposedInv(env, b);
    BuiltInv(env, b);
    ExtendsTransitive(Declared(env, b), Proposed(env, b), Built(env, b));
    ExtendsAt(Declared(env, b), Built(env, b), 0);
    ExtendsAt(Declared(env, b), Built(env, b), 1);
  }

  /** What both parties are to agree on: bound to the declarations under their final hashes. */
  function FirstResult(b: Build, hashA: Option<Digest>, hashB: Option<Digest>): NegResult {
    NegResult("neg-" + b.slug + "-1", 1, Some("session-" + b.slug), "contract-" + b.slug, ["agent:S", "agent:T"],
              [Binding("agent:S", "cap-" + b.slug + "-s-1", Some("m1"), hashA),
               Binding("agent:T", "cap-" + b.slug + "-t-1", Some("m2"), hashB)], b.selected, None)
  }

  lemma Proposal(env: Env, b: Build)
    ensures var t := Built(env, b);
      && |t| > 2
      && var result := FirstResult(b, t[0].hash, t[1].hash);
         t[2].content == Written(b, "m3", "agent:S", Propose(1, result, env.objectHash(ResultObject(result)), None))
  {
    FirstIds();
    Declarations(env, b);
    BuiltProposal(env, b);
    BuiltInv(env, b);
    BuiltFields(env, b, Built(env, b));
  }

  /** How many acceptances there are. */
  function AcceptanceCount(b: Build): nat {
    if !b.includeAcceptances then 0 else if b.duplicateAcceptance then 3 else 2
  }

  lemma LengthOf(env: Env, b: Build)
    ensures |Accepted(env, b)| == 3 + AcceptanceCount(b)
    ensures |Contracted(env, b)| == 3 + AcceptanceCount(b) + if b.includeContract then 2 else 0
    ensures |Built(env, b)|
         == 3 + AcceptanceCount(b) + (if b.includeContract then 2 else 0) + if b.includeProjection then 1 else 0
  {
  }

  lemma Acceptance(env: Env, b: Build, k: nat)
    requires k < AcceptanceCount(b)
    ensures var t := Built(env, b);
      && 3 + k < |t| && PayloadOf(t[2]).Propose?
      && t[3 + k].content
         == Written(b, MessageId(4 + k),
                    if k == 0 || (b.duplicateAcceptance && k == 1) then "agent:S" else "agent:T",
                    Decide(true, "neg-" + b.slug + "-1", 1, Some("m3"), t[2].hash, PayloadOf(t[2]).resultHash))
  {
    var t := Built(env, b);
    Declarations(env, b);
    Proposal(env, b);
    BuiltInv(env, b);
    BuiltAcceptances(env, b, k);
    OneSessionAndContract(env, t, 3 + k);
    IdAt(t, 3 + k);
  }

  lemma IdAt(t: Transcript, i: nat)
    requires InOrder(t) && i < |t|
    ensures t[i].content.id == Some(MessageId(i + 1))
  {
  }

  lemma Contract(env: Env, b: Build)
    requires b.includeContract
    ensures var t, n := Built(env, b), 3 + AcceptanceCount(b);
      && n + 1 < |t| && PayloadOf(t[2]).Propose?
      && t[n].content
         == Written(b, MessageId(n + 1), "agent:S",
                    ContractPropose("neg-" + b.slug + "-1", PayloadOf(t[2]).resultHash, b.selected.profiles,
                                    b.selected.compositionHash))
      && t[n + 1].content == Written(b, MessageId(n + 2), "agent:T", ContractAccept)
  {
    var t, n := Accepted(env, b), 3 + AcceptanceCount(b);
    LengthOf(env, b);
    Proposal(env, b);
    BuiltInv(env, b);
    BuiltFields(env, b, Built(env, b));
    var u := t + [ContractMessage(env, b, |t| + 1), ContractAcceptance(b, |t| + 2)];
    ContractedAt(env, b, n);
    ContractedAt(env, b, n + 1);
    assert u[n].content == ContractMessage(env, b, n + 1).content;
    assert u[n + 1].content == ContractAcceptance(b, n + 2).content;
  }

  lemma ContractedAt(env: Env, b: Build, i: nat)
    requires b.includeContract && |Accepted(env, b)| <= i < |Contracted(env, b)|
    ensures var t := Accepted(env, b);
            var u := t + [ContractMessage(env, b, |t| + 1), ContractAcceptance(b, |t| + 2)];
      i < |u| && i < |Built(env, b)| && Built(env, b)[i].content == u[i].content
  {
    var t := Accepted(env, b);
    var u := t + [ContractMessage(env, b, |t| + 1), ContractAcceptance(b, |t| + 2)];
    RehashPayload(env, AcceptanceIds(b.signedAcceptances, u), u, i);
    BuiltExtends(env, b);
    ExtendsAt(Contracted(env, b), Built(env, b), i);
  }

  lemma Projected(env: Env, b: Build)
    requires b.includeProjection
    ensures var t := Built(env, b);
            var n := |t| - 1;
      && n > 2 && PayloadOf(t[2]).Propose?
      && var state := State(Some("session-" + b.slug), "contract-" + b.slug, t[n - 1].hash, b.selected.profiles,
                            b.selected.compositionHash, PayloadOf(t[2]).resultHash,
                            b.selected.extensions + {"EXT-OBJECT-RESYNC"}, ["agent:S", "agent:T"]);
         t[n].content == Written(b, MessageId(n + 1), "agent:T",
                                 Sync("sync-" + b.slug, state, env.objectHash(StateObject(state)), t[n - 1].hash))
  {
    LengthOf(env, b);
    Proposal(env, b);
    BuiltInv(env, b);
    BuiltExtends(env, b);
    BuiltFields(env, b, Built(env, b));
    var c := Contracted(env, b);
    ExtendsAt(c, Built(env, b), |c| - 1);
  }
}
