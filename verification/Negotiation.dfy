/** The capability negotiation builder on values: what `build_negotiation` and every append step make of a
    transcript, and what every run of them keeps. */
module Negotiation {
  import opened Wrappers
  import opened Chains
  import opened Numerals

  datatype Binding = Binding(partyId: string, capabilitiesId: string, messageId: Option<string>,
                             messageHash: Option<Digest>)

  datatype Selected = Selected(profiles: seq<(string, string)>, compositionHash: Digest, extensions: set<string>,
                               other: string)

  datatype NegResult = NegResult(
    negotiationId: string, revision: int, session: Option<string>, contractId: string,
    participants: seq<string>, bindings: seq<Binding>, selected: Selected, supersedes: Option<string>)

  datatype State = State(
    session: Option<string>, contractId: string, asOf: Option<Digest>, profiles: seq<(string, string)>,
    compositionHash: Digest, resultHash: Digest, extensions: set<string>, participants: seq<string>)

  datatype Payload =
    | Declare(partyId: string, capabilitiesId: string, supersedesId: Option<string>, offer: string)
    | Propose(revision: int, result: NegResult, resultHash: Digest,
              supersedesProposal: Option<(Option<string>, Option<Digest>)>)
    | Decide(accepted: bool, negotiationId: string, revision: int,
             proposalId: Option<string>, proposalHash: Option<Digest>, resultHash: Digest)
    | ContractPropose(negotiationId: string, resultHash: Digest, profiles: seq<(string, string)>,
                      compositionHash: Digest)
    | ContractAccept
    | Sync(requestId: string, state: State, stateHash: Digest, headHash: Option<Digest>)

  datatype Entry = Entry(contractId: string, payload: Payload)

  /** What `object_hash` is applied to, its domain being the constructor. */
  datatype Object = ResultObject(result: NegResult) | StateObject(state: State)

  datatype Env = Env(h: Body<Entry> -> Digest, objectHash: Object -> Digest,
                     sign: (Digest, Option<string>) -> Signature)

  type Transcript = seq<Msg<Entry>>

  const PARTY_A := "agent:S"
  const PARTY_B := "agent:T"
  const WRONG_HASH := "sha256:AAAAAAAAAAAAAAAAAAAAAAAAAAAAAAAAAAAAAAAAAAA"

  function MessageId(n: nat): string { "m" + Decimal(n) }

  /** The text of an id is 'm' and the numeral that reads as `n`. */
  ghost predicate Numbered(id: Option<string>, n: nat) {
    id.Some? && |id.value| > 1 && id.value[0] == 'm' && IsNumeral(id.value[1..]) && Value(id.value[1..]) == n
  }

  lemma MessageIdExact(id: Option<string>, n: nat)
    ensures id == Some(MessageId(n)) <==> Numbered(id, n)
  {
    DecimalExact(n, Decimal(n));
    assert MessageId(n)[1..] == Decimal(n);
    if Numbered(id, n) {
      DecimalExact(n, id.value[1..]);
      assert id.value == [id.value[0]] + id.value[1..];
    }
  }

  lemma MessageIdInjective(m: nat, n: nat)
    ensures MessageId(m) == MessageId(n) <==> m == n
  {
    DecimalInjective(m, n);
    assert MessageId(m)[1..] == Decimal(m) && MessageId(n)[1..] == Decimal(n);
  }

  function PayloadOf(m: Msg<Entry>): Payload { m.content.payload.payload }

  // ---- rehashing

  function Rehashed(env: Env, ids: set<Option<string>>, t: Transcript): (r: Transcript)
    ensures |r| == |t|
  {
    Sealed(env.h, env.sign, ids, Contents(t))
  }

  predicate HasSignature(m: Msg<Entry>) {
    m.signatures.Some? && m.signatures.value != []
  }

  function SignedIds(t: Transcript): set<Option<string>> {
    set m | m in t && HasSignature(m) :: m.content.id
  }

  /** `_rehash_preserving_signatures`. */
  function RehashPreserving(env: Env, t: Transcript): (r: Transcript)
    ensures |r| == |t|
  {
    Rehashed(env, SignedIds(t), t)
  }

  // ---- looking things up

  /** Index of the first proposal of revision 1; None where the source's `next` raises. */
  function FirstProposal(t: Transcript): (p: Option<nat>)
    ensures p.Some? ==> p.value < |t| && PayloadOf(t[p.value]).Propose? && PayloadOf(t[p.value]).revision == 1
    ensures p.Some? ==> forall i :: 0 <= i < p.value ==> !(PayloadOf(t[i]).Propose? && PayloadOf(t[i]).revision == 1)
    ensures p.None? ==> forall i :: 0 <= i < |t| ==> !(PayloadOf(t[i]).Propose? && PayloadOf(t[i]).revision == 1)
  {
    if t == [] then None
    else if FirstProposal(t[..|t| - 1]).Some? then FirstProposal(t[..|t| - 1])
    else if PayloadOf(t[|t| - 1]).Propose? && PayloadOf(t[|t| - 1]).revision == 1 then Some(|t| - 1)
    else None
  }

  /** Index of the last proposal. */
  function LastProposal(t: Transcript): (p: Option<nat>)
    ensures p.Some? ==> p.value < |t| && PayloadOf(t[p.value]).Propose?
    ensures p.Some? ==> forall i :: p.value < i < |t| ==> !PayloadOf(t[i]).Propose?
    ensures p.None? ==> forall i :: 0 <= i < |t| ==> !PayloadOf(t[i]).Propose?
  {
    if t == [] then None
    else if PayloadOf(t[|t| - 1]).Propose? then Some(|t| - 1)
    else LastProposal(t[..|t| - 1])
  }

  predicate Declares(m: Msg<Entry>, party: string) {
    PayloadOf(m).Declare? && PayloadOf(m).partyId == party
  }

  /** Index of the last declaration of `party`. */
  function LastDeclaration(t: Transcript, party: string): (d: Option<nat>)
    ensures d.Some? ==> d.value < |t| && Declares(t[d.value], party)
    ensures d.Some? ==> forall i :: d.value < i < |t| ==> !Declares(t[i], party)
    ensures d.None? ==> forall i :: 0 <= i < |t| ==> !Declares(t[i], party)
  {
    if t == [] then None
    else if Declares(t[|t| - 1], party) then Some(|t| - 1)
    else LastDeclaration(t[..|t| - 1], party)
  }

  // ---- new messages

  function NewMessage(index: nat, session: Option<string>, contractId: string, sender: string,
                      payload: Payload): Msg<Entry> {
    Msg(Content(session, Some(MessageId(index)), Some(sender), Entry(contractId, payload)), None, None, None)
  }

  function DecisionMessage(index: nat, sender: string, accept: bool, proposal: Msg<Entry>): Msg<Entry>
    requires PayloadOf(proposal).Propose?
  {
    NewMessage(index, proposal.content.session, proposal.content.payload.contractId, sender,
      Decide(accept, PayloadOf(proposal).result.negotiationId, PayloadOf(proposal).revision,
             proposal.content.id, proposal.hash, PayloadOf(proposal).resultHash))
  }

  function ProposalMessage(env: Env, index: nat, sender: string, result: NegResult,
                           supersedesProposal: Option<(Option<string>, Option<Digest>)>): Msg<Entry> {
    NewMessage(index, result.session, result.contractId, sender,
      Propose(result.revision, result, env.objectHash(ResultObject(result)), supersedesProposal))
  }

  function BindingTo(m: Msg<Entry>): Binding
    requires PayloadOf(m).Declare?
  {
    Binding(PayloadOf(m).partyId, PayloadOf(m).capabilitiesId, m.content.id, m.hash)
  }

  // ---- build_negotiation

  datatype Build = Build(
    slug: string, selected: Selected, offerA: string, offerB: string,
    includeAcceptances: bool, signedAcceptances: bool, duplicateAcceptance: bool,
    includeContract: bool, includeProjection: bool)
  {
    function Session(): Option<string> { Some("session-" + slug) }
    function ContractId(): string { "contract-" + slug }

    function Declaration(index: nat, party: string, letter: string, offer: string): Msg<Entry> {
      NewMessage(index, Session(), ContractId(), party,
                 Declare(party, "cap-" + slug + "-" + letter + "-1", None, offer))
    }
  }

  function Declared(env: Env, b: Build): (t: Transcript)
    ensures |t| == 2
  {
    Rehashed(env, {}, [b.Declaration(1, PARTY_A, "s", b.offerA), b.Declaration(2, PARTY_B, "t", b.offerB)])
  }

  lemma RehashContents(env: Env, ids: set<Option<string>>, t: Transcript)
    ensures Contents(Rehashed(env, ids, t)) == Contents(t)
  {
    ChainIdempotent(env.h, Contents(t));
    forall i | 0 <= i < |t| ensures Contents(Rehashed(env, ids, t))[i] == Contents(t)[i] {
      assert Contents(Chain(env.h, Contents(t)))[i] == Contents(t)[i];
    }
  }

  function BindingsOf(t: Transcript): seq<Binding> {
    if t == [] then []
    else BindingsOf(t[..|t| - 1]) + (if PayloadOf(t[|t| - 1]).Declare? then [BindingTo(t[|t| - 1])] else [])
  }

  function InitialResult(env: Env, b: Build): NegResult {
    NegResult("neg-" + b.slug + "-1", 1, b.Session(), b.ContractId(), [PARTY_A, PARTY_B],
              BindingsOf(Declared(env, b)), b.selected, None)
  }

  function Proposed(env: Env, b: Build): (t: Transcript)
    ensures |t| == 3
  {
    Rehashed(env, {}, Declared(env, b) + [ProposalMessage(env, 3, PARTY_A, InitialResult(env, b), None)])
  }

  /** One acceptance per sender, all of the same proposal, numbered on from `from`. */
  function Acceptances(from: nat, senders: seq<string>, proposal: Msg<Entry>): (ms: seq<Msg<Entry>>)
    requires PayloadOf(proposal).Propose?
    ensures |ms| == |senders|
  {
    seq(|senders|, i requires 0 <= i < |senders| => DecisionMessage(from + i, senders[i], true, proposal))
  }

  predicate IsAcceptance(m: Msg<Entry>) { PayloadOf(m).Decide? && PayloadOf(m).accepted }

  function AcceptanceIds(signed: bool, t: Transcript): set<Option<string>> {
    set m | m in t && signed && IsAcceptance(m) :: m.content.id
  }

  lemma ProposedProposes(env: Env, b: Build)
    ensures PayloadOf(Proposed(env, b)[2]) == PayloadOf(ProposalMessage(env, 3, PARTY_A, InitialResult(env, b), None))
  {
    var t := Declared(env, b) + [ProposalMessage(env, 3, PARTY_A, InitialResult(env, b), None)];
    RehashContents(env, {}, t);
    assert Contents(Rehashed(env, {}, t))[2] == Contents(t)[2];
  }

  function Accepted(env: Env, b: Build): Transcript {
    var t := Proposed(env, b);
    ProposedProposes(env, b);
    if !b.includeAcceptances then t
    else
      var senders := if b.duplicateAcceptance then [PARTY_A, PARTY_A, PARTY_B] else [PARTY_A, PARTY_B];
      var u := t + Acceptances(|t| + 1, senders, t[2]);
      Rehashed(env, AcceptanceIds(b.signedAcceptances, u), u)
  }

  function Contracted(env: Env, b: Build): Transcript {
    var t := Accepted(env, b);
    if !b.includeContract then t
    else
      var u := t + [ContractMessage(env, b, |t| + 1), ContractAcceptance(b, |t| + 2)];
      Rehashed(env, AcceptanceIds(b.signedAcceptances, u), u)
  }

  function ContractMessage(env: Env, b: Build, index: nat): Msg<Entry> {
    var result := InitialResult(env, b);
    NewMessage(index, b.Session(), b.ContractId(), PARTY_A,
      ContractPropose(result.negotiationId, env.objectHash(ResultObject(result)), b.selected.profiles,
                      b.selected.compositionHash))
  }

  function ContractAcceptance(b: Build, index: nat): Msg<Entry> {
    NewMessage(index, b.Session(), b.ContractId(), PARTY_B, ContractAccept)
  }

  function ProjectionMessage(env: Env, index: nat, session: Option<string>, contractId: string, slug: string,
                             asOf: Option<Digest>, head: Option<Digest>, result: NegResult): Msg<Entry> {
    var state := State(session, contractId, asOf, result.selected.profiles, result.selected.compositionHash,
                       env.objectHash(ResultObject(result)), result.selected.extensions + {"EXT-OBJECT-RESYNC"},
                       result.participants);
    NewMessage(index, session, contractId, PARTY_B,
               Sync("sync-" + slug, state, env.objectHash(StateObject(state)), head))
  }

  /** The transcript `build_negotiation` returns. */
  function Built(env: Env, b: Build): Transcript {
    var t := Contracted(env, b);
    if !b.includeProjection then t
    else
      var u := t + [ProjectionMessage(env, |t| + 1, b.Session(), b.ContractId(), b.slug, Head(t), Head(t),
                                      InitialResult(env, b))];
      Rehashed(env, AcceptanceIds(b.signedAcceptances, u), u)
  }

  // ---- the append steps

  datatype Step =
    | AppendDecision(sender: string, accept: bool, proposal: Option<nat>)
    | AppendNewNegotiation(suffix: string, supersedes: Option<string>, selected: Option<Selected>,
                           acceptors: seq<string>)
    | AppendDeclarationSupersession(party: string)
    | AppendProjection(asOf: Digest, head: Option<Digest>, slug: string, result: NegResult)
    | AppendRejectionAndRevision(acceptRevision: bool, revision: int, wrongSupersession: bool)
    | AppendSupersedingNegotiation

  /** None: the source raises (nothing found, or not a proposal). */
  function Decision(env: Env, t: Transcript, sender: string, accept: bool, proposal: Option<nat>): Option<Transcript> {
    var p := if proposal.Some? then proposal else LastProposal(t);
    if p.None? || p.value >= |t| || !PayloadOf(t[p.value]).Propose? then None
    else Some(RehashPreserving(env, t + [DecisionMessage(|t| + 1, sender, accept, t[p.value])]))
  }

  /** `append_decision` for each sender in turn, always on proposal `p`. */
  function Decisions(env: Env, t: Transcript, senders: seq<string>, p: nat): Option<Transcript>
    decreases |senders|
  {
    if senders == [] then Some(t)
    else
      var next := Decision(env, t, senders[0], true, Some(p));
      if next.None? then None else Decisions(env, next.value, senders[1..], p)
  }

  /** The proposal of a new negotiation: the first one's result under a new id, as revision 1. */
  function NewResult(first: NegResult, suffix: string, supersedes: Option<string>,
                     selected: Option<Selected>): NegResult {
    first.(negotiationId := first.negotiationId + "-" + suffix, revision := 1, supersedes := supersedes,
           selected := if selected.Some? then selected.value else first.selected)
  }

  function NewNegotiation(env: Env, t: Transcript, suffix: string, supersedes: Option<string>,
                          selected: Option<Selected>, acceptors: seq<string>): Option<Transcript> {
    var f := FirstProposal(t);
    if f.None? then None
    else
      var result := NewResult(PayloadOf(t[f.value]).result, suffix, supersedes, selected);
      Decisions(env, RehashPreserving(env, t + [ProposalMessage(env, |t| + 1, PARTY_B, result, None)]), acceptors, |t|)
  }

  function Supersession(env: Env, t: Transcript, party: string): Option<Transcript> {
    var d := LastDeclaration(t, party);
    if d.None? then None
    else
      var latest := t[d.value];
      var payload := PayloadOf(latest);
      // a deep copy: the chain fields of the declaration it copies come along
      var copy := latest.(content := latest.content.(
        id := Some(MessageId(|t| + 1)),
        payload := Entry(latest.content.payload.contractId,
                         payload.(capabilitiesId := payload.capabilitiesId + "-next",
                                  supersedesId := Some(payload.capabilitiesId)))));
      Some(RehashPreserving(env, t + [copy]))
  }

  function Projection(env: Env, t: Transcript, asOf: Digest, head: Option<Digest>, slug: string,
                      result: NegResult): Option<Transcript> {
    if t == [] then None
    else
      var branchHead := if head.Some? && head.value != "" then head else Some(asOf);
      Some(RehashPreserving(env, t + [
        ProjectionMessage(env, |t| + 1, t[0].content.session, t[0].content.payload.contractId, slug, Some(asOf),
                          branchHead, result)]))
  }

  /** These two steps rehash without saying whom to sign, so they drop every signature. */
  function RejectionAndRevision(env: Env, t: Transcript, acceptRevision: bool, revision: int,
                                wrong: bool): Option<Transcript> {
    var f := FirstProposal(t);
    if f.None? then None
    else
      var t1 := Rehashed(env, {}, t + [RejectionMessage(|t| + 1, t[f.value])]);
      RehashPayload(env, {}, t + [RejectionMessage(|t| + 1, t[f.value])], f.value);
      var t2 := Rehashed(env, {}, t1 + [RevisionMessage(env, |t1| + 1, t1[f.value], revision, wrong)]);
      if !acceptRevision then Some(t2) else AcceptLast(env, t2)
  }

  function RejectionMessage(index: nat, first: Msg<Entry>): Msg<Entry>
    requires PayloadOf(first).Propose?
  {
    var result := PayloadOf(first).result;
    NewMessage(index, result.session, result.contractId, PARTY_B,
      Decide(false, result.negotiationId, 1, first.content.id, first.hash, PayloadOf(first).resultHash))
  }

  function RevisionMessage(env: Env, index: nat, first: Msg<Entry>, revision: int, wrong: bool): Msg<Entry>
    requires PayloadOf(first).Propose?
  {
    ProposalMessage(env, index, PARTY_A, PayloadOf(first).result.(revision := revision),
      Some((first.content.id, if wrong then Some(WRONG_HASH) else first.hash)))
  }

  function SupersedingNegotiation(env: Env, t: Transcript): Option<Transcript> {
    var f := FirstProposal(t);
    if f.None? then None
    else
      var first := PayloadOf(t[f.value]).result;
      var result := first.(negotiationId := first.negotiationId + "-next", supersedes := Some(first.negotiationId),
                           revision := 1);
      AcceptLast(env, Rehashed(env, {}, t + [ProposalMessage(env, |t| + 1, PARTY_B, result, None)]))
  }

  /** Both parties accept the proposal just appended. */
  function AcceptLast(env: Env, t: Transcript): Option<Transcript> {
    if t == [] || !PayloadOf(t[|t| - 1]).Propose? then None
    else Some(Rehashed(env, {}, t + Acceptances(|t| + 1, [PARTY_A, PARTY_B], t[|t| - 1])))
  }

  function Apply(env: Env, t: Transcript, step: Step): Option<Transcript> {
    match step
    case AppendDecision(sender, accept, proposal) => Decision(env, t, sender, accept, proposal)
    case AppendNewNegotiation(suffix, supersedes, selected, acceptors) =>
      NewNegotiation(env, t, suffix, supersedes, selected, acceptors)
    case AppendDeclarationSupersession(party) => Supersession(env, t, party)
    case AppendProjection(asOf, head, slug, result) => Projection(env, t, asOf, head, slug, result)
    case AppendRejectionAndRevision(accept, revision, wrong) => RejectionAndRevision(env, t, accept, revision, wrong)
    case AppendSupersedingNegotiation => SupersedingNegotiation(env, t)
  }

  function Run(env: Env, t: Transcript, steps: seq<Step>): Option<Transcript>
    decreases |steps|
  {
    if steps == [] then Some(t)
    else
      var next := Apply(env, t, steps[0]);
      if next.None? then None else Run(env, next.value, steps[1..])
  }

  // ---- _refresh_proposal_after_declarations

  /** A binding to the last declaration in `before` of each participant that has one, in participant order. */
  function CurrentBindings(before: Transcript, participants: seq<string>): seq<Binding> {
    if participants == [] then []
    else
      var n := |participants| - 1;
      var d := LastDeclaration(before, participants[n]);
      CurrentBindings(before, participants[..n]) + (if d.Some? then [BindingTo(before[d.value])] else [])
  }

  function WithBindings(env: Env, m: Msg<Entry>, bindings: seq<Binding>): Msg<Entry>
    requires PayloadOf(m).Propose?
  {
    var result := PayloadOf(m).result.(bindings := bindings);
    m.(content := m.content.(payload := Entry(m.content.payload.contractId,
      PayloadOf(m).(result := result, resultHash := env.objectHash(ResultObject(result))))))
  }

  /** Proposal `p` bound to the current declarations before it. */
  function Rebound(env: Env, t: Transcript, p: nat): (u: Transcript)
    requires p < |t| && PayloadOf(t[p]).Propose?
    ensures |u| == |t|
  {
    t[p := WithBindings(env, t[p], CurrentBindings(t[..p], PayloadOf(t[p]).result.participants))]
  }

  /** Rehash, bind proposal `p` to the current declarations before it, rehash again; no message is signed any more. */
  function Refreshed(env: Env, t: Transcript, p: nat): (u: Transcript)
    requires p < |t| && PayloadOf(t[p]).Propose?
    ensures |u| == |t|
  {
    RehashPayload(env, {}, t, p);
    Rehashed(env, {}, Rebound(env, Rehashed(env, {}, t), p))
  }

  lemma RehashPayload(env: Env, ids: set<Option<string>>, t: Transcript, i: nat)
    requires i < |t|
    ensures Rehashed(env, ids, t)[i].content == t[i].content
  {
    RehashContents(env, ids, t);
    assert Contents(Rehashed(env, ids, t))[i] == Contents(t)[i];
  }
}
