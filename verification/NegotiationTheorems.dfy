/** The main results about the negotiation builder: invariants of every run, and what they mean. */
module NegotiationTheorems {
  import opened Wrappers
  import opened Chains
  import opened Negotiation
  import opened NegotiationRuns

  // ---- the two steps that drop signatures

  lemma UnsignedByRehash(env: Env, t: Transcript)
    ensures Unsigned(Rehashed(env, {}, t))
  {
    forall i | 0 <= i < |t| ensures !HasSignature(Rehashed(env, {}, t)[i]) {
      RehashAt(env, {}, t, i);
    }
  }

  lemma AcceptLastStep(env: Env, t: Transcript)
    requires Inv(env, t) && t != [] && PayloadOf(t[|t| - 1]).Propose?
    ensures AcceptLast(env, t).Some?
    ensures var u := AcceptLast(env, t).value;
      && Inv(env, u) && Extends(t, u) && |u| == |t| + 2 && Unsigned(u)
      && DecidesOn(u, |t|, PARTY_A, true, |t| - 1) && DecidesOn(u, |t| + 1, PARTY_B, true, |t| - 1)
  {
    var senders := [PARTY_A, PARTY_B];
    AcceptancesKeepInv(env, {}, t, senders, |t| - 1);
    AcceptancesBind(env, {}, t, senders, |t| - 1, 0);
    AcceptancesBind(env, {}, t, senders, |t| - 1, 1);
    UnsignedByRehash(env, t + Acceptances(|t| + 1, senders, t[|t| - 1]));
  }

  ghost predicate Unsigned(t: Transcript) {
    forall i :: 0 <= i < |t| ==> !HasSignature(t[i])
  }

  /** Message `|t|` proposes to supersede the first negotiation, and both parties accept that proposal. */
  lemma {:induction false} SupersedingStep(env: Env, t: Transcript)
    requires Inv(env, t) && FirstProposal(t).Some?
    ensures SupersedingNegotiation(env, t).Some?
    ensures var u := SupersedingNegotiation(env, t).value;
      && Inv(env, u) && Extends(t, u) && |u| == |t| + 3 && Unsigned(u)
      && PayloadOf(u[|t|]).Propose? && u[|t|].content.sender == Some(PARTY_B)
      && (var first, next := PayloadOf(t[FirstProposal(t).value]).result, PayloadOf(u[|t|]).result;
          && next.negotiationId == first.negotiationId + "-next" && next.supersedes == Some(first.negotiationId)
          && next.revision == 1 && next.bindings == first.bindings && next.selected == first.selected)
      && DecidesOn(u, |t| + 1, PARTY_A, true, |t|) && DecidesOn(u, |t| + 2, PARTY_B, true, |t|)
  {
    var t1 := SupersedingProposed(env, t, FirstProposal(t).value);
    ThenAccepted(env, t, t1);
  }

  lemma ThenAccepted(env: Env, t: Transcript, t1: Transcript)
    requires Inv(env, t1) && Extends(t, t1) && |t1| == |t| + 1 && PayloadOf(t1[|t|]).Propose?
    ensures AcceptLast(env, t1).Some?
    ensures var u := AcceptLast(env, t1).value;
      && Inv(env, u) && Extends(t, u) && |u| == |t| + 3 && Unsigned(u) && u[|t|].content == t1[|t|].content
      && DecidesOn(u, |t| + 1, PARTY_A, true, |t|) && DecidesOn(u, |t| + 2, PARTY_B, true, |t|)
  {
    AcceptLastStep(env, t1);
    ExtendsTransitive(t, t1, AcceptLast(env, t1).value);
    ExtendsAt(t1, AcceptLast(env, t1).value, |t|);
  }

  lemma SupersedingProposed(env: Env, t: Transcript, f: nat) returns (t1: Transcript)
    requires Inv(env, t) && FirstProposal(t) == Some(f)
    ensures SupersedingNegotiation(env, t) == AcceptLast(env, t1)
    ensures Inv(env, t1) && Extends(t, t1) && |t1| == |t| + 1 && t1[|t|].content.sender == Some(PARTY_B)
    ensures PayloadOf(t1[|t|]).Propose?
    ensures var first := PayloadOf(t[f]).result;
      PayloadOf(t1[|t|]).result
      == first.(negotiationId := first.negotiationId + "-next", supersedes := Some(first.negotiationId), revision := 1)
    ensures t1[|t|].content == ProposalMessage(env, |t| + 1, PARTY_B, PayloadOf(t1[|t|]).result, None).content
  {
    var first := PayloadOf(t[f]).result;
    var result := first.(negotiationId := first.negotiationId + "-next", supersedes := Some(first.negotiationId),
                         revision := 1);
    t1 := Proposing(env, t, f, PARTY_B, result, None);
  }

  lemma Proposing(env: Env, t: Transcript, f: nat, sender: string, result: NegResult,
                  supersedes: Option<(Option<string>, Option<Digest>)>)
      returns (t1: Transcript)
    requires Inv(env, t) && f < |t| && PayloadOf(t[f]).Propose?
    requires var first := PayloadOf(t[f]).result;
      result.session == first.session && result.contractId == first.contractId && result.bindings == first.bindings
    ensures t1 == Rehashed(env, {}, t + [ProposalMessage(env, |t| + 1, sender, result, supersedes)])
    ensures Inv(env, t1) && Extends(t, t1) && |t1| == |t| + 1 && Unsigned(t1)
    ensures t1[|t|].content == ProposalMessage(env, |t| + 1, sender, result, supersedes).content
  {
    var m := ProposalMessage(env, |t| + 1, sender, result, supersedes);
    t1 := Rehashed(env, {}, t + [m]);
    ProposalGrounded(env, t, f, m);
    AppendKeepsInv(env, {}, t, m);
    UnsignedByRehash(env, t + [m]);
  }

  /** Message `|t|` rejects the first proposal, message `|t| + 1` revises it and names it as superseded (by a wrong hash
      if so asked); the revision is accepted by both or by nobody. */
  lemma {:induction false} RejectionStep(env: Env, t: Transcript, accept: bool, revision: int, wrong: bool)
    requires Inv(env, t) && FirstProposal(t).Some?
    ensures RejectionAndRevision(env, t, accept, revision, wrong).Some?
    ensures var u, f := RejectionAndRevision(env, t, accept, revision, wrong).value, FirstProposal(t).value;
      && Inv(env, u) && Extends(t, u) && |u| == |t| + (if accept then 4 else 2) && Unsigned(u)
      && DecidesOn(u, |t|, PARTY_B, false, f) && Revises(u, |t| + 1, f, revision, wrong)
      && (accept ==> DecidesOn(u, |t| + 2, PARTY_A, true, |t| + 1) && DecidesOn(u, |t| + 3, PARTY_B, true, |t| + 1))
  {
    var t2 := RejectedAndRevised(env, t, FirstProposal(t).value, accept, revision, wrong);
    if accept {
      AcceptedRevision(env, t, t2, FirstProposal(t).value, revision, wrong);
    }
  }

  lemma RejectedAndRevised(env: Env, t: Transcript, f: nat, accept: bool, revision: int, wrong: bool)
      returns (t2: Transcript)
    requires Inv(env, t) && FirstProposal(t) == Some(f)
    ensures RejectionAndRevision(env, t, accept, revision, wrong) == if accept then AcceptLast(env, t2) else Some(t2)
    ensures Inv(env, t2) && Extends(t, t2) && |t2| == |t| + 2 && Unsigned(t2)
    ensures DecidesOn(t2, |t|, PARTY_B, false, f) && Revises(t2, |t| + 1, f, revision, wrong)
  {
    var t1 := Rejected(env, t, f);
    t2 := Revised(env, t1, f, revision, wrong);
    ExtendsTransitive(t, t1, t2);
    DecidesOnStays(t1, t2, |t|, PARTY_B, false, f);
  }

  lemma AcceptedRevision(env: Env, t: Transcript, t2: Transcript, f: nat, revision: int, wrong: bool)
    requires Inv(env, t2) && Extends(t, t2) && |t2| == |t| + 2
    requires DecidesOn(t2, |t|, PARTY_B, false, f) && Revises(t2, |t| + 1, f, revision, wrong)
    ensures AcceptLast(env, t2).Some?
    ensures var u := AcceptLast(env, t2).value;
      && Inv(env, u) && Extends(t, u) && |u| == |t| + 4 && Unsigned(u)
      && DecidesOn(u, |t|, PARTY_B, false, f) && Revises(u, |t| + 1, f, revision, wrong)
      && DecidesOn(u, |t| + 2, PARTY_A, true, |t| + 1) && DecidesOn(u, |t| + 3, PARTY_B, true, |t| + 1)
  {
    AcceptLastStep(env, t2);
    var u := AcceptLast(env, t2).value;
    ExtendsTransitive(t, t2, u);
    DecidesOnStays(t2, u, |t|, PARTY_B, false, f);
    RevisesStays(t2, u, |t| + 1, f, revision, wrong);
  }

  /** Message `r` proposes again what proposal `f` proposed, under another revision number. */
  ghost predicate Revises(t: Transcript, r: nat, f: nat, revision: int, wrong: bool) {
    && f < r < |t| && PayloadOf(t[f]).Propose? && PayloadOf(t[r]).Propose? && t[r].content.sender == Some(PARTY_A)
    && PayloadOf(t[r]).result == PayloadOf(t[f]).result.(revision := revision)
    && PayloadOf(t[r]).supersedesProposal == Some((t[f].content.id, if wrong then Some(WRONG_HASH) else t[f].hash))
  }

  lemma RevisesStays(t: Transcript, u: Transcript, r: nat, f: nat, revision: int, wrong: bool)
    requires Extends(t, u) && Revises(t, r, f, revision, wrong)
    ensures Revises(u, r, f, revision, wrong)
  {
    ExtendsAt(t, u, r);
    ExtendsAt(t, u, f);
  }

  lemma Rejected(env: Env, t: Transcript, f: nat) returns (t1: Transcript)
    requires Inv(env, t) && f < |t| && PayloadOf(t[f]).Propose? && PayloadOf(t[f]).revision == 1
    ensures t1 == Rehashed(env, {}, t + [RejectionMessage(|t| + 1, t[f])])
    ensures Inv(env, t1) && Extends(t, t1) && |t1| == |t| + 1 && DecidesOn(t1, |t|, PARTY_B, false, f)
  {
    var reject := RejectionMessage(|t| + 1, t[f]);
    t1 := Rehashed(env, {}, t + [reject]);
    GroundedAt(env, t, f);
    assert t[..f][0] == t[0];
    OneSessionAndContract(env, t, f);
    DecisionGrounded(env, t, f, reject);
    AppendKeepsInv(env, {}, t, reject);
    ExtendsAt(t, t1, f);
  }

  lemma Revised(env: Env, t1: Transcript, f: nat, revision: int, wrong: bool) returns (t2: Transcript)
    requires Inv(env, t1) && f < |t1| && PayloadOf(t1[f]).Propose?
    ensures t2 == Rehashed(env, {}, t1 + [RevisionMessage(env, |t1| + 1, t1[f], revision, wrong)])
    ensures Inv(env, t2) && Extends(t1, t2) && |t2| == |t1| + 1 && Revises(t2, |t1|, f, revision, wrong) && Unsigned(t2)
  {
    var m := RevisionMessage(env, |t1| + 1, t1[f], revision, wrong);
    t2 := Proposing(env, t1, f, PARTY_A, PayloadOf(t1[f]).result.(revision := revision),
                    Some((t1[f].content.id, if wrong then Some(WRONG_HASH) else t1[f].hash)));
    ExtendsAt(t1, t2, f);
  }

  // ---- every step, every run

  predicate DropsSignatures(step: Step) {
    step.AppendRejectionAndRevision? || step.AppendSupersedingNegotiation?
  }

  ghost predicate NoSignedDeclaration(t: Transcript) {
    forall i :: 0 <= i < |t| && PayloadOf(t[i]).Declare? ==> !HasSignature(t[i])
  }

  /** When a step cannot be taken: a decision on what is not a proposal, or a supersession for a party that never
      declared. */
  predicate Refused(t: Transcript, step: Step) {
    || (step.AppendDecision? && step.proposal.Some?
        && (step.proposal.value >= |t| || !PayloadOf(t[step.proposal.value]).Propose?))
    || (step.AppendDeclarationSupersession? && forall i :: 0 <= i < |t| ==> !Declares(t[i], step.party))
  }

  lemma {:induction false} FirstIsAProposal(t: Transcript)
    requires FirstProposal(t).Some?
    ensures LastProposal(t).Some? && t != []
  {
  }

  lemma {:induction false} StepKeepsInv(env: Env, t: Transcript, step: Step)
    requires Inv(env, t) && FirstProposal(t).Some?
    ensures Apply(env, t, step) == None <==> Refused(t, step)
    ensures Apply(env, t, step).Some? ==> Inv(env, Apply(env, t, step).value) && Extends(t, Apply(env, t, step).value)
  {
    StepTaken(env, t, step);
    if Apply(env, t, step).Some? {
      if DropsSignatures(step) {
        StepDrops(env, t, step);
      } else {
        StepExtends(env, t, step, Apply(env, t, step).value);
        PrefixExtends(t, Apply(env, t, step).value);
      }
    }
  }

  lemma {:induction false} StepTaken(env: Env, t: Transcript, step: Step)
    requires Inv(env, t) && FirstProposal(t).Some?
    ensures Apply(env, t, step) == None <==> Refused(t, step)
  {
    FirstIsAProposal(t);
    match step
    case AppendNewNegotiation(suffix, supersedes, selected, acceptors) =>
      NewNegotiationStep(env, t, suffix, supersedes, selected, acceptors);
    case AppendRejectionAndRevision(accept, revision, wrong) => RejectionStep(env, t, accept, revision, wrong);
    case AppendSupersedingNegotiation => SupersedingStep(env, t);
    case _ =>
  }

  lemma {:induction false} StepDrops(env: Env, t: Transcript, step: Step)
    requires Inv(env, t) && FirstProposal(t).Some? && DropsSignatures(step) && Apply(env, t, step).Some?
    ensures var u := Apply(env, t, step).value; Inv(env, u) && Extends(t, u) && Unsigned(u)
  {
    if step.AppendRejectionAndRevision? {
      RejectionDrops(env, t, step.acceptRevision, step.revision, step.wrongSupersession);
    } else {
      SupersedingDrops(env, t);
    }
  }

  lemma {:induction false} RejectionDrops(env: Env, t: Transcript, accept: bool, revision: int, wrong: bool)
    requires Inv(env, t) && FirstProposal(t).Some?
    ensures RejectionAndRevision(env, t, accept, revision, wrong).Some?
    ensures var u := RejectionAndRevision(env, t, accept, revision, wrong).value;
      Inv(env, u) && Extends(t, u) && Unsigned(u)
  {
    RejectionStep(env, t, accept, revision, wrong);
  }

  lemma {:induction false} SupersedingDrops(env: Env, t: Transcript)
    requires Inv(env, t) && FirstProposal(t).Some?
    ensures SupersedingNegotiation(env, t).Some?
    ensures var u := SupersedingNegotiation(env, t).value; Inv(env, u) && Extends(t, u) && Unsigned(u)
  {
    SupersedingStep(env, t);
  }

  lemma PrefixExtends(t: Transcript, u: Transcript)
    requires |t| <= |u| && u[..|t|] == t
    ensures Extends(t, u)
  {
  }

  /** The declaration a step copies carries a signature, and the copy will, too. */
  predicate CopiesSignature(t: Transcript, step: Step) {
    && step.AppendDeclarationSupersession? && LastDeclaration(t, step.party).Some?
    && HasSignature(t[LastDeclaration(t, step.party).value])
  }

  /** Signatures: kept message by message, or all dropped; what is appended is signed only as the copy of a signed
      declaration. */
  lemma {:induction false} StepSignatures(env: Env, t: Transcript, step: Step)
    requires Inv(env, t) && FirstProposal(t).Some? && Apply(env, t, step).Some?
    ensures var u := Apply(env, t, step).value;
      |t| <= |u| && forall i :: 0 <= i < |u| ==>
        (HasSignature(u[i]) <==> !DropsSignatures(step) && if i < |t| then HasSignature(t[i])
         else CopiesSignature(t, step))
  {
    if DropsSignatures(step) {
      StepDrops(env, t, step);
    } else {
      StepExtends(env, t, step, Apply(env, t, step).value);
      KeptSignatures(t, Apply(env, t, step).value);
    }
  }

  lemma KeptSignatures(t: Transcript, u: Transcript)
    requires |t| <= |u| && u[..|t|] == t
    ensures forall i :: 0 <= i < |t| ==> u[i] == t[i]
  {
    forall i | 0 <= i < |t| ensures u[i] == t[i] {
      assert u[..|t|][i] == t[i];
    }
  }

  /** The other steps leave what is there as it is. */
  lemma {:induction false} StepExtends(env: Env, t: Transcript, step: Step, u: Transcript)
    requires Inv(env, t) && FirstProposal(t).Some? && Apply(env, t, step) == Some(u) && !DropsSignatures(step)
    ensures Kept(env, t, u, CopiesSignature(t, step))
  {
    if step.AppendDeclarationSupersession? {
      SupersessionExtends(env, t, step.party, u);
    } else {
      StepAppends(env, t, step);
    }
  }

  /** What was there is as it was; what was added is signed exactly when `signed`. */
  ghost predicate Kept(env: Env, t: Transcript, u: Transcript, signed: bool) {
    Inv(env, u) && |t| <= |u| && u[..|t|] == t && forall i :: |t| <= i < |u| ==> (HasSignature(u[i]) <==> signed)
  }

  lemma {:induction false} SupersessionExtends(env: Env, t: Transcript, party: string, u: Transcript)
    requires Inv(env, t) && Supersession(env, t, party) == Some(u)
    ensures LastDeclaration(t, party).Some?
    ensures Kept(env, t, u, HasSignature(t[LastDeclaration(t, party).value]))
  {
    SupersessionStep(env, t, party);
  }

  lemma {:induction false} StepAppends(env: Env, t: Transcript, step: Step)
    requires Inv(env, t) && FirstProposal(t).Some? && Apply(env, t, step).Some?
    requires !DropsSignatures(step) && !step.AppendDeclarationSupersession?
    ensures Appended(env, t, Apply(env, t, step).value)
  {
    FirstIsAProposal(t);
    match step
    case AppendDecision(sender, accept, proposal) => DecisionStep(env, t, sender, accept, proposal);
    case AppendNewNegotiation(suffix, supersedes, selected, acceptors) =>
      NewNegotiationStep(env, t, suffix, supersedes, selected, acceptors);
    case AppendProjection(asOf, head, slug, result) => ProjectionStep(env, t, asOf, head, slug, result);
    case _ =>
  }

  lemma {:induction false} FirstProposalStays(t: Transcript, u: Transcript)
    requires Extends(t, u) && FirstProposal(t).Some?
    ensures FirstProposal(u) == FirstProposal(t)
  {
    if |u| > |t| {
      assert u[..|u| - 1][..|t|] == u[..|t|];
      FirstProposalStays(t, u[..|u| - 1]);
    } else {
      assert u[..|t|] == u;
      SameFirstProposal(t, u);
    }
  }

  lemma {:induction false} SameFirstProposal(t: Transcript, u: Transcript)
    requires Same(t, u)
    ensures FirstProposal(t) == FirstProposal(u)
  {
    if t == [] {
    } else {
      assert t[|t| - 1].(signatures := None).content == u[|u| - 1].(signatures := None).content;
      SameFirstProposal(t[..|t| - 1], u[..|u| - 1]);
    }
  }

  /** Every run, from any transcript that has the invariant: it is kept, and no message that was there is changed but
      for its signatures, so no hash captured on the way is ever disturbed. */
  lemma {:induction false} RunKeepsInv(env: Env, t: Transcript, steps: seq<Step>)
    requires Inv(env, t) && FirstProposal(t).Some? && Run(env, t, steps).Some?
    ensures Inv(env, Run(env, t, steps).value) && Extends(t, Run(env, t, steps).value)
    ensures FirstProposal(Run(env, t, steps).value) == FirstProposal(t)
    decreases |steps|
  {
    if steps == [] {
      assert t[..|t|] == t;
    } else {
      var next := Apply(env, t, steps[0]).value;
      StepKeepsInv(env, t, steps[0]);
      FirstProposalStays(t, next);
      RunKeepsInv(env, next, steps[1..]);
      ExtendsTransitive(t, next, Run(env, t, steps).value);
    }
  }

  /** A run takes its steps in order and stops where one cannot be taken. */
  lemma {:induction false} RunSteps(env: Env, t: Transcript, a: seq<Step>, b: seq<Step>)
    ensures Run(env, t, []) == Some(t)
    ensures |a| == 1 ==> Run(env, t, a) == Apply(env, t, a[0])
    ensures Run(env, t, a + b)
         == if Run(env, t, a).None? then None else Run(env, Run(env, t, a).value, b)
    decreases |a|
  {
    if a == [] {
      assert a + b == b;
    } else {
      assert (a + b)[0] == a[0] && (a + b)[1..] == a[1..] + b;
      if Apply(env, t, a[0]).Some? {
        RunSteps(env, Apply(env, t, a[0]).value, a[1..], b);
      }
    }
  }

  // ---- build_negotiation

  lemma EmptyInv(env: Env)
    ensures Inv(env, [])
  {
  }

  lemma DeclaredInv(env: Env, b: Build)
    ensures var t := Declared(env, b);
      && Inv(env, t)
      && t[0].content == b.Declaration(1, PARTY_A, "s", b.offerA).content
      && t[1].content == b.Declaration(2, PARTY_B, "t", b.offerB).content
  {
    var d0, d1 := b.Declaration(1, PARTY_A, "s", b.offerA), b.Declaration(2, PARTY_B, "t", b.offerB);
    EmptyInv(env);
    assert [] + [d0] == [d0];
    AppendKeepsInv(env, {}, [], d0);
    var t := Rehashed(env, {}, [d0]);
    assert t[0].content == d0.content;
    PartiesDiffer();
    NoOtherDeclaration(t, PARTY_B);
    assert Grounded(env, t, d1.content);
    AppendKeepsInv(env, {}, t, d1);
    RehashTwice(env, {}, [], [d0], d1);
    assert [] + ([d0] + [d1]) == [d0, d1] && [] + [d0] == [d0];
    ExtendsAt(t, Declared(env, b), 0);
  }

  lemma PartiesDiffer()
    ensures PARTY_A != PARTY_B
  {
    assert PARTY_A[6] == 'S' && PARTY_B[6] == 'T';
  }

  lemma {:induction false} NoOtherDeclaration(t: Transcript, party: string)
    requires forall i :: 0 <= i < |t| ==> !Declares(t[i], party)
    ensures LastDeclaration(t, party) == None
  {
  }

  lemma {:induction false} BindingsHold(t: Transcript, b: Binding)
    requires b in BindingsOf(t)
    ensures exists e :: 0 <= e < |t| && BindingHolds(b, t[e])
  {
    var n := |t| - 1;
    if b in BindingsOf(t[..n]) {
      BindingsHold(t[..n], b);
      var e :| 0 <= e < |t[..n]| && BindingHolds(b, t[..n][e]);
      assert BindingHolds(b, t[e]);
    } else {
      assert BindingHolds(b, t[n]);
    }
  }

  lemma ProposedInv(env: Env, b: Build)
    ensures var t := Proposed(env, b);
      Inv(env, t) && FirstProposal(t) == Some(2) && Extends(Declared(env, b), t)
      && t[2].content == ProposalMessage(env, 3, PARTY_A, InitialResult(env, b), None).content
  {
    var d := Declared(env, b);
    var m := ProposalMessage(env, 3, PARTY_A, InitialResult(env, b), None);
    DeclaredInv(env, b);
    forall x | x in InitialResult(env, b).bindings ensures exists e :: 0 <= e < |d| && BindingHolds(x, d[e]) {
      BindingsHold(d, x);
    }
    assert Grounded(env, d, m.content);
    AppendKeepsInv(env, {}, d, m);
    var t := Proposed(env, b);
    ExtendsAt(d, t, 0);
    ExtendsAt(d, t, 1);
    FirstProposalAtTwo(t);
  }

  lemma {:induction false} FirstProposalAtTwo(t: Transcript)
    requires |t| == 3 && PayloadOf(t[0]).Declare? && PayloadOf(t[1]).Declare?
    requires PayloadOf(t[2]).Propose? && PayloadOf(t[2]).revision == 1
    ensures FirstProposal(t) == Some(2)
  {
    assert t[..2][..1] == t[..1];
    assert t[..1][..0] == [];
    assert FirstProposal(t[..1]) == None;
    assert FirstProposal(t[..2]) == None;
  }

  lemma AcceptedInv(env: Env, b: Build)
    ensures var t := Accepted(env, b);
      Inv(env, t) && Extends(Proposed(env, b), t) && FirstProposal(t) == Some(2)
  {
    var t := Proposed(env, b);
    ProposedInv(env, b);
    ProposedProposes(env, b);
    if b.includeAcceptances {
      var senders := if b.duplicateAcceptance then [PARTY_A, PARTY_A, PARTY_B] else [PARTY_A, PARTY_B];
      var u := t + Acceptances(|t| + 1, senders, t[2]);
      AcceptancesKeepInv(env, AcceptanceIds(b.signedAcceptances, u), t, senders, 2);
      FirstProposalStays(t, Accepted(env, b));
    } else {
      assert t[..|t|] == t;
    }
  }

  lemma BuiltFields(env: Env, b: Build, t: Transcript)
    requires Inv(env, t) && Extends(Proposed(env, b), t)
    ensures t != [] && |t| > 2
    ensures t[0].content.session == b.Session() && t[0].content.payload.contractId == b.ContractId()
    ensures t[2].content == ProposalMessage(env, 3, PARTY_A, InitialResult(env, b), None).content
  {
    ProposedInv(env, b);
    ExtendsAt(Proposed(env, b), t, 0);
    ExtendsAt(Proposed(env, b), t, 2);
    DeclaredInv(env, b);
    ExtendsAt(Declared(env, b), Proposed(env, b), 0);
  }

  lemma ContractedInv(env: Env, b: Build)
    ensures var t := Contracted(env, b);
      Inv(env, t) && Extends(Accepted(env, b), t) && Extends(Proposed(env, b), t) && FirstProposal(t) == Some(2)
  {
    var t := Accepted(env, b);
    AcceptedInv(env, b);
    if b.includeContract {
      ContractKeepsInv(env, b);
      FirstProposalStays(t, Contracted(env, b));
    } else {
      assert t[..|t|] == t;
    }
    ExtendsTransitive(Proposed(env, b), t, Contracted(env, b));
  }

  lemma ContractKeepsInv(env: Env, b: Build)
    requires b.includeContract
    ensures Inv(env, Contracted(env, b)) && Extends(Accepted(env, b), Contracted(env, b))
  {
    var t := Accepted(env, b);
    var m, n := ContractMessage(env, b, |t| + 1), ContractAcceptance(b, |t| + 2);
    var ids := AcceptanceIds(b.signedAcceptances, t + [m, n]);
    ContractProposed(env, b, ids);
    var t1 := Rehashed(env, ids, t + [m]);
    AppendKeepsInv(env, ids, t1, n);
    RehashTwice(env, ids, t, [m], n);
    assert [m] + [n] == [m, n];
    ExtendsTransitive(t, t1, Contracted(env, b));
  }

  lemma ContractProposed(env: Env, b: Build, ids: set<Option<string>>)
    ensures var t := Accepted(env, b);
      var t1 := Rehashed(env, ids, t + [ContractMessage(env, b, |t| + 1)]);
      Inv(env, t1) && Extends(t, t1) && Grounded(env, t1, ContractAcceptance(b, |t| + 2).content)
  {
    var t := Accepted(env, b);
    AcceptedInv(env, b);
    BuiltFields(env, b, t);
    var m := ContractMessage(env, b, |t| + 1);
    assert Grounded(env, t, m.content) by {
      assert PayloadOf(t[2]).Propose?;
    }
    AppendKeepsInv(env, ids, t, m);
    ExtendsAt(t, Rehashed(env, ids, t + [m]), 0);
  }

  /** `build_negotiation` establishes the invariant; its projection names the hash of the message before it. */
  lemma BuiltInv(env: Env, b: Build)
    ensures var t := Built(env, b);
      && Inv(env, t) && FirstProposal(t) == Some(2) && Extends(Proposed(env, b), t)
      && (b.includeProjection ==>
            var last := PayloadOf(t[|t| - 1]);
            last.Sync? && last.state.asOf == t[|t| - 2].hash && last.headHash == t[|t| - 2].hash
            && last.state.resultHash == PayloadOf(t[2]).resultHash)
  {
    var t, u := Contracted(env, b), Built(env, b);
    ContractedInv(env, b);
    BuiltExtends(env, b);
    FirstProposalStays(t, u);
    ExtendsTransitive(Proposed(env, b), t, u);
    if b.includeProjection {
      BuiltFields(env, b, t);
      ExtendsAt(t, u, |t| - 1);
      ExtendsAt(t, u, 2);
    }
  }

  lemma SyncGrounded(env: Env, t: Transcript, m: Msg<Entry>)
    requires t != [] && m.content.session == t[0].content.session
             && m.content.payload.contractId == t[0].content.payload.contractId
    requires PayloadOf(m).Sync? && PayloadOf(m).stateHash == env.objectHash(StateObject(PayloadOf(m).state))
    ensures Grounded(env, t, m.content)
  {
  }

  lemma BuiltExtends(env: Env, b: Build)
    ensures var t, u := Contracted(env, b), Built(env, b);
      && Inv(env, u) && Extends(t, u)
      && (b.includeProjection ==>
            |u| == |t| + 1 && u[|t|].content
            == ProjectionMessage(env, |t| + 1, b.Session(), b.ContractId(), b.slug, Head(t), Head(t),
                                 InitialResult(env, b)).content)
  {
    var t := Contracted(env, b);
    ContractedFields(env, b);
    if b.includeProjection {
      Projected(env, b, t);
    } else {
      assert t[..|t|] == t;
    }
  }

  lemma ContractedFields(env: Env, b: Build)
    ensures var t := Contracted(env, b);
      && Inv(env, t) && t != [] && t[0].content.session == b.Session()
      && t[0].content.payload.contractId == b.ContractId()
  {
    ContractedInv(env, b);
    BuiltFields(env, b, Contracted(env, b));
  }

  lemma Projected(env: Env, b: Build, t: Transcript)
    requires Inv(env, t) && t != [] && t[0].content.session == b.Session()
    requires t[0].content.payload.contractId == b.ContractId()
    ensures var m := ProjectionMessage(env, |t| + 1, b.Session(), b.ContractId(), b.slug, Head(t), Head(t),
                                       InitialResult(env, b));
            var u := Rehashed(env, AcceptanceIds(b.signedAcceptances, t + [m]), t + [m]);
      Inv(env, u) && |u| == |t| + 1 && Extends(t, u) && u[|t|].content == m.content
  {
    var m := ProjectionMessage(env, |t| + 1, b.Session(), b.ContractId(), b.slug, Head(t), Head(t),
                               InitialResult(env, b));
    SyncGrounded(env, t, m);
    AppendKeepsInv(env, AcceptanceIds(b.signedAcceptances, t + [m]), t, m);
  }

  /** Message 3 of what `build_negotiation` returns proposes a result bound to both declarations as they are there. */
  lemma BuiltProposal(env: Env, b: Build)
    ensures var t := Built(env, b);
      && |t| > 2 && Declares(t[0], PARTY_A) && Declares(t[1], PARTY_B) && PayloadOf(t[2]).Propose?
      && (var r := PayloadOf(t[2]).result;
          && r.bindings == [BindingTo(t[0]), BindingTo(t[1])] && r.participants == [PARTY_A, PARTY_B]
          && r.revision == 1 && r.selected == b.selected && r.supersedes == None)
  {
    var d, t := Declared(env, b), Built(env, b);
    DeclaredInv(env, b);
    ProposedInv(env, b);
    BuiltInv(env, b);
    BuiltFields(env, b, t);
    ExtendsTransitive(d, Proposed(env, b), t);
    ExtendsAt(d, t, 0);
    ExtendsAt(d, t, 1);
    TwoBindings(d);
  }

  lemma {:induction false} TwoBindings(d: Transcript)
    requires |d| == 2 && PayloadOf(d[0]).Declare? && PayloadOf(d[1]).Declare?
    ensures BindingsOf(d) == [BindingTo(d[0]), BindingTo(d[1])]
  {
    assert d[..1][..0] == [];
    assert BindingsOf(d[..1]) == [BindingTo(d[0])];
  }

  /** The acceptances of `build_negotiation`: by each party in turn, bound to message 3; a duplicate one is by the
      first. */
  lemma BuiltAcceptances(env: Env, b: Build, k: nat)
    requires b.includeAcceptances && k < (if b.duplicateAcceptance then 3 else 2)
    ensures DecidesOn(Built(env, b), 3 + k, if k == 0 || (b.duplicateAcceptance && k == 1) then PARTY_A else PARTY_B,
            true, 2)
  {
    var t := Proposed(env, b);
    var senders := if b.duplicateAcceptance then [PARTY_A, PARTY_A, PARTY_B] else [PARTY_A, PARTY_B];
    var u := t + Acceptances(|t| + 1, senders, t[2]);
    ProposedProposes(env, b);
    AcceptedInv(env, b);
    AcceptancesBind(env, AcceptanceIds(b.signedAcceptances, u), t, senders, 2, k);
    ContractedInv(env, b);
    BuiltExtends(env, b);
    ExtendsTransitive(Accepted(env, b), Contracted(env, b), Built(env, b));
    DecidesOnStays(Accepted(env, b), Built(env, b), 3 + k, senders[k], true, 2);
  }

  /** After `build_negotiation`, exactly the acceptances are signed, and only if asked for. */
  lemma BuiltSigned(env: Env, b: Build, i: nat)
    requires i < |Built(env, b)|
    ensures HasSignature(Built(env, b)[i]) <==> b.signedAcceptances && IsAcceptance(Built(env, b)[i])
  {
    ContractedSigned(env, b);
    BuiltInv(env, b);
    var t := Contracted(env, b);
    if b.includeProjection {
      var u := t + [ProjectionMessage(env, |t| + 1, b.Session(), b.ContractId(), b.slug, Head(t), Head(t),
                                      InitialResult(env, b))];
      SignedExactly(env, b.signedAcceptances, u);
    }
  }

  ghost predicate SignedAcceptancesOnly(signed: bool, t: Transcript) {
    forall i :: 0 <= i < |t| ==> (HasSignature(t[i]) <==> signed && IsAcceptance(t[i]))
  }

  /** Rehashing with the ids of the acceptances signs exactly the acceptances, ids being distinct. */
  lemma SignedExactly(env: Env, signed: bool, u: Transcript)
    requires InOrder(Rehashed(env, AcceptanceIds(signed, u), u))
    ensures SignedAcceptancesOnly(signed, Rehashed(env, AcceptanceIds(signed, u), u))
  {
    var ids := AcceptanceIds(signed, u);
    var r := Rehashed(env, ids, u);
    RehashContents(env, ids, u);
    forall i | 0 <= i < |u| ensures r[i].content == u[i].content {
      assert Contents(r)[i] == Contents(u)[i];
    }
    forall i | 0 <= i < |r| ensures HasSignature(r[i]) <==> signed && IsAcceptance(r[i]) {
      RehashAt(env, ids, u, i);
      AcceptanceIdsMember(signed, u, i);
    }
  }

  lemma AcceptanceIdsMember(signed: bool, u: Transcript, i: nat)
    requires i < |u| && InOrder(u)
    ensures u[i].content.id in AcceptanceIds(signed, u) <==> signed && IsAcceptance(u[i])
  {
    if u[i].content.id in AcceptanceIds(signed, u) {
      var m :| m in u && signed && IsAcceptance(m) && m.content.id == u[i].content.id;
      var j :| 0 <= j < |u| && u[j] == m;
      MessageIdInjective(i + 1, j + 1);
    }
  }

  lemma AcceptedSigned(env: Env, b: Build)
    ensures SignedAcceptancesOnly(b.signedAcceptances, Accepted(env, b))
  {
    var t := Proposed(env, b);
    ProposedProposes(env, b);
    AcceptedInv(env, b);
    if b.includeAcceptances {
      var senders := if b.duplicateAcceptance then [PARTY_A, PARTY_A, PARTY_B] else [PARTY_A, PARTY_B];
      SignedExactly(env, b.signedAcceptances, t + Acceptances(|t| + 1, senders, t[2]));
    } else {
      ProposedInv(env, b);
      DeclaredInv(env, b);
      ExtendsAt(Declared(env, b), t, 0);
      ExtendsAt(Declared(env, b), t, 1);
      UnsignedByRehash(env, Declared(env, b) + [ProposalMessage(env, 3, PARTY_A, InitialResult(env, b), None)]);
      assert forall i :: 0 <= i < 3 ==> !IsAcceptance(t[i]);
    }
  }

  lemma ContractedSigned(env: Env, b: Build)
    ensures SignedAcceptancesOnly(b.signedAcceptances, Contracted(env, b))
  {
    AcceptedSigned(env, b);
    ContractedInv(env, b);
    if b.includeContract {
      var t := Accepted(env, b);
      SignedExactly(env, b.signedAcceptances, t + [ContractMessage(env, b, |t| + 1), ContractAcceptance(b, |t| + 2)]);
    }
  }

  // ---- every run of the builder

  /** Every transcript the builder can produce. */
  lemma {:induction false} EveryRun(env: Env, b: Build, steps: seq<Step>)
    ensures var end := Run(env, Built(env, b), steps);
      end.Some? ==>
        && Inv(env, end.value) && Extends(Built(env, b), end.value) && FirstProposal(end.value) == Some(2)
        && forall i :: 0 <= i < |end.value| ==> Numbered(end.value[i].content.id, i + 1)
  {
    BuiltInv(env, b);
    if Run(env, Built(env, b), steps).Some? {
      RunKeepsInv(env, Built(env, b), steps);
      InOrderExact(Run(env, Built(env, b), steps).value);
    }
  }

  /** The message hashes a payload carries. */
  ghost predicate Carries(m: Msg<Entry>, hash: Option<Digest>) {
    match PayloadOf(m)
    case Sync(_, state, _, headHash) => hash == state.asOf || hash == headHash
    case Propose(_, result, _, supersedesProposal) =>
      || (supersedesProposal.Some? && hash == supersedesProposal.value.1)
      || exists b :: b in result.bindings && hash == b.messageHash
    case Decide(_, _, _, _, proposalHash, _) => hash == proposalHash
    case _ => false
  }

  /** A message that carries the hash of another one, in whatever field, still does after any further run; a revision
      still revises its proposal. */
  lemma {:induction false} RunKeepsNames(env: Env, t: Transcript, steps: seq<Step>, i: nat, j: nat)
    requires Inv(env, t) && FirstProposal(t).Some? && Run(env, t, steps).Some? && i < |t| && j < |t|
    ensures var u := Run(env, t, steps).value;
      && |t| <= |u| && (Carries(u[i], u[j].hash) <==> Carries(t[i], t[j].hash))
      && forall revision, wrong :: Revises(t, i, j, revision, wrong) ==> Revises(u, i, j, revision, wrong)
  {
    RunKeepsInv(env, t, steps);
    ExtendsKeepsNames(t, Run(env, t, steps).value, i, j);
  }

  lemma ExtendsKeepsNames(t: Transcript, u: Transcript, i: nat, j: nat)
    requires Extends(t, u) && i < |t| && j < |t|
    ensures Carries(u[i], u[j].hash) <==> Carries(t[i], t[j].hash)
    ensures forall revision, wrong :: Revises(t, i, j, revision, wrong) ==> Revises(u, i, j, revision, wrong)
  {
    ExtendsAt(t, u, i);
    ExtendsAt(t, u, j);
    forall revision, wrong | Revises(t, i, j, revision, wrong) ensures Revises(u, i, j, revision, wrong) {
      RevisesStays(t, u, i, j, revision, wrong);
    }
  }

  /** The projection of `build_negotiation` names the message before it, and the first proposal's result, at the end of
      every run. */
  lemma {:induction false} EveryRunProjection(env: Env, b: Build, steps: seq<Step>)
    requires b.includeProjection && Run(env, Built(env, b), steps).Some?
    ensures var end, k := Run(env, Built(env, b), steps).value, |Built(env, b)| - 1;
      && 2 < k < |end| && PayloadOf(end[k]).Sync? && PayloadOf(end[2]).Propose?
      && PayloadOf(end[k]).state.asOf == PayloadOf(end[k]).headHash == end[k - 1].hash
      && PayloadOf(end[k]).state.resultHash == PayloadOf(end[2]).resultHash
  {
    BuiltInv(env, b);
    BuiltLength(env, b);
    RunKeepsInv(env, Built(env, b), steps);
    ProjectionStays(Built(env, b), Run(env, Built(env, b), steps).value, |Built(env, b)| - 1);
  }

  lemma BuiltLength(env: Env, b: Build)
    ensures |Built(env, b)| >= if b.includeProjection then 4 else 3
    ensures PayloadOf(Built(env, b)[2]).Propose?
  {
    BuiltProposal(env, b);
    ContractedInv(env, b);
    BuiltExtends(env, b);
  }

  lemma ProjectionStays(t: Transcript, u: Transcript, k: nat)
    requires Extends(t, u) && 2 < k < |t| && PayloadOf(t[k]).Sync?
    ensures u[k].content == t[k].content && u[k - 1].hash == t[k - 1].hash && u[2].content == t[2].content
  {
    ExtendsAt(t, u, 2);
    ExtendsAt(t, u, k);
    ExtendsAt(t, u, k - 1);
  }

  /** Over a run without the two dropping steps, the signed messages are those of `build_negotiation`. */
  lemma {:induction false} RunSignatures(env: Env, t: Transcript, steps: seq<Step>)
    requires Inv(env, t) && FirstProposal(t).Some? && NoSignedDeclaration(t)
    requires Run(env, t, steps).Some? && forall k :: 0 <= k < |steps| ==> !DropsSignatures(steps[k])
    ensures var u := Run(env, t, steps).value;
      |t| <= |u| && forall i :: 0 <= i < |u| ==> (HasSignature(u[i]) <==> i < |t| && HasSignature(t[i]))
    decreases |steps|
  {
    if steps == [] {
    } else {
      var next := Apply(env, t, steps[0]).value;
      StepKeepsInv(env, t, steps[0]);
      StepSignatures(env, t, steps[0]);
      FirstProposalStays(t, next);
      forall i | 0 <= i < |next| && PayloadOf(next[i]).Declare? ensures !HasSignature(next[i]) {
        if i < |t| {
          ExtendsAt(t, next, i);
        }
      }
      RunSignatures(env, next, steps[1..]);
    }
  }

  lemma {:induction false} EveryRunSignatures(env: Env, b: Build, steps: seq<Step>, t: Transcript, i: nat)
    requires forall k :: 0 <= k < |steps| ==> !DropsSignatures(steps[k])
    ensures Run(env, Built(env, b), steps) == Some(t) && i < |t| ==>
      && (HasSignature(t[i]) <==> i < |Built(env, b)| && b.signedAcceptances && IsAcceptance(t[i]))
      && (HasSignature(t[i])
          ==> t[i].hash.Some? && t[i].signatures == Some([env.sign(t[i].hash.value, t[i].content.sender)]))
  {
    EveryRun(env, b, steps);
    if Run(env, Built(env, b), steps) == Some(t) && i < |t| {
      BuiltInv(env, b);
      BuiltSignatures(env, b);
      RunSignatures(env, Built(env, b), steps);
      SignaturesFromStart(env, b.signedAcceptances, Built(env, b), t, i);
    }
  }

  lemma BuiltSignatures(env: Env, b: Build)
    ensures SignedAcceptancesOnly(b.signedAcceptances, Built(env, b)) && NoSignedDeclaration(Built(env, b))
  {
    forall j | 0 <= j < |Built(env, b)| ensures HasSignature(Built(env, b)[j])
      <==> b.signedAcceptances && IsAcceptance(Built(env, b)[j]) {
      BuiltSigned(env, b, j);
    }
  }

  lemma SignaturesFromStart(env: Env, signed: bool, start: Transcript, t: Transcript, i: nat)
    requires Inv(env, t) && Extends(start, t) && i < |t| && SignedAcceptancesOnly(signed, start)
    requires HasSignature(t[i]) <==> i < |start| && HasSignature(start[i])
    ensures HasSignature(t[i]) <==> i < |start| && signed && IsAcceptance(t[i])
    ensures HasSignature(t[i])
            ==> t[i].hash.Some? && t[i].signatures == Some([env.sign(t[i].hash.value, t[i].content.sender)])
  {
    if HasSignature(t[i]) {
      SealedWhenSigned(env, t, i);
    }
    if i < |start| {
      ExtendsAt(start, t, i);
    }
  }

  lemma SealedWhenSigned(env: Env, t: Transcript, i: nat)
    requires Inv(env, t) && i < |t| && HasSignature(t[i])
    ensures t[i].hash.Some? && t[i].signatures == Some([env.sign(t[i].hash.value, t[i].content.sender)])
  {
    assert SealedBySender(env, t[i]);
  }

  // ---- what the invariant means

  /** Every decision names one earlier proposal, by the id and hash that proposal has now, and no other message. */
  lemma DecisionsBound(env: Env, t: Transcript, d: nat)
    requires Inv(env, t) && d < |t| && PayloadOf(t[d]).Decide?
    ensures exists p :: 0 <= p < d && Binds(PayloadOf(t[d]), t[p])
                     && forall q :: 0 <= q < |t| && t[q].content.id == PayloadOf(t[d]).proposalId ==> q == p
  {
    var p := ProposalOf(env, t, d);
    forall q | 0 <= q < |t| && t[q].content.id == PayloadOf(t[d]).proposalId ensures q == p {
      OnlyMessage(t, p, q);
    }
  }

  lemma ProposalOf(env: Env, t: Transcript, d: nat) returns (p: nat)
    requires AllGrounded(env, t) && d < |t| && PayloadOf(t[d]).Decide?
    ensures p < d && Binds(PayloadOf(t[d]), t[p])
  {
    GroundedAt(env, t, d);
    p :| 0 <= p < |t[..d]| && Binds(PayloadOf(t[d]), t[..d][p]);
  }

  lemma OnlyMessage(t: Transcript, p: nat, q: nat)
    requires InOrder(t) && p < |t| && q < |t| && t[p].content.id == t[q].content.id
    ensures p == q
  {
    MessageIdInjective(p + 1, q + 1);
  }

  /** What a declaration says about the one before it of the same party. */
  lemma PreviousDeclaration(env: Env, t: Transcript, party: string, e: nat) returns (last: Option<nat>)
    requires AllGrounded(env, t) && e < |t| && Declares(t[e], party)
    ensures last == LastDeclaration(t[..e], party)
    ensures last.None? ==> PayloadOf(t[e]).supersedesId == None
    ensures last.Some? ==> last.value < e && Declares(t[last.value], party)
    ensures last.Some? ==> PayloadOf(t[e]).supersedesId == Some(PayloadOf(t[last.value]).capabilitiesId)
    ensures last.Some? ==> PayloadOf(t[e]).capabilitiesId == PayloadOf(t[last.value]).capabilitiesId + "-next"
    ensures forall d :: 0 <= d < e && Declares(t[d], party) ==> last.Some? && d <= last.value
  {
    GroundedAt(env, t, e);
    last := LastDeclaration(t[..e], party);
    forall d | 0 <= d < e && Declares(t[d], party) ensures last.Some? && d <= last.value {
      assert Declares(t[..e][d], party);
    }
  }

  /** A party's declarations form one list: each names the one before it, and the capability ids grow along it. */
  lemma {:induction false} DeclarationsOneList(env: Env, t: Transcript, party: string, d: nat, e: nat)
    requires AllGrounded(env, t) && d < e < |t| && Declares(t[d], party) && Declares(t[e], party)
    ensures |PayloadOf(t[d]).capabilitiesId| < |PayloadOf(t[e]).capabilitiesId|
    decreases e
  {
    var last := PreviousDeclaration(env, t, party, e);
    if d < last.value {
      DeclarationsOneList(env, t, party, d, last.value);
    }
  }

  /** No fork: two declarations of one party never have the same capability id, nor supersede the same one. */
  lemma DeclarationsUnforked(env: Env, t: Transcript, party: string, d: nat, e: nat)
    requires Inv(env, t) && d < e < |t| && Declares(t[d], party) && Declares(t[e], party)
    ensures PayloadOf(t[d]).supersedesId != PayloadOf(t[e]).supersedesId
    ensures PayloadOf(t[d]).capabilitiesId != PayloadOf(t[e]).capabilitiesId
  {
    DeclarationsOneList(env, t, party, d, e);
    var last := PreviousDeclaration(env, t, party, e);
    var before := PreviousDeclaration(env, t, party, d);
    if before.Some? {
      DeclarationsOneList(env, t, party, before.value, last.value);
    }
  }
}
