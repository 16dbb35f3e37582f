/** The claim loops of `evaluate_strong_report_evidence`: marks are earned by all claims together or not at all. */
module Evidence {
  import opened Wrappers
  import opened Reports

  type Claim = (string, string)

  /** What the evaluators say, which are not modelled: whether report `r` proves claim `c`, the mark of a profile's
      catalog, and the marks a report was found eligible for. */
  datatype Evaluators<!R> = Evaluators(proves: (Claim, R) -> bool, profileMark: Claim -> Option<string>,
                                       reportMarks: R -> set<string>)

  datatype Outcome = Outcome(unproved: seq<Claim>, marks: set<string>, targets: set<Claim>)
  {
    predicate Eligible() { unproved == [] }
  }

  ghost predicate Proved<R>(e: Evaluators<R>, c: Claim, reports: seq<R>) {
    exists i :: 0 <= i < |reports| && e.proves(c, reports[i])
  }

  /** Index of the first report that proves the claim: the loop stops there. */
  function FirstProof<R>(e: Evaluators<R>, c: Claim, reports: seq<R>, from: nat): (i: nat)
    requires from <= |reports|
    ensures from <= i <= |reports| && (i < |reports| ==> e.proves(c, reports[i]))
    ensures forall j :: from <= j < i ==> !e.proves(c, reports[j])
    decreases |reports| - from
  {
    if from == |reports| || e.proves(c, reports[from]) then from else FirstProof(e, c, reports, from + 1)
  }

  ghost predicate AllProved<R>(e: Evaluators<R>, claims: seq<Claim>, reports: seq<R>) {
    forall c :: c in claims ==> Proved(e, c, reports)
  }

  /** The claims no report proves, in turn. */
  ghost function Unproved<R>(e: Evaluators<R>, claims: seq<Claim>, reports: seq<R>): seq<Claim> {
    if claims == [] then []
    else
      var n := |claims| - 1;
      Unproved(e, claims[..n], reports) + (if Proved(e, claims[n], reports) then [] else [claims[n]])
  }

  /** Profile claims: each proved claim earns its catalog's mark. */
  method EvaluateProfileClaims<R>(e: Evaluators<R>, claims: seq<Claim>, reports: seq<R>) returns (o: Outcome)
    ensures o.Eligible() <==> AllProved(e, claims, reports)
    ensures o.Eligible() ==> o.marks == set c | c in claims && e.profileMark(c).Some? :: e.profileMark(c).value
    ensures o.Eligible() ==> o.targets == set c | c in claims && e.profileMark(c).Some?
    ensures !o.Eligible() ==> o.marks == {} && o.targets == {}
    ensures forall c :: c in o.unproved <==> c in claims && !Proved(e, c, reports)
    ensures UnprovedInOrder(e, claims, reports, o.unproved)
  {
    var marks: set<string>, targets: set<Claim> := {}, {};
    var unproved: seq<Claim> := [];
    for n := 0 to |claims|
      invariant unproved == Unproved(e, claims[..n], reports)
      invariant unproved == [] ==> marks == set c | c in claims[..n] && e.profileMark(c).Some? :: e.profileMark(c).value
      invariant unproved == [] ==> targets == set c | c in claims[..n] && e.profileMark(c).Some?
    {
      var claim := claims[n];
      assert claims[..n + 1] == claims[..n] + [claim] && claims[..n + 1][..n] == claims[..n];
      var i := FindProof(e, claim, reports);
      if i == |reports| {
        unproved := unproved + [claim];
        continue;
      }
      assert Proved(e, claim, reports);
      var mark := e.profileMark(claim);
      if mark.Some? {
        marks := marks + {mark.value};
        targets := targets + {claim};
      }
    }
    assert claims[..|claims|] == claims;
    o := if unproved != [] then Outcome(unproved, {}, {}) else Outcome([], marks, targets);
    UnprovedMembers(e, claims, reports);
    UnprovedListed(e, claims, reports);
  }

  /** The inner loop with its `break`. */
  method FindProof<R>(e: Evaluators<R>, claim: Claim, reports: seq<R>) returns (i: nat)
    ensures i == FirstProof(e, claim, reports, 0)
    ensures i < |reports| <==> Proved(e, claim, reports)
  {
    i := 0;
    while i < |reports|
      invariant i <= |reports| && FirstProof(e, claim, reports, 0) == FirstProof(e, claim, reports, i)
      invariant forall j :: 0 <= j < i ==> !e.proves(claim, reports[j])
    {
      if e.proves(claim, reports[i]) {
        break;
      }
      i := i + 1;
    }
  }

  /** The marks of the reports that were found first, one for each claim. */
  ghost function EarnedMarks<R>(e: Evaluators<R>, claims: seq<Claim>, reports: seq<R>): set<string>
    requires AllProved(e, claims, reports)
  {
    if claims == [] then {}
    else
      var n := |claims| - 1;
      assert claims[n] in claims;
      EarnedMarks(e, claims[..n], reports) + e.reportMarks(reports[FirstProof(e, claims[n], reports, 0)])
  }

  /** Capability and binding claims: a claim earns the marks of the first report that proves it. */
  method EvaluateReportClaims<R>(e: Evaluators<R>, claims: seq<Claim>, reports: seq<R>) returns (o: Outcome)
    ensures o.Eligible() <==> AllProved(e, claims, reports)
    ensures o.Eligible() ==> o.marks == EarnedMarks(e, claims, reports) && o.targets == set c | c in claims
    ensures !o.Eligible() ==> o.marks == {} && o.targets == {}
    ensures forall c :: c in o.unproved <==> c in claims && !Proved(e, c, reports)
    ensures UnprovedInOrder(e, claims, reports, o.unproved)
  {
    var marks: set<string>, targets: set<Claim> := {}, {};
    var unproved: seq<Claim> := [];
    for n := 0 to |claims|
      invariant unproved == Unproved(e, claims[..n], reports)
      invariant unproved == [] ==> AllProved(e, claims[..n], reports)
      invariant unproved == [] ==> marks == EarnedMarks(e, claims[..n], reports)
      invariant unproved == [] ==> targets == set c | c in claims[..n]
    {
      var claim := claims[n];
      assert claims[..n + 1] == claims[..n] + [claim] && claims[..n + 1][..n] == claims[..n];
      var i := FindProof(e, claim, reports);
      if i < |reports| {
        marks := marks + e.reportMarks(reports[i]);
        targets := targets + {claim};
      } else {
        unproved := unproved + [claim];
      }
    }
    assert claims[..|claims|] == claims;
    o := if unproved != [] then Outcome(unproved, {}, {}) else Outcome([], marks, targets);
    UnprovedMembers(e, claims, reports);
    UnprovedListed(e, claims, reports);
  }

  /** A mark is earned exactly when it is a mark of the first report that proves one of the claims. */
  lemma {:induction false} MarksAreBacked<R>(e: Evaluators<R>, claims: seq<Claim>, reports: seq<R>, mark: string)
    requires AllProved(e, claims, reports)
    ensures mark in EarnedMarks(e, claims, reports) <==>
            exists c, i: nat :: c in claims && ProvesFirst(e, c, reports, i) && mark in e.reportMarks(reports[i])
  {
    if claims == [] {
    } else {
      var n := |claims| - 1;
      assert claims == claims[..n] + [claims[n]] && claims[n] in claims;
      MarksAreBacked(e, claims[..n], reports, mark);
      var first := FirstProof(e, claims[n], reports, 0);
      assert Proved(e, claims[n], reports) && ProvesFirst(e, claims[n], reports, first);
      if c, i: nat :| c in claims && ProvesFirst(e, c, reports, i) && mark in e.reportMarks(reports[i]) {
        assert c == claims[n] ==> i == first;
      }
    }
  }

  ghost predicate ProvesFirst<R>(e: Evaluators<R>, c: Claim, reports: seq<R>, i: nat) {
    i < |reports| && e.proves(c, reports[i]) && forall j :: 0 <= j < i ==> !e.proves(c, reports[j])
  }

  /** The unproved claims, repetitions included, in the order of the claims. */
  ghost predicate UnprovedInOrder<R>(e: Evaluators<R>, claims: seq<Claim>, reports: seq<R>, unproved: seq<Claim>) {
    exists f: seq<nat> :: Enumerates(f, UnprovedPlaces(e, claims, reports)) && |f| == |unproved|
      && forall k :: 0 <= k < |f| ==> f[k] < |claims| && unproved[k] == claims[f[k]]
  }

  ghost function UnprovedPlaces<R>(e: Evaluators<R>, claims: seq<Claim>, reports: seq<R>): set<nat> {
    set n: nat | n < |claims| && !Proved(e, claims[n], reports)
  }

  lemma {:induction false} UnprovedExact<R>(e: Evaluators<R>, claims: seq<Claim>, reports: seq<R>) returns (f: seq<nat>)
    ensures Enumerates(f, UnprovedPlaces(e, claims, reports)) && |f| == |Unproved(e, claims, reports)|
    ensures forall k :: 0 <= k < |f| ==> f[k] < |claims| && Unproved(e, claims, reports)[k] == claims[f[k]]
  {
    if claims == [] {
      f := [];
    } else {
      var n := |claims| - 1;
      f := UnprovedExact(e, claims[..n], reports);
      LastUnproved(e, claims, reports);
      if !Proved(e, claims[n], reports) {
        EnumeratesNext(f, UnprovedPlaces(e, claims[..n], reports), n);
        f := f + [n];
      }
    }
  }

  lemma LastUnproved<R>(e: Evaluators<R>, claims: seq<Claim>, reports: seq<R>)
    requires claims != []
    ensures var n := |claims| - 1;
      UnprovedPlaces(e, claims, reports)
      == UnprovedPlaces(e, claims[..n], reports) + (if Proved(e, claims[n], reports) then {} else {n})
  {
  }

  /** None unproved means all proved. */
  lemma {:induction false} UnprovedMembers<R>(e: Evaluators<R>, claims: seq<Claim>, reports: seq<R>)
    ensures forall c :: c in Unproved(e, claims, reports) <==> c in claims && !Proved(e, c, reports)
    ensures Unproved(e, claims, reports) == [] <==> AllProved(e, claims, reports)
  {
    forall c ensures c in Unproved(e, claims, reports) <==> c in claims && !Proved(e, c, reports) {
      UnprovedMember(e, claims, reports, c);
    }
    if Unproved(e, claims, reports) != [] {
      assert Unproved(e, claims, reports)[0] in Unproved(e, claims, reports);
    }
  }

  lemma {:induction false} UnprovedMember<R>(e: Evaluators<R>, claims: seq<Claim>, reports: seq<R>, c: Claim)
    ensures c in Unproved(e, claims, reports) <==> c in claims && !Proved(e, c, reports)
  {
    if claims == [] {
    } else {
      var n := |claims| - 1;
      UnprovedMember(e, claims[..n], reports, c);
      assert claims == claims[..n] + [claims[n]];
    }
  }

  lemma {:induction false} UnprovedListed<R>(e: Evaluators<R>, claims: seq<Claim>, reports: seq<R>)
    ensures UnprovedInOrder(e, claims, reports, Unproved(e, claims, reports))
  {
    var f := UnprovedExact(e, claims, reports);
    assert Enumerates(f, UnprovedPlaces(e, claims, reports));
  }
}
