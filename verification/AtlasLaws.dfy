/** What a decided leg promises: order independence, the effect of extra material,
    and the confirmation of the placement that actually happened. */
module AtlasLaws {
  import opened Orders
  import opened Lattice
  import opened MncsExec
  import opened AtlasBinding

  const FABRIC_INVENTORY := "fabric-inventory"
  const OPERATOR_ASSERTED := "operator-asserted"
  const FABRIC_LEGACY := "fabric-legacy"

  // ---------------------------------------------------------------- order independence

  ghost predicate DistinctLegNames(legs: seq<Leg>) {
    forall i, j :: 0 <= i < j < |legs| ==> legs[i].name != legs[j].name
  }

  lemma FindLegForgetsOrder(legs: seq<Leg>, others: seq<Leg>, name: string)
    requires DistinctLegNames(legs) && SameElements(legs, others)
    ensures FindLeg(legs, name) == FindLeg(others, name)
  {
    var a, b := FindLeg(legs, name), FindLeg(others, name);
    if a.Some? && b.Some? {
      assert b.value in legs;
      var i :| 0 <= i < |legs| && legs[i] == a.value;
      var j :| 0 <= j < |legs| && legs[j] == b.value;
      assert i == j;
    }
  }

  /** Carried order and repetition of decisions, and the listing order of needs and
      distinctly named legs, never reach a verdict or an outstanding list. */
  lemma AcceptForgetsOrder(r: Requirement, q: Requirement, legName: string, observed: string)
    requires SameElements(r.decisions, q.decisions)
    requires r.artifactId == q.artifactId && r.verified == q.verified
    requires FindLeg(r.legs, legName).Some? <==> FindLeg(q.legs, legName).Some?
    requires FindLeg(r.legs, legName).Some? ==>
               var a, b := FindLeg(r.legs, legName).value, FindLeg(q.legs, legName).value;
               a.target == b.target && SameElements(a.needs, b.needs)
    ensures AcceptVerdict(r, legName, observed) == AcceptVerdict(q, legName, observed)
  {
    AcceptExactly(r, legName, observed);
    AcceptExactly(q, legName, observed);
    assert forall need :: DeniedBy(r, need) <==> DeniedBy(q, need);
    assert forall c :: AuthorizedTargets(r.decisions, c) == AuthorizedTargets(q.decisions, c);
    if FindLeg(r.legs, legName).Some? {
      var a, b := FindLeg(r.legs, legName).value, FindLeg(q.legs, legName).value;
      assert forall need, item :: Evidenced(r, a, need, item) <==> Evidenced(q, b, need, item);
      forall need
        ensures Placeable(r, a, need) <==> Placeable(q, b, need)
        ensures AwaitsEvidence(r, a, need) <==> AwaitsEvidence(q, b, need)
      {
        SameDecisionsSamePlacement(r, q, a, b, need);
        SameDecisionsSameEvidence(r, q, a, b, need);
      }
    }
  }

  lemma SameDecisionsSamePlacement(r: Requirement, q: Requirement, a: Leg, b: Leg, need: string)
    requires SameElements(r.decisions, q.decisions) && a.target == b.target
    ensures Placeable(r, a, need) <==> Placeable(q, b, need)
  {
  }

  lemma SameDecisionsSameEvidence(r: Requirement, q: Requirement, a: Leg, b: Leg, need: string)
    requires SameElements(r.decisions, q.decisions)
    requires forall item :: Evidenced(r, a, need, item) <==> Evidenced(q, b, need, item)
    ensures AwaitsEvidence(r, a, need) <==> AwaitsEvidence(q, b, need)
  {
  }

  /** Duplicate decisions fold to the same verdict and the same outstanding list in any order. */
  lemma FoldForgetsDecisionOrder(ds: seq<Decision>, es: seq<Decision>, need: string)
    requires SameElements(ds, es)
    ensures CapabilityFold(need, ForCapability(ds, need)) == CapabilityFold(need, ForCapability(es, need))
  {
    var a, b := ForCapability(ds, need), ForCapability(es, need);
    forall d ensures d in a <==> d in b {
      ForCapabilityMeaning(ds, need, d);
      ForCapabilityMeaning(es, need, d);
    }
    GrantsOfSameDecisions(a, b);
    GrantsForgetOrder(Grants(a), Grants(b));
    forall item ensures item in AllMissing(a) <==> item in AllMissing(b) {
      AllMissingMeaning(a, item);
      AllMissingMeaning(b, item);
    }
    StrOrder();
    SortedSetForgetsOrder(StrLe, AllMissing(a), AllMissing(b));
  }

  lemma GrantsOfSameDecisions(a: seq<Decision>, b: seq<Decision>)
    requires SameElements(a, b)
    ensures SameElements(Grants(a), Grants(b))
  {
    forall g ensures g in Grants(a) <==> g in Grants(b) {
      if g in Grants(a) {
        var i :| 0 <= i < |a| && Grants(a)[i] == g;
        assert a[i] in b;
        var j :| 0 <= j < |b| && b[j] == a[i];
        assert Grants(b)[j] == g;
      }
      if g in Grants(b) {
        var i :| 0 <= i < |b| && Grants(b)[i] == g;
        assert b[i] in a;
        var j :| 0 <= j < |a| && a[j] == b[i];
        assert Grants(a)[j] == g;
      }
    }
  }

  // ---------------------------------------------------------------- extra material

  /** Authenticating more evidence never lowers a verdict. */
  lemma MoreEvidenceNeverLowers(r: Requirement, extra: set<(string, string)>, legName: string, observed: string)
    ensures Below(FoldPair, AcceptVerdict(r.(verified := r.verified + extra), legName, observed),
                            AcceptVerdict(r, legName, observed))
  {
    var q := r.(verified := r.verified + extra);
    AcceptExactly(r, legName, observed);
    AcceptExactly(q, legName, observed);
    assert forall need :: DeniedBy(r, need) <==> DeniedBy(q, need);
    if FindLeg(r.legs, legName).Some? {
      var leg := FindLeg(r.legs, legName).value;
      assert forall need, item :: Evidenced(r, leg, need, item) ==> Evidenced(q, leg, need, item);
      assert forall need :: AwaitsEvidence(q, leg, need) ==> AwaitsEvidence(r, leg, need);
      assert forall need :: Placeable(r, leg, need) <==> Placeable(q, leg, need);
    }
  }

  /** One more decision on a capability already decided never raises a verdict, unless
      it authorizes the very target the leg declares. */
  lemma ExtraDecisionNeverRaises(r: Requirement, extra: Decision, at: nat, legName: string, observed: string)
    requires at <= |r.decisions|
    requires exists d :: d in r.decisions && d.capability == extra.capability
    requires FindLeg(r.legs, legName).Some? && extra.target != "" ==>
        extra.target != FindLeg(r.legs, legName).value.target
    ensures Below(FoldPair, AcceptVerdict(r, legName, observed),
                  AcceptVerdict(r.(decisions := r.decisions[..at] + [extra] + r.decisions[at..]), legName, observed))
  {
    var q := r.(decisions := r.decisions[..at] + [extra] + r.decisions[at..]);
    forall d ensures d in q.decisions <==> d == extra || d in r.decisions {
      assert r.decisions == r.decisions[..at] + r.decisions[at..];
    }
    AcceptExactly(r, legName, observed);
    AcceptExactly(q, legName, observed);
    forall need ensures DeniedBy(r, need) ==> DeniedBy(q, need) {
    }
    if FindLeg(r.legs, legName).Some? {
      var leg := FindLeg(r.legs, legName).value;
      forall need ensures Placeable(q, leg, need) ==> Placeable(r, leg, need) {
      }
      forall need, item | Placeable(q, leg, need) && Evidenced(q, leg, need, item)
        ensures Evidenced(r, leg, need, item)
      {
      }
      forall need | Placeable(q, leg, need) && AwaitsEvidence(r, leg, need) ensures AwaitsEvidence(q, leg, need) {
        var d, item :| d in r.decisions && d.capability == need && d.status.Conditional? && item in d.missing
                    && !Evidenced(r, leg, need, item);
        assert d in q.decisions && !Evidenced(q, leg, need, item);
      }
    }
  }

  lemma SingleNeed(r: Requirement, leg: Leg, need: string)
    requires r.legs == [leg] && leg.needs == [need]
    ensures AcceptVerdict(r, leg.name, "") == NeedVerdict(r, leg, need)
  {
    assert NeedVerdicts(r, leg) == [NeedVerdict(r, leg, need)];
    KernelLattices();
    FoldSingle(FoldPair, GRANTED, NeedVerdict(r, leg, need));
  }

  function SampleRequirement(decisions: seq<Decision>, leg: Leg): Requirement {
    Requirement("t", "s", "a", decisions, [leg], map[], "p", "q", "id", {})
  }

  /** The two excluded cases do raise: a first decision on an undecided capability ... */
  lemma FirstDecisionRaises(leg: Leg, first: Decision)
    requires leg.needs == [first.capability] && first.status.Granted? && first.target == ""
    ensures AcceptVerdict(SampleRequirement([], leg), leg.name, "") == REFUSED
    ensures AcceptVerdict(SampleRequirement([first], leg), leg.name, "") == GRANTED
  {
    var before, after := SampleRequirement([], leg), SampleRequirement([first], leg);
    SingleNeed(before, leg, first.capability);
    SingleNeed(after, leg, first.capability);
    NeedVerdictExactly(after, leg, first.capability);
    assert first in after.decisions;
  }

  /** ... and a further authorization for the leg's own target. */
  lemma FurtherTargetRaises(leg: Leg, elsewhere: Decision)
    requires leg.needs == [elsewhere.capability] && leg.target != ""
    requires elsewhere.status.Granted? && elsewhere.target != "" && elsewhere.target != leg.target
    ensures AcceptVerdict(SampleRequirement([elsewhere], leg), leg.name, "") == REFUSED
    ensures AcceptVerdict(SampleRequirement([elsewhere, elsewhere.(target := leg.target)], leg), leg.name, "")
        == GRANTED
  {
    var here := elsewhere.(target := leg.target);
    var need := elsewhere.capability;
    var before, after := SampleRequirement([elsewhere], leg), SampleRequirement([elsewhere, here], leg);
    SingleNeed(before, leg, need);
    SingleNeed(after, leg, need);
    assert NeedVerdict(before, leg, need) == REFUSED by {
      assert elsewhere in before.decisions;
      assert !Placeable(before, leg, need);
      NeedVerdictExactly(before, leg, need);
    }
    assert NeedVerdict(after, leg, need) == GRANTED by {
      assert here in after.decisions;
      assert Placeable(after, leg, need);
      assert forall d :: d in after.decisions ==> d.status.Granted?;
      assert !DeniedBy(after, need) && !AwaitsEvidence(after, leg, need);
      NeedVerdictExactly(after, leg, need);
    }
  }

  // ---------------------------------------------------------------- confirming the placement

  predicate OperatorProof(origin: string) {
    origin == FABRIC_INVENTORY || origin == OPERATOR_ASSERTED
  }

  /** Accept, then bind the worker Fabric reports to the leg's target. */
  function ConfirmVerdict(r: Requirement, legName: string, actual: string, origin: string, proofFresh: bool,
      observed: string): Grant
  {
    var accepted := AcceptVerdict(r, legName, observed);
    if accepted != GRANTED then accepted
    else
      var leg := FindLeg(r.legs, legName).value;
      if origin == FABRIC_LEGACY then
        if actual != "" && leg.target != "" && actual != leg.target then REFUSED else UNKNOWN
      else if actual == "" then REFUSED
      else if !OperatorProof(origin) then REFUSED
      else if !proofFresh then UNKNOWN
      else if leg.target == "" then UNKNOWN
      else if DispatchGate(GRANTED, actual == leg.target) != GRANTED then REFUSED
      else GRANTED
  }

  /** Confirmation only ever demotes, and of an accepted leg it grants exactly the leg's own, non-empty target
      reported on a fresh operator channel. It refuses exactly another target: on the legacy channel, or on fresh
      operator proof; and elsewhere a missing worker or a channel that is not the operator's. */
  lemma ConfirmExactly(r: Requirement, legName: string, actual: string, origin: string, proofFresh: bool,
      observed: string)
    ensures var accepted := AcceptVerdict(r, legName, observed);
      var confirmed := ConfirmVerdict(r, legName, actual, origin, proofFresh, observed);
      && Below(FoldPair, accepted, confirmed)
      && (accepted != GRANTED ==> confirmed == accepted)
      && (accepted == GRANTED ==>
            FindLeg(r.legs, legName).Some? &&
            var target := FindLeg(r.legs, legName).value.target;
            && (confirmed == GRANTED <==>
                  (origin == "fabric-inventory" || origin == "operator-asserted") && proofFresh
                  && actual == target && actual != "")
            && (confirmed == REFUSED <==>
                  if origin == "fabric-legacy" then actual != "" && target != "" && actual != target
                  else actual == "" || (origin != "fabric-inventory" && origin != "operator-asserted")
                       || (proofFresh && target != "" && actual != target)))
  {
    AcceptExactly(r, legName, observed);
  }
}
