/** Carried Atlas authority: folding duplicate decisions, deciding one leg, and
    confirming the placement that actually happened. */
module AtlasBinding {
  import opened Orders
  import opened Lattice
  import opened MncsExec

  datatype Json =
    | Null
    | Bool(b: bool)
    | Int(n: int)
    | Float(repr: string)
    | Str(s: string)
    | Arr(items: seq<Json>)
    | Obj(fields: map<string, Json>)

  datatype DecisionStatus = Granted | Conditional | Denied

  datatype Decision = Decision(
    capability: string,
    status: DecisionStatus,
    missing: seq<string>,
    participant: string,
    scope: string,
    target: string,
    digest: string,
    issuer: string)

  datatype Leg = Leg(name: string, needs: seq<string>, backend: string, target: string, evidence: map<string, Json>)

  /** `verified` holds the (leg name, evidence name) pairs authenticated at load. */
  datatype Requirement = Requirement(
    taskId: string,
    sourceId: string,
    artifactId: string,
    decisions: seq<Decision>,
    legs: seq<Leg>,
    bounds: map<string, Json>,
    participant: string,
    scope: string,
    requirementId: string,
    verified: set<(string, string)>)

  datatype Acceptance = Acceptance(verdict: Grant, leg: string, outstanding: seq<string>)

  const EXECUTION_TARGET := "execution.target"
  const WORKER_DISPATCH := "worker.dispatch"

  // ---------------------------------------------------------------- folding one capability

  function DecisionGrant(d: Decision): Grant {
    match d.status
    case Denied => REFUSED
    case Conditional => if |d.missing| > 0 then UNKNOWN else GRANTED
    case Granted => GRANTED
  }

  function Grants(matches: seq<Decision>): (r: seq<Grant>)
    ensures |r| == |matches|
    ensures forall i :: 0 <= i < |matches| ==> r[i] == DecisionGrant(matches[i])
  {
    seq(|matches|, i requires 0 <= i < |matches| => DecisionGrant(matches[i]))
  }

  /** Everything any conditional decision still asks for. */
  function AllMissing(matches: seq<Decision>): seq<string> {
    if |matches| == 0 then []
    else
      AllMissing(matches[..|matches| - 1]) +
      (if matches[|matches| - 1].status.Conditional? then matches[|matches| - 1].missing else [])
  }

  lemma {:induction false} AllMissingMeaning(matches: seq<Decision>, item: string)
    ensures item in AllMissing(matches)
       <==> exists d :: d in matches && d.status.Conditional? && item in d.missing
  {
    if |matches| > 0 {
      var init, last := matches[..|matches| - 1], matches[|matches| - 1];
      AllMissingMeaning(init, item);
      assert matches == init + [last];
      if item in AllMissing(matches) {
        if item in AllMissing(init) {
          var d :| d in init && d.status.Conditional? && item in d.missing;
          assert d in matches;
        } else {
          assert last in matches;
        }
      }
    }
  }

  /** What `_fold_capability` yields for the decisions on one capability. */
  function CapabilityFold(capability: string, matches: seq<Decision>): Acceptance {
    Acceptance(FoldGrants(Grants(matches)), capability, SortedSet(StrLe, AllMissing(matches)))
  }

  method FoldCapability(capability: string, matches: seq<Decision>) returns (r: Acceptance)
    ensures r == CapabilityFold(capability, matches)
  {
    var verdict := FoldMarshalled(Grants(matches));
    var outstanding: seq<string> := [];
    for i := 0 to |matches|
      invariant SortedBy(StrLe, outstanding) && Distinct(outstanding)
      invariant SameElements(outstanding, AllMissing(matches[..i]))
    {
      var d := matches[i];
      assert matches[..i + 1][..i] == matches[..i];
      if d.status.Conditional? {
        ghost var before := outstanding;
        outstanding := CollectMissing(outstanding, d.missing);
        forall x ensures x in outstanding <==> x in AllMissing(matches[..i + 1]) {
          assert x in outstanding <==> x in before || x in d.missing;
        }
      }
    }
    assert matches[..|matches|] == matches;
    StrOrder();
    SortedSetMeaning(StrLe, AllMissing(matches));
    StrictlySortedUnique(StrLe, outstanding, SortedSet(StrLe, AllMissing(matches)));
    return Acceptance(verdict, capability, outstanding);
  }

  /** The inner loop: append each new missing item, then sort. */
  method CollectMissing(known: seq<string>, missing: seq<string>) returns (outstanding: seq<string>)
    requires SortedBy(StrLe, known) && Distinct(known)
    ensures SortedBy(StrLe, outstanding) && Distinct(outstanding)
    ensures forall x :: x in outstanding <==> x in known || x in missing
  {
    StrOrder();
    var wanted := SortedSet(StrLe, missing);
    SortedSetMeaning(StrLe, missing);
    if |wanted| == 0 {
      forall x ensures x !in missing { assert x !in wanted; }
      return known;
    }
    outstanding := known;
    for k := 0 to |wanted|
      invariant Distinct(outstanding)
      invariant forall x :: x in outstanding <==> x in known || x in wanted[..k]
    {
      if wanted[k] !in outstanding { outstanding := outstanding + [wanted[k]]; }
      assert wanted[..k + 1] == wanted[..k] + [wanted[k]];
    }
    assert wanted[..|wanted|] == wanted;
    SortSorted(StrLe, outstanding);
    SortKeepsDistinct(StrLe, outstanding);
    SameMultisetSameElements(Sort(StrLe, outstanding), outstanding);
    outstanding := Sort(StrLe, outstanding);
  }

  lemma {:induction false} SortKeepsDistinct<T(!new)>(le: (T, T) -> bool, xs: seq<T>)
    requires Distinct(xs)
    ensures Distinct(Sort(le, xs))
  {
    if |xs| > 0 {
      SortKeepsDistinct(le, xs[1..]);
      SameMultisetSameElements(Sort(le, xs[1..]), xs[1..]);
      InsertDistinct(le, xs[0], Sort(le, xs[1..]));
    }
  }

  // ---------------------------------------------------------------- all capabilities

  /** The decisions on one capability, in carried order. */
  function ForCapability(decisions: seq<Decision>, capability: string): seq<Decision> {
    if |decisions| == 0 then []
    else
      ForCapability(decisions[..|decisions| - 1], capability) +
      (if decisions[|decisions| - 1].capability == capability then [decisions[|decisions| - 1]] else [])
  }

  lemma {:induction false} ForCapabilityMeaning(decisions: seq<Decision>, capability: string, d: Decision)
    ensures d in ForCapability(decisions, capability) <==> d in decisions && d.capability == capability
  {
    if |decisions| > 0 {
      ForCapabilityMeaning(decisions[..|decisions| - 1], capability, d);
      assert decisions == decisions[..|decisions| - 1] + [decisions[|decisions| - 1]];
    }
  }

  function Capabilities(decisions: seq<Decision>): set<string> {
    set d | d in decisions :: d.capability
  }

  function AuthorizedTargets(decisions: seq<Decision>, capability: string): set<string> {
    set d | d in decisions && d.capability == capability && d.target != "" :: d.target
  }

  /** The dictionary `_folds` builds first: each capability with its decisions in carried order. */
  function Grouped(decisions: seq<Decision>): map<string, seq<Decision>> {
    map c | c in Capabilities(decisions) :: ForCapability(decisions, c)
  }

  /** One fold per decided capability. */
  function AllFolds(decisions: seq<Decision>): map<string, Acceptance> {
    map c | c in Capabilities(decisions) :: CapabilityFold(c, ForCapability(decisions, c))
  }

  method Folds(decisions: seq<Decision>) returns (folds: map<string, Acceptance>)
    ensures folds == AllFolds(decisions)
  {
    var grouped := GroupByCapability(decisions);
    folds := map[];
    var todo := grouped.Keys;
    while todo != {}
      invariant todo <= grouped.Keys && folds.Keys == grouped.Keys - todo
      invariant forall c :: c in folds ==> folds[c] == CapabilityFold(c, grouped[c])
      decreases todo
    {
      var c :| c in todo;
      var fold := FoldCapability(c, grouped[c]);
      folds := folds[c := fold];
      todo := todo - {c};
    }
  }

  method GroupByCapability(decisions: seq<Decision>) returns (grouped: map<string, seq<Decision>>)
    ensures grouped == Grouped(decisions)
  {
    grouped := map[];
    for i := 0 to |decisions|
      invariant grouped == Grouped(decisions[..i])
    {
      var d := decisions[i];
      var known := if d.capability in grouped then grouped[d.capability] else [];
      GroupStep(decisions[..i], d);
      assert decisions[..i + 1] == decisions[..i] + [d];
      grouped := grouped[d.capability := known + [d]];
    }
    assert decisions[..|decisions|] == decisions;
  }

  lemma CapabilitiesStep(head: seq<Decision>, d: Decision)
    ensures Capabilities(head + [d]) == Capabilities(head) + {d.capability}
  {
    assert d in head + [d];
    forall c | c in Capabilities(head) ensures c in Capabilities(head + [d]) {
      var e :| e in head && e.capability == c;
      assert e in head + [d];
    }
  }

  lemma UndecidedIsEmpty(decisions: seq<Decision>, c: string)
    requires c !in Capabilities(decisions)
    ensures ForCapability(decisions, c) == []
  {
    var matches := ForCapability(decisions, c);
    if |matches| > 0 { ForCapabilityMeaning(decisions, c, matches[0]); }
  }

  lemma GroupStep(head: seq<Decision>, d: Decision)
    ensures var g := Grouped(head);
      Grouped(head + [d]) == g[d.capability := (if d.capability in g then g[d.capability] else []) + [d]]
  {
    CapabilitiesStep(head, d);
    assert (head + [d])[..|head + [d]| - 1] == head;
    if d.capability !in Capabilities(head) { UndecidedIsEmpty(head, d.capability); }
    var g := Grouped(head);
    var after := g[d.capability := (if d.capability in g then g[d.capability] else []) + [d]];
    assert Grouped(head + [d]).Keys == after.Keys;
    forall c | c in after ensures Grouped(head + [d])[c] == after[c] {
      assert ForCapability(head + [d], c) == ForCapability(head, c) + (if d.capability == c then [d] else []);
    }
  }

  // ---------------------------------------------------------------- one leg

  function FindLeg(legs: seq<Leg>, name: string): (r: Option<Leg>)
    ensures r.Some? ==> r.value in legs && r.value.name == name
    ensures r.None? <==> forall leg :: leg in legs ==> leg.name != name
  {
    if |legs| == 0 then None
    else if legs[0].name == name then Some(legs[0])
    else
      assert legs == [legs[0]] + legs[1..];
      FindLeg(legs[1..], name)
  }

  /** The evidence items that count as supplied when the leg consumes the capability. */
  predicate Supplied(r: Requirement, leg: Leg, need: string, item: string) {
    || (leg.name, item) in r.verified
    || (item == EXECUTION_TARGET && leg.target != "" && AuthorizedTargets(r.decisions, need) != {})
  }

  /** The verdict one need contributes to its leg. */
  function NeedVerdict(r: Requirement, leg: Leg, need: string): Grant {
    var targets := AuthorizedTargets(r.decisions, need);
    var fold := CapabilityFold(need, ForCapability(r.decisions, need));
    if need !in Capabilities(r.decisions) then REFUSED
    else if targets != {} && leg.target !in targets then REFUSED
    else if fold.verdict == UNKNOWN then
      if exists item :: item in fold.outstanding && !Supplied(r, leg, need, item) then UNKNOWN else GRANTED
    else fold.verdict
  }

  function NeedVerdicts(r: Requirement, leg: Leg): (v: seq<Grant>)
    ensures |v| == |leg.needs|
    ensures forall i :: 0 <= i < |v| ==> v[i] == NeedVerdict(r, leg, leg.needs[i])
  {
    seq(|leg.needs|, i requires 0 <= i < |leg.needs| => NeedVerdict(r, leg, leg.needs[i]))
  }

  /** Whether the observed artifact contradicts the bound one. */
  predicate Tampered(r: Requirement, observed: string) {
    observed != "" && observed != r.artifactId
  }

  /** The lattice join of the per-need verdicts of the named leg. */
  function AcceptVerdict(r: Requirement, legName: string, observed: string): Grant {
    match FindLeg(r.legs, legName)
    case None => REFUSED
    case Some(leg) => if Tampered(r, observed) then REFUSED else FoldGrants(NeedVerdicts(r, leg))
  }

  method Accept(r: Requirement, legName: string, observed: string) returns (a: Acceptance)
    ensures a == Acceptance(AcceptVerdict(r, legName, observed), legName, [])
  {
    var found := FindLeg(r.legs, legName);
    if found.None? { return Acceptance(REFUSED, legName, []); }
    if Tampered(r, observed) { return Acceptance(REFUSED, legName, []); }
    var leg := found.value;
    var folds := Folds(r.decisions);
    var verdict := GRANTED;
    for i := 0 to |leg.needs|
      invariant verdict == FoldGrants(NeedVerdicts(r, leg)[..i])
    {
      var need := leg.needs[i];
      assert NeedVerdicts(r, leg)[..i + 1] == NeedVerdicts(r, leg)[..i] + [NeedVerdict(r, leg, need)];
      FoldAppend(FoldPair, GRANTED, NeedVerdicts(r, leg)[..i], NeedVerdict(r, leg, need));
      if need !in folds {
        verdict := REFUSED;
      } else {
        var fold := folds[need];
        var distinct := AuthorizedTargets(r.decisions, need);
        if distinct != {} && leg.target !in distinct {
          verdict := REFUSED;
        } else if fold.verdict == REFUSED {
          verdict := REFUSED;
        } else if fold.verdict == UNKNOWN {
          var pending := Outstanding(r, leg, need, fold.outstanding);
          if |pending| > 0 {
            assert pending[0] in pending;
            if verdict == GRANTED { verdict := UNKNOWN; }
          } else {
            assert forall x :: x !in pending;
          }
        }
      }
    }
    assert NeedVerdicts(r, leg)[..|leg.needs|] == NeedVerdicts(r, leg);
    return Acceptance(verdict, legName, []);
  }

  /** The items of the fold that nothing supplies. */
  method Outstanding(r: Requirement, leg: Leg, need: string, items: seq<string>) returns (pending: seq<string>)
    ensures forall x :: x in pending <==> x in items && !Supplied(r, leg, need, x)
  {
    pending := [];
    for k := 0 to |items|
      invariant forall x :: x in pending <==> x in items[..k] && !Supplied(r, leg, need, x)
    {
      assert items[..k + 1] == items[..k] + [items[k]];
      if !Supplied(r, leg, need, items[k]) { pending := pending + [items[k]]; }
    }
    assert items[..|items|] == items;
  }

  // ---------------------------------------------------------------- when a leg is granted

  /** Some decision was carried for the capability, and it tolerates the leg's target. */
  ghost predicate Placeable(r: Requirement, leg: Leg, need: string) {
    && (exists d :: d in r.decisions && d.capability == need)
    && ((exists d :: d in r.decisions && d.capability == need && d.target != "") ==>
        exists d :: d in r.decisions && d.capability == need && d.target != "" && d.target == leg.target)
  }

  ghost predicate DeniedBy(r: Requirement, need: string) {
    exists d :: d in r.decisions && d.capability == need && d.status.Denied?
  }

  /** The item was authenticated for the leg at load, or it is the execution target and a decision on the need names
      the leg's own, non-empty target. */
  ghost predicate Evidenced(r: Requirement, leg: Leg, need: string, item: string) {
    || (leg.name, item) in r.verified
    || (item == "execution.target" && leg.target != ""
        && exists d :: d in r.decisions && d.capability == need && d.target == leg.target)
  }

  /** A conditional decision still waits for an item without evidence. */
  ghost predicate AwaitsEvidence(r: Requirement, leg: Leg, need: string) {
    exists d, item :: d in r.decisions && d.capability == need && d.status.Conditional? && item in d.missing
                   && !Evidenced(r, leg, need, item)
  }

  /** Where the leg's target is tolerated, the items counted as supplied are the evidenced ones. */
  lemma SuppliedMeaning(r: Requirement, leg: Leg, need: string, item: string)
    requires Placeable(r, leg, need)
    ensures Supplied(r, leg, need, item) <==> Evidenced(r, leg, need, item)
  {
    TargetsMeaning(r.decisions, need);
    if d :| d in r.decisions && d.capability == need && d.target != "" && d.target == leg.target {
      assert d.target in AuthorizedTargets(r.decisions, need);
    }
  }

  /** A leg is looked up as the first one that carries the name. */
  lemma {:induction false} FindLegIsFirst(legs: seq<Leg>, name: string)
    ensures FindLeg(legs, name).Some? <==> exists i :: 0 <= i < |legs| && legs[i].name == name
    ensures FindLeg(legs, name).Some? ==>
      exists i :: 0 <= i < |legs| && legs[i] == FindLeg(legs, name).value && legs[i].name == name
               && forall j :: 0 <= j < i ==> legs[j].name != name
  {
    if |legs| > 0 && legs[0].name != name {
      FindLegIsFirst(legs[1..], name);
      if FindLeg(legs, name).Some? {
        var i :| 0 <= i < |legs[1..]| && legs[1..][i] == FindLeg(legs[1..], name).value && legs[1..][i].name == name
              && forall j :: 0 <= j < i ==> legs[1..][j].name != name;
        assert legs[i + 1] == legs[1..][i];
        forall j | 0 <= j < i + 1 ensures legs[j].name != name { assert j > 0 ==> legs[j] == legs[1..][j - 1]; }
      }
    }
  }

  lemma TargetsMeaning(decisions: seq<Decision>, need: string)
    ensures AuthorizedTargets(decisions, need) != {}
       <==> exists d :: d in decisions && d.capability == need && d.target != ""
  {
    if d :| d in decisions && d.capability == need && d.target != "" {
      assert d.target in AuthorizedTargets(decisions, need);
    }
    if AuthorizedTargets(decisions, need) != {} {
      var t :| t in AuthorizedTargets(decisions, need);
    }
  }

  /** The verdict of a capability's fold, read off the decisions themselves. */
  lemma FoldVerdictMeaning(r: Requirement, need: string)
    ensures var v := CapabilityFold(need, ForCapability(r.decisions, need)).verdict;
      && (v == REFUSED <==> DeniedBy(r, need))
      && (v == UNKNOWN ==> !DeniedBy(r, need))
      && (v == GRANTED ==>
            forall d :: d in r.decisions && d.capability == need && d.status.Conditional? ==> d.missing == [])
  {
    var matches := ForCapability(r.decisions, need);
    var grants := Grants(matches);
    FoldGrantsWorst(grants);
    forall d ensures d in matches <==> d in r.decisions && d.capability == need {
      ForCapabilityMeaning(r.decisions, need, d);
    }
    if REFUSED in grants {
      var i :| 0 <= i < |grants| && grants[i] == REFUSED;
      assert matches[i] in matches;
    }
    forall d | d in matches ensures DecisionGrant(d) in grants {
      var i :| 0 <= i < |matches| && matches[i] == d;
      assert grants[i] == DecisionGrant(d);
    }
  }

  /** The strictly sorted union of the missing items: nothing lost, nothing added, nothing repeated. */
  lemma OutstandingMeaning(decisions: seq<Decision>, need: string)
    ensures var out := CapabilityFold(need, ForCapability(decisions, need)).outstanding;
      && SortedBy(StrLe, out) && Distinct(out)
      && forall item :: item in out <==>
           exists d :: d in decisions && d.capability == need && d.status.Conditional? && item in d.missing
  {
    var matches := ForCapability(decisions, need);
    StrOrder();
    SortedSetMeaning(StrLe, AllMissing(matches));
    forall d ensures d in matches <==> d in decisions && d.capability == need {
      ForCapabilityMeaning(decisions, need, d);
    }
    forall item ensures item in AllMissing(matches) <==>
        exists d :: d in decisions && d.capability == need && d.status.Conditional? && item in d.missing
    {
      AllMissingMeaning(matches, item);
      if d :| d in decisions && d.capability == need && d.status.Conditional? && item in d.missing {
        assert d in matches;
      }
    }
  }

  /** Each need's verdict, characterised without any fold. */
  lemma NeedVerdictExactly(r: Requirement, leg: Leg, need: string)
    ensures NeedVerdict(r, leg, need) == REFUSED <==> !Placeable(r, leg, need) || DeniedBy(r, need)
    ensures NeedVerdict(r, leg, need) == GRANTED
       <==> Placeable(r, leg, need) && !DeniedBy(r, need) && !AwaitsEvidence(r, leg, need)
  {
    var fold := CapabilityFold(need, ForCapability(r.decisions, need));
    TargetsMeaning(r.decisions, need);
    FoldVerdictMeaning(r, need);
    assert need in Capabilities(r.decisions) <==> exists d :: d in r.decisions && d.capability == need;
    assert leg.target in AuthorizedTargets(r.decisions, need)
      <==> exists d :: d in r.decisions && d.capability == need && d.target != "" && d.target == leg.target;
    if Placeable(r, leg, need) { PendingMeaning(r, leg, need); }
  }

  /** Some outstanding item of the fold is unsupplied exactly when a conditional decision still waits. */
  lemma PendingMeaning(r: Requirement, leg: Leg, need: string)
    requires Placeable(r, leg, need)
    ensures var out := CapabilityFold(need, ForCapability(r.decisions, need)).outstanding;
      (exists item :: item in out && !Supplied(r, leg, need, item)) <==> AwaitsEvidence(r, leg, need)
  {
    OutstandingMeaning(r.decisions, need);
    var out := CapabilityFold(need, ForCapability(r.decisions, need)).outstanding;
    if item :| item in out && !Supplied(r, leg, need, item) {
      SuppliedMeaning(r, leg, need, item);
      var d :| d in r.decisions && d.capability == need && d.status.Conditional? && item in d.missing;
    }
    if AwaitsEvidence(r, leg, need) {
      var d, item :| d in r.decisions && d.capability == need && d.status.Conditional? && item in d.missing
                  && !Evidenced(r, leg, need, item);
      SuppliedMeaning(r, leg, need, item);
    }
  }

  /** Every need of the leg is decided, placeable, undenied and fully evidenced. */
  ghost predicate NeedsMet(r: Requirement, leg: Leg) {
    forall need :: need in leg.needs ==>
      Placeable(r, leg, need) && !DeniedBy(r, need) && !AwaitsEvidence(r, leg, need)
  }

  /** GRANTED exactly when the leg exists, no other artifact was observed, and every need is
      decided, placeable, undenied and fully evidenced; UNKNOWN only for want of evidence. */
  lemma AcceptExactly(r: Requirement, legName: string, observed: string)
    ensures AcceptVerdict(r, legName, observed) == GRANTED <==>
      && FindLeg(r.legs, legName).Some? && (observed == "" || observed == r.artifactId)
      && NeedsMet(r, FindLeg(r.legs, legName).value)
    ensures AcceptVerdict(r, legName, observed) == REFUSED <==>
      (FindLeg(r.legs, legName).Some? && (observed == "" || observed == r.artifactId) ==>
       var leg := FindLeg(r.legs, legName).value;
       exists need :: need in leg.needs && (!Placeable(r, leg, need) || DeniedBy(r, need)))
  {
    var found := FindLeg(r.legs, legName);
    if found.Some? && !Tampered(r, observed) {
      FoldGrantsWorst(NeedVerdicts(r, found.value));
      VerdictsMeaning(r, found.value);
    }
  }

  /** The verdicts of a leg's needs: all GRANTED exactly when its needs are met, one REFUSED exactly when a need is
      undecided, misplaced or denied. */
  lemma VerdictsMeaning(r: Requirement, leg: Leg)
    ensures (forall v :: v in NeedVerdicts(r, leg) ==> v == GRANTED) <==> NeedsMet(r, leg)
    ensures REFUSED in NeedVerdicts(r, leg) <==>
      exists need :: need in leg.needs && (!Placeable(r, leg, need) || DeniedBy(r, need))
  {
    var verdicts := NeedVerdicts(r, leg);
    forall need | need in leg.needs
      ensures NeedVerdict(r, leg, need) in verdicts
      ensures NeedVerdict(r, leg, need) == REFUSED <==> !Placeable(r, leg, need) || DeniedBy(r, need)
      ensures NeedVerdict(r, leg, need) == GRANTED
         <==> Placeable(r, leg, need) && !DeniedBy(r, need) && !AwaitsEvidence(r, leg, need)
    {
      var i :| 0 <= i < |leg.needs| && leg.needs[i] == need;
      assert verdicts[i] == NeedVerdict(r, leg, need);
      NeedVerdictExactly(r, leg, need);
    }
    forall v | v in verdicts ensures exists need :: need in leg.needs && v == NeedVerdict(r, leg, need) {
      var i :| 0 <= i < |verdicts| && verdicts[i] == v;
      assert leg.needs[i] in leg.needs;
    }
  }

  /** An observed artifact other than the bound one refuses every leg; any other observation changes nothing. */
  lemma ObservedArtifactDecides(r: Requirement, legName: string, observed: string)
    ensures observed != "" && observed != r.artifactId ==> AcceptVerdict(r, legName, observed) == REFUSED
    ensures observed == "" || observed == r.artifactId ==>
              AcceptVerdict(r, legName, observed) == AcceptVerdict(r, legName, "")
  {
    AcceptExactly(r, legName, observed);
    AcceptExactly(r, legName, "");
  }
}
