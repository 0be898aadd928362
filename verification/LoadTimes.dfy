/** How a loaded requirement depends on the time it is loaded at. */
module LoadTimes {
  import opened Orders
  import opened MncsExec
  import opened AtlasBinding
  import opened AtlasLaws
  import opened RequirementLoad
  import opened LoadLaws

  lemma ParseDecisionIgnoresClock(t: Terms, now: int, value: Json)
    ensures ParseDecision(t, value) == ParseDecision(t.(now := now), value)
  {
    if value.Obj? { assert Issuer(t, value.fields) == Issuer(t.(now := now), value.fields); }
  }

  lemma {:induction false} ParseDecisionsIgnoresClock(t: Terms, now: int, items: seq<Json>)
    ensures ParseDecisions(t, items) == ParseDecisions(t.(now := now), items)
  {
    if |items| > 0 {
      ParseDecisionsIgnoresClock(t, now, items[..|items| - 1]);
      ParseDecisionIgnoresClock(t, now, items[|items| - 1]);
    }
  }

  /** The requirement as a load at another time authenticates its evidence. */
  function At(t: Terms, r: Requirement, now: int): Requirement {
    r.(verified := VerifiedPairs(t.(now := now), r.participant, r.scope, r.legs))
  }

  lemma LoadIgnoresClock(t: Terms, now: int, value: Json)
    ensures Load(t, value).Some? <==> Load(t.(now := now), value).Some?
    ensures Load(t, value).Some? ==> Load(t.(now := now), value).value == At(t, Load(t, value).value, now)
  {
    if value.Obj? && HeaderOk(t, value.fields) {
      ParseDecisionsIgnoresClock(t, now, Get(value.fields, "atlas_decisions").items);
    }
  }

  /** The window of the value's issue time does not wrap before the given time. */
  predicate Reaches(value: Json, late: int) {
    value.Obj? && Get(value.fields, "issued_at").Int? ==> late - Get(value.fields, "issued_at").n < TWO_63
  }

  /** No carried value was issued 2^63 instants or more before the given time; at 64-bit times this holds of every
      value issued since the epoch. */
  ghost predicate NoWrap(legs: seq<Leg>, late: int) {
    forall leg, name :: leg in legs && name in leg.evidence ==> Reaches(leg.evidence[name], late)
  }

  /** One carried value is admitted at the load times of a single interval, up to the time its window wraps. */
  lemma AttestationTimesConvex(t: Terms, early: int, middle: int, late: int, value: Json, name: string,
      participant: string, scope: string)
    requires early <= middle <= late && Reaches(value, late)
    requires CheckAttestation(t.(now := early), value, name, participant, scope)
    requires CheckAttestation(t.(now := late), value, name, participant, scope)
    ensures CheckAttestation(t.(now := middle), value, name, participant, scope)
  {
    assert Issuer(t.(now := middle), value.fields) == Issuer(t.(now := early), value.fields);
  }

  /** With distinct leg names, and until a window wraps, the load times at which a leg is GRANTED form an interval. */
  lemma GrantedTimesConvex(t: Terms, early: int, middle: int, late: int, value: Json, legName: string, observed: string)
    requires early <= middle <= late
    requires Load(t.(now := early), value).Some? && DistinctLegNames(Load(t.(now := early), value).value.legs)
    requires NoWrap(Load(t.(now := early), value).value.legs, late)
    requires Load(t.(now := late), value).Some?
    requires AcceptVerdict(Load(t.(now := early), value).value, legName, observed) == GRANTED
    requires AcceptVerdict(Load(t.(now := late), value).value, legName, observed) == GRANTED
    ensures Load(t.(now := middle), value).Some?
    ensures AcceptVerdict(Load(t.(now := middle), value).value, legName, observed) == GRANTED
  {
    var te, tm, tl := t.(now := early), t.(now := middle), t.(now := late);
    LoadIgnoresClock(te, middle, value);
    LoadIgnoresClock(te, late, value);
    var re, rm, rl := Load(tm.(now := early), value).value, Load(tm, value).value, Load(tl, value).value;
    var leg := FindLeg(re.legs, legName).value;
    forall item | (legName, item) in re.verified && (legName, item) in rl.verified
      ensures (legName, item) in rm.verified
    {
      VerifiedBetween(t, early, middle, late, re.participant, re.scope, re.legs, leg, item);
    }
    BetweenGrants(re, rm, rl, legName, observed);
  }

  /** What one leg has verified at two load times it has verified between them. */
  lemma VerifiedBetween(t: Terms, early: int, middle: int, late: int, participant: string, scope: string,
                        legs: seq<Leg>, leg: Leg, item: string)
    requires early <= middle <= late && DistinctLegNames(legs) && leg in legs
    requires item in leg.evidence ==>
      (CheckAttestation(t.(now := early), leg.evidence[item], item, participant, scope) ==>
         Reaches(leg.evidence[item], late))
    requires (leg.name, item) in VerifiedPairs(t.(now := early), participant, scope, legs)
    requires (leg.name, item) in VerifiedPairs(t.(now := late), participant, scope, legs)
    ensures (leg.name, item) in VerifiedPairs(t.(now := middle), participant, scope, legs)
  {
    OnlyOwnEvidence(t.(now := early), participant, scope, legs, leg, item);
    OnlyOwnEvidence(t.(now := middle), participant, scope, legs, leg, item);
    OnlyOwnEvidence(t.(now := late), participant, scope, legs, leg, item);
    AttestationTimesConvex(t, early, middle, late, leg.evidence[item], item, participant, scope);
  }

  /** With distinct names a pair is verified exactly by the leg's own value. */
  lemma OnlyOwnEvidence(t: Terms, participant: string, scope: string, legs: seq<Leg>, leg: Leg, item: string)
    requires DistinctLegNames(legs) && leg in legs
    ensures (leg.name, item) in VerifiedPairs(t, participant, scope, legs) <==>
      item in leg.evidence && CheckAttestation(t, leg.evidence[item], item, participant, scope)
  {
    VerifiedPairsMeaning(t, participant, scope, legs, leg.name, item);
    forall other | other in legs && other.name == leg.name ensures other == leg { SameNameSameLeg(legs, other, leg); }
  }

  lemma SameNameSameLeg(legs: seq<Leg>, a: Leg, b: Leg)
    requires DistinctLegNames(legs) && a in legs && b in legs && a.name == b.name
    ensures a == b
  {
    var i :| 0 <= i < |legs| && legs[i] == a;
    var j :| 0 <= j < |legs| && legs[j] == b;
    assert i == j;
  }

  /** If two requirements differing only in verified evidence grant the leg, so does any that verifies what both do. */
  lemma BetweenGrants(re: Requirement, rm: Requirement, rl: Requirement, legName: string, observed: string)
    requires rm == re.(verified := rm.verified) && rl == re.(verified := rl.verified)
    requires forall item :: (legName, item) in re.verified && (legName, item) in rl.verified ==>
               (legName, item) in rm.verified
    requires AcceptVerdict(re, legName, observed) == GRANTED && AcceptVerdict(rl, legName, observed) == GRANTED
    ensures AcceptVerdict(rm, legName, observed) == GRANTED
  {
    AcceptExactly(re, legName, observed);
    AcceptExactly(rm, legName, observed);
    AcceptExactly(rl, legName, observed);
    var leg := FindLeg(re.legs, legName).value;
    forall need | need in leg.needs
      ensures Placeable(rm, leg, need) && !DeniedBy(rm, need) && !AwaitsEvidence(rm, leg, need)
    {
      assert Placeable(re, leg, need) && !DeniedBy(re, need);
      assert !AwaitsEvidence(re, leg, need) && !AwaitsEvidence(rl, leg, need);
      forall d, item | d in rm.decisions && d.capability == need && d.status.Conditional? && item in d.missing
        ensures Evidenced(rm, leg, need, item)
      {
        NothingAwaited(re, leg, d, item);
        NothingAwaited(rl, leg, d, item);
      }
    }
  }

  lemma NothingAwaited(r: Requirement, leg: Leg, d: Decision, item: string)
    requires !AwaitsEvidence(r, leg, d.capability)
    requires d in r.decisions && d.status.Conditional? && item in d.missing
    ensures Evidenced(r, leg, d.capability, item)
  {
  }

  // ---------------------------------------------------------------- exactly when the times form an interval

  predicate GrantedAt(t: Terms, r: Requirement, legName: string, observed: string, now: int) {
    AcceptVerdict(At(t, r, now), legName, observed) == GRANTED
  }

  /** The 64-bit load times at which the leg is GRANTED form an interval. */
  ghost predicate GrantedTimesAreAnInterval(t: Terms, r: Requirement, legName: string, observed: string) {
    forall early, middle, late {:trigger GrantedAt(t, r, legName, observed, early),
      GrantedAt(t, r, legName, observed, middle), GrantedAt(t, r, legName, observed, late)} ::
      I64(early) && I64(late) && early <= middle <= late
      && GrantedAt(t, r, legName, observed, early) && GrantedAt(t, r, legName, observed, late)
      ==> GrantedAt(t, r, legName, observed, middle)
  }

  /** The issue time a value states, if it states one. */
  function IssuedAt(value: Json): Option<int> {
    if value.Obj? && Get(value.fields, "issued_at").Int? then Some(Get(value.fields, "issued_at").n) else None
  }

  /** The value is a genuine attestation of the item for the session: it is admitted the moment it is issued. */
  predicate Genuine(t: Terms, r: Requirement, value: Json, item: string) {
    IssuedAt(value).Some? &&
    CheckAttestation(t.(now := IssuedAt(value).value), value, item, r.participant, r.scope)
  }

  /** Stated issue times are 64-bit integers. */
  predicate RepresentableTimes(leg: Leg) {
    forall item :: item in leg.evidence && IssuedAt(leg.evidence[item]).Some? ==>
      I64(IssuedAt(leg.evidence[item]).value)
  }

  /** Every genuine attestation the leg carries was issued since the epoch. */
  predicate GenuineSinceEpoch(t: Terms, r: Requirement, leg: Leg) {
    forall item :: item in leg.evidence && Genuine(t, r, leg.evidence[item], item) ==>
      IssuedAt(leg.evidence[item]).value >= 0
  }

  /** Whatever Atlas decides, the load times at which a leg is GRANTED form an interval, exactly when every genuine
      attestation it carries was issued since the epoch (or it needs nothing, or nothing can grant it). */
  lemma GrantedTimesExactly(t: Terms, r: Requirement, leg: Leg, observed: string)
    requires DistinctLegNames(r.legs) && leg in r.legs && RepresentableTimes(leg)
    requires 0 <= t.maxAge < TWO_63 - 1
    ensures (forall ds :: GrantedTimesAreAnInterval(t, r.(decisions := ds), leg.name, observed)) <==>
      leg.needs == [] || (observed != "" && observed != r.artifactId) || GenuineSinceEpoch(t, r, leg)
  {
    if leg.needs == [] || (observed != "" && observed != r.artifactId) || GenuineSinceEpoch(t, r, leg) {
      forall ds ensures GrantedTimesAreAnInterval(t, r.(decisions := ds), leg.name, observed) {
        IntervalSinceEpoch(t, r.(decisions := ds), leg, observed);
      }
    } else {
      var item :| item in leg.evidence && Genuine(t, r, leg.evidence[item], item)
               && IssuedAt(leg.evidence[item]).value < 0;
      var issued := IssuedAt(leg.evidence[item]).value;
      PreEpochBreaksTheInterval(t, r, leg, item, observed, issued, issued + t.maxAge + 1, issued + TWO_63);
      assert !GrantedTimesAreAnInterval(t, r.(decisions := RestingDecisions(leg, item)), leg.name, observed);
    }
  }

  lemma PreEpochBreaksTheInterval(t: Terms, r: Requirement, leg: Leg, item: string, observed: string,
                                  early: int, middle: int, late: int)
    requires DistinctLegNames(r.legs) && leg in r.legs && leg.needs != []
    requires observed == "" || observed == r.artifactId
    requires item in leg.evidence && Genuine(t, r, leg.evidence[item], item)
    requires IssuedAt(leg.evidence[item]) == Some(early) && I64(early) && early < 0
    requires 0 <= t.maxAge < TWO_63 - 1 && early + t.maxAge < middle < late == early + TWO_63
    ensures !GrantedTimesAreAnInterval(t, r.(decisions := RestingDecisions(leg, item)), leg.name, observed)
  {
    var q := r.(decisions := RestingDecisions(leg, item));
    RestingRests(r, leg, item);
    WrappedWindowBreaksTheInterval(t, q, leg, item, observed, early, middle, late);
    GapIsNoInterval(t, q, leg.name, observed, early, middle, late);
  }

  lemma GapIsNoInterval(t: Terms, r: Requirement, legName: string, observed: string, early: int, middle: int, late: int)
    requires I64(early) && I64(late) && early <= middle <= late
    requires GrantedAt(t, r, legName, observed, early) && GrantedAt(t, r, legName, observed, late)
    requires !GrantedAt(t, r, legName, observed, middle)
    ensures !GrantedTimesAreAnInterval(t, r, legName, observed)
  {
  }

  lemma IntervalSinceEpoch(t: Terms, r: Requirement, leg: Leg, observed: string)
    requires DistinctLegNames(r.legs) && leg in r.legs && 0 <= t.maxAge
    requires leg.needs == [] || (observed != "" && observed != r.artifactId) || GenuineSinceEpoch(t, r, leg)
    ensures GrantedTimesAreAnInterval(t, r, leg.name, observed)
  {
    forall early, middle, late | I64(early) && I64(late) && early <= middle <= late
        && GrantedAt(t, r, leg.name, observed, early) && GrantedAt(t, r, leg.name, observed, late)
      ensures GrantedAt(t, r, leg.name, observed, middle)
    {
      GrantedBetween(t, r, leg, observed, early, middle, late);
    }
  }

  lemma GrantedBetween(t: Terms, r: Requirement, leg: Leg, observed: string, early: int, middle: int, late: int)
    requires DistinctLegNames(r.legs) && leg in r.legs && 0 <= t.maxAge
    requires leg.needs == [] || (observed != "" && observed != r.artifactId) || GenuineSinceEpoch(t, r, leg)
    requires early <= middle <= late < TWO_63
    requires GrantedAt(t, r, leg.name, observed, early) && GrantedAt(t, r, leg.name, observed, late)
    ensures GrantedAt(t, r, leg.name, observed, middle)
  {
    var found := FindLeg(r.legs, leg.name);
    SameNameSameLeg(r.legs, found.value, leg);
    AcceptExactly(At(t, r, early), leg.name, observed);
    AcceptExactly(At(t, r, middle), leg.name, observed);
    if leg.needs != [] {
      forall item | (leg.name, item) in At(t, r, early).verified && (leg.name, item) in At(t, r, late).verified
        ensures (leg.name, item) in At(t, r, middle).verified
      {
        OnlyOwnEvidence(t.(now := early), r.participant, r.scope, r.legs, leg, item);
        AdmittedIsGenuine(t.(now := early), r, leg.evidence[item], item);
        GenuineIgnoresClock(t, early, r, leg.evidence[item], item);
        VerifiedBetween(t, early, middle, late, r.participant, r.scope, r.legs, leg, item);
      }
      BetweenGrants(At(t, r, early), At(t, r, middle), At(t, r, late), leg.name, observed);
    }
  }

  /** A value admitted at any time would have been admitted when it was issued. */
  lemma AdmittedIsGenuine(t: Terms, r: Requirement, value: Json, item: string)
    requires CheckAttestation(t, value, item, r.participant, r.scope) && 0 <= t.maxAge
    ensures Genuine(t, r, value, item)
  {
    var issued := IssuedAt(value).value;
    assert Issuer(t.(now := issued), value.fields) == Issuer(t, value.fields);
  }

  lemma GenuineIgnoresClock(t: Terms, now: int, r: Requirement, value: Json, item: string)
    ensures Genuine(t.(now := now), r, value, item) <==> Genuine(t, r, value, item)
  {
    if IssuedAt(value).Some? {
      var issued := IssuedAt(value).value;
      assert t.(now := now).(now := issued) == t.(now := issued);
    }
  }

  /** A requirement whose leg rests on conditional decisions missing one item, and otherwise on plain grants. */
  ghost predicate RestsOn(r: Requirement, leg: Leg, item: string) {
    && FindLeg(r.legs, leg.name) == Some(leg)
    && (forall d :: d in r.decisions ==>
         d.target == "" && !d.status.Denied? && (d.status.Conditional? ==> d.missing == [item]))
    && (forall need :: need in leg.needs ==> exists d :: d in r.decisions && d.capability == need)
    && exists d :: d in r.decisions && d.status.Conditional? && d.capability in leg.needs
  }

  /** Such a leg is GRANTED exactly when the item is verified for it. */
  lemma OneItemDecides(r: Requirement, leg: Leg, item: string, observed: string)
    requires RestsOn(r, leg, item)
    requires observed == "" || observed == r.artifactId
    ensures AcceptVerdict(r, leg.name, observed) == GRANTED <==> (leg.name, item) in r.verified
  {
    AcceptExactly(r, leg.name, observed);
    forall need | need in leg.needs
      ensures Placeable(r, leg, need) && !DeniedBy(r, need)
      ensures Evidenced(r, leg, need, item) <==> (leg.name, item) in r.verified
    {
      TargetsMeaning(r.decisions, need);
    }
    var d :| d in r.decisions && d.status.Conditional? && d.capability in leg.needs;
    assert item in d.missing;
  }

  /** A conditional decision on the leg's first need, missing the item, and a plain grant for every need. */
  function RestingDecisions(leg: Leg, item: string): (ds: seq<Decision>)
    requires leg.needs != []
    ensures |ds| == |leg.needs| + 1
    ensures ds[0] == Decision(leg.needs[0], Conditional, [item], "", "", "", "", "")
    ensures forall i :: 0 <= i < |leg.needs| ==> ds[i + 1] == Decision(leg.needs[i], Granted, [], "", "", "", "", "")
  {
    [Decision(leg.needs[0], Conditional, [item], "", "", "", "", "")]
    + seq(|leg.needs|, i requires 0 <= i < |leg.needs| => Decision(leg.needs[i], Granted, [], "", "", "", "", ""))
  }

  lemma RestingRests(r: Requirement, leg: Leg, item: string)
    requires DistinctLegNames(r.legs) && leg in r.legs && leg.needs != []
    ensures RestsOn(r.(decisions := RestingDecisions(leg, item)), leg, item)
  {
    var ds := RestingDecisions(leg, item);
    SameNameSameLeg(r.legs, FindLeg(r.legs, leg.name).value, leg);
    forall d | d in ds ensures d.target == "" && !d.status.Denied? && (d.status.Conditional? ==> d.missing == [item]) {
      var i :| 0 <= i < |ds| && ds[i] == d;
      assert i > 0 ==> ds[i] == ds[(i - 1) + 1];
    }
    forall need | need in leg.needs ensures exists d :: d in ds && d.capability == need {
      var i :| 0 <= i < |leg.needs| && leg.needs[i] == need;
      assert ds[i + 1] in ds;
    }
    assert ds[0] in ds && leg.needs[0] in leg.needs;
  }

  /** The item is verified for legs of the name at the load time. */
  predicate PairAt(t: Terms, r: Requirement, legName: string, item: string, now: int) {
    (legName, item) in VerifiedPairs(t.(now := now), r.participant, r.scope, r.legs)
  }

  /** The leg is GRANTED at exactly the load times at which the item is verified for it. */
  ghost predicate TurnsOn(t: Terms, r: Requirement, legName: string, item: string, observed: string) {
    forall now :: GrantedAt(t, r, legName, observed, now) <==> PairAt(t, r, legName, item, now)
  }

  lemma RestingTurnsOn(t: Terms, r: Requirement, leg: Leg, item: string, observed: string)
    requires RestsOn(r, leg, item)
    requires observed == "" || observed == r.artifactId
    ensures TurnsOn(t, r, leg.name, item, observed)
  {
    forall now ensures GrantedAt(t, r, leg.name, observed, now) <==> PairAt(t, r, leg.name, item, now) {
      OneItemDecides(At(t, r, now), leg, item, observed);
    }
  }

  lemma GapCarries(t: Terms, r: Requirement, legName: string, item: string, observed: string,
                   early: int, middle: int, late: int)
    requires TurnsOn(t, r, legName, item, observed)
    requires PairAt(t, r, legName, item, early) && PairAt(t, r, legName, item, late)
    requires !PairAt(t, r, legName, item, middle)
    ensures GrantedAt(t, r, legName, observed, early) && GrantedAt(t, r, legName, observed, late)
    ensures !GrantedAt(t, r, legName, observed, middle)
  {
  }

  /** Distinct names matter: when two legs share a name and carry attestations of one item issued more than a
      window apart, the leg is GRANTED at both issue times but nowhere between the first window and the second. */
  lemma SharedNameBreaksTheInterval(t: Terms, r: Requirement, a: Leg, b: Leg, item: string, observed: string,
                                    early: int, middle: int, late: int)
    requires r.legs == [a, b] && RestsOn(r, a, item) && (observed == "" || observed == r.artifactId)
    requires a.name == b.name && item in a.evidence && item in b.evidence
    requires t.maxAge >= 0 && 0 <= early && early + t.maxAge < middle < late < TWO_63
    requires IssuedAt(a.evidence[item]) == Some(early) && Genuine(t, r, a.evidence[item], item)
    requires IssuedAt(b.evidence[item]) == Some(late) && Genuine(t, r, b.evidence[item], item)
    ensures GrantedAt(t, r, a.name, observed, early) && GrantedAt(t, r, a.name, observed, late)
    ensures !GrantedAt(t, r, a.name, observed, middle)
  {
    SharedPair(t, r, a, b, item, early, middle, late);
    RestingTurnsOn(t, r, a, item, observed);
    GapCarries(t, r, a.name, item, observed, early, middle, late);
  }

  lemma SharedPair(t: Terms, r: Requirement, a: Leg, b: Leg, item: string, early: int, middle: int, late: int)
    requires r.legs == [a, b] && a.name == b.name && item in a.evidence && item in b.evidence
    requires t.maxAge >= 0 && 0 <= early && early + t.maxAge < middle < late < TWO_63
    requires IssuedAt(a.evidence[item]) == Some(early) && Genuine(t, r, a.evidence[item], item)
    requires IssuedAt(b.evidence[item]) == Some(late) && Genuine(t, r, b.evidence[item], item)
    ensures PairAt(t, r, a.name, item, early) && PairAt(t, r, a.name, item, late)
    ensures !PairAt(t, r, a.name, item, middle)
  {
    PairOfCarrier(t, r, a, item, early);
    PairOfCarrier(t, r, b, item, late);
    NoPair(t, r, a.name, item, middle);
  }

  /** And so does an issue time before the epoch: its window wraps, and the leg is GRANTED again 2^63 instants on. */
  lemma WrappedWindowBreaksTheInterval(t: Terms, r: Requirement, leg: Leg, item: string, observed: string,
                                       early: int, middle: int, late: int)
    requires DistinctLegNames(r.legs) && leg in r.legs && RestsOn(r, leg, item)
    requires observed == "" || observed == r.artifactId
    requires item in leg.evidence && Genuine(t, r, leg.evidence[item], item)
    requires IssuedAt(leg.evidence[item]) == Some(early) && I64(early) && early < 0
    requires 0 <= t.maxAge < TWO_63 - 1 && early + t.maxAge < middle < late == early + TWO_63
    ensures GrantedAt(t, r, leg.name, observed, early) && GrantedAt(t, r, leg.name, observed, late)
    ensures !GrantedAt(t, r, leg.name, observed, middle)
  {
    WrappedPair(t, r, leg, item, early, middle, late);
    RestingTurnsOn(t, r, leg, item, observed);
    GapCarries(t, r, leg.name, item, observed, early, middle, late);
  }

  lemma WrappedPair(t: Terms, r: Requirement, leg: Leg, item: string, early: int, middle: int, late: int)
    requires DistinctLegNames(r.legs) && leg in r.legs && item in leg.evidence
    requires IssuedAt(leg.evidence[item]) == Some(early) && Genuine(t, r, leg.evidence[item], item)
    requires I64(early) && early < 0 && 0 <= t.maxAge < TWO_63 - 1
    requires early + t.maxAge < middle < late == early + TWO_63
    ensures PairAt(t, r, leg.name, item, early) && PairAt(t, r, leg.name, item, late)
    ensures !PairAt(t, r, leg.name, item, middle)
  {
    var value := leg.evidence[item];
    assert Issuer(t.(now := late), value.fields) == Issuer(t.(now := early), value.fields);
    OnlyOwnEvidence(t.(now := early), r.participant, r.scope, r.legs, leg, item);
    OnlyOwnEvidence(t.(now := middle), r.participant, r.scope, r.legs, leg, item);
    OnlyOwnEvidence(t.(now := late), r.participant, r.scope, r.legs, leg, item);
  }

  lemma PairOfCarrier(t: Terms, r: Requirement, leg: Leg, item: string, now: int)
    requires leg in r.legs && item in leg.evidence
    requires CheckAttestation(t.(now := now), leg.evidence[item], item, r.participant, r.scope)
    ensures PairAt(t, r, leg.name, item, now)
  {
    VerifiedPairsMeaning(t.(now := now), r.participant, r.scope, r.legs, leg.name, item);
  }

  /** A stated issue time whose window does not contain the load time. */
  predicate OutOfWindow(t: Terms, value: Json, now: int) {
    IssuedAt(value).Some? && !AttestationWindowOk(IssuedAt(value).value, now, t.maxAge)
  }

  lemma NoPair(t: Terms, r: Requirement, legName: string, item: string, now: int)
    requires forall leg :: leg in r.legs && leg.name == legName && item in leg.evidence ==>
               OutOfWindow(t, leg.evidence[item], now)
    ensures !PairAt(t, r, legName, item, now)
  {
    VerifiedPairsMeaning(t.(now := now), r.participant, r.scope, r.legs, legName, item);
  }
}
