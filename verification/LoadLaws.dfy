/** What an envelope must say to load, and what the loaded requirement then says: read off the JSON itself. */
module LoadLaws {
  import opened Orders
  import opened MncsExec
  import opened AtlasBinding
  import opened AtlasLaws
  import opened RequirementIdentity
  import opened RequirementLoad

  // ---------------------------------------------------------------- words for reading JSON

  ghost predicate Says(o: map<string, Json>, key: string, s: string) { key in o && o[key] == Str(s) }

  ghost predicate SaysSome(o: map<string, Json>, key: string) { key in o && o[key].Str? && o[key].s != "" }

  /** The field is the list of these strings; left out, it is empty. */
  ghost predicate Lists(o: map<string, Json>, key: string, xs: seq<string>) {
    if key in o
    then o[key].Arr? && |o[key].items| == |xs| && forall i :: 0 <= i < |xs| ==> o[key].items[i] == Str(xs[i])
    else xs == []
  }

  /** The field as Python's `str` renders it; left out, it is empty. */
  ghost predicate Renders(host: Host, o: map<string, Json>, key: string, s: string) {
    s == if key !in o then "" else if o[key].Str? then o[key].s else host.text(o[key])
  }

  /** What Python counts as false. */
  ghost predicate Falsy(j: Json) {
    j in {Null, Bool(false), Int(0), Float("0.0"), Float("-0.0"), Str(""), Arr([]), Obj(map[])}
  }

  ghost predicate InSession(o: map<string, Json>, participant: string, scope: string) {
    && participant != "" && scope != ""
    && "session" in o && o["session"].Obj?
    && Says(o["session"].fields, "participant", participant) && Says(o["session"].fields, "scope", scope)
  }

  // ---------------------------------------------------------------- integrity and issuance

  /** The carried digest is the hash of everything else. */
  ghost predicate Intact(t: Terms, o: map<string, Json>) {
    && Says(o, "decision_digest_alg", "sha256:canonical-json-v1")
    && SaysSome(o, "decision_digest")
    && o["decision_digest"] == Str(t.host.sha(Obj(o - {"decision_digest"})))
  }

  /** The key is named as the issuer, trusted, and its 64-byte hex signature verifies. */
  ghost predicate IssuedBy(t: Terms, o: map<string, Json>, keyId: string) {
    && ("decision_digest" in o ==> Intact(t, o))
    && "issuer" in o && o["issuer"].Obj?
    && var issuer := o["issuer"].fields;
    && "key_id" in issuer && !Falsy(issuer["key_id"]) && Renders(t.host, issuer, "key_id", keyId)
    && Says(issuer, "algorithm", "ed25519")
    && keyId in t.trusted && "issuer_signature" in o && o["issuer_signature"].Str?
    && var signature := o["issuer_signature"].s;
    && |signature| == 128 && (forall i :: 0 <= i < 128 ==> signature[i] in "0123456789abcdefABCDEF")
    && t.host.signed(t.trusted[keyId], Obj(o - {"decision_digest", "issuer_signature"}), signature)
  }

  lemma HexMeaning(c: char)
    ensures IsHex(c) <==> c in "0123456789abcdefABCDEF"
  {
    var digits := "0123456789abcdefABCDEF";
    assert digits[0] == '0' && digits[1] == '1' && digits[2] == '2' && digits[3] == '3' && digits[4] == '4';
    assert digits[5] == '5' && digits[6] == '6' && digits[7] == '7' && digits[8] == '8' && digits[9] == '9';
    assert digits[10] == 'a' && digits[11] == 'b' && digits[12] == 'c' && digits[13] == 'd' && digits[14] == 'e';
    assert digits[15] == 'f' && digits[16] == 'A' && digits[17] == 'B' && digits[18] == 'C' && digits[19] == 'D';
    assert digits[20] == 'E' && digits[21] == 'F';
  }

  lemma DigestMeaning(t: Terms, o: map<string, Json>)
    ensures DigestVerifies(t.host, o) <==> Intact(t, o)
  {
  }

  lemma SignatureMeaning(t: Terms, o: map<string, Json>, keyId: string)
    ensures SignedBy(t, o, keyId) <==>
      && keyId in t.trusted && "issuer_signature" in o && o["issuer_signature"].Str?
      && var signature := o["issuer_signature"].s;
      && |signature| == 128 && (forall i :: 0 <= i < 128 ==> signature[i] in "0123456789abcdefABCDEF")
      && t.host.signed(t.trusted[keyId], Obj(o - {"decision_digest", "issuer_signature"}), signature)
  {
    if "issuer_signature" in o && o["issuer_signature"].Str? {
      var signature := o["issuer_signature"].s;
      forall i | 0 <= i < |signature| ensures IsHex(signature[i]) <==> signature[i] in "0123456789abcdefABCDEF" {
        HexMeaning(signature[i]);
      }
    }
  }

  lemma IssuerMeaning(t: Terms, o: map<string, Json>, keyId: string)
    ensures Issuer(t, o) == Some(keyId) <==> IssuedBy(t, o, keyId)
  {
    DigestMeaning(t, o);
    SignatureMeaning(t, o, keyId);
  }

  lemma SessionMeaning(o: map<string, Json>, participant: string, scope: string)
    ensures Session(o) == Some((participant, scope)) <==> InSession(o, participant, scope)
  {
  }

  lemma ListMeaning(o: map<string, Json>, key: string, xs: seq<string>)
    ensures Lists(o, key, xs) <==> IsStringList(GetOr(o, key, Arr([]))) && Strings(GetOr(o, key, Arr([]))) == xs
  {
  }

  // ---------------------------------------------------------------- decisions, attestations, legs

  /** The envelope is this decision: intact, issued under a trusted key, and each field as it says. */
  ghost predicate DecisionReads(t: Terms, j: Json, d: Decision) {
    && j.Obj? && var o := j.fields;
    && Says(o, "schema_version", "mncs.atlas-capability-decision/1")
    && Intact(t, o) && IssuedBy(t, o, d.issuer)
    && d.capability != "" && Says(o, "capability", d.capability)
    && (match d.status
        case Granted => Says(o, "status", "granted")
        case Conditional => Says(o, "status", "conditional")
        case Denied => Says(o, "status", "denied"))
    && Lists(o, "missing", d.missing) && (exists makers :: Lists(o, "decision_by", makers))
    && InSession(o, d.participant, d.scope)
    && Renders(t.host, o, "execution_target", d.target)
    && Says(o, "decision_digest", d.digest)
  }

  /** The decision loader accepts exactly such envelopes, and reads exactly that decision off them. */
  lemma DecisionReadsExactly(t: Terms, j: Json, d: Decision)
    ensures ParseDecision(t, j) == Some(d) <==> DecisionReads(t, j, d)
  {
    if j.Obj? {
      var o := j.fields;
      DigestMeaning(t, o);
      IssuerMeaning(t, o, d.issuer);
      SessionMeaning(o, d.participant, d.scope);
      ListMeaning(o, "missing", d.missing);
      if IsStringList(GetOr(o, "decision_by", Arr([]))) {
        ListMeaning(o, "decision_by", Strings(GetOr(o, "decision_by", Arr([]))));
      }
      if makers :| Lists(o, "decision_by", makers) { ListMeaning(o, "decision_by", makers); }
    }
  }

  /** The value attests the item for the session: issued under a trusted key, about no subject, not after `now`, and
      no longer ago than the allowed age (or so long ago that the 64-bit difference wraps below it). */
  ghost predicate Attests(t: Terms, j: Json, item: string, participant: string, scope: string) {
    && j.Obj? && var o := j.fields;
    && Says(o, "schema_version", "mncs.evidence-attestation/1") && Says(o, "name", item)
    && Says(o, "participant", participant) && Says(o, "scope", scope)
    && ("subject" in o ==> Says(o, "subject", ""))
    && "issued_at" in o && o["issued_at"].Int?
    && var age := t.now - o["issued_at"].n;
    && 0 <= age
    && (if age < 0x8000_0000_0000_0000 then age <= t.maxAge else age - 0x1_0000_0000_0000_0000 <= t.maxAge)
    && exists keyId :: IssuedBy(t, o, keyId)
  }

  lemma AttestsExactly(t: Terms, j: Json, item: string, participant: string, scope: string)
    ensures CheckAttestation(t, j, item, participant, scope) <==> Attests(t, j, item, participant, scope)
  {
    if j.Obj? {
      if Issuer(t, j.fields).Some? { IssuerMeaning(t, j.fields, Issuer(t, j.fields).value); }
      if keyId :| IssuedBy(t, j.fields, keyId) { IssuerMeaning(t, j.fields, keyId); }
    }
  }

  ghost predicate LegReads(host: Host, j: Json, leg: Leg) {
    && j.Obj? && var o := j.fields;
    && "name" in o && !Falsy(o["name"]) && Renders(host, o, "name", leg.name)
    && Lists(o, "needs", leg.needs)
    && Renders(host, o, "backend", leg.backend) && Renders(host, o, "target", leg.target)
    && (if "evidence" in o then o["evidence"] == Obj(leg.evidence) else leg.evidence == map[])
  }

  lemma LegReadsExactly(host: Host, j: Json, leg: Leg)
    ensures ParseLeg(host, j) == Some(leg) <==> LegReads(host, j, leg)
  {
    if j.Obj? { ListMeaning(j.fields, "needs", leg.needs); }
  }

  // ---------------------------------------------------------------- the whole envelope

  lemma ParseDecisionsEach(t: Terms, items: seq<Json>)
    ensures ParseDecisions(t, items).Some? <==> forall i :: 0 <= i < |items| ==> ParseDecision(t, items[i]).Some?
    ensures var r := ParseDecisions(t, items);
      r.Some? ==>
        && |r.value| == |items|
        && forall i :: 0 <= i < |items| ==> ParseDecision(t, items[i]) == Some(r.value[i])
  {
    if ParseDecisions(t, items).Some? {
      ParsedEach(t, items);
    } else {
      var i := UnparsedDecision(t, items);
    }
  }

  lemma {:induction false} ParsedEach(t: Terms, items: seq<Json>)
    requires ParseDecisions(t, items).Some?
    ensures var ds := ParseDecisions(t, items).value;
      |ds| == |items| && forall i :: 0 <= i < |items| ==> ParseDecision(t, items[i]) == Some(ds[i])
  {
    if |items| > 0 {
      var init, last := items[..|items| - 1], items[|items| - 1];
      ParsedEach(t, init);
      Appended(ParseDecisions(t, init).value, ParseDecision(t, last).value, ParseDecisions(t, items).value);
    }
  }

  lemma Appended<T>(init: seq<T>, last: T, all: seq<T>)
    requires all == init + [last]
    ensures |all| == |init| + 1 && all[|init|] == last && forall i :: 0 <= i < |init| ==> all[i] == init[i]
  {
  }

  lemma {:induction false} UnparsedDecision(t: Terms, items: seq<Json>) returns (i: nat)
    requires ParseDecisions(t, items).None?
    ensures i < |items| && ParseDecision(t, items[i]).None?
  {
    i := |items| - 1;
    if ParseDecision(t, items[i]).Some? { i := UnparsedDecision(t, items[..i]); }
  }

  lemma {:induction false} ParseLegsEach(host: Host, items: seq<Json>)
    ensures ParseLegs(host, items).Some? <==> forall i :: 0 <= i < |items| ==> ParseLeg(host, items[i]).Some?
    ensures var r := ParseLegs(host, items);
      r.Some? ==> |r.value| == |items| && forall i :: 0 <= i < |items| ==> ParseLeg(host, items[i]) == Some(r.value[i])
  {
    if |items| > 0 { ParseLegsEach(host, items[..|items| - 1]); }
  }

  /** The list of decisions this list of envelopes is. */
  ghost predicate DecisionsRead(t: Terms, items: seq<Json>, ds: seq<Decision>) {
    |items| == |ds| && forall i :: 0 <= i < |ds| ==> DecisionReads(t, items[i], ds[i])
  }

  ghost predicate LegsRead(host: Host, items: seq<Json>, legs: seq<Leg>) {
    |items| == |legs| && forall i :: 0 <= i < |legs| ==> LegReads(host, items[i], legs[i])
  }

  ghost predicate DecisionsParse(t: Terms, items: seq<Json>, ds: seq<Decision>) {
    |items| == |ds| && forall i :: 0 <= i < |ds| ==> ParseDecision(t, items[i]) == Some(ds[i])
  }

  ghost predicate LegsParse(host: Host, items: seq<Json>, legs: seq<Leg>) {
    |items| == |legs| && forall i :: 0 <= i < |legs| ==> ParseLeg(host, items[i]) == Some(legs[i])
  }

  lemma DecisionsParseExactly(t: Terms, items: seq<Json>, ds: seq<Decision>)
    ensures ParseDecisions(t, items) == Some(ds) <==> DecisionsParse(t, items, ds)
  {
    ParseDecisionsEach(t, items);
    if DecisionsParse(t, items, ds) {
      assert forall i :: 0 <= i < |items| ==> ParseDecision(t, items[i]) == Some(ds[i]);
      assert ParseDecisions(t, items).value == ds;
    }
  }

  lemma LegsParseExactly(host: Host, items: seq<Json>, legs: seq<Leg>)
    ensures ParseLegs(host, items) == Some(legs) <==> LegsParse(host, items, legs)
  {
    ParseLegsEach(host, items);
    if LegsParse(host, items, legs) {
      assert forall i :: 0 <= i < |items| ==> ParseLeg(host, items[i]) == Some(legs[i]);
      assert ParseLegs(host, items).value == legs;
    }
  }

  lemma DecisionsReadExactly(t: Terms, items: seq<Json>, ds: seq<Decision>)
    ensures ParseDecisions(t, items) == Some(ds) <==> DecisionsRead(t, items, ds)
  {
    DecisionsParseExactly(t, items, ds);
    if DecisionsParse(t, items, ds) {
      forall i | 0 <= i < |ds| ensures DecisionReads(t, items[i], ds[i]) { DecisionReadsExactly(t, items[i], ds[i]); }
    }
    if DecisionsRead(t, items, ds) {
      forall i | 0 <= i < |ds| ensures ParseDecision(t, items[i]) == Some(ds[i]) {
        DecisionReadsExactly(t, items[i], ds[i]);
      }
    }
  }

  lemma LegsReadExactly(host: Host, items: seq<Json>, legs: seq<Leg>)
    ensures ParseLegs(host, items) == Some(legs) <==> LegsRead(host, items, legs)
  {
    LegsParseExactly(host, items, legs);
    if LegsParse(host, items, legs) {
      forall i | 0 <= i < |legs| ensures LegReads(host, items[i], legs[i]) { LegReadsExactly(host, items[i], legs[i]); }
    }
    if LegsRead(host, items, legs) {
      forall i | 0 <= i < |legs| ensures ParseLeg(host, items[i]) == Some(legs[i]) {
        LegReadsExactly(host, items[i], legs[i]);
      }
    }
  }

  lemma {:induction false} VerifiedPairsMeaning(t: Terms, participant: string, scope: string, legs: seq<Leg>,
      legName: string, name: string)
    ensures (legName, name) in VerifiedPairs(t, participant, scope, legs) <==>
      exists leg :: leg in legs && leg.name == legName && name in leg.evidence
                 && CheckAttestation(t, leg.evidence[name], name, participant, scope)
  {
    if |legs| > 0 {
      var init, last := legs[..|legs| - 1], legs[|legs| - 1];
      VerifiedPairsMeaning(t, participant, scope, init, legName, name);
      assert legs == init + [last];
      if (legName, name) in VerifiedPairs(t, participant, scope, init) {
        var leg :| leg in init && leg.name == legName && name in leg.evidence
                && CheckAttestation(t, leg.evidence[name], name, participant, scope);
        assert leg in legs;
      }
      assert last in legs;
    }
  }

  /** Some leg of the name carries a value that attests the item. */
  ghost predicate Attested(t: Terms, r: Requirement, legName: string, item: string) {
    exists leg :: leg in r.legs && leg.name == legName && item in leg.evidence
               && Attests(t, leg.evidence[item], item, r.participant, r.scope)
  }

  lemma AttestedExactly(t: Terms, r: Requirement, legName: string, item: string)
    ensures (legName, item) in VerifiedPairs(t, r.participant, r.scope, r.legs) <==> Attested(t, r, legName, item)
  {
    VerifiedPairsMeaning(t, r.participant, r.scope, r.legs, legName, item);
    forall leg | leg in r.legs && item in leg.evidence
      ensures CheckAttestation(t, leg.evidence[item], item, r.participant, r.scope)
         <==> Attests(t, leg.evidence[item], item, r.participant, r.scope)
    {
      AttestsExactly(t, leg.evidence[item], item, r.participant, r.scope);
    }
  }

  /** The scalar fields, and what the loader demands besides. */
  ghost predicate HeaderReads(t: Terms, o: map<string, Json>, r: Requirement) {
    && Says(o, "schema_version", "mncs.execution-requirement/0.3")
    && r.taskId != "" && Says(o, "task_id", r.taskId)
    && r.sourceId != "" && Says(o, "source_identity", r.sourceId)
    && r.artifactId != "" && Says(o, "artifact_identity", r.artifactId)
    && InSession(o, r.participant, r.scope)
    && t.trusted != map[] && t.maxAge > 0
    && (if "bounds" in o then o["bounds"] == Obj(r.bounds) else r.bounds == map[])
  }

  /** The envelope is this requirement: every decision is intact, trusted and of the envelope's session, every leg is
      well formed, the pairs counted as verified are the attested ones, and the id is that of the whole. */
  ghost predicate EnvelopeReads(t: Terms, value: Json, r: Requirement) {
    && value.Obj? && var o := value.fields;
    && HeaderReads(t, o, r)
    && "atlas_decisions" in o && o["atlas_decisions"].Arr? && r.decisions != []
    && DecisionsRead(t, o["atlas_decisions"].items, r.decisions)
    && (forall d :: d in r.decisions ==> d.participant == r.participant && d.scope == r.scope)
    && "legs" in o && o["legs"].Arr? && r.legs != [] && LegsRead(t.host, o["legs"].items, r.legs)
    && (forall legName, item :: (legName, item) in r.verified <==> Attested(t, r, legName, item))
    && r.requirementId == Identity(t.host.sha, Subject(r.taskId, r.sourceId, r.artifactId, Digests(r.decisions), r.legs,
                                                       r.bounds, r.participant, r.scope))
  }

  /** The loader accepts exactly the envelopes that read as some requirement, and returns that one. */
  lemma LoadExactly(t: Terms, value: Json, r: Requirement)
    ensures Load(t, value) == Some(r) <==> EnvelopeReads(t, value, r)
  {
    if Load(t, value) == Some(r) { LoadedReads(t, value, r); }
    if EnvelopeReads(t, value, r) { ReadingLoads(t, value, r); }
  }

  lemma HeaderLoads(t: Terms, o: map<string, Json>, r: Requirement)
    requires HeaderReads(t, o, r)
    ensures Session(o) == Some((r.participant, r.scope)) && GetOr(o, "bounds", Obj(map[])) == Obj(r.bounds)
    ensures Get(o, "task_id") == Str(r.taskId) && Get(o, "source_identity") == Str(r.sourceId)
    ensures Get(o, "artifact_identity") == Str(r.artifactId)
    ensures Get(o, "atlas_decisions").Arr? && Get(o, "atlas_decisions").items != [] ==> HeaderOk(t, o)
  {
    SessionMeaning(o, r.participant, r.scope);
  }

  lemma LoadedReads(t: Terms, value: Json, r: Requirement)
    requires Load(t, value) == Some(r)
    ensures EnvelopeReads(t, value, r)
  {
    var o := value.fields;
    SessionMeaning(o, r.participant, r.scope);
    DecisionsReadExactly(t, o["atlas_decisions"].items, r.decisions);
    LegsReadExactly(t.host, o["legs"].items, r.legs);
    forall legName, item ensures (legName, item) in r.verified <==> Attested(t, r, legName, item) {
      AttestedExactly(t, r, legName, item);
    }
    OneSession(r.decisions, r.participant, r.scope);
  }

  lemma OneSession(ds: seq<Decision>, participant: string, scope: string)
    ensures SameSession(ds, participant, scope) <==>
      forall d :: d in ds ==> d.participant == participant && d.scope == scope
  {
  }

  lemma ReadingLoads(t: Terms, value: Json, r: Requirement)
    requires EnvelopeReads(t, value, r)
    ensures Load(t, value) == Some(r)
  {
    DecisionsReadExactly(t, value.fields["atlas_decisions"].items, r.decisions);
    OneSession(r.decisions, r.participant, r.scope);
    LegsReadExactly(t.host, value.fields["legs"].items, r.legs);
    PairsAreAttested(t, r);
    PartsLoad(t, value.fields, value.fields["atlas_decisions"].items, value.fields["legs"].items, r);
  }

  lemma PairsAreAttested(t: Terms, r: Requirement)
    requires forall legName, item :: (legName, item) in r.verified <==> Attested(t, r, legName, item)
    ensures r.verified == VerifiedPairs(t, r.participant, r.scope, r.legs)
  {
    forall pair ensures pair in r.verified <==> pair in VerifiedPairs(t, r.participant, r.scope, r.legs) {
      AttestedExactly(t, r, pair.0, pair.1);
      assert pair == (pair.0, pair.1);
    }
  }

  /** The loader's steps, once each part is known to load. */
  lemma PartsLoad(t: Terms, o: map<string, Json>, decisions: seq<Json>, legs: seq<Json>, r: Requirement)
    requires HeaderReads(t, o, r)
    requires "atlas_decisions" in o && o["atlas_decisions"] == Arr(decisions) && decisions != []
    requires ParseDecisions(t, decisions) == Some(r.decisions) && SameSession(r.decisions, r.participant, r.scope)
    requires "legs" in o && o["legs"] == Arr(legs) && legs != [] && ParseLegs(t.host, legs) == Some(r.legs)
    requires r.verified == VerifiedPairs(t, r.participant, r.scope, r.legs)
    requires r.requirementId == Identity(t.host.sha, Subject(r.taskId, r.sourceId, r.artifactId, Digests(r.decisions),
                                                             r.legs, r.bounds, r.participant, r.scope))
    ensures Load(t, Obj(o)) == Some(r)
  {
    HeaderLoads(t, o, r);
  }

  /** Every envelope the loader refuses reads as no requirement at all. */
  lemma RefusedReadsAsNothing(t: Terms, value: Json)
    ensures Load(t, value).None? <==> forall r :: !EnvelopeReads(t, value, r)
  {
    if Load(t, value).Some? { LoadExactly(t, value, Load(t, value).value); }
    forall r ensures EnvelopeReads(t, value, r) ==> Load(t, value) == Some(r) { LoadExactly(t, value, r); }
  }

  // ---------------------------------------------------------------- what the envelopes grant

  /** The envelope decides the capability. */
  ghost predicate Decides(j: Json, need: string) { j.Obj? && Says(j.fields, "capability", need) }

  /** The envelope lists the item as missing. */
  ghost predicate Misses(j: Json, item: string) {
    j.Obj? && "missing" in j.fields && j.fields["missing"].Arr? && Str(item) in j.fields["missing"].items
  }

  ghost predicate Targets(host: Host, j: Json, target: string) {
    j.Obj? && Renders(host, j.fields, "execution_target", target)
  }

  /** A decision as its envelope shows it. */
  lemma DecisionShown(t: Terms, j: Json, d: Decision, need: string, item: string, target: string)
    requires DecisionReads(t, j, d)
    ensures Decides(j, need) <==> d.capability == need
    ensures Says(j.fields, "status", "denied") <==> d.status.Denied?
    ensures Says(j.fields, "status", "conditional") <==> d.status.Conditional?
    ensures Says(j.fields, "status", "granted") <==> d.status.Granted?
    ensures Misses(j, item) <==> item in d.missing
    ensures Targets(t.host, j, target) <==> d.target == target
  {
    var o := j.fields;
    assert "granted"[0] == 'g' && "conditional"[0] == 'c' && "denied"[0] == 'd';
    if "missing" in o {
      if Misses(j, item) {
        var i :| 0 <= i < |o["missing"].items| && o["missing"].items[i] == Str(item);
        assert d.missing[i] == item;
      }
      if item in d.missing {
        var i :| 0 <= i < |d.missing| && d.missing[i] == item;
        assert o["missing"].items[i] == Str(item);
      }
    }
  }

  lemma EnvelopeOf(t: Terms, items: seq<Json>, ds: seq<Decision>, d: Decision) returns (j: Json)
    requires DecisionsRead(t, items, ds) && d in ds
    ensures j in items && DecisionReads(t, j, d)
  {
    var i :| 0 <= i < |ds| && ds[i] == d;
    j := items[i];
  }

  lemma DecisionOf(t: Terms, items: seq<Json>, ds: seq<Decision>, j: Json) returns (d: Decision)
    requires DecisionsRead(t, items, ds) && j in items
    ensures d in ds && DecisionReads(t, j, d)
  {
    var i :| 0 <= i < |items| && items[i] == j;
    d := ds[i];
  }

  /** Some envelope decides the need, and if any of these names a target, one names the leg's. */
  ghost predicate PlacedBy(host: Host, items: seq<Json>, leg: Leg, need: string) {
    && (exists j :: j in items && Decides(j, need))
    && ((forall j :: j in items && Decides(j, need) ==> Targets(host, j, "")) || NamesTarget(host, items, leg, need))
  }

  /** Some envelope on the need names the leg's own, non-empty target. */
  ghost predicate NamesTarget(host: Host, items: seq<Json>, leg: Leg, need: string) {
    leg.target != "" && exists j :: j in items && Decides(j, need) && Targets(host, j, leg.target)
  }

  ghost predicate DeniedIn(items: seq<Json>, need: string) {
    exists j :: j in items && Decides(j, need) && Says(j.fields, "status", "denied")
  }

  /** A conditional envelope lists an item that is neither attested nor the execution target of a leg it may run on. */
  ghost predicate AwaitedIn(t: Terms, items: seq<Json>, r: Requirement, leg: Leg, need: string) {
    exists j, item :: j in items && Decides(j, need) && Says(j.fields, "status", "conditional") && Misses(j, item)
      && !Attested(t, r, leg.name, item) && !(item == "execution.target" && NamesTarget(t.host, items, leg, need))
  }

  lemma NamesTargetRead(t: Terms, items: seq<Json>, r: Requirement, leg: Leg, need: string)
    requires DecisionsRead(t, items, r.decisions) && leg.target != ""
    ensures NamesTarget(t.host, items, leg, need) <==>
      exists d :: d in r.decisions && d.capability == need && d.target == leg.target
  {
    if d :| d in r.decisions && d.capability == need && d.target == leg.target {
      var j := EnvelopeOf(t, items, r.decisions, d);
      DecisionShown(t, j, d, need, "", leg.target);
    }
    if NamesTarget(t.host, items, leg, need) {
      var j :| j in items && Decides(j, need) && Targets(t.host, j, leg.target);
      var d := DecisionOf(t, items, r.decisions, j);
      DecisionShown(t, j, d, need, "", leg.target);
    }
  }

  lemma DecidedRead(t: Terms, items: seq<Json>, r: Requirement, need: string)
    requires DecisionsRead(t, items, r.decisions)
    ensures (exists j :: j in items && Decides(j, need)) <==> exists d :: d in r.decisions && d.capability == need
  {
    if d :| d in r.decisions && d.capability == need {
      var j := EnvelopeOf(t, items, r.decisions, d);
      DecisionShown(t, j, d, need, "", "");
    }
    if j :| j in items && Decides(j, need) {
      var d := DecisionOf(t, items, r.decisions, j);
      DecisionShown(t, j, d, need, "", "");
    }
  }

  lemma UntargetedRead(t: Terms, items: seq<Json>, r: Requirement, need: string)
    requires DecisionsRead(t, items, r.decisions)
    ensures (forall j :: j in items && Decides(j, need) ==> Targets(t.host, j, "")) <==>
      forall d :: d in r.decisions && d.capability == need ==> d.target == ""
  {
    if d :| d in r.decisions && d.capability == need && d.target != "" {
      var j := EnvelopeOf(t, items, r.decisions, d);
      DecisionShown(t, j, d, need, "", "");
    }
    if j :| j in items && Decides(j, need) && !Targets(t.host, j, "") {
      var d := DecisionOf(t, items, r.decisions, j);
      DecisionShown(t, j, d, need, "", "");
    }
  }

  lemma PlacedRead(t: Terms, items: seq<Json>, r: Requirement, leg: Leg, need: string)
    requires DecisionsRead(t, items, r.decisions)
    ensures PlacedBy(t.host, items, leg, need) <==> Placeable(r, leg, need)
  {
    if leg.target != "" { NamesTargetRead(t, items, r, leg, need); }
    DecidedRead(t, items, r, need);
    UntargetedRead(t, items, r, need);
  }

  lemma DeniedRead(t: Terms, items: seq<Json>, r: Requirement, need: string)
    requires DecisionsRead(t, items, r.decisions)
    ensures DeniedIn(items, need) <==> DeniedBy(r, need)
  {
    if d :| d in r.decisions && d.capability == need && d.status.Denied? {
      var j := EnvelopeOf(t, items, r.decisions, d);
      DecisionShown(t, j, d, need, "", "");
    }
    if j :| j in items && Decides(j, need) && Says(j.fields, "status", "denied") {
      var d := DecisionOf(t, items, r.decisions, j);
      DecisionShown(t, j, d, need, "", "");
    }
  }

  lemma EvidencedRead(t: Terms, items: seq<Json>, r: Requirement, leg: Leg, need: string, item: string)
    requires DecisionsRead(t, items, r.decisions)
    requires (leg.name, item) in r.verified <==> Attested(t, r, leg.name, item)
    ensures Evidenced(r, leg, need, item) <==>
      Attested(t, r, leg.name, item) || (item == "execution.target" && NamesTarget(t.host, items, leg, need))
  {
    if leg.target != "" { NamesTargetRead(t, items, r, leg, need); }
  }

  lemma AwaitedRead(t: Terms, items: seq<Json>, r: Requirement, leg: Leg, need: string)
    requires DecisionsRead(t, items, r.decisions)
    requires forall item :: (leg.name, item) in r.verified <==> Attested(t, r, leg.name, item)
    ensures AwaitedIn(t, items, r, leg, need) <==> AwaitsEvidence(r, leg, need)
  {
    if AwaitsEvidence(r, leg, need) {
      var d, item :| d in r.decisions && d.capability == need && d.status.Conditional? && item in d.missing
                  && !Evidenced(r, leg, need, item);
      var j := EnvelopeOf(t, items, r.decisions, d);
      DecisionShown(t, j, d, need, item, "");
      EvidencedRead(t, items, r, leg, need, item);
    }
    if AwaitedIn(t, items, r, leg, need) {
      var j, item :| j in items && Decides(j, need) && Says(j.fields, "status", "conditional") && Misses(j, item)
        && !Attested(t, r, leg.name, item) && !(item == "execution.target" && NamesTarget(t.host, items, leg, need));
      var d := DecisionOf(t, items, r.decisions, j);
      DecisionShown(t, j, d, need, item, "");
      EvidencedRead(t, items, r, leg, need, item);
    }
  }

  /** From the envelope to the verdict: a loaded leg is GRANTED exactly when no other artifact was observed and, for
      each need, some carried envelope decides it, none denies it, one names the leg's target if any names one, and
      every item a conditional one lists is attested or is the execution target. */
  lemma EnvelopesGrantExactly(t: Terms, value: Json, legName: string, observed: string)
    requires Load(t, value).Some? && FindLeg(Load(t, value).value.legs, legName).Some?
    ensures var r := Load(t, value).value;
      var leg, items := FindLeg(r.legs, legName).value, value.fields["atlas_decisions"].items;
      AcceptVerdict(r, legName, observed) == GRANTED <==>
        && (observed == "" || observed == r.artifactId)
        && forall need :: need in leg.needs ==>
             PlacedBy(t.host, items, leg, need) && !DeniedIn(items, need) && !AwaitedIn(t, items, r, leg, need)
  {
    var r := Load(t, value).value;
    LoadExactly(t, value, r);
    AcceptExactly(r, legName, observed);
    var leg, items := FindLeg(r.legs, legName).value, value.fields["atlas_decisions"].items;
    forall need
      ensures PlacedBy(t.host, items, leg, need) <==> Placeable(r, leg, need)
      ensures DeniedIn(items, need) <==> DeniedBy(r, need)
      ensures AwaitedIn(t, items, r, leg, need) <==> AwaitsEvidence(r, leg, need)
    {
      PlacedRead(t, items, r, leg, need);
      DeniedRead(t, items, r, need);
      AwaitedRead(t, items, r, leg, need);
    }
  }

  /** GRANTED rests on authenticated material alone: behind every need stands a carried envelope with a matching
      digest, a trusted issuer's signature, issued for this very session, that decides the need and does not deny it. */
  lemma GrantedIsAuthenticated(t: Terms, value: Json, legName: string, observed: string, need: string)
    requires Load(t, value).Some?
    requires AcceptVerdict(Load(t, value).value, legName, observed) == GRANTED
    requires need in FindLeg(Load(t, value).value.legs, legName).value.needs
    ensures var r := Load(t, value).value;
      exists j, keyId :: j in value.fields["atlas_decisions"].items && Decides(j, need)
        && Intact(t, j.fields) && IssuedBy(t, j.fields, keyId) && InSession(j.fields, r.participant, r.scope)
        && (Says(j.fields, "status", "granted") || Says(j.fields, "status", "conditional"))
  {
    var r := Load(t, value).value;
    LoadExactly(t, value, r);
    AcceptExactly(r, legName, observed);
    var d :| d in r.decisions && d.capability == need;
    assert !d.status.Denied?;
    var j := EnvelopeOf(t, value.fields["atlas_decisions"].items, r.decisions, d);
    DecisionShown(t, j, d, need, "", "");
    assert IssuedBy(t, j.fields, d.issuer);
  }

  /** And on evidence: every item that a conditional envelope on one of its needs lists as missing is attested, or is
      the execution target of a leg whose target an envelope names. */
  lemma GrantedIsEvidenced(t: Terms, value: Json, legName: string, observed: string, j: Json, need: string,
      item: string)
    requires Load(t, value).Some?
    requires AcceptVerdict(Load(t, value).value, legName, observed) == GRANTED
    requires need in FindLeg(Load(t, value).value.legs, legName).value.needs
    requires j in value.fields["atlas_decisions"].items && Decides(j, need)
    requires Says(j.fields, "status", "conditional") && Misses(j, item)
    ensures var r := Load(t, value).value;
      var leg := FindLeg(r.legs, legName).value;
      Attested(t, r, legName, item)
      || (item == "execution.target" && NamesTarget(t.host, value.fields["atlas_decisions"].items, leg, need))
  {
    AcceptExactly(Load(t, value).value, legName, observed);
    EnvelopesGrantExactly(t, value, legName, observed);
  }

  /** Plain grants really grant: envelopes that all say "granted" and name no target grant every leg whose needs they
      decide. */
  lemma PlainGrantsGrant(t: Terms, value: Json, legName: string)
    requires Load(t, value).Some? && FindLeg(Load(t, value).value.legs, legName).Some?
    requires var items := value.fields["atlas_decisions"].items;
      && (forall j :: j in items ==> j.Obj? && Says(j.fields, "status", "granted") && Targets(t.host, j, ""))
      && (forall need :: need in FindLeg(Load(t, value).value.legs, legName).value.needs ==>
            exists j :: j in items && Decides(j, need))
    ensures AcceptVerdict(Load(t, value).value, legName, "") == GRANTED
  {
    var r := Load(t, value).value;
    var leg, items := FindLeg(r.legs, legName).value, value.fields["atlas_decisions"].items;
    EnvelopesGrantExactly(t, value, legName, "");
    forall need | need in leg.needs
      ensures PlacedBy(t.host, items, leg, need) && !DeniedIn(items, need) && !AwaitedIn(t, items, r, leg, need)
    {
      PlainNeed(t, items, r, leg, need);
    }
  }

  lemma PlainNeed(t: Terms, items: seq<Json>, r: Requirement, leg: Leg, need: string)
    requires forall j :: j in items ==> j.Obj? && Says(j.fields, "status", "granted") && Targets(t.host, j, "")
    requires exists j :: j in items && Decides(j, need)
    ensures PlacedBy(t.host, items, leg, need) && !DeniedIn(items, need) && !AwaitedIn(t, items, r, leg, need)
  {
    assert "granted"[0] == 'g' && "conditional"[0] == 'c' && "denied"[0] == 'd';
  }
}
