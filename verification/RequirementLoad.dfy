/** Loading a requirement envelope: every authority-bearing component is authenticated
    here, and nothing that was not authenticated can later be granted. */
module RequirementLoad {
  import opened Orders
  import opened MncsExec
  import opened AtlasBinding
  import opened AtlasLaws
  import opened RequirementIdentity

  const DECISION_SCHEMA := "mncs.atlas-capability-decision/1"
  const DIGEST_ALG := "sha256:canonical-json-v1"
  const SIGNATURE_ALG := "ed25519"
  const EVIDENCE_SCHEMA := "mncs.evidence-attestation/1"

  /** Primitives outside the model: Python's `str` on a non-string, SHA-256 over the
      canonical bytes of a value, and Ed25519 verification (key, signed value, signature). */
  datatype Host = Host(text: Json -> string, sha: Json -> string, signed: (string, Json, string) -> bool)

  /** Everything besides the envelope that a load depends on. */
  datatype Terms = Terms(host: Host, trusted: map<string, string>, maxAge: int, now: int)

  // ---------------------------------------------------------------- reading JSON

  function Get(o: map<string, Json>, key: string): Json {
    if key in o then o[key] else Null
  }

  function GetOr(o: map<string, Json>, key: string, default: Json): Json {
    if key in o then o[key] else default
  }

  predicate Truthy(j: Json) {
    match j
    case Null => false
    case Bool(b) => b
    case Int(n) => n != 0
    case Float(repr) => repr != "0.0" && repr != "-0.0"
    case Str(s) => s != ""
    case Arr(items) => items != []
    case Obj(fields) => fields != map[]
  }

  function Text(host: Host, j: Json): string {
    if j.Str? then j.s else host.text(j)
  }

  predicate NonEmptyStr(j: Json) { j.Str? && j.s != "" }

  predicate IsStringList(j: Json) {
    j.Arr? && forall i :: 0 <= i < |j.items| ==> j.items[i].Str?
  }

  function Strings(j: Json): (r: seq<string>)
    requires IsStringList(j)
    ensures |r| == |j.items| && forall i :: 0 <= i < |r| ==> Str(r[i]) == j.items[i]
  {
    seq(|j.items|, i requires 0 <= i < |j.items| => j.items[i].s)
  }

  // ---------------------------------------------------------------- integrity and issuance

  predicate DigestVerifies(host: Host, o: map<string, Json>) {
    && Get(o, "decision_digest_alg") == Str(DIGEST_ALG)
    && NonEmptyStr(Get(o, "decision_digest"))
    && host.sha(Obj(o - {"decision_digest"})) == Get(o, "decision_digest").s
  }

  predicate IsHex(c: char) {
    '0' <= c <= '9' || 'a' <= c <= 'f' || 'A' <= c <= 'F'
  }

  /** The envelope carries a well-formed signature that verifies under the key trusted for `keyId`. */
  predicate SignedBy(t: Terms, o: map<string, Json>, keyId: string) {
    && keyId in t.trusted
    && Get(o, "issuer_signature").Str?
    && var signature := Get(o, "issuer_signature").s;
    && |signature| == 128
    && (forall i :: 0 <= i < |signature| ==> IsHex(signature[i]))
    && t.host.signed(t.trusted[keyId], Obj(o - {"decision_digest", "issuer_signature"}), signature)
  }

  /** `verify_issuance`: the trusted key that issued the envelope, if any. */
  function Issuer(t: Terms, o: map<string, Json>): Option<string> {
    var issuer := Get(o, "issuer");
    if "decision_digest" in o && !DigestVerifies(t.host, o) then None
    else if !issuer.Obj? || !Truthy(Get(issuer.fields, "key_id")) then None
    else if Get(issuer.fields, "algorithm") != Str(SIGNATURE_ALG) then None
    else if !SignedBy(t, o, Text(t.host, Get(issuer.fields, "key_id"))) then None
    else Some(Text(t.host, Get(issuer.fields, "key_id")))
  }

  /** The admitted session of an envelope: both parts present and non-empty. */
  function Session(o: map<string, Json>): Option<(string, string)> {
    var session := GetOr(o, "session", Obj(map[]));
    if !session.Obj? then None
    else if !NonEmptyStr(Get(session.fields, "participant")) || !NonEmptyStr(Get(session.fields, "scope")) then None
    else Some((Get(session.fields, "participant").s, Get(session.fields, "scope").s))
  }

  function ParseDecisionStatus(j: Json): Option<DecisionStatus> {
    if j == Str("granted") then Some(Granted)
    else if j == Str("conditional") then Some(Conditional)
    else if j == Str("denied") then Some(Denied)
    else None
  }

  /** `AtlasDecision.from_dict`; None stands for BindingError. */
  function ParseDecision(t: Terms, value: Json): Option<Decision> {
    if !value.Obj? || Get(value.fields, "schema_version") != Str(DECISION_SCHEMA) then None
    else if !DigestVerifies(t.host, value.fields) then None
    else
      var o := value.fields;
      var issuer := Issuer(t, o);
      var status := ParseDecisionStatus(Get(o, "status"));
      var missing := GetOr(o, "missing", Arr([]));
      var session := Session(o);
      if issuer.None? || !NonEmptyStr(Get(o, "capability")) || status.None? then None
      else if !IsStringList(missing) || session.None? then None
      else if !IsStringList(GetOr(o, "decision_by", Arr([]))) then None
      else Some(Decision(Get(o, "capability").s, status.value, Strings(missing), session.value.0, session.value.1,
                         Text(t.host, GetOr(o, "execution_target", Str(""))), Get(o, "decision_digest").s,
                           issuer.value))
  }

  /** `check_attestation` as the loader calls it, with an empty subject. */
  predicate CheckAttestation(t: Terms, value: Json, name: string, participant: string, scope: string) {
    && value.Obj?
    && var o := value.fields;
    && Get(o, "schema_version") == Str(EVIDENCE_SCHEMA)
    && Get(o, "name") == Str(name)
    && Get(o, "participant") == Str(participant) && Get(o, "scope") == Str(scope)
    && GetOr(o, "subject", Str("")) == Str("")
    && Get(o, "issued_at").Int?
    && AttestationWindowOk(Get(o, "issued_at").n, t.now, t.maxAge)
    && Issuer(t, o).Some?
  }

  // ---------------------------------------------------------------- the whole envelope

  function ParseDecisions(t: Terms, items: seq<Json>): Option<seq<Decision>> {
    if |items| == 0 then Some([])
    else
      var init := ParseDecisions(t, items[..|items| - 1]);
      var last := ParseDecision(t, items[|items| - 1]);
      if init.None? || last.None? then None else Some(init.value + [last.value])
  }

  function ParseLeg(host: Host, j: Json): Option<Leg> {
    if !j.Obj? || !Truthy(Get(j.fields, "name")) then None
    else
      var o := j.fields;
      var needs := GetOr(o, "needs", Arr([]));
      var evidence := GetOr(o, "evidence", Obj(map[]));
      if !IsStringList(needs) || !evidence.Obj? then None
      else Some(Leg(Text(host, o["name"]), Strings(needs), Text(host, GetOr(o, "backend", Str(""))),
                    Text(host, GetOr(o, "target", Str(""))), evidence.fields))
  }

  function ParseLegs(host: Host, items: seq<Json>): Option<seq<Leg>> {
    if |items| == 0 then Some([])
    else
      var init := ParseLegs(host, items[..|items| - 1]);
      var last := ParseLeg(host, items[|items| - 1]);
      if init.None? || last.None? then None else Some(init.value + [last.value])
  }

  function VerifiedNames(t: Terms, participant: string, scope: string, leg: Leg): set<(string, string)> {
    set name | name in leg.evidence && CheckAttestation(t, leg.evidence[name], name, participant, scope)
      :: (leg.name, name)
  }

  function VerifiedPairs(t: Terms, participant: string, scope: string, legs: seq<Leg>): set<(string, string)> {
    if |legs| == 0 then {}
    else
      var init, last := legs[..|legs| - 1], legs[|legs| - 1];
      VerifiedPairs(t, participant, scope, init) + VerifiedNames(t, participant, scope, last)
  }

  predicate SameSession(decisions: seq<Decision>, participant: string, scope: string) {
    forall i :: 0 <= i < |decisions| ==> decisions[i].participant == participant && decisions[i].scope == scope
  }

  function Digests(decisions: seq<Decision>): seq<string> {
    seq(|decisions|, i requires 0 <= i < |decisions| => decisions[i].digest)
  }

  predicate HeaderOk(t: Terms, o: map<string, Json>) {
    && Get(o, "schema_version") == Str(SCHEMA)
    && NonEmptyStr(Get(o, "task_id")) && NonEmptyStr(Get(o, "source_identity"))
      && NonEmptyStr(Get(o, "artifact_identity"))
    && Session(o).Some?
    && Get(o, "atlas_decisions").Arr? && Get(o, "atlas_decisions").items != []
    && t.trusted != map[]
    && t.maxAge > 0
  }

  /** The requirement an authenticated envelope stands for. */
  function Assemble(t: Terms, o: map<string, Json>, decisions: seq<Decision>, legs: seq<Leg>,
                    bounds: map<string, Json>, verified: set<(string, string)>): Requirement
    requires HeaderOk(t, o)
  {
    var (participant, scope) := Session(o).value;
    var task, source, artifact := Get(o, "task_id").s, Get(o, "source_identity").s, Get(o, "artifact_identity").s;
    Requirement(task, source, artifact, decisions, legs, bounds, participant, scope,
                Identity(t.host.sha,
                  Subject(task, source, artifact, Digests(decisions), legs, bounds, participant, scope)),
                verified)
  }

  function Load(t: Terms, value: Json): Option<Requirement> {
    if !value.Obj? || !HeaderOk(t, value.fields) then None
    else
      var o := value.fields;
      var (participant, scope) := Session(o).value;
      var decisions := ParseDecisions(t, Get(o, "atlas_decisions").items);
      var legItems := Get(o, "legs");
      var bounds := GetOr(o, "bounds", Obj(map[]));
      if decisions.None? || !SameSession(decisions.value, participant, scope) then None
      else if !legItems.Arr? || legItems.items == [] then None
      else
        var legs := ParseLegs(t.host, legItems.items);
        if legs.None? || !bounds.Obj? then None
        else Some(Assemble(t, o, decisions.value, legs.value, bounds.fields,
                           VerifiedPairs(t, participant, scope, legs.value)))
  }

  /** `ExecutionRequirement.from_dict`. */
  method FromDict(t: Terms, value: Json) returns (r: Option<Requirement>)
    ensures r == Load(t, value)
  {
    if !value.Obj? || !HeaderOk(t, value.fields) { return None; }
    var o := value.fields;
    var (participant, scope) := Session(o).value;
    var decisions := ParseDecisions(t, Get(o, "atlas_decisions").items);
    if decisions.None? { return None; }
    var belongs := CheckSession(decisions.value, participant, scope);
    if !belongs { return None; }
    var legItems := Get(o, "legs");
    if !legItems.Arr? || legItems.items == [] { return None; }
    var legs := ParseEachLeg(t, legItems.items, participant, scope);
    if legs.None? { return None; }
    var bounds := GetOr(o, "bounds", Obj(map[]));
    if !bounds.Obj? { return None; }
    return Some(Assemble(t, o, decisions.value, legs.value.0, bounds.fields, legs.value.1));
  }

  /** Refuses the first decision that belongs to another participant or scope. */
  method CheckSession(decisions: seq<Decision>, participant: string, scope: string) returns (ok: bool)
    ensures ok <==> SameSession(decisions, participant, scope)
  {
    for i := 0 to |decisions|
      invariant SameSession(decisions[..i], participant, scope)
    {
      if decisions[i].participant != participant || decisions[i].scope != scope { return false; }
    }
    return true;
  }

  /** The leg loop: parse each leg and authenticate every value it carries. */
  method ParseEachLeg(t: Terms, items: seq<Json>, participant: string, scope: string)
      returns (r: Option<(seq<Leg>, set<(string, string)>)>)
    ensures r.None? <==> ParseLegs(t.host, items).None?
    ensures r.Some? ==> ParseLegs(t.host, items) == Some(r.value.0)
    ensures r.Some? ==> r.value.1 == VerifiedPairs(t, participant, scope, r.value.0)
  {
    var legs: seq<Leg> := [];
    var verified: set<(string, string)> := {};
    for i := 0 to |items|
      invariant ParseLegs(t.host, items[..i]) == Some(legs)
      invariant verified == VerifiedPairs(t, participant, scope, legs)
    {
      var leg := ParseLeg(t.host, items[i]);
      assert items[..i + 1][..i] == items[..i];
      if leg.None? {
        LegFailurePropagates(t.host, items, i + 1);
        return None;
      }
      var names := VerifyEvidence(t, participant, scope, leg.value);
      assert (legs + [leg.value])[..|legs|] == legs;
      legs := legs + [leg.value];
      verified := verified + names;
    }
    assert items[..|items|] == items;
    return Some((legs, verified));
  }

  method VerifyEvidence(t: Terms, participant: string, scope: string, leg: Leg)
      returns (verified: set<(string, string)>)
    ensures verified == VerifiedNames(t, participant, scope, leg)
  {
    verified := {};
    var todo := leg.evidence.Keys;
    while todo != {}
      invariant todo <= leg.evidence.Keys
      invariant verified == set name | name in leg.evidence.Keys - todo
                              && CheckAttestation(t, leg.evidence[name], name, participant, scope) :: (leg.name, name)
      decreases todo
    {
      var name :| name in todo;
      if CheckAttestation(t, leg.evidence[name], name, participant, scope) {
        verified := verified + {(leg.name, name)};
      }
      todo := todo - {name};
    }
  }

  lemma {:induction false} LegFailurePropagates(host: Host, items: seq<Json>, at: nat)
    requires at <= |items| && ParseLegs(host, items[..at]).None?
    ensures ParseLegs(host, items).None?
    decreases |items| - at
  {
    if at == |items| {
      assert items[..at] == items;
    } else {
      assert items[..at + 1][..at] == items[..at];
      LegFailurePropagates(host, items, at + 1);
    }
  }
}
