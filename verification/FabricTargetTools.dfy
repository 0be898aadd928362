/** Dispatching one approved command to one exact Fabric worker, gated before and confirmed after. */
module FabricTargetTools {
  import opened Orders
  import opened MncsExec
  import opened AtlasBinding
  import opened AtlasLaws

  const CONSUMER_DECLARED := "consumer-declared"

  /** What the Fabric client can tell about workers at one moment. `classes` gives the observation
      class of a worker's latest observation, None when the lookup fails or is malformed; `current`
      the workers whose inventory Fabric itself judges fresh. */
  datatype FabricView = FabricView(provenance: bool, trusted: set<string>, classes: map<string, Option<string>>,
      current: set<string>)

  function ProofOrigin(v: FabricView, worker: string): string {
    if !v.provenance then FABRIC_LEGACY
    else
      var observed := if worker in v.classes then v.classes[worker] else Some(CONSUMER_DECLARED);
      if observed.None? then CONSUMER_DECLARED
      else if observed.value in v.trusted then FABRIC_INVENTORY
      else CONSUMER_DECLARED
  }

  predicate IsFresh(v: FabricView, worker: string) {
    worker in v.current
  }

  datatype Refusal =
    | NoRequirement | LegNotGranted | NeedsUncovered | WorkerNotAuthorized
    | WrongParticipant | WrongScope | NoClient | OriginRefused | StaleProof

  datatype Request = Request(worker: string, requirement: Option<Requirement>, legName: string, participant: string,
      scope: string)

  /** `_atlas_dispatch_gate`: None means covered. */
  function AtlasDispatchGate(q: Request, client: Option<FabricView>): Option<Refusal> {
    if q.requirement.None? || q.legName == "" then Some(NoRequirement)
    else
      var r := q.requirement.value;
      var leg := FindLeg(r.legs, q.legName);
      if AcceptVerdict(r, q.legName, "") != GRANTED then Some(LegNotGranted)
      else if leg.None? || WORKER_DISPATCH !in leg.value.needs then Some(NeedsUncovered)
      else if q.worker !in AuthorizedTargets(r.decisions, WORKER_DISPATCH) then Some(WorkerNotAuthorized)
      else if q.participant != "" && r.participant != q.participant then Some(WrongParticipant)
      else if q.scope != "" && r.scope != q.scope then Some(WrongScope)
      else if client.None? then Some(NoClient)
      else if !OperatorProof(ProofOrigin(client.value, q.worker)) then Some(OriginRefused)
      else if !IsFresh(client.value, q.worker) then Some(StaleProof)
      else None
  }

  /** Fabric's own account of the execution; `actual` is the worker its placement evidence names. */
  datatype FabricResult = Raised | Executed(disposition: string, outcome: string, actual: string)

  /** Everything around one call: the client at the gate, policy and approval, whether the target
      service is supported and the bundle can be built, Fabric's result, and the client afterwards. */
  datatype World = World(
    before: Option<FabricView>, allowed: bool, approved: bool, supported: bool, prepared: bool,
    result: FabricResult, after: FabricView)

  predicate RawSuccess(result: FabricResult) {
    result.Executed? && (result.disposition == "EXECUTED" || result.disposition == "DUPLICATE_IDEMPOTENT")
      && result.outcome == "PASS"
  }

  predicate Dispatches(q: Request, w: World) {
    AtlasDispatchGate(q, w.before).None? && w.allowed && w.approved && w.supported && w.before.Some? && w.prepared
  }

  function Confirmation(q: Request, w: World): Grant
    requires q.requirement.Some? && w.result.Executed?
  {
    ConfirmVerdict(q.requirement.value, q.legName, w.result.actual, ProofOrigin(w.after, q.worker),
      IsFresh(w.after, q.worker), "")
  }

  /** Success is reported: Fabric was called, says so, and confirmation does not refuse. */
  predicate Reports(q: Request, w: World) {
    Dispatches(q, w) && RawSuccess(w.result) && Confirmation(q, w) != REFUSED
  }

  /** `execute` with the confirmation tail of `_dispatch`: was Fabric called, and is success reported. */
  method Execute(q: Request, w: World) returns (dispatched: bool, success: bool)
    ensures dispatched <==> Dispatches(q, w)
    ensures success <==> Reports(q, w)
  {
    var refusal := AtlasDispatchGate(q, w.before);
    if refusal.Some? { return false, false; }
    if !w.allowed { return false, false; }
    if !w.approved { return false, false; }
    if !w.supported || w.before.None? { return false, false; }
    if !w.prepared { return false, false; }
    if w.result.Raised? { return true, false; }
    success := RawSuccess(w.result);
    if q.requirement.Some? && q.legName != "" {
      var confirmation := ConfirmVerdict(q.requirement.value, q.legName, w.result.actual,
                                         ProofOrigin(w.after, q.worker), IsFresh(w.after, q.worker), "");
      if confirmation == REFUSED { success := false; }
    }
    return true, success;
  }

  // ---------------------------------------------------------------- what a dispatch promises

  ghost function LegTarget(q: Request): string
    requires q.requirement.Some? && FindLeg(q.requirement.value.legs, q.legName).Some?
  {
    FindLeg(q.requirement.value.legs, q.legName).value.target
  }

  /** The leg is carried, covers dispatch, and every need of it is met by Atlas. */
  ghost predicate LegCoversDispatch(r: Requirement, legName: string) {
    FindLeg(r.legs, legName).Some? &&
    var leg := FindLeg(r.legs, legName).value;
    "worker.dispatch" in leg.needs && NeedsMet(r, leg)
  }

  /** Atlas names the worker as a place to dispatch to. */
  ghost predicate NamedByAtlas(r: Requirement, worker: string) {
    worker != "" && exists d :: d in r.decisions && d.capability == "worker.dispatch" && d.target == worker
  }

  /** The latest observation of the worker is of a class Fabric trusts; one without a class counts as
      consumer-declared. */
  ghost predicate OperatorProven(v: FabricView, worker: string) {
    if worker in v.classes then v.classes[worker].Some? && v.classes[worker].value in v.trusted
    else "consumer-declared" in v.trusted
  }

  /** The request is covered: by a met leg that lists dispatch, for a worker Atlas names, in the expected session,
      and Fabric, which knows provenance, holds fresh operator proof of that worker. */
  ghost predicate Covered(q: Request, client: Option<FabricView>) {
    && q.requirement.Some? && q.legName != "" && LegCoversDispatch(q.requirement.value, q.legName)
    && NamedByAtlas(q.requirement.value, q.worker)
    && (q.participant == "" || q.participant == q.requirement.value.participant)
    && (q.scope == "" || q.scope == q.requirement.value.scope)
    && client.Some? && client.value.provenance && OperatorProven(client.value, q.worker)
    && q.worker in client.value.current
  }

  /** When the gate lets a request through. */
  lemma GatePassExactly(q: Request, client: Option<FabricView>)
    ensures AtlasDispatchGate(q, client).None? <==> Covered(q, client)
  {
    if q.requirement.Some? {
      AcceptExactly(q.requirement.value, q.legName, "");
      NamedMeaning(q.requirement.value, q.worker);
    }
  }

  lemma NamedMeaning(r: Requirement, worker: string)
    ensures worker in AuthorizedTargets(r.decisions, WORKER_DISPATCH) <==> NamedByAtlas(r, worker)
  {
  }

  /** Fabric's evidence after the execution does not speak against the leg's target: an implementation without
      provenance may name it or nobody; one with provenance must hold operator proof and name a worker, and on fresh
      proof that worker is the target. */
  ghost predicate Uncontradicted(v: FabricView, worker: string, actual: string, target: string) {
    if !v.provenance then actual == "" || actual == target
    else OperatorProven(v, worker) && actual != "" && (worker in v.current ==> actual == target)
  }

  /** When a success is reported, over everything the call depends on. */
  lemma ReportsExactly(q: Request, w: World)
    ensures Reports(q, w) <==>
      && Covered(q, w.before) && w.allowed && w.approved && w.supported && w.prepared
      && w.result.Executed? && w.result.outcome == "PASS"
      && (w.result.disposition == "EXECUTED" || w.result.disposition == "DUPLICATE_IDEMPOTENT")
      && FindLeg(q.requirement.value.legs, q.legName).Some?
      && Uncontradicted(w.after, q.worker, w.result.actual, LegTarget(q))
  {
    GatePassExactly(q, w.before);
    if Dispatches(q, w) && w.result.Executed? {
      GatePassMeaning(q, w.before);
      AcceptExactly(q.requirement.value, q.legName, "");
      ConfirmExactly(q.requirement.value, q.legName, w.result.actual, ProofOrigin(w.after, q.worker),
        IsFresh(w.after, q.worker), "");
    }
  }

  /** No success rests on a consumer-declared channel, whatever worker it names; and a matching worker keeps its
      success though the operator's proof of it went stale. */
  lemma LapsedProof(q: Request, w: World)
    requires Dispatches(q, w) && RawSuccess(w.result)
    ensures FindLeg(q.requirement.value.legs, q.legName).Some?
    ensures w.after.provenance && !OperatorProven(w.after, q.worker) ==> !Reports(q, w)
    ensures w.after.provenance && OperatorProven(w.after, q.worker) && w.result.actual == LegTarget(q) ==> Reports(q, w)
  {
    GatePassMeaning(q, w.before);
    GatePassExactly(q, w.before);
    ReportsExactly(q, w);
  }

  /** A passed gate means: a granted leg covering worker.dispatch whose own target is non-empty and
      authorized by Atlas, a requested worker Atlas authorizes, undenied, in the expected session. */
  lemma GatePassMeaning(q: Request, client: Option<FabricView>)
    requires AtlasDispatchGate(q, client).None?
    ensures q.requirement.Some? && FindLeg(q.requirement.value.legs, q.legName).Some?
    ensures var r := q.requirement.value;
      && NamedByAtlas(r, LegTarget(q)) && NamedByAtlas(r, q.worker) && !DeniedBy(r, "worker.dispatch")
      && (q.participant == "" || q.participant == r.participant) && (q.scope == "" || q.scope == r.scope)
  {
    var r := q.requirement.value;
    AcceptExactly(r, q.legName, "");
    var leg := FindLeg(r.legs, q.legName).value;
    assert Placeable(r, leg, WORKER_DISPATCH);
    TargetsMeaning(r.decisions, WORKER_DISPATCH);
    NamedMeaning(r, q.worker);
  }

  /** A success confirmed on fresh operator proof ran on the authorized leg target. */
  lemma ConfirmedSuccessRanOnTarget(q: Request, w: World)
    requires Reports(q, w)
    requires w.after.provenance && OperatorProven(w.after, q.worker) && q.worker in w.after.current
    ensures q.requirement.Some? && FindLeg(q.requirement.value.legs, q.legName).Some?
    ensures w.result.actual == LegTarget(q) && NamedByAtlas(q.requirement.value, w.result.actual)
  {
    GatePassMeaning(q, w.before);
    ReportsExactly(q, w);
  }

  /** A raw success whose evidence does not name the leg target is still reported exactly when proof had lapsed since
      the gate: to a stale operator channel with some worker reported, or, should the provenance module that the
      gate found be gone, to the legacy channel with none. */
  lemma UnconfirmedSuccessExactly(q: Request, w: World)
    requires Dispatches(q, w) && RawSuccess(w.result)
    requires FindLeg(q.requirement.value.legs, q.legName).Some? ==> w.result.actual != LegTarget(q)
    ensures q.requirement.Some? && FindLeg(q.requirement.value.legs, q.legName).Some?
    ensures Reports(q, w) <==>
      || (!w.after.provenance && w.result.actual == "")
      || (w.after.provenance && OperatorProven(w.after, q.worker) && w.result.actual != ""
          && q.worker !in w.after.current)
  {
    GatePassMeaning(q, w.before);
    GatePassExactly(q, w.before);
    ReportsExactly(q, w);
  }

  /** Asking for an authorized worker other than the leg's own target never ends in a success that
      Fabric, placing the work as asked, can confirm on fresh operator proof. */
  lemma OtherAuthorizedWorkerNeverConfirms(q: Request, w: World)
    requires Dispatches(q, w) && RawSuccess(w.result) && w.result.actual == q.worker
    requires w.after.provenance && OperatorProven(w.after, q.worker) && q.worker in w.after.current
    ensures q.requirement.Some? && FindLeg(q.requirement.value.legs, q.legName).Some?
    ensures Reports(q, w) <==> q.worker == LegTarget(q)
  {
    GatePassMeaning(q, w.before);
    GatePassExactly(q, w.before);
    ReportsExactly(q, w);
  }
}
