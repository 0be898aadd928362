/** The experiment-readiness contract: worker and model eligibility, the fleet, worker and model layers, and the
    profile verdict over all layers. */
module ExperimentReadiness {
  import opened MncsExec
  import opened Orders

  // ---------------------------------------------------------------- workers

  datatype ReadyDecision = NoDecision | Undecided | Ready | NotReady(blockers: seq<string>)

  /** A worker observation as the projections read it; the empty string stands for a missing value. */
  datatype Worker = Worker(
    id: string, availability: string, management: string, certification: string, inventoryStatus: string,
    inventoryIdentity: string, certifiedInventory: string, inspected: bool, desired: string, conformanceDesired: string,
    blocking: seq<string>, disposition: string, unresolved: Option<string>, unschedulable: bool,
    decision: ReadyDecision, incompatible: bool, models: seq<ModelItem>)

  datatype ModelItem = ModelItem(name: string, worker: string, observedFail: bool, denied: bool, roles: seq<string>)

  datatype WorkerEval = WorkerEval(
    id: string, status: Readiness, current: bool, operational: bool, fabricEligible: bool, eligible: bool,
      blockers: seq<Blocker>)

  datatype Blocker =
    | Availability(state: string)
    | FabricReadyDecision
    | Named(reason: string)
    | NotSchedulable
    | ConformanceBlocking
    | UnresolvedUpdate(state: string)
    | IncompatibleService
    | ManagementEvidenceMissing
    | ManagementState(state: string)
    | CertificationEvidenceMissing
    | Certification(state: string)
    | CertificationInventoryMismatch
    | ConformanceEvidenceMissing
    | DesiredStateMismatch
    | CapabilityInventory(state: string)
    | ModelIdentityUnknown
    | WorkerNotEligible
    | WorkerInventoryNotFresh
    | ObservedFail
    | RoutingDenied
    | RoleUnsatisfied(role: string)

  const UNRESOLVED_UPDATE_STATES: set<string> := {
    "UPDATE_PLANNED", "DRAINING", "UPDATE_APPLYING", "UPDATE_APPLIED", "RESTART_PENDING", "DISCONNECT_EXPECTED",
    "RECONNECTING", "VERSION_VERIFYING", "CERTIFYING", "ROLLBACK_APPLYING"}

  predicate Schedulable(management: string) { management == "READY" || management == "BUSY" }

  predicate FreshInventory(status: string) { status == "CURRENT" || status == "FRESH" }

  predicate Unresolved(w: Worker) { w.unresolved.Some? && w.unresolved.value in UNRESOLVED_UPDATE_STATES }

  function Or(s: string, missing: string): string { if s == "" then missing else s }

  /** A blocker appended when its condition holds. */
  function Add(blockers: seq<Blocker>, c: bool, b: Blocker): (r: seq<Blocker>)
    ensures r == [] <==> blockers == [] && !c
  {
    if c then blockers + [b] else blockers
  }

  function UpdateState(w: Worker): string { if w.unresolved.Some? then w.unresolved.value else "" }

  /** What Fabric's ledger decision leaves to check. */
  function LedgerBlockers(w: Worker, found: seq<Blocker>): seq<Blocker> {
    var found := Add(found, w.unschedulable, NotSchedulable);
    var found := Add(found, w.blocking != [], ConformanceBlocking);
    var found := Add(found, Unresolved(w), UnresolvedUpdate(UpdateState(w)));
    Add(found, w.incompatible, IncompatibleService)
  }

  /** The detailed reasons when neither Fabric's decision nor its ledger vouches for the worker. */
  function EvidenceBlockers(w: Worker, found: seq<Blocker>): seq<Blocker> {
    var found := if w.management == "" then found + [ManagementEvidenceMissing]
                 else Add(found, !Schedulable(w.management), ManagementState(w.management));
    var found := Add(found, w.unschedulable, NotSchedulable);
    var found := if w.certification == "" then found + [CertificationEvidenceMissing]
                 else Add(found, w.certification != "CERTIFIED", Certification(w.certification));
    var found := Add(found, InventoryMismatch(w), CertificationInventoryMismatch);
    var found := if w.blocking != [] then found + [ConformanceBlocking]
                 else Add(found, w.disposition == "" && w.management != "", ConformanceEvidenceMissing);
    var found := Add(found, DesiredMismatch(w), DesiredStateMismatch);
    var found := Add(found, Unresolved(w), UnresolvedUpdate(UpdateState(w)));
    Add(found, w.incompatible, IncompatibleService)
  }

  predicate DesiredMismatch(w: Worker)
  {
    w.desired != "" && w.conformanceDesired != "" && w.desired != w.conformanceDesired
  }

  predicate InventoryMismatch(w: Worker) {
    && w.certification == "CERTIFIED" && w.certifiedInventory != "" && w.inventoryIdentity != ""
    && !w.inspected && w.certifiedInventory != w.inventoryIdentity
  }

  /** Fabric's own reasons, the empty ones left out. */
  function NamedBlockers(reasons: seq<string>, found: seq<Blocker>): seq<Blocker> {
    if |reasons| == 0 then found
    else Add(NamedBlockers(reasons[..|reasons| - 1], found), reasons[|reasons| - 1] != "",
        Named(reasons[|reasons| - 1]))
  }

  function FabricBlockers(w: Worker): seq<Blocker> {
    var found := Add([], w.availability != "AVAILABLE", Availability(Or(w.availability, "UNKNOWN")));
    if w.decision.NotReady? then NamedBlockers(w.decision.blockers, found + [FabricReadyDecision])
    else if w.decision.Ready? then found
    else if Schedulable(w.management) && w.certification == "CERTIFIED" then LedgerBlockers(w, found)
    else EvidenceBlockers(w, found)
  }

  function EvalOf(w: Worker, requireFresh: bool): WorkerEval {
    var blockers := FabricBlockers(w);
    var current := FreshInventory(w.inventoryStatus);
    var operational := w.availability == "AVAILABLE";
    var fabricEligible := operational && blockers == [];
    var stale := fabricEligible && requireFresh && !current;
    WorkerEval(w.id,
      if !operational then BLOCKED else if !fabricEligible || stale then DEGRADED else READY,
      current, operational, fabricEligible, fabricEligible && !stale,
      Add(blockers, stale, CapabilityInventory(Or(w.inventoryStatus, "UNKNOWN"))))
  }

  method CollectNamed(reasons: seq<string>, found: seq<Blocker>) returns (blockers: seq<Blocker>)
    ensures blockers == NamedBlockers(reasons, found)
  {
    blockers := found;
    for i := 0 to |reasons|
      invariant blockers == NamedBlockers(reasons[..i], found)
    {
      assert reasons[..i + 1][..i] == reasons[..i];
      if reasons[i] != "" { blockers := blockers + [Named(reasons[i])]; }
    }
    assert reasons[..|reasons|] == reasons;
  }

  method CollectEvidence(w: Worker, found: seq<Blocker>) returns (blockers: seq<Blocker>)
    ensures blockers == EvidenceBlockers(w, found)
  {
    blockers := found;
    if w.management == "" {
      blockers := blockers + [ManagementEvidenceMissing];
    } else if !Schedulable(w.management) {
      blockers := blockers + [ManagementState(w.management)];
    }
    if w.unschedulable { blockers := blockers + [NotSchedulable]; }
    if w.certification == "" {
      blockers := blockers + [CertificationEvidenceMissing];
    } else if w.certification != "CERTIFIED" {
      blockers := blockers + [Certification(w.certification)];
    }
    if InventoryMismatch(w) { blockers := blockers + [CertificationInventoryMismatch]; }
    if w.blocking != [] {
      blockers := blockers + [ConformanceBlocking];
    } else if w.disposition == "" && w.management != "" {
      blockers := blockers + [ConformanceEvidenceMissing];
    }
    if DesiredMismatch(w) { blockers := blockers + [DesiredStateMismatch]; }
    if Unresolved(w) { blockers := blockers + [UnresolvedUpdate(w.unresolved.value)]; }
    if w.incompatible { blockers := blockers + [IncompatibleService]; }
  }

  /** `evaluate_worker_experiment_eligibility`. */
  method EvaluateWorker(w: Worker, requireFresh: bool) returns (eval: WorkerEval)
    ensures eval == EvalOf(w, requireFresh)
  {
    var blockers: seq<Blocker> := [];
    if w.availability != "AVAILABLE" { blockers := blockers + [Availability(Or(w.availability, "UNKNOWN"))]; }
    if w.decision.NotReady? {
      blockers := CollectNamed(w.decision.blockers, blockers + [FabricReadyDecision]);
    } else if w.decision.Ready? {
    } else if Schedulable(w.management) && w.certification == "CERTIFIED" {
      if w.unschedulable { blockers := blockers + [NotSchedulable]; }
      if w.blocking != [] { blockers := blockers + [ConformanceBlocking]; }
      if Unresolved(w) { blockers := blockers + [UnresolvedUpdate(w.unresolved.value)]; }
      if w.incompatible { blockers := blockers + [IncompatibleService]; }
    } else {
      blockers := CollectEvidence(w, blockers);
    }
    assert blockers == FabricBlockers(w);
    var current := FreshInventory(w.inventoryStatus);
    var operational := w.availability == "AVAILABLE";
    var fabricEligible := operational && blockers == [];
    var strict := fabricEligible && (!requireFresh || current);
    var status := READY;
    if !operational {
      status := BLOCKED;
    } else if !fabricEligible {
      status := DEGRADED;
    } else if requireFresh && !current {
      status := DEGRADED;
      blockers := blockers + [CapabilityInventory(Or(w.inventoryStatus, "UNKNOWN"))];
    }
    return WorkerEval(w.id, status, current, operational, fabricEligible, strict, blockers);
  }

  /** A worker is READY iff nothing blocks it iff it is eligible for experiments. */
  lemma WorkerReadyIffUnblocked(w: Worker, requireFresh: bool)
    ensures var e := EvalOf(w, requireFresh);
      (e.status == READY <==> e.blockers == []) && (e.eligible <==> e.blockers == [])
  {
    FabricUnblockedExactly(w);
  }

  /** Availability alone is never READY: exactly Fabric's own decision, or its ledger with nothing held against the
      worker, makes an available worker eligible. No detailed evidence can. */
  lemma WorkerReadyExactly(w: Worker, requireFresh: bool)
    ensures EvalOf(w, requireFresh).status == READY <==>
      && w.availability == "AVAILABLE"
      && (requireFresh ==> FreshInventory(w.inventoryStatus))
      && VouchedFor(w)
  {
    FabricUnblockedExactly(w);
  }

  predicate VouchedFor(w: Worker) {
    || w.decision.Ready?
    || (&& !w.decision.NotReady? && Schedulable(w.management) && w.certification == "CERTIFIED" && !w.unschedulable
        && w.blocking == [] && !Unresolved(w) && !w.incompatible)
  }

  lemma FabricUnblockedExactly(w: Worker)
    ensures FabricBlockers(w) == [] <==> w.availability == "AVAILABLE" && VouchedFor(w)
  {
    var found := Add([], w.availability != "AVAILABLE", Availability(Or(w.availability, "UNKNOWN")));
    if w.decision.NotReady? {
      NamedKeeps(w.decision.blockers, found + [FabricReadyDecision]);
    } else if !w.decision.Ready? && !(Schedulable(w.management) && w.certification == "CERTIFIED") {
      EvidenceNeverEmpty(w, found);
    }
  }

  lemma {:induction false} NamedKeeps(reasons: seq<string>, found: seq<Blocker>)
    ensures NamedBlockers(reasons, found) == [] ==> found == []
  {
    if |reasons| > 0 { NamedKeeps(reasons[..|reasons| - 1], found); }
  }

  lemma EvidenceNeverEmpty(w: Worker, found: seq<Blocker>)
    requires !(Schedulable(w.management) && w.certification == "CERTIFIED")
    ensures EvidenceBlockers(w, found) != []
  {
  }

  // ---------------------------------------------------------------- models

  datatype ModelEval = ModelEval(name: string, worker: string, eligible: bool, operational: bool,
      blockers: seq<Blocker>)

  predicate Miscast(m: ModelItem, role: string) { role != "" && m.roles != [] && role !in m.roles }

  function ModelBlockers(m: ModelItem, e: WorkerEval, role: string): seq<Blocker> {
    var found := Add([], m.name == "", ModelIdentityUnknown);
    var found := if !e.fabricEligible then found + [WorkerNotEligible]
        else Add(found, !e.eligible, WorkerInventoryNotFresh);
    var found := Add(found, m.observedFail, ObservedFail);
    var found := Add(found, m.denied, RoutingDenied);
    Add(found, Miscast(m, role), RoleUnsatisfied(role))
  }

  function ModelEvalOf(m: ModelItem, e: WorkerEval, role: string): ModelEval {
    var blockers := ModelBlockers(m, e, role);
    ModelEval(m.name, e.id, blockers == [],
      m.name != "" && e.fabricEligible && ObservedFail !in blockers && RoutingDenied !in blockers, blockers)
  }

  method EvaluateModel(m: ModelItem, e: WorkerEval, role: string) returns (eval: ModelEval)
    ensures eval == ModelEvalOf(m, e, role)
  {
    var blockers: seq<Blocker> := [];
    if m.name == "" { blockers := blockers + [ModelIdentityUnknown]; }
    if !e.fabricEligible {
      blockers := blockers + [WorkerNotEligible];
    } else if !e.eligible {
      blockers := blockers + [WorkerInventoryNotFresh];
    }
    if m.observedFail { blockers := blockers + [ObservedFail]; }
    if m.denied { blockers := blockers + [RoutingDenied]; }
    if Miscast(m, role) { blockers := blockers + [RoleUnsatisfied(role)]; }
    assert blockers == ModelBlockers(m, e, role);
    var operational := m.name != "" && e.fabricEligible && ObservedFail !in blockers && RoutingDenied !in blockers;
    return ModelEval(m.name, e.id, blockers == [], operational, blockers);
  }

  /** An eligible model is operational, and is exactly a named model no one failed, denied or mis-cast, on an
      eligible worker. */
  lemma ModelEligibleExactly(m: ModelItem, e: WorkerEval, role: string)
    requires e.eligible ==> e.fabricEligible
    ensures var r := ModelEvalOf(m, e, role);
      && (r.eligible ==> r.operational)
      && (r.eligible <==> m.name != "" && e.eligible && !m.observedFail && !m.denied && !Miscast(m, role))
  {
  }

  // ---------------------------------------------------------------- the worker and model layers

  function Evals(workers: seq<Worker>, requireFresh: bool): (r: seq<WorkerEval>)
    ensures |r| == |workers| && forall i :: 0 <= i < |r| ==> r[i] == EvalOf(workers[i], requireFresh)
  {
    seq(|workers|, i requires 0 <= i < |workers| => EvalOf(workers[i], requireFresh))
  }

  /** Identified workers by id; a repeated id leaves the last. */
  function ById(workers: seq<Worker>): map<string, Worker> {
    if |workers| == 0 then map[]
    else
      var last := workers[|workers| - 1];
      if last.id == "" then ById(workers[..|workers| - 1]) else ById(workers[..|workers| - 1])[last.id := last]
  }

  /** The evaluation a worker's models are judged by: that of the last worker of its id, or its own with a fresh
      inventory demanded when it has none. */
  function JudgedBy(w: Worker, workers: seq<Worker>, requireFresh: bool): WorkerEval {
    if w.id in ById(workers) then EvalOf(ById(workers)[w.id], requireFresh) else EvalOf(w, true)
  }

  function Judged(items: seq<ModelItem>, e: WorkerEval): (r: seq<ModelEval>)
    ensures |r| == |items| && forall i :: 0 <= i < |r| ==> r[i] == ModelEvalOf(items[i], e, "")
  {
    seq(|items|, i requires 0 <= i < |items| => ModelEvalOf(items[i], e, ""))
  }

  /** Records of the first `n` workers' inventories, each judged by its evaluation. */
  function InventoryRecords(workers: seq<Worker>, judges: seq<WorkerEval>, n: nat): seq<ModelEval>
    requires n <= |workers| == |judges|
  {
    if n == 0 then [] else InventoryRecords(workers, judges, n - 1) + Judged(workers[n - 1].models, judges[n - 1])
  }

  function Judges(workers: seq<Worker>, requireFresh: bool): (r: seq<WorkerEval>)
    ensures |r| == |workers| && forall i :: 0 <= i < |r| ==> r[i] == JudgedBy(workers[i], workers, requireFresh)
  {
    seq(|workers|, i requires 0 <= i < |workers| => JudgedBy(workers[i], workers, requireFresh))
  }

  const UNOBSERVED := Worker("", "", "", "", "", "", "", false, "", "", [], "", None, false, NoDecision, false, [])

  /** Fleet-wide models: judged by the worker they name; one naming none counts only while nothing else was found. */
  function FleetRecords(found: seq<ModelEval>, models: seq<ModelItem>, workers: seq<Worker>,
      requireFresh: bool): seq<ModelEval>
  {
    if |models| == 0 then found
    else
      var before := FleetRecords(found, models[..|models| - 1], workers, requireFresh);
      var m := models[|models| - 1];
      if m.worker in ById(workers)
          then before + [ModelEvalOf(m, JudgedBy(ById(workers)[m.worker], workers, requireFresh), "")]
      else if before == [] then [ModelEvalOf(m, EvalOf(UNOBSERVED, true), "")]
      else before
  }

  function Records(workers: seq<Worker>, models: seq<ModelItem>, requireFresh: bool): seq<ModelEval> {
    FleetRecords(InventoryRecords(workers, Judges(workers, requireFresh), |workers|), models, workers, requireFresh)
  }

  ghost predicate AnyOperational(evals: seq<WorkerEval>) { exists i :: 0 <= i < |evals| && evals[i].operational }

  ghost predicate AnyEligible(evals: seq<WorkerEval>) { exists i :: 0 <= i < |evals| && evals[i].eligible }

  ghost predicate EligibleModel(records: seq<ModelEval>) { exists i :: 0 <= i < |records| && records[i].eligible }

  ghost predicate OperationalModel(records: seq<ModelEval>) { exists i :: 0 <= i < |records| && records[i].operational }

  /** Verdict of the fleet layer, and of the workers layer. */
  ghost function FleetState(evals: seq<WorkerEval>): Readiness {
    if evals == [] then UNKNOWN_READINESS
    else if !AnyOperational(evals) then BLOCKED
    else if !AnyEligible(evals) then DEGRADED
    else READY
  }

  ghost function ModelState(evals: seq<WorkerEval>, records: seq<ModelEval>): Readiness {
    if EligibleModel(records) then READY
    else if OperationalModel(records) then DEGRADED
    else if AnyOperational(evals) || records != [] then BLOCKED
    else UNKNOWN_READINESS
  }

  /** The three layers, evaluated loop by loop. */
  method EvaluateFleet(workers: seq<Worker>, models: seq<ModelItem>, requireFresh: bool)
    returns (evals: seq<WorkerEval>, records: seq<ModelEval>, fleetState: Readiness, modelState: Readiness)
    ensures evals == Evals(workers, requireFresh) && records == Records(workers, models, requireFresh)
    ensures fleetState == FleetState(evals) && modelState == ModelState(evals, records)
  {
    evals := EvaluateWorkers(workers, requireFresh);
    var available, eligible := CountWorkers(evals);
    fleetState := if |workers| == 0 then UNKNOWN_READINESS
                  else if available == 0 then BLOCKED
                  else if eligible == 0 then DEGRADED
                  else READY;

    var byId := IndexWorkers(workers);
    records := CollectInventories(workers, byId, requireFresh);
    records := CollectFleetModels(records, models, workers, byId, requireFresh);
    var ready, operational := CountModels(records);
    modelState := if ready > 0 then READY
                  else if operational > 0 then DEGRADED
                  else if available > 0 && records == [] then BLOCKED
                  else if records != [] then BLOCKED
                  else UNKNOWN_READINESS;
  }

  method EvaluateWorkers(workers: seq<Worker>, requireFresh: bool) returns (evals: seq<WorkerEval>)
    ensures evals == Evals(workers, requireFresh)
  {
    evals := [];
    for i := 0 to |workers|
      invariant evals == Evals(workers, requireFresh)[..i]
    {
      var eval := EvaluateWorker(workers[i], requireFresh);
      evals := evals + [eval];
    }
  }

  method CountWorkers(evals: seq<WorkerEval>) returns (available: nat, eligible: nat)
    ensures available > 0 <==> AnyOperational(evals)
    ensures eligible > 0 <==> AnyEligible(evals)
  {
    available, eligible := 0, 0;
    for i := 0 to |evals|
      invariant available > 0 <==> exists k :: 0 <= k < i && evals[k].operational
      invariant eligible > 0 <==> exists k :: 0 <= k < i && evals[k].eligible
    {
      if evals[i].operational { available := available + 1; }
      if evals[i].eligible { eligible := eligible + 1; }
    }
  }

  method IndexWorkers(workers: seq<Worker>) returns (byId: map<string, Worker>)
    ensures byId == ById(workers)
  {
    byId := map[];
    for i := 0 to |workers|
      invariant byId == ById(workers[..i])
    {
      assert workers[..i + 1][..i] == workers[..i];
      if workers[i].id != "" { byId := byId[workers[i].id := workers[i]]; }
    }
    assert workers[..|workers|] == workers;
  }

  method Judge(w: Worker, workers: seq<Worker>, byId: map<string, Worker>, requireFresh: bool)
      returns (eval: WorkerEval)
    requires byId == ById(workers)
    ensures eval == JudgedBy(w, workers, requireFresh)
  {
    if w.id in byId {
      eval := EvaluateWorker(byId[w.id], requireFresh);
    } else {
      eval := EvaluateWorker(w, true);
    }
  }

  method CollectInventories(workers: seq<Worker>, byId: map<string, Worker>, requireFresh: bool)
      returns (records: seq<ModelEval>)
    requires byId == ById(workers)
    ensures records == InventoryRecords(workers, Judges(workers, requireFresh), |workers|)
  {
    records := [];
    ghost var judges := Judges(workers, requireFresh);
    for n := 0 to |workers|
      invariant records == InventoryRecords(workers, judges, n)
    {
      var eval := Judge(workers[n], workers, byId, requireFresh);
      var judged := JudgeInventory(workers[n].models, eval);
      records := records + judged;
    }
  }

  method JudgeInventory(items: seq<ModelItem>, eval: WorkerEval) returns (judged: seq<ModelEval>)
    ensures judged == Judged(items, eval)
  {
    judged := [];
    for k := 0 to |items|
      invariant |judged| == k && forall j :: 0 <= j < k ==> judged[j] == ModelEvalOf(items[j], eval, "")
    {
      var record := EvaluateModel(items[k], eval, "");
      judged := judged + [record];
    }
  }

  method CollectFleetModels(found: seq<ModelEval>, models: seq<ModelItem>, workers: seq<Worker>, byId: map<string,
      Worker>, requireFresh: bool)
    returns (records: seq<ModelEval>)
    requires byId == ById(workers)
    ensures records == FleetRecords(found, models, workers, requireFresh)
  {
    records := found;
    for i := 0 to |models|
      invariant records == FleetRecords(found, models[..i], workers, requireFresh)
    {
      assert models[..i + 1][..i] == models[..i];
      if models[i].worker in byId {
        var eval := Judge(byId[models[i].worker], workers, byId, requireFresh);
        var record := EvaluateModel(models[i], eval, "");
        records := records + [record];
      } else if records == [] {
        var eval := EvaluateWorker(UNOBSERVED, true);
        var record := EvaluateModel(models[i], eval, "");
        records := [record];
      }
    }
    assert models[..|models|] == models;
  }

  method CountModels(records: seq<ModelEval>) returns (ready: nat, operational: nat)
    ensures ready > 0 <==> EligibleModel(records)
    ensures operational > 0 <==> OperationalModel(records)
  {
    ready, operational := 0, 0;
    for i := 0 to |records|
      invariant ready > 0 <==> exists k :: 0 <= k < i && records[k].eligible
      invariant operational > 0 <==> exists k :: 0 <= k < i && records[k].operational
    {
      if records[i].eligible { ready := ready + 1; }
      if records[i].operational { operational := operational + 1; }
    }
  }

  lemma {:induction false} ByIdWithin(workers: seq<Worker>, id: string)
    requires id in ById(workers)
    ensures id != "" && ById(workers)[id].id == id
    ensures exists i :: 0 <= i < |workers| && workers[i] == ById(workers)[id]
  {
    var init, last := workers[..|workers| - 1], workers[|workers| - 1];
    if last.id != id {
      ByIdWithin(init, id);
      var i :| 0 <= i < |init| && init[i] == ById(init)[id];
      assert workers[i] == ById(workers)[id];
    } else {
      if last.id != "" { assert workers[|workers| - 1] == ById(workers)[id]; } else { ByIdWithin(init, id); }
    }
  }

  /** Whichever evaluation judges a model, an eligible one vouches for an eligible worker of the fleet. */
  lemma JudgedWithinFleet(w: Worker, workers: seq<Worker>, requireFresh: bool)
    requires w in workers
    ensures var e := JudgedBy(w, workers, requireFresh);
      e.eligible ==> e.fabricEligible && AnyEligible(Evals(workers, requireFresh))
  {
    var evals := Evals(workers, requireFresh);
    if w.id in ById(workers) {
      ByIdWithin(workers, w.id);
      var i :| 0 <= i < |workers| && workers[i] == ById(workers)[w.id];
      assert evals[i] == JudgedBy(w, workers, requireFresh);
    } else {
      var i :| 0 <= i < |workers| && workers[i] == w;
      assert evals[i].eligible <== EvalOf(w, true).eligible;
    }
  }

  /** An eligible record is operational and stands for an eligible worker. */
  predicate Vouched(r: ModelEval, anyEligible: bool) {
    r.eligible ==> r.operational && anyEligible
  }

  predicate AllVouched(records: seq<ModelEval>, anyEligible: bool) {
    forall i :: 0 <= i < |records| ==> Vouched(records[i], anyEligible)
  }

  lemma JudgedVouched(items: seq<ModelItem>, e: WorkerEval, anyEligible: bool)
    requires e.eligible ==> e.fabricEligible && anyEligible
    ensures AllVouched(Judged(items, e), anyEligible)
  {
    var judged := Judged(items, e);
    forall k | 0 <= k < |judged| ensures Vouched(judged[k], anyEligible) {
      ModelEligibleExactly(items[k], e, "");
    }
  }

  lemma {:induction false} InventoryVouched(workers: seq<Worker>, judges: seq<WorkerEval>, n: nat, anyEligible: bool)
    requires n <= |workers| == |judges|
    requires forall i :: 0 <= i < |judges| && judges[i].eligible ==> judges[i].fabricEligible && anyEligible
    ensures AllVouched(InventoryRecords(workers, judges, n), anyEligible)
  {
    if n > 0 {
      InventoryVouched(workers, judges, n - 1, anyEligible);
      JudgedVouched(workers[n - 1].models, judges[n - 1], anyEligible);
      VouchedConcat(InventoryRecords(workers, judges, n - 1), Judged(workers[n - 1].models, judges[n - 1]),
        anyEligible);
    }
  }

  lemma JudgesWithinFleet(workers: seq<Worker>, requireFresh: bool)
    ensures var judges := Judges(workers, requireFresh);
      forall i :: 0 <= i < |judges| && judges[i].eligible ==>
        judges[i].fabricEligible && AnyEligible(Evals(workers, requireFresh))
  {
    var judges := Judges(workers, requireFresh);
    forall i | 0 <= i < |judges| && judges[i].eligible
      ensures judges[i].fabricEligible && AnyEligible(Evals(workers, requireFresh))
    {
      JudgedWithinFleet(workers[i], workers, requireFresh);
    }
  }

  lemma VouchedConcat(a: seq<ModelEval>, b: seq<ModelEval>, anyEligible: bool)
    requires AllVouched(a, anyEligible) && AllVouched(b, anyEligible)
    ensures AllVouched(a + b, anyEligible)
  {
  }

  lemma {:induction false} FleetVouched(found: seq<ModelEval>, models: seq<ModelItem>, workers: seq<Worker>,
      requireFresh: bool, anyEligible: bool)
    requires AllVouched(found, anyEligible) && anyEligible == AnyEligible(Evals(workers, requireFresh))
    ensures AllVouched(FleetRecords(found, models, workers, requireFresh), anyEligible)
  {
    if |models| > 0 {
      FleetVouched(found, models[..|models| - 1], workers, requireFresh, anyEligible);
      var m := models[|models| - 1];
      if m.worker in ById(workers) {
        ByIdWithin(workers, m.worker);
        var w := ById(workers)[m.worker];
        JudgedWithinFleet(w, workers, requireFresh);
        ModelEligibleExactly(m, JudgedBy(w, workers, requireFresh), "");
      } else {
        ModelEligibleExactly(m, EvalOf(UNOBSERVED, true), "");
      }
    }
  }

  /** An eligible model is operational and forces the fleet, workers and models layers READY. */
  lemma EligibleModelForcesLayers(workers: seq<Worker>, models: seq<ModelItem>, requireFresh: bool)
    ensures var evals, records := Evals(workers, requireFresh), Records(workers, models, requireFresh);
      && (forall i :: 0 <= i < |records| && records[i].eligible ==> records[i].operational)
      && (EligibleModel(records) ==> FleetState(evals) == READY)
      && (ModelState(evals, records) == READY ==> FleetState(evals) == READY && AnyEligible(evals))
  {
    var evals, records := Evals(workers, requireFresh), Records(workers, models, requireFresh);
    JudgesWithinFleet(workers, requireFresh);
    InventoryVouched(workers, Judges(workers, requireFresh), |workers|, AnyEligible(evals));
    FleetVouched(InventoryRecords(workers, Judges(workers, requireFresh), |workers|), models, workers, requireFresh,
      AnyEligible(evals));
    forall i | 0 <= i < |records| && records[i].eligible ensures records[i].operational && FleetState(evals) == READY {
      assert Vouched(records[i], AnyEligible(evals));
      EligibleIsOperational(evals);
    }
  }

  lemma EligibleIsOperational(evals: seq<WorkerEval>)
    requires forall i :: 0 <= i < |evals| ==> evals[i].eligible ==> evals[i].operational
    ensures AnyEligible(evals) ==> AnyOperational(evals) && FleetState(evals) == READY
  {
  }

  // ---------------------------------------------------------------- the profile verdict

  datatype Name =
    | Control | Harness | FabricController | Fleet | Workers | Models | Routing | Residency | CommonsConsumer
    | CommonsOperator | Forge | ReferenceStudies | Scheduler | ArtifactWrite

  datatype Layer = Layer(name: Name, status: string)

  datatype Profile = BaseInference | CodeAnalysis | MultiAgent | SustainedExperiment | MNEL | RAVEL

  function Required(profile: Profile): seq<Name> {
    [Harness, FabricController, Fleet, Workers, Models] +
    match profile
    case BaseInference => [CommonsConsumer, ArtifactWrite]
    case CodeAnalysis => [CommonsConsumer, ArtifactWrite, Forge]
    case MultiAgent => [Routing, CommonsConsumer, ArtifactWrite]
    case SustainedExperiment => [Routing, Residency, CommonsConsumer, ArtifactWrite]
    case MNEL => [Routing, CommonsConsumer, CommonsOperator, ReferenceStudies, ArtifactWrite]
    case RAVEL => [CommonsConsumer, ReferenceStudies, Forge, ArtifactWrite]
  }

  /** The status of a layer by name: the last of that name, UNKNOWN without one. */
  function StatusOf(layers: seq<Layer>, name: Name): string {
    if |layers| == 0 then "UNKNOWN"
    else if layers[|layers| - 1].name == name then layers[|layers| - 1].status
    else StatusOf(layers[..|layers| - 1], name)
  }

  function RequiredStates(layers: seq<Layer>, required: seq<Name>): (r: seq<string>)
    ensures |r| == |required| && forall i :: 0 <= i < |r| ==> r[i] == StatusOf(layers, required[i])
  {
    seq(|required|, i requires 0 <= i < |required| => StatusOf(layers, required[i]))
  }

  /** The worst of the named states; a status outside the lattice cannot be folded. */
  ghost function FoldNames(states: seq<string>): Result<Readiness> {
    if !forall i :: 0 <= i < |states| ==> ReadinessName(states[i]) then RuntimeError
    else if "BLOCKED" in states then Success(BLOCKED)
    else if "UNKNOWN" in states then Success(UNKNOWN_READINESS)
    else if "DEGRADED" in states then Success(DEGRADED)
    else Success(READY)
  }

  /** The kernel fold of the required layers. */
  method Overall(layers: seq<Layer>, required: seq<Name>) returns (r: Result<Readiness>)
    ensures r == FoldNames(RequiredStates(layers, required))
  {
    var byName: map<Name, string> := map[];
    for i := 0 to |layers|
      invariant forall name :: StatusOf(layers[..i], name) == if name in byName then byName[name] else "UNKNOWN"
    {
      assert layers[..i + 1][..i] == layers[..i];
      byName := byName[layers[i].name := layers[i].status];
    }
    assert layers[..|layers|] == layers;
    var states := [];
    for k := 0 to |required|
      invariant |states| == k && forall j :: 0 <= j < k ==> states[j] == StatusOf(layers, required[j])
    {
      states := states + [if required[k] in byName then byName[required[k]] else "UNKNOWN"];
    }
    assert states == RequiredStates(layers, required);
    r := FoldReadiness(states);
  }

  /** Incomplete provenance, where it must be complete, takes READY back. */
  function Demoted(status: Readiness, requireComplete: bool, complete: bool): Readiness {
    if requireComplete && !complete && status == READY then DEGRADED else status
  }

  lemma DemotionOnlyDemotes(status: Readiness, requireComplete: bool, complete: bool)
    ensures DominateReadiness(status, Demoted(status, requireComplete, complete))
        == Demoted(status, requireComplete, complete)
    ensures Demoted(status, requireComplete, complete) == READY <==> status == READY && (requireComplete ==> complete)
  {
  }

  /** Statuses of the layers this module takes as given. */
  datatype Others = Others(control: string, harness: string, fabricController: string, routing: string,
      residency: string,
    commonsConsumer: string, commonsOperator: string, forge: string, referenceStudies: string, scheduler: string,
      artifactWrite: string)

  function Text(r: Readiness): string {
    match r
    case READY => "READY"
    case DEGRADED => "DEGRADED"
    case BLOCKED => "BLOCKED"
    case UNKNOWN_READINESS => "UNKNOWN"
  }

  function Layers(o: Others, fleet: Readiness, models: Readiness): seq<Layer> {
    [Layer(Control, o.control), Layer(Harness, o.harness), Layer(FabricController, o.fabricController),
     Layer(Fleet, Text(fleet)), Layer(Workers, Text(fleet)), Layer(Models, Text(models)),
     Layer(Routing, o.routing), Layer(Residency, o.residency), Layer(CommonsConsumer, o.commonsConsumer),
     Layer(CommonsOperator, o.commonsOperator), Layer(Forge, o.forge), Layer(ReferenceStudies, o.referenceStudies),
     Layer(Scheduler, o.scheduler), Layer(ArtifactWrite, o.artifactWrite)]
  }

  /** The status of a layer is the one listed last under its name, and unknown where none is. */
  lemma {:induction false} StatusExactly(layers: seq<Layer>, name: Name)
    ensures (forall l :: l in layers ==> l.name != name) ==> StatusOf(layers, name) == "UNKNOWN"
    ensures (exists l :: l in layers && l.name == name) ==>
      exists i :: 0 <= i < |layers| && layers[i] == Layer(name, StatusOf(layers, name))
               && forall k :: i < k < |layers| ==> layers[k].name != name
  {
    if |layers| > 0 && layers[|layers| - 1].name != name {
      var init := layers[..|layers| - 1];
      StatusExactly(init, name);
      if l :| l in layers && l.name == name {
        assert l in init;
        var i :| 0 <= i < |init| && init[i] == Layer(name, StatusOf(init, name))
              && forall k :: i < k < |init| ==> init[k].name != name;
        assert layers[i] == init[i];
        forall k | i < k < |layers| ensures layers[k].name != name { assert k < |init| ==> layers[k] == init[k]; }
      } else {
        forall l | l in init ensures l.name != name { assert l in layers; }
      }
    } else if |layers| > 0 {
      var last := layers[|layers| - 1];
      assert last in layers && last == Layer(name, StatusOf(layers, name));
    }
  }

  /** Each layer is listed once, so its status is the listed one. */
  lemma StatusListed(layers: seq<Layer>, i: nat)
    requires i < |layers| && forall j, k :: 0 <= j < k < |layers| ==> layers[j].name != layers[k].name
    ensures StatusOf(layers, layers[i].name) == layers[i].status
  {
    var name := layers[i].name;
    assert layers[i] in layers;
    StatusExactly(layers, name);
    var k :| 0 <= k < |layers| && layers[k] == Layer(name, StatusOf(layers, name));
    assert k < i ==> layers[k].name != layers[i].name;
    assert i < k ==> layers[i].name != layers[k].name;
  }

  /** The whole evaluation. */
  method EvaluateLayers(workers: seq<Worker>, models: seq<ModelItem>, requireFresh: bool, o: Others, profile: Profile,
    requireComplete: bool, complete: bool) returns (r: Result<Readiness>)
    ensures r == Verdict(workers, models, requireFresh, o, profile, requireComplete, complete)
  {
    var evals, records, fleetState, modelState := EvaluateFleet(workers, models, requireFresh);
    var folded := Overall(Layers(o, fleetState, modelState), Required(profile));
    if folded.RuntimeError? { return RuntimeError; }
    var status := folded.value;
    if requireComplete && !complete {
      if status == READY { status := DEGRADED; }
    }
    return Success(status);
  }

  ghost function LayersOf(workers: seq<Worker>, models: seq<ModelItem>, requireFresh: bool, o: Others): seq<Layer> {
    var evals := Evals(workers, requireFresh);
    Layers(o, FleetState(evals), ModelState(evals, Records(workers, models, requireFresh)))
  }

  /** The verdict of the profile on the evidence. */
  ghost function Verdict(workers: seq<Worker>, models: seq<ModelItem>, requireFresh: bool, o: Others, profile: Profile,
    requireComplete: bool, complete: bool): Result<Readiness>
  {
    var folded := FoldNames(RequiredStates(LayersOf(workers, models, requireFresh, o), Required(profile)));
    if folded.Success? then Success(Demoted(folded.value, requireComplete, complete)) else RuntimeError
  }

  lemma FoldReadyExactly(states: seq<string>)
    ensures FoldNames(states) == Success(READY) <==> forall i :: 0 <= i < |states| ==> states[i] == "READY"
  {
    NamesDiffer();
    if forall i :: 0 <= i < |states| ==> states[i] == "READY" {
      assert "BLOCKED" !in states && "UNKNOWN" !in states && "DEGRADED" !in states;
    } else {
      var i :| 0 <= i < |states| && states[i] != "READY";
      assert states[i] in states;
    }
  }

  /** READY in a profile, exactly: every required layer READY and provenance complete where demanded. */
  lemma ReadyExactly(workers: seq<Worker>, models: seq<ModelItem>, requireFresh: bool, o: Others, profile: Profile,
      requireComplete: bool, complete: bool)
    ensures Verdict(workers, models, requireFresh, o, profile, requireComplete, complete) == Success(READY) <==>
      && (requireComplete ==> complete)
      && forall i :: 0 <= i < |Required(profile)| ==>
           StatusOf(LayersOf(workers, models, requireFresh, o), Required(profile)[i]) == "READY"
  {
    FoldReadyExactly(RequiredStates(LayersOf(workers, models, requireFresh, o), Required(profile)));
  }

  /** READY in any profile means an eligible worker, an eligible model, and the fleet, workers and models layers
      READY. */
  lemma ReadyHasEvidence(workers: seq<Worker>, models: seq<ModelItem>, requireFresh: bool, o: Others,
      profile: Profile, requireComplete: bool, complete: bool)
    requires Verdict(workers, models, requireFresh, o, profile, requireComplete, complete) == Success(READY)
    ensures var evals := Evals(workers, requireFresh);
      && AnyEligible(evals) && EligibleModel(Records(workers, models, requireFresh))
      && FleetState(evals) == READY
  {
    ReadyExactly(workers, models, requireFresh, o, profile, requireComplete, complete);
    var evals := Evals(workers, requireFresh);
    var layers := LayersOf(workers, models, requireFresh, o);
    assert Required(profile)[4] == Models;
    ModelsStatus(o, FleetState(evals), ModelState(evals, Records(workers, models, requireFresh)));
    assert StatusOf(layers, Models) == "READY";
    EligibleModelForcesLayers(workers, models, requireFresh);
  }

  lemma ModelsStatus(o: Others, fleet: Readiness, models: Readiness)
    ensures StatusOf(Layers(o, fleet, models), Models) == Text(models)
  {
    StatusListed(Layers(o, fleet, models), 5);
  }
}
