/** What the readiness verdict means on the observations themselves. */
module ReadinessLaws {
  import opened MncsExec
  import opened Orders
  import opened ExperimentReadiness

  // ---------------------------------------------------------------- one worker

  ghost predicate Pending(w: Worker, state: string) {
    && w.unresolved == Some(state)
    && (|| state == "UPDATE_PLANNED" || state == "DRAINING" || state == "UPDATE_APPLYING" || state == "UPDATE_APPLIED"
        || state == "RESTART_PENDING" || state == "DISCONNECT_EXPECTED" || state == "RECONNECTING"
        || state == "VERSION_VERIFYING" || state == "CERTIFYING" || state == "ROLLBACK_APPLYING")
  }

  ghost predicate Managed(w: Worker) { w.management == "READY" || w.management == "BUSY" }

  ghost predicate Fresh(w: Worker) { w.inventoryStatus == "CURRENT" || w.inventoryStatus == "FRESH" }

  /** Fabric decided about the worker itself. */
  ghost predicate Decided(w: Worker) { w.decision.Ready? || w.decision.NotReady? }

  /** Fabric's ledger vouches for the worker. */
  ghost predicate Ledger(w: Worker) { !Decided(w) && Managed(w) && w.certification == "CERTIFIED" }

  /** Fit for experiments: available, fresh where demanded, and vouched for by Fabric's own decision, or by its ledger
      with nothing held against the worker. */
  ghost predicate Fit(w: Worker, requireFresh: bool) {
    && w.availability == "AVAILABLE" && (requireFresh ==> Fresh(w))
    && (|| w.decision.Ready?
        || (Ledger(w) && !w.unschedulable && w.blocking == [] && (forall state :: !Pending(w, state))
            && !w.incompatible))
  }

  lemma UnresolvedExactly(w: Worker)
    ensures Unresolved(w) <==> exists state :: Pending(w, state)
    ensures Unresolved(w) ==> Pending(w, w.unresolved.value)
  {
    if Unresolved(w) { assert Pending(w, w.unresolved.value); }
  }

  /** A worker's state and flags: BLOCKED exactly when unavailable, READY and eligible exactly when fit. */
  lemma WorkerExactly(w: Worker, requireFresh: bool)
    ensures var e := EvalOf(w, requireFresh);
      && (e.status == BLOCKED <==> w.availability != "AVAILABLE")
      && (e.status == READY <==> Fit(w, requireFresh)) && e.status != UNKNOWN_READINESS
      && (e.eligible <==> Fit(w, requireFresh)) && (e.fabricEligible <==> Fit(w, false))
      && (e.operational <==> w.availability == "AVAILABLE") && (e.current <==> Fresh(w)) && e.id == w.id
  {
    UnresolvedExactly(w);
    FabricUnblockedExactly(w);
  }

  /** What is held against a worker, reason by reason. */
  ghost predicate HeldAgainst(w: Worker, requireFresh: bool, b: Blocker) {
    match b
    case Availability(state) =>
      w.availability != "AVAILABLE" && state == if w.availability == "" then "UNKNOWN" else w.availability
    case FabricReadyDecision => w.decision.NotReady?
    case Named(reason) => w.decision.NotReady? && reason != "" && reason in w.decision.blockers
    case NotSchedulable => !Decided(w) && w.unschedulable
    case ConformanceBlocking => !Decided(w) && w.blocking != []
    case UnresolvedUpdate(state) => !Decided(w) && Pending(w, state)
    case IncompatibleService => !Decided(w) && w.incompatible
    case ManagementEvidenceMissing => !Decided(w) && w.management == ""
    case ManagementState(state) => !Decided(w) && w.management != "" && !Managed(w) && state == w.management
    case CertificationEvidenceMissing => !Decided(w) && w.certification == ""
    case Certification(state) =>
      !Decided(w) && w.certification != "" && w.certification != "CERTIFIED" && state == w.certification
    case CertificationInventoryMismatch =>
      && !Decided(w) && !Ledger(w) && w.certification == "CERTIFIED" && !w.inspected
      && w.certifiedInventory != "" && w.inventoryIdentity != "" && w.certifiedInventory != w.inventoryIdentity
    case ConformanceEvidenceMissing =>
      !Decided(w) && !Ledger(w) && w.blocking == [] && w.disposition == "" && w.management != ""
    case DesiredStateMismatch =>
      && !Decided(w) && !Ledger(w)
      && w.desired != "" && w.conformanceDesired != "" && w.desired != w.conformanceDesired
    case CapabilityInventory(state) =>
      && Fit(w, false) && requireFresh && !Fresh(w)
      && state == if w.inventoryStatus == "" then "UNKNOWN" else w.inventoryStatus
    case _ => false
  }

  lemma {:induction false} NamedMembers(reasons: seq<string>, found: seq<Blocker>, b: Blocker)
    ensures b in NamedBlockers(reasons, found) <==>
      b in found || (b.Named? && b.reason != "" && b.reason in reasons)
  {
    if |reasons| > 0 {
      var init, last := reasons[..|reasons| - 1], reasons[|reasons| - 1];
      assert reasons == init + [last];
      NamedMembers(init, found, b);
    }
  }

  lemma LedgerMembers(w: Worker, found: seq<Blocker>, b: Blocker)
    ensures b in LedgerBlockers(w, found) <==>
      || b in found
      || (b == NotSchedulable && w.unschedulable)
      || (b == ConformanceBlocking && w.blocking != [])
      || (b.UnresolvedUpdate? && Pending(w, b.state))
      || (b == IncompatibleService && w.incompatible)
  {
    UnresolvedExactly(w);
  }

  /** The reasons gathered about management and certification ... */
  ghost function FirstHalf(w: Worker, found: seq<Blocker>): seq<Blocker> {
    var found := if w.management == "" then found + [ManagementEvidenceMissing]
                 else Add(found, !Schedulable(w.management), ManagementState(w.management));
    var found := Add(found, w.unschedulable, NotSchedulable);
    if w.certification == "" then found + [CertificationEvidenceMissing]
    else Add(found, w.certification != "CERTIFIED", Certification(w.certification))
  }

  /** ... and about inventory, conformance and updates. */
  ghost function SecondHalf(w: Worker, found: seq<Blocker>): seq<Blocker> {
    var found := Add(found, InventoryMismatch(w), CertificationInventoryMismatch);
    var found := if w.blocking != [] then found + [ConformanceBlocking]
                 else Add(found, w.disposition == "" && w.management != "", ConformanceEvidenceMissing);
    var found := Add(found, DesiredMismatch(w), DesiredStateMismatch);
    var found := Add(found, Unresolved(w), UnresolvedUpdate(UpdateState(w)));
    Add(found, w.incompatible, IncompatibleService)
  }

  lemma FirstMembers(w: Worker, found: seq<Blocker>, b: Blocker)
    ensures b in FirstHalf(w, found) <==>
      || b in found
      || (b == ManagementEvidenceMissing && w.management == "")
      || (b == ManagementState(w.management) && w.management != "" && !Managed(w))
      || (b == NotSchedulable && w.unschedulable)
      || (b == CertificationEvidenceMissing && w.certification == "")
      || (b == Certification(w.certification) && w.certification != "" && w.certification != "CERTIFIED")
  {
  }

  lemma SecondMembers(w: Worker, found: seq<Blocker>, b: Blocker)
    ensures b in SecondHalf(w, found) <==>
      || b in found
      || (b == CertificationInventoryMismatch && InventoryMismatch(w))
      || (b == ConformanceBlocking && w.blocking != [])
      || (b == ConformanceEvidenceMissing && w.blocking == [] && w.disposition == "" && w.management != "")
      || (b == DesiredStateMismatch && DesiredMismatch(w))
      || (b.UnresolvedUpdate? && Pending(w, b.state))
      || (b == IncompatibleService && w.incompatible)
  {
    UnresolvedExactly(w);
  }

  lemma EvidenceMembers(w: Worker, found: seq<Blocker>, b: Blocker)
    requires !Decided(w) && !Ledger(w)
    requires b in found ==> b.Availability?
    ensures b in EvidenceBlockers(w, found) <==>
      b in found || (!b.Availability? && !b.CapabilityInventory? && HeldAgainst(w, false, b))
  {
    assert EvidenceBlockers(w, found) == SecondHalf(w, FirstHalf(w, found));
    FirstMembers(w, found, b);
    SecondMembers(w, FirstHalf(w, found), b);
  }

  /** The blockers of a worker are exactly the reasons held against it. */
  lemma BlockersExactly(w: Worker, requireFresh: bool, b: Blocker)
    ensures b in EvalOf(w, requireFresh).blockers <==> HeldAgainst(w, requireFresh, b)
  {
    WorkerExactly(w, requireFresh);
    FabricMembers(w, b);
  }

  lemma FabricMembers(w: Worker, b: Blocker)
    ensures b in FabricBlockers(w) <==> !b.CapabilityInventory? && HeldAgainst(w, false, b)
  {
    var found := Add([], w.availability != "AVAILABLE", Availability(Or(w.availability, "UNKNOWN")));
    if w.decision.NotReady? {
      NamedMembers(w.decision.blockers, found + [FabricReadyDecision], b);
    } else if !w.decision.Ready? {
      if Ledger(w) { LedgerMembers(w, found, b); } else { EvidenceMembers(w, found, b); }
    }
  }

  // ---------------------------------------------------------------- one model

  ghost predicate HeldAgainstModel(m: ModelItem, e: WorkerEval, role: string, b: Blocker) {
    match b
    case ModelIdentityUnknown => m.name == ""
    case WorkerNotEligible => !e.fabricEligible
    case WorkerInventoryNotFresh => e.fabricEligible && !e.eligible
    case ObservedFail => m.observedFail
    case RoutingDenied => m.denied
    case RoleUnsatisfied(r) => r == role && role != "" && m.roles != [] && role !in m.roles
    case _ => false
  }

  lemma ModelExactly(m: ModelItem, e: WorkerEval, role: string, b: Blocker)
    ensures b in ModelEvalOf(m, e, role).blockers <==> HeldAgainstModel(m, e, role, b)
    ensures ModelEvalOf(m, e, role).name == m.name && ModelEvalOf(m, e, role).worker == e.id
    ensures ModelEvalOf(m, e, role).eligible <==> forall c :: !HeldAgainstModel(m, e, role, c)
    ensures ModelEvalOf(m, e, role).operational <==> m.name != "" && e.fabricEligible && !m.observedFail && !m.denied
  {
    var blockers := ModelBlockers(m, e, role);
    if blockers == [] {
      forall c ensures !HeldAgainstModel(m, e, role, c) { ModelMembers(m, e, role, c); }
    } else {
      ModelMembers(m, e, role, blockers[0]);
    }
    ModelMembers(m, e, role, b);
    ModelMembers(m, e, role, ObservedFail);
    ModelMembers(m, e, role, RoutingDenied);
  }

  lemma ModelMembers(m: ModelItem, e: WorkerEval, role: string, b: Blocker)
    ensures b in ModelBlockers(m, e, role) <==> HeldAgainstModel(m, e, role, b)
  {
  }

  // ---------------------------------------------------------------- the fleet

  /** The worker an id stands for: the last one that carries it. */
  ghost predicate Speaks(workers: seq<Worker>, id: string, w: Worker) {
    && id != ""
    && exists i :: 0 <= i < |workers| && workers[i] == w && w.id == id
                && forall k :: i < k < |workers| ==> workers[k].id != id
  }

  lemma {:induction false} ByIdExactly(workers: seq<Worker>, id: string, w: Worker)
    ensures id in ById(workers) && ById(workers)[id] == w <==> Speaks(workers, id, w)
  {
    if |workers| > 0 {
      var init, last := workers[..|workers| - 1], workers[|workers| - 1];
      ByIdExactly(init, id, w);
      if last.id != id || id == "" {
        if Speaks(init, id, w) {
          var i :| 0 <= i < |init| && init[i] == w && w.id == id && forall k :: i < k < |init| ==> init[k].id != id;
          assert workers[i] == w;
          forall k | i < k < |workers| ensures workers[k].id != id { assert k < |init| ==> workers[k] == init[k]; }
        }
        if Speaks(workers, id, w) {
          var i :| 0 <= i < |workers| && workers[i] == w && w.id == id
                && forall k :: i < k < |workers| ==> workers[k].id != id;
          assert init[i] == w && forall k :: i < k < |init| ==> init[k] == workers[k];
        }
      } else {
        assert workers[|workers| - 1] == last;
      }
    }
  }

  lemma {:induction false} SomeSpeaks(workers: seq<Worker>, w: Worker)
    requires w in workers && w.id != ""
    ensures w.id in ById(workers)
  {
    var init, last := workers[..|workers| - 1], workers[|workers| - 1];
    assert workers == init + [last];
    if w in init { SomeSpeaks(init, w); }
  }

  lemma AvailableExactly(workers: seq<Worker>, requireFresh: bool)
    ensures AnyOperational(Evals(workers, requireFresh)) <==> exists w :: w in workers && w.availability == "AVAILABLE"
  {
    var evals := Evals(workers, requireFresh);
    if AnyOperational(evals) {
      var i :| 0 <= i < |evals| && evals[i].operational;
      WorkerExactly(workers[i], requireFresh);
      assert workers[i] in workers;
    }
    if w :| w in workers && w.availability == "AVAILABLE" {
      var i :| 0 <= i < |workers| && workers[i] == w;
      WorkerExactly(workers[i], requireFresh);
      assert evals[i].operational;
    }
  }

  lemma FitExactly(workers: seq<Worker>, requireFresh: bool)
    ensures AnyEligible(Evals(workers, requireFresh)) <==> exists w :: w in workers && Fit(w, requireFresh)
  {
    var evals := Evals(workers, requireFresh);
    if AnyEligible(evals) {
      var i :| 0 <= i < |evals| && evals[i].eligible;
      WorkerExactly(workers[i], requireFresh);
      assert workers[i] in workers;
    }
    if w :| w in workers && Fit(w, requireFresh) {
      var i :| 0 <= i < |workers| && workers[i] == w;
      WorkerExactly(workers[i], requireFresh);
      assert evals[i].eligible;
    }
  }

  /** The fleet and workers layers: nothing observed, nothing available, nothing fit, or some fit worker. */
  lemma FleetExactly(workers: seq<Worker>, requireFresh: bool)
    ensures FleetState(Evals(workers, requireFresh)) ==
      if workers == [] then UNKNOWN_READINESS
      else if !exists w :: w in workers && w.availability == "AVAILABLE" then BLOCKED
      else if !exists w :: w in workers && Fit(w, requireFresh) then DEGRADED
      else READY
  {
    AvailableExactly(workers, requireFresh);
    FitExactly(workers, requireFresh);
  }

  // ---------------------------------------------------------------- the models of the fleet

  /** Named, not seen failing, not barred from routing. */
  ghost predicate Sound(m: ModelItem) { m.name != "" && !m.observedFail && !m.denied }

  ghost predicate Good(r: ModelEval, strict: bool) { if strict then r.eligible else r.operational }

  ghost predicate AnyGood(records: seq<ModelEval>, strict: bool) {
    exists i :: 0 <= i < |records| && Good(records[i], strict)
  }

  lemma GoodExactly(m: ModelItem, w: Worker, requireFresh: bool, strict: bool)
    ensures Good(ModelEvalOf(m, EvalOf(w, requireFresh), ""), strict) <==>
      Sound(m) && Fit(w, strict && requireFresh)
  {
    WorkerExactly(w, requireFresh);
    ModelExactly(m, EvalOf(w, requireFresh), "", ObservedFail);
    var e := EvalOf(w, requireFresh);
    if Sound(m) && e.eligible { assert forall c :: !HeldAgainstModel(m, e, "", c); }
    assert HeldAgainstModel(m, e, "", ModelIdentityUnknown) <==> m.name == "";
    assert HeldAgainstModel(m, e, "", ObservedFail) <==> m.observedFail;
    assert HeldAgainstModel(m, e, "", RoutingDenied) <==> m.denied;
    assert HeldAgainstModel(m, e, "", WorkerNotEligible) <==> !e.fabricEligible;
    assert HeldAgainstModel(m, e, "", WorkerInventoryNotFresh) <==> e.fabricEligible && !e.eligible;
  }

  /** The worker that judges the models of this one's inventory is fit: the one its id stands for, or itself with a
      fresh inventory demanded when it has no id. */
  ghost predicate JudgeFit(workers: seq<Worker>, w: Worker, requireFresh: bool, strict: bool) {
    if w.id == "" then Fit(w, strict) else exists v :: Speaks(workers, w.id, v) && Fit(v, strict && requireFresh)
  }

  lemma JudgedExactly(workers: seq<Worker>, w: Worker, requireFresh: bool, m: ModelItem, strict: bool)
    requires w in workers
    ensures Good(ModelEvalOf(m, JudgedBy(w, workers, requireFresh), ""), strict) <==>
      Sound(m) && JudgeFit(workers, w, requireFresh, strict)
  {
    if w.id == "" {
      if "" in ById(workers) { ByIdExactly(workers, "", ById(workers)[""]); }
      GoodExactly(m, w, true, strict);
    } else {
      SomeSpeaks(workers, w);
      var v := ById(workers)[w.id];
      ByIdExactly(workers, w.id, v);
      GoodExactly(m, v, requireFresh, strict);
      forall u | Speaks(workers, w.id, u) ensures u == v { ByIdExactly(workers, w.id, u); }
    }
  }

  /** Some worker among the first `n` reports a sound model it, or whoever its id stands for, is fit to run. */
  ghost predicate ListedGood(workers: seq<Worker>, n: nat, requireFresh: bool, strict: bool)
    requires n <= |workers|
  {
    exists i :: 0 <= i < n && ReportsGood(workers, workers[i], requireFresh, strict)
  }

  ghost predicate ReportsGood(workers: seq<Worker>, w: Worker, requireFresh: bool, strict: bool) {
    JudgeFit(workers, w, requireFresh, strict) && exists m :: m in w.models && Sound(m)
  }

  lemma AnyGoodConcat(a: seq<ModelEval>, b: seq<ModelEval>, strict: bool)
    ensures AnyGood(a + b, strict) <==> AnyGood(a, strict) || AnyGood(b, strict)
  {
    var all := a + b;
    if AnyGood(a, strict) {
      var i :| 0 <= i < |a| && Good(a[i], strict);
      assert all[i] == a[i];
    }
    if AnyGood(b, strict) {
      var i :| 0 <= i < |b| && Good(b[i], strict);
      assert all[|a| + i] == b[i];
    }
  }

  lemma JudgedGood(workers: seq<Worker>, w: Worker, requireFresh: bool, strict: bool)
    requires w in workers
    ensures AnyGood(Judged(w.models, JudgedBy(w, workers, requireFresh)), strict)
       <==> ReportsGood(workers, w, requireFresh, strict)
  {
    var e := JudgedBy(w, workers, requireFresh);
    var judged := Judged(w.models, e);
    forall m ensures Good(ModelEvalOf(m, e, ""), strict) <==> Sound(m) && JudgeFit(workers, w, requireFresh, strict) {
      JudgedExactly(workers, w, requireFresh, m, strict);
    }
    if AnyGood(judged, strict) {
      var i :| 0 <= i < |judged| && Good(judged[i], strict);
      assert w.models[i] in w.models;
    }
    if JudgeFit(workers, w, requireFresh, strict) && exists m :: m in w.models && Sound(m) {
      var m :| m in w.models && Sound(m);
      var i :| 0 <= i < |w.models| && w.models[i] == m;
      assert Good(judged[i], strict);
    }
  }

  lemma {:induction false} InventoryGood(workers: seq<Worker>, judges: seq<WorkerEval>, requireFresh: bool, n: nat,
      strict: bool)
    requires n <= |workers| == |judges|
    requires forall i :: 0 <= i < |workers| ==>
               (AnyGood(Judged(workers[i].models, judges[i]), strict)
                <==> ReportsGood(workers, workers[i], requireFresh, strict))
    ensures AnyGood(InventoryRecords(workers, judges, n), strict) <==> ListedGood(workers, n, requireFresh, strict)
  {
    if n > 0 {
      InventoryGood(workers, judges, requireFresh, n - 1, strict);
      ListedStep(workers, n, requireFresh, strict);
      RecordsStep(workers, judges, n, InventoryRecords(workers, judges, n - 1), strict);
    }
  }

  lemma RecordsStep(workers: seq<Worker>, judges: seq<WorkerEval>, n: nat, before: seq<ModelEval>, strict: bool)
    requires 0 < n <= |workers| == |judges| && before == InventoryRecords(workers, judges, n - 1)
    ensures AnyGood(InventoryRecords(workers, judges, n), strict) <==>
      AnyGood(before, strict) || AnyGood(Judged(workers[n - 1].models, judges[n - 1]), strict)
  {
    AnyGoodConcat(before, Judged(workers[n - 1].models, judges[n - 1]), strict);
  }

  lemma ListedStep(workers: seq<Worker>, n: nat, requireFresh: bool, strict: bool)
    requires 0 < n <= |workers|
    ensures ListedGood(workers, n, requireFresh, strict) <==>
      ListedGood(workers, n - 1, requireFresh, strict) || ReportsGood(workers, workers[n - 1], requireFresh, strict)
  {
  }

  /** A fleet-wide sound model names a worker that is fit to run it. */
  ghost predicate NamedGood(models: seq<ModelItem>, workers: seq<Worker>, requireFresh: bool, strict: bool) {
    exists m, v :: m in models && Sound(m) && Speaks(workers, m.worker, v) && Fit(v, strict && requireFresh)
  }

  lemma NamedRecord(m: ModelItem, workers: seq<Worker>, requireFresh: bool, strict: bool)
    requires m.worker in ById(workers)
    ensures Good(ModelEvalOf(m, JudgedBy(ById(workers)[m.worker], workers, requireFresh), ""), strict) <==>
      Sound(m) && exists v :: Speaks(workers, m.worker, v) && Fit(v, strict && requireFresh)
  {
    var v := ById(workers)[m.worker];
    ByIdExactly(workers, m.worker, v);
    ByIdWithin(workers, m.worker);
    var i :| 0 <= i < |workers| && workers[i] == v;
    JudgedExactly(workers, v, requireFresh, m, strict);
  }

  lemma UnnamedRecord(m: ModelItem, workers: seq<Worker>, strict: bool)
    requires m.worker !in ById(workers)
    ensures !Good(ModelEvalOf(m, EvalOf(UNOBSERVED, true), ""), strict)
    ensures forall v :: !Speaks(workers, m.worker, v)
  {
    forall v ensures !Speaks(workers, m.worker, v) { ByIdExactly(workers, m.worker, v); }
    GoodExactly(m, UNOBSERVED, true, strict);
  }

  lemma AnyGoodOne(r: ModelEval, strict: bool)
    ensures AnyGood([r], strict) <==> Good(r, strict)
  {
    assert [r][0] == r;
  }

  lemma {:induction false} FleetGood(found: seq<ModelEval>, models: seq<ModelItem>, workers: seq<Worker>,
      requireFresh: bool, strict: bool)
    ensures AnyGood(FleetRecords(found, models, workers, requireFresh), strict) <==>
      AnyGood(found, strict) || NamedGood(models, workers, requireFresh, strict)
    ensures FleetRecords(found, models, workers, requireFresh) == [] <==> found == [] && models == []
  {
    if |models| > 0 {
      var init, m := models[..|models| - 1], models[|models| - 1];
      assert models == init + [m];
      FleetGood(found, init, workers, requireFresh, strict);
      NamedStep(init, m, workers, requireFresh, strict);
      if m.worker in ById(workers) {
        var r := ModelEvalOf(m, JudgedBy(ById(workers)[m.worker], workers, requireFresh), "");
        NamedRecord(m, workers, requireFresh, strict);
        AnyGoodOne(r, strict);
        AnyGoodConcat(FleetRecords(found, init, workers, requireFresh), [r], strict);
      } else {
        UnnamedRecord(m, workers, strict);
        AnyGoodOne(ModelEvalOf(m, EvalOf(UNOBSERVED, true), ""), strict);
      }
    }
  }

  lemma NamedStep(init: seq<ModelItem>, m: ModelItem, workers: seq<Worker>, requireFresh: bool, strict: bool)
    ensures NamedGood(init + [m], workers, requireFresh, strict) <==>
      || NamedGood(init, workers, requireFresh, strict)
      || (Sound(m) && exists v :: Speaks(workers, m.worker, v) && Fit(v, strict && requireFresh))
  {
    var models := init + [m];
    if NamedGood(init, workers, requireFresh, strict) {
      var x, v :| x in init && Sound(x) && Speaks(workers, x.worker, v) && Fit(v, strict && requireFresh);
      assert x in models;
    }
    assert m in models;
  }

  /** Some sound model of an inventory or of the fleet-wide list has a fit worker; strictly: with a fresh inventory
      where that is demanded. */
  ghost predicate SomeModel(workers: seq<Worker>, models: seq<ModelItem>, requireFresh: bool, strict: bool) {
    ListedGood(workers, |workers|, requireFresh, strict) || NamedGood(models, workers, requireFresh, strict)
  }

  lemma {:induction false} InventoryEmpty(workers: seq<Worker>, judges: seq<WorkerEval>, n: nat)
    requires n <= |workers| == |judges|
    ensures InventoryRecords(workers, judges, n) == [] <==> forall i :: 0 <= i < n ==> workers[i].models == []
  {
    if n > 0 { InventoryEmpty(workers, judges, n - 1); }
  }

  lemma RecordsEmpty(workers: seq<Worker>, models: seq<ModelItem>, requireFresh: bool)
    ensures Records(workers, models, requireFresh) == [] <==>
      models == [] && forall w :: w in workers ==> w.models == []
  {
    var judges := Judges(workers, requireFresh);
    FleetGood(InventoryRecords(workers, judges, |workers|), models, workers, requireFresh, true);
    InventoryEmpty(workers, judges, |workers|);
  }

  lemma SomeModelExactly(workers: seq<Worker>, models: seq<ModelItem>, requireFresh: bool, strict: bool)
    ensures AnyGood(Records(workers, models, requireFresh), strict)
       <==> SomeModel(workers, models, requireFresh, strict)
  {
    var judges := Judges(workers, requireFresh);
    forall i | 0 <= i < |workers|
      ensures AnyGood(Judged(workers[i].models, judges[i]), strict)
         <==> ReportsGood(workers, workers[i], requireFresh, strict)
    {
      JudgedGood(workers, workers[i], requireFresh, strict);
    }
    InventoryGood(workers, judges, requireFresh, |workers|, strict);
    FleetGood(InventoryRecords(workers, judges, |workers|), models, workers, requireFresh, strict);
  }

  /** The state, given what the records and evaluations hold. */
  lemma StateOf(evals: seq<WorkerEval>, records: seq<ModelEval>)
    ensures ModelState(evals, records) ==
      if AnyGood(records, true) then READY
      else if AnyGood(records, false) then DEGRADED
      else if AnyOperational(evals) || records != [] then BLOCKED
      else UNKNOWN_READINESS
  {
    assert EligibleModel(records) <==> AnyGood(records, true);
    assert OperationalModel(records) <==> AnyGood(records, false);
  }

  /** The models layer. */
  lemma ModelsExactly(workers: seq<Worker>, models: seq<ModelItem>, requireFresh: bool)
    ensures ModelState(Evals(workers, requireFresh), Records(workers, models, requireFresh)) ==
      if SomeModel(workers, models, requireFresh, true) then READY
      else if SomeModel(workers, models, requireFresh, false) then DEGRADED
      else if (exists w :: w in workers && w.availability == "AVAILABLE") || models != []
        || !forall w :: w in workers ==> w.models == [] then BLOCKED
      else UNKNOWN_READINESS
  {
    SomeModelExactly(workers, models, requireFresh, true);
    SomeModelExactly(workers, models, requireFresh, false);
    RecordsEmpty(workers, models, requireFresh);
    AvailableExactly(workers, requireFresh);
    StateOf(Evals(workers, requireFresh), Records(workers, models, requireFresh));
  }

  // ---------------------------------------------------------------- the profile

  /** The states a profile requires, by name. */
  ghost function Demanded(profile: Profile, o: Others, fleet: string, models: string): seq<string> {
    [o.harness, o.fabricController, fleet, fleet, models]
    + match profile
      case BaseInference => [o.commonsConsumer, o.artifactWrite]
      case CodeAnalysis => [o.commonsConsumer, o.artifactWrite, o.forge]
      case MultiAgent => [o.routing, o.commonsConsumer, o.artifactWrite]
      case SustainedExperiment => [o.routing, o.residency, o.commonsConsumer, o.artifactWrite]
      case MNEL => [o.routing, o.commonsConsumer, o.commonsOperator, o.referenceStudies, o.artifactWrite]
      case RAVEL => [o.commonsConsumer, o.referenceStudies, o.forge, o.artifactWrite]
  }

  lemma AllListed(layers: seq<Layer>)
    requires forall j, k :: 0 <= j < k < |layers| ==> layers[j].name != layers[k].name
    ensures forall i :: 0 <= i < |layers| ==> StatusOf(layers, layers[i].name) == layers[i].status
  {
    forall i: nat | i < |layers| ensures StatusOf(layers, layers[i].name) == layers[i].status {
      StatusListed(layers, i);
    }
  }

  /** Where each layer stands in the list. */
  lemma LayerNames(o: Others, layers: seq<Layer>, fleet: Readiness, models: Readiness, status: Name -> string)
    requires layers == Layers(o, fleet, models)
    requires forall i :: 0 <= i < |layers| ==> status(layers[i].name) == layers[i].status
    ensures Stand(o, Text(fleet), Text(models), status)
  {
    assert layers[1].name == Harness && layers[2].name == FabricController && layers[3].name == Fleet;
    assert layers[4].name == Workers && layers[5].name == Models && layers[6].name == Routing;
    assert layers[7].name == Residency && layers[8].name == CommonsConsumer && layers[9].name == CommonsOperator;
    assert layers[10].name == Forge && layers[11].name == ReferenceStudies && layers[13].name == ArtifactWrite;
  }

  ghost predicate Stand(o: Others, fleet: string, models: string, status: Name -> string) {
    && status(Harness) == o.harness && status(FabricController) == o.fabricController
    && status(Fleet) == fleet && status(Workers) == fleet && status(Models) == models
    && status(Routing) == o.routing && status(Residency) == o.residency
    && status(CommonsConsumer) == o.commonsConsumer && status(CommonsOperator) == o.commonsOperator
    && status(Forge) == o.forge && status(ReferenceStudies) == o.referenceStudies
    && status(ArtifactWrite) == o.artifactWrite
  }

  lemma DemandedExactly(profile: Profile, o: Others, fleet: Readiness, models: Readiness)
    ensures RequiredStates(Layers(o, fleet, models), Required(profile))
         == Demanded(profile, o, Text(fleet), Text(models))
  {
    var layers := Layers(o, fleet, models);
    AllListed(layers);
    LayerNames(o, layers, fleet, models, name => StatusOf(layers, name));
    StatesOf(profile, RequiredStates(layers, Required(profile)), o, Text(fleet), Text(models),
      name => StatusOf(layers, name));
  }

  lemma StatesOf(profile: Profile, states: seq<string>, o: Others, fleet: string, models: string,
      status: Name -> string)
    requires Stand(o, fleet, models, status) && |states| == |Required(profile)|
    requires forall i :: 0 <= i < |states| ==> states[i] == status(Required(profile)[i])
    ensures states == Demanded(profile, o, fleet, models)
  {
    var demanded := Demanded(profile, o, fleet, models);
    assert |states| == |demanded|;
    forall i | 0 <= i < |states| ensures states[i] == demanded[i] {}
  }

  /** READY in a profile, over everything the evaluation depends on: provenance complete where demanded, each given
      layer the profile requires READY, some fit worker, and some sound model with a fit worker. */
  lemma ProfileReadyExactly(workers: seq<Worker>, models: seq<ModelItem>, requireFresh: bool, o: Others,
      profile: Profile, requireComplete: bool, complete: bool)
    ensures Verdict(workers, models, requireFresh, o, profile, requireComplete, complete) == Success(READY) <==>
      && (requireComplete ==> complete)
      && (exists w :: w in workers && Fit(w, requireFresh)) && SomeModel(workers, models, requireFresh, true)
      && o.harness == "READY" && o.fabricController == "READY"
      && o.commonsConsumer == "READY" && o.artifactWrite == "READY"
      && (profile.CodeAnalysis? || profile.RAVEL? ==> o.forge == "READY")
      && (profile.MultiAgent? || profile.SustainedExperiment? || profile.MNEL? ==> o.routing == "READY")
      && (profile.SustainedExperiment? ==> o.residency == "READY")
      && (profile.MNEL? ==> o.commonsOperator == "READY")
      && (profile.MNEL? || profile.RAVEL? ==> o.referenceStudies == "READY")
  {
    var evals := Evals(workers, requireFresh);
    var fleet, models' := FleetState(evals), ModelState(evals, Records(workers, models, requireFresh));
    FleetExactly(workers, requireFresh);
    ModelsExactly(workers, models, requireFresh);
    DemandedExactly(profile, o, fleet, models');
    var states := Demanded(profile, o, Text(fleet), Text(models'));
    FoldReadyExactly(states);
    AllReady(profile, o, fleet, models');
  }

  lemma AllReady(profile: Profile, o: Others, fleet: Readiness, models: Readiness)
    ensures (forall i :: 0 <= i < |Demanded(profile, o, Text(fleet), Text(models))| ==>
               Demanded(profile, o, Text(fleet), Text(models))[i] == "READY") <==>
      && fleet == READY && models == READY && o.harness == "READY" && o.fabricController == "READY"
      && o.commonsConsumer == "READY" && o.artifactWrite == "READY"
      && (profile.CodeAnalysis? || profile.RAVEL? ==> o.forge == "READY")
      && (profile.MultiAgent? || profile.SustainedExperiment? || profile.MNEL? ==> o.routing == "READY")
      && (profile.SustainedExperiment? ==> o.residency == "READY")
      && (profile.MNEL? ==> o.commonsOperator == "READY")
      && (profile.MNEL? || profile.RAVEL? ==> o.referenceStudies == "READY")
  {
    NamesDiffer();
    var states := Demanded(profile, o, Text(fleet), Text(models));
    assert states[0] == o.harness && states[1] == o.fabricController && states[2] == Text(fleet);
    assert states[4] == Text(models);
    match profile
    case BaseInference => assert states[5] == o.commonsConsumer && states[6] == o.artifactWrite;
    case CodeAnalysis => assert states[5] == o.commonsConsumer && states[6] == o.artifactWrite && states[7] == o.forge;
    case MultiAgent => assert states[5] == o.routing && states[6] == o.commonsConsumer && states[7] == o.artifactWrite;
    case SustainedExperiment =>
      assert states[5] == o.routing && states[6] == o.residency && states[7] == o.commonsConsumer;
      assert states[8] == o.artifactWrite;
    case MNEL =>
      assert states[5] == o.routing && states[6] == o.commonsConsumer && states[7] == o.commonsOperator;
      assert states[8] == o.referenceStudies && states[9] == o.artifactWrite;
    case RAVEL =>
      assert states[5] == o.commonsConsumer && states[6] == o.referenceStudies && states[7] == o.forge;
      assert states[8] == o.artifactWrite;
  }

  /** And in every other case: the worst of the states the profile requires, one outside the lattice failing the
      evaluation; READY becomes DEGRADED on incomplete provenance where it must be complete. */
  lemma ProfileExactly(workers: seq<Worker>, models: seq<ModelItem>, requireFresh: bool, o: Others,
      profile: Profile, requireComplete: bool, complete: bool)
    ensures var evals := Evals(workers, requireFresh);
      var states := Demanded(profile, o, Text(FleetState(evals)),
                             Text(ModelState(evals, Records(workers, models, requireFresh))));
      Verdict(workers, models, requireFresh, o, profile, requireComplete, complete)
        == Worst(states, requireComplete && !complete)
  {
    var evals := Evals(workers, requireFresh);
    var fleet, state := FleetState(evals), ModelState(evals, Records(workers, models, requireFresh));
    DemandedExactly(profile, o, fleet, state);
    WorstExactly(Demanded(profile, o, Text(fleet), Text(state)), requireComplete, complete);
  }

  ghost function Worst(states: seq<string>, incomplete: bool): Result<Readiness> {
    if exists s :: s in states && s != "READY" && s != "DEGRADED" && s != "BLOCKED" && s != "UNKNOWN" then RuntimeError
    else if "BLOCKED" in states then Success(BLOCKED)
    else if "UNKNOWN" in states then Success(UNKNOWN_READINESS)
    else if "DEGRADED" in states || incomplete then Success(DEGRADED)
    else Success(READY)
  }

  lemma WorstExactly(states: seq<string>, requireComplete: bool, complete: bool)
    ensures Worst(states, requireComplete && !complete) ==
      var folded := FoldNames(states);
      if folded.Success? then Success(Demoted(folded.value, requireComplete, complete)) else RuntimeError
  {
    if s :| s in states && s != "READY" && s != "DEGRADED" && s != "BLOCKED" && s != "UNKNOWN" {
      var i :| 0 <= i < |states| && states[i] == s;
      assert !ReadinessName(states[i]);
    }
    if i :| 0 <= i < |states| && !ReadinessName(states[i]) { assert states[i] in states; }
  }

  lemma TextExactly(r: Readiness)
    ensures Text(r) == match r
      case READY => "READY"
      case DEGRADED => "DEGRADED"
      case BLOCKED => "BLOCKED"
      case UNKNOWN_READINESS => "UNKNOWN"
  {
  }
}
