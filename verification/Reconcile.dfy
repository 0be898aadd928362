/** Background reconciliation: planning one resident model per worker and warming the
    pending ones concurrently, in whatever order the thread pool finishes them. */
module Reconcile {
  import opened Orders
  import opened MncsExec
  import opened Residency

  datatype PlanCode =
    | Disabled | Unavailable | NotCurrent | NoEligibleModel | NotInstalled
    | EvidenceUnknown | PolicyRejected | Loaded | ReadyToWarm

  datatype Assignment = Assignment(worker: string, model: Option<string>, code: PlanCode)

  // ---------------------------------------------------------------- planning

  function InstalledRole(policy: Policy, inventory: seq<Model>, roles: seq<string>): Option<string> {
    if |roles| == 0 then None
    else if roles[0] in policy.roleModels && FindModel(inventory, policy.roleModels[roles[0]]).Some? then
      Some(policy.roleModels[roles[0]])
    else InstalledRole(policy, inventory, roles[1..])
  }

  function ChooseModel(policy: Policy, w: Worker): Option<string> {
    if w.id in policy.explicit then policy.explicit[w.id]
    else InstalledRole(policy, w.inventory, policy.rolePreference)
  }

  function PlanWorker(policy: Policy, w: Worker): Assignment {
    if !policy.enabled then Assignment(w.id, None, Disabled)
    else if !w.available then Assignment(w.id, None, Unavailable)
    else if !w.inventoryCurrent then Assignment(w.id, None, NotCurrent)
    else
      var chosen := ChooseModel(policy, w);
      if chosen.None? then Assignment(w.id, None, NoEligibleModel)
      else
        var m := FindModel(w.inventory, chosen.value);
        if m.None? then Assignment(w.id, chosen, NotInstalled)
        else if ResourceDecision(policy, w, m.value, false) != RESOURCE_OK then
          Assignment(w.id, chosen, if m.value.size.None? || w.free.None? then EvidenceUnknown else PolicyRejected)
        else Assignment(w.id, chosen, if m.value.loaded then Loaded else ReadyToWarm)
  }

  predicate IdLe(a: Worker, b: Worker) { StrLe(a.id, b.id) }

  /** The rows a plan speaks about: remote, with an id. */
  predicate Plannable(w: Worker) { !w.local && w.id != "" }

  function PlanRows(policy: Policy, rows: seq<Worker>): seq<Assignment> {
    if |rows| == 0 then []
    else
      PlanRows(policy, rows[..|rows| - 1]) +
      (if Plannable(rows[|rows| - 1]) then [PlanWorker(policy, rows[|rows| - 1])] else [])
  }

  function PlanOf(policy: Policy, status: seq<Worker>): seq<Assignment> {
    PlanRows(policy, Sort(IdLe, status))
  }

  method Plan(policy: Policy, status: seq<Worker>) returns (assignments: seq<Assignment>)
    ensures assignments == PlanOf(policy, status)
  {
    var rows := Sort(IdLe, status);
    assignments := [];
    for i := 0 to |rows|
      invariant assignments == PlanRows(policy, rows[..i])
    {
      assert rows[..i + 1][..i] == rows[..i];
      if !Plannable(rows[i]) { continue; }
      assignments := assignments + [PlanWorker(policy, rows[i])];
    }
    assert rows[..|rows|] == rows;
  }

  /** No two rows the plan speaks about share an id. */
  ghost predicate DistinctIds(rows: seq<Worker>) {
    forall i, j :: 0 <= i < j < |rows| && Plannable(rows[i]) && Plannable(rows[j]) ==> rows[i].id != rows[j].id
  }

  lemma {:induction false} InsertDistinctIds(w: Worker, rows: seq<Worker>)
    requires DistinctIds(rows) && forall r :: r in rows && Plannable(r) && Plannable(w) ==> r.id != w.id
    ensures DistinctIds(Insert(IdLe, w, rows))
  {
    if |rows| > 0 && !IdLe(w, rows[0]) {
      InsertDistinctIds(w, rows[1..]);
      var rest := Insert(IdLe, w, rows[1..]);
      forall j | 0 <= j < |rest| && Plannable(rows[0]) && Plannable(rest[j]) ensures rest[j].id != rows[0].id {
        assert rest[j] in multiset(rest);
      }
    }
  }

  lemma {:induction false} SortDistinctIds(rows: seq<Worker>)
    requires DistinctIds(rows)
    ensures DistinctIds(Sort(IdLe, rows))
  {
    if |rows| > 0 {
      SortDistinctIds(rows[1..]);
      SameMultisetSameElements(Sort(IdLe, rows[1..]), rows[1..]);
      InsertDistinctIds(rows[0], Sort(IdLe, rows[1..]));
    }
  }

  lemma {:induction false} PlanRowsDistinct(policy: Policy, rows: seq<Worker>)
    requires DistinctIds(rows)
    ensures DistinctWorkers(PlanRows(policy, rows))
  {
    if |rows| > 0 {
      var init, last := rows[..|rows| - 1], rows[|rows| - 1];
      PlanRowsDistinct(policy, init);
      forall a | a in PlanRows(policy, init) && Plannable(last) ensures a.worker != last.id {
        PlanRowsOrigin(policy, init, a);
        var w :| w in init && Plannable(w) && a == PlanWorker(policy, w);
        var k :| 0 <= k < |init| && init[k] == w;
        assert rows[k] == w;
      }
    }
  }

  /** Distinct worker ids in the status give a plan with one assignment per worker. */
  lemma PlanIsPerWorker(policy: Policy, status: seq<Worker>)
    requires DistinctIds(status)
    ensures DistinctWorkers(PlanOf(policy, status))
  {
    SortDistinctIds(status);
    PlanRowsDistinct(policy, Sort(IdLe, status));
  }

  // ---------------------------------------------------------------- warming the pending assignments

  predicate Targeted(force: Option<string>, a: Assignment) {
    force.None? || a.worker == force.value
  }

  function Pending(plan: seq<Assignment>, force: Option<string>): seq<Assignment> {
    if |plan| == 0 then []
    else
      var last := plan[|plan| - 1];
      Pending(plan[..|plan| - 1], force) +
      (if last.code == ReadyToWarm && Targeted(force, last) then [last] else [])
  }

  function PairOf(a: Assignment): Pair {
    (a.worker, if a.model.Some? then a.model.value else "")
  }

  function ModelsOn(loaded: set<Pair>, worker: string): set<string> {
    set p | p in loaded && p.0 == worker :: p.1
  }

  /** What one warm task reports: the provider's evidence, or the failure. */
  datatype Outcome =
    | WarmedNow(preexisting: bool, remaining: set<string>)
    | Failed

  function TaskOutcome(a: Assignment, fails: set<Pair>, loaded: set<Pair>): Outcome {
    if PairOf(a) in fails then Failed
    else WarmedNow(PairOf(a) in loaded, ModelsOn(loaded, a.worker) + {PairOf(a).1})
  }

  function AfterTask(a: Assignment, fails: set<Pair>, loaded: set<Pair>): set<Pair> {
    if PairOf(a) in fails then loaded else loaded + {PairOf(a)}
  }

  predicate Indexes(order: seq<nat>, n: nat) {
    forall k :: 0 <= k < |order| ==> order[k] < n
  }

  /** A completion order names every pending task exactly once. */
  ghost predicate CompletionOrder(order: seq<nat>, n: nat) {
    Distinct(order) && Indexes(order, n) && forall i :: 0 <= i < n ==> i in order
  }

  datatype Swept = Swept(loaded: set<Pair>, outcomes: map<nat, Outcome>)

  /** The tasks run one after another in their completion order. */
  function Sweep(pending: seq<Assignment>, order: seq<nat>, fails: set<Pair>, loaded: set<Pair>): (r: Swept)
    requires Indexes(order, |pending|)
    ensures forall i :: i in r.outcomes <==> i in order
  {
    if |order| == 0 then Swept(loaded, map[])
    else
      assert order == order[..|order| - 1] + [order[|order| - 1]];
      var before := Sweep(pending, order[..|order| - 1], fails, loaded);
      var i := order[|order| - 1];
      Swept(AfterTask(pending[i], fails, before.loaded),
            before.outcomes[i := TaskOutcome(pending[i], fails, before.loaded)])
  }

  method RunTasks(fleet: Fleet, pending: seq<Assignment>, order: seq<nat>, fails: set<Pair>)
      returns (outcomes: map<nat, Outcome>)
    requires Indexes(order, |pending|)
    modifies fleet
    ensures Swept(fleet.loaded, outcomes) == Sweep(pending, order, fails, old(fleet.loaded))
  {
    outcomes := map[];
    for k := 0 to |order|
      invariant Swept(fleet.loaded, outcomes) == Sweep(pending, order[..k], fails, old(fleet.loaded))
    {
      assert order[..k + 1][..k] == order[..k];
      var a := pending[order[k]];
      var evidence := fleet.Warm(PairOf(a), fails);
      if evidence.None? {
        outcomes := outcomes[order[k] := Failed];
      } else {
        assert ModelsOn(Sweep(pending, order[..k], fails, old(fleet.loaded)).loaded, a.worker) + {PairOf(a).1}
            == ModelsOn(fleet.loaded, a.worker) by {
          ModelsOnAfter(Sweep(pending, order[..k], fails, old(fleet.loaded)).loaded, PairOf(a));
        }
        outcomes := outcomes[order[k] := WarmedNow(evidence.value, ModelsOn(fleet.loaded, a.worker))];
      }
    }
    assert order[..|order|] == order;
  }

  lemma ModelsOnAfter(loaded: set<Pair>, p: Pair)
    ensures ModelsOn(loaded + {p}, p.0) == ModelsOn(loaded, p.0) + {p.1}
    ensures forall worker :: worker != p.0 ==> ModelsOn(loaded + {p}, worker) == ModelsOn(loaded, worker)
  {
    assert p in loaded + {p};
    forall m | m in ModelsOn(loaded, p.0) ensures m in ModelsOn(loaded + {p}, p.0) {
      assert (p.0, m) in loaded + {p};
    }
    forall worker | worker != p.0 ensures ModelsOn(loaded + {p}, worker) == ModelsOn(loaded, worker) {
      forall m | m in ModelsOn(loaded, worker) ensures m in ModelsOn(loaded + {p}, worker) {
        assert (worker, m) in loaded + {p};
      }
    }
  }

  datatype Record =
    | Planned(assignment: Assignment)
    | Attempted(assignment: Assignment, outcome: Outcome)
    | WorkerUnknown(worker: string)

  /** The dictionary of results keyed by worker, filled in pending order. */
  function ByWorker(pending: seq<Assignment>, outcomes: map<nat, Outcome>): map<string, Record>
    requires forall i :: 0 <= i < |pending| ==> i in outcomes
  {
    if |pending| == 0 then map[]
    else
      var last := |pending| - 1;
      ByWorker(pending[..last], outcomes)[pending[last].worker := Attempted(pending[last], outcomes[last])]
  }

  function Report(plan: seq<Assignment>, force: Option<string>, warmed: map<string, Record>): seq<Record> {
    if |plan| == 0 then []
    else
      var last := plan[|plan| - 1];
      Report(plan[..|plan| - 1], force, warmed) +
      (if !Targeted(force, last) then []
       else if last.worker in warmed then [warmed[last.worker]]
       else [Planned(last)])
  }

  predicate Knows(plan: seq<Assignment>, worker: string) {
    exists i :: 0 <= i < |plan| && plan[i].worker == worker
  }

  /** What one reconciliation leaves behind: the fleet, the returned records, the remembered results. */
  datatype Reconciled = Reconciled(loaded: set<Pair>, records: seq<Record>, lastResults: map<string, Record>)

  ghost function Reconciliation(plan: seq<Assignment>, force: Option<string>, order: seq<nat>, fails: set<Pair>,
                                loaded: set<Pair>, last: map<string, Record>): Reconciled
    requires CompletionOrder(order, |Pending(plan, force)|)
  {
    var pending := Pending(plan, force);
    var swept := Sweep(pending, order, fails, loaded);
    if force.Some? && !Knows(plan, force.value) then Reconciled(loaded, [WorkerUnknown(force.value)], last)
    else Reconciled(swept.loaded, Report(plan, force, ByWorker(pending, swept.outcomes)), last
        + ByWorker(pending, swept.outcomes))
  }

  lemma NothingPending(plan: seq<Assignment>, force: Option<string>, order: seq<nat>, fails: set<Pair>,
      loaded: set<Pair>, last: map<string, Record>)
    requires Pending(plan, force) == [] && CompletionOrder(order, 0) && (force.Some? ==> Knows(plan, force.value))
    ensures Reconciliation(plan, force, order, fails, loaded, last)
        == Reconciled(loaded, Report(plan, force, map[]), last)
  {
    if order != [] { IndexesNeedRoom(order, 0); }
    assert last + map[] == last;
  }

  lemma IndexesNeedRoom(order: seq<nat>, n: nat)
    requires Indexes(order, n) && order != []
    ensures n > 0
  {
    assert order[0] < n;
  }

  class Reconciler {
    const policy: Policy
    const fleet: Fleet
    var lastResults: map<string, Record>

    constructor (policy: Policy, fleet: Fleet)
      ensures this.policy == policy && this.fleet == fleet && lastResults == map[]
    {
      this.policy := policy;
      this.fleet := fleet;
      lastResults := map[];
    }

    /** `order` is the order in which the pool completes the pending tasks. */
    method Run(status: seq<Worker>, force: Option<string>, order: seq<nat>, fails: set<Pair>)
        returns (records: seq<Record>)
      requires CompletionOrder(order, |Pending(PlanOf(policy, status), force)|)
      modifies this, fleet
      ensures Reconciled(fleet.loaded, records, lastResults)
           == Reconciliation(PlanOf(policy, status), force, order, fails, old(fleet.loaded), old(lastResults))
    {
      var plan := Plan(policy, status);
      var pending := Pending(plan, force);
      if force.Some? && !Knows(plan, force.value) { return [WorkerUnknown(force.value)]; }
      if |pending| == 0 {
        records := ReportPlan(plan, force, map[]);
        NothingPending(plan, force, order, fails, fleet.loaded, lastResults);
        return;
      }
      var outcomes := RunTasks(fleet, pending, order, fails);
      var warmed := Collect(pending, outcomes);
      lastResults := lastResults + warmed;
      records := ReportPlan(plan, force, warmed);
    }

    method Collect(pending: seq<Assignment>, outcomes: map<nat, Outcome>) returns (warmed: map<string, Record>)
      requires forall i :: 0 <= i < |pending| ==> i in outcomes
      ensures warmed == ByWorker(pending, outcomes)
    {
      warmed := map[];
      for i := 0 to |pending|
        invariant warmed == ByWorker(pending[..i], outcomes)
      {
        assert pending[..i + 1][..i] == pending[..i];
        warmed := warmed[pending[i].worker := Attempted(pending[i], outcomes[i])];
      }
      assert pending[..|pending|] == pending;
    }

    method ReportPlan(plan: seq<Assignment>, force: Option<string>, warmed: map<string, Record>)
        returns (records: seq<Record>)
      ensures records == Report(plan, force, warmed)
    {
      records := [];
      for i := 0 to |plan|
        invariant records == Report(plan[..i], force, warmed)
      {
        assert plan[..i + 1][..i] == plan[..i];
        if Targeted(force, plan[i]) {
          records := records + [if plan[i].worker in warmed then warmed[plan[i].worker] else Planned(plan[i])];
        }
      }
      assert plan[..|plan|] == plan;
    }
  }

  // ---------------------------------------------------------------- interleavings do not matter

  ghost predicate DistinctWorkers(assignments: seq<Assignment>) {
    forall i, j :: 0 <= i < j < |assignments| ==> assignments[i].worker != assignments[j].worker
  }

  /** The two fleets agree about one worker. */
  ghost predicate SameOn(a: set<Pair>, b: set<Pair>, worker: string) {
    forall model :: (worker, model) in a <==> (worker, model) in b
  }

  lemma OutcomeIsLocal(a: Assignment, fails: set<Pair>, one: set<Pair>, other: set<Pair>)
    requires SameOn(one, other, a.worker)
    ensures TaskOutcome(a, fails, one) == TaskOutcome(a, fails, other)
  {
    forall m ensures m in ModelsOn(one, a.worker) <==> m in ModelsOn(other, a.worker) {
      assert m in ModelsOn(one, a.worker) <==> (a.worker, m) in one;
      assert m in ModelsOn(other, a.worker) <==> (a.worker, m) in other;
    }
  }

  /** The pairs warmed by the tasks named in `order`. */
  ghost function WarmedBy(pending: seq<Assignment>, order: seq<nat>, fails: set<Pair>): set<Pair>
    requires Indexes(order, |pending|)
  {
    set k | 0 <= k < |order| && PairOf(pending[order[k]]) !in fails :: PairOf(pending[order[k]])
  }

  lemma WarmedByStep(pending: seq<Assignment>, init: seq<nat>, i: nat, fails: set<Pair>)
    requires Indexes(init, |pending|) && i < |pending|
    ensures WarmedBy(pending, init + [i], fails)
         == AfterTask(pending[i], fails, WarmedBy(pending, init, fails))
  {
    var order := init + [i];
    var after := AfterTask(pending[i], fails, WarmedBy(pending, init, fails));
    forall p ensures p in WarmedBy(pending, order, fails) <==> p in after {
      if p in WarmedBy(pending, init, fails) {
        var k :| 0 <= k < |init| && PairOf(pending[init[k]]) !in fails && PairOf(pending[init[k]]) == p;
        assert order[k] == init[k];
      }
      assert order[|init|] == i;
    }
  }

  lemma {:induction false} SweepLoads(pending: seq<Assignment>, order: seq<nat>, fails: set<Pair>, loaded: set<Pair>)
    requires Indexes(order, |pending|)
    ensures Sweep(pending, order, fails, loaded).loaded == loaded + WarmedBy(pending, order, fails)
  {
    if |order| > 0 {
      var init, i := order[..|order| - 1], order[|order| - 1];
      assert order == init + [i];
      SweepLoads(pending, init, fails, loaded);
      WarmedByStep(pending, init, i, fails);
    }
  }

  /** A task of another worker leaves this worker alone. */
  lemma OtherWorkersUntouched(pending: seq<Assignment>, order: seq<nat>, fails: set<Pair>, loaded: set<Pair>,
      worker: string)
    requires Indexes(order, |pending|)
    requires forall k :: 0 <= k < |order| ==> pending[order[k]].worker != worker
    ensures SameOn(Sweep(pending, order, fails, loaded).loaded, loaded, worker)
  {
    SweepLoads(pending, order, fails, loaded);
  }

  lemma OthersElsewhere(pending: seq<Assignment>, init: seq<nat>, i: nat)
    requires DistinctWorkers(pending) && Indexes(init + [i], |pending|) && Distinct(init + [i])
    ensures i < |pending| && Indexes(init, |pending|)
    ensures forall k :: 0 <= k < |init| ==> pending[init[k]].worker != pending[i].worker
  {
    var order := init + [i];
    assert order[|init|] == i;
    forall k | 0 <= k < |init| ensures init[k] < |pending| && pending[init[k]].worker != pending[i].worker {
      assert order[k] == init[k] && order[k] != order[|init|];
    }
  }

  /** With one task per worker, every task sees its own worker as it was before the sweep. */
  lemma {:induction false} SweepIsIndependent(pending: seq<Assignment>, order: seq<nat>, fails: set<Pair>,
      loaded: set<Pair>)
    requires DistinctWorkers(pending) && Distinct(order) && Indexes(order, |pending|)
    ensures var swept := Sweep(pending, order, fails, loaded);
      forall i :: i in order ==> i < |pending| && swept.outcomes[i] == TaskOutcome(pending[i], fails, loaded)
  {
    if |order| > 0 {
      var init, i := order[..|order| - 1], order[|order| - 1];
      assert order == init + [i];
      SweepIsIndependent(pending, init, fails, loaded);
      OthersElsewhere(pending, init, i);
      OtherWorkersUntouched(pending, init, fails, loaded, pending[i].worker);
      OutcomeIsLocal(pending[i], fails, Sweep(pending, init, fails, loaded).loaded, loaded);
    }
  }

  lemma WarmedByAll(pending: seq<Assignment>, order: seq<nat>, fails: set<Pair>, p: Pair)
    requires CompletionOrder(order, |pending|)
    ensures p in WarmedBy(pending, order, fails) <==> p !in fails && exists a :: a in pending && PairOf(a) == p
  {
    if p in WarmedBy(pending, order, fails) {
      var k :| 0 <= k < |order| && PairOf(pending[order[k]]) !in fails && PairOf(pending[order[k]]) == p;
      assert pending[order[k]] in pending;
    }
    if p !in fails && exists a :: a in pending && PairOf(a) == p {
      var a :| a in pending && PairOf(a) == p;
      var i :| 0 <= i < |pending| && pending[i] == a;
      assert i in order;
      var k :| 0 <= k < |order| && order[k] == i;
    }
  }

  /** Every completion order reaches the same fleet and returns the same records. */
  lemma ReconcileForgetsCompletionOrder(plan: seq<Assignment>, force: Option<string>, one: seq<nat>, other: seq<nat>,
                                        fails: set<Pair>, loaded: set<Pair>, last: map<string, Record>)
    requires DistinctWorkers(plan)
    requires CompletionOrder(one, |Pending(plan, force)|) && CompletionOrder(other, |Pending(plan, force)|)
    ensures Reconciliation(plan, force, one, fails, loaded, last)
        == Reconciliation(plan, force, other, fails, loaded, last)
  {
    PendingMeaning(plan, force);
    InterleavingsAgree(Pending(plan, force), one, other, fails, loaded);
  }

  lemma InterleavingsAgree(pending: seq<Assignment>, one: seq<nat>, other: seq<nat>, fails: set<Pair>,
      loaded: set<Pair>)
    requires DistinctWorkers(pending) && CompletionOrder(one, |pending|) && CompletionOrder(other, |pending|)
    ensures Sweep(pending, one, fails, loaded) == Sweep(pending, other, fails, loaded)
  {
    OutcomesAgree(pending, one, other, fails, loaded);
    SweepLoads(pending, one, fails, loaded);
    SweepLoads(pending, other, fails, loaded);
    forall p ensures p in WarmedBy(pending, one, fails) <==> p in WarmedBy(pending, other, fails) {
      WarmedByAll(pending, one, fails, p);
      WarmedByAll(pending, other, fails, p);
    }
  }

  lemma OutcomesAgree(pending: seq<Assignment>, one: seq<nat>, other: seq<nat>, fails: set<Pair>, loaded: set<Pair>)
    requires DistinctWorkers(pending) && CompletionOrder(one, |pending|) && CompletionOrder(other, |pending|)
    ensures Sweep(pending, one, fails, loaded).outcomes == Sweep(pending, other, fails, loaded).outcomes
  {
    var a, b := Sweep(pending, one, fails, loaded).outcomes, Sweep(pending, other, fails, loaded).outcomes;
    SweepIsIndependent(pending, one, fails, loaded);
    SweepIsIndependent(pending, other, fails, loaded);
    assert forall i :: i in one <==> i in other;
    assert forall i :: i in a ==> a[i] == b[i];
  }

  lemma PendingMeaning(plan: seq<Assignment>, force: Option<string>)
    ensures forall a :: a in Pending(plan, force) <==> a in plan && a.code == ReadyToWarm && Targeted(force, a)
    ensures DistinctWorkers(plan) ==> DistinctWorkers(Pending(plan, force))
  {
    PendingMembers(plan, force);
    if DistinctWorkers(plan) { PendingDistinct(plan, force); }
  }

  lemma {:induction false} PendingMembers(plan: seq<Assignment>, force: Option<string>)
    ensures forall a :: a in Pending(plan, force) <==> a in plan && a.code == ReadyToWarm && Targeted(force, a)
  {
    if |plan| > 0 {
      var init, last := plan[..|plan| - 1], plan[|plan| - 1];
      PendingMembers(init, force);
      assert forall a :: a in plan <==> a in init || a == last by { assert plan == init + [last]; }
    }
  }

  lemma {:induction false} PendingDistinct(plan: seq<Assignment>, force: Option<string>)
    requires DistinctWorkers(plan)
    ensures DistinctWorkers(Pending(plan, force))
  {
    if |plan| > 0 {
      var init, last := plan[..|plan| - 1], plan[|plan| - 1];
      PendingDistinct(init, force);
      PendingMembers(init, force);
      var before := Pending(init, force);
      forall i | 0 <= i < |before| ensures before[i].worker != last.worker {
        assert before[i] in init;
        var k :| 0 <= k < |init| && init[k] == before[i];
        assert plan[k] == before[i];
      }
    }
  }

  /** Whatever the sweep loads was planned READY_TO_WARM, on the forced worker when one is forced,
      and no worker gets two models. */
  lemma SweepTouchesOnlyReady(plan: seq<Assignment>, force: Option<string>, order: seq<nat>, fails: set<Pair>,
      loaded: set<Pair>)
    requires DistinctWorkers(plan) && CompletionOrder(order, |Pending(plan, force)|)
    ensures var swept := Sweep(Pending(plan, force), order, fails, loaded);
      && loaded <= swept.loaded
      && (forall p :: p in swept.loaded - loaded ==>
            exists a :: a in plan && a.code == ReadyToWarm && Targeted(force, a) && PairOf(a) == p)
      && (forall p, q :: p in swept.loaded - loaded && q in swept.loaded - loaded && p.0 == q.0 ==> p == q)
  {
    var pending := Pending(plan, force);
    PendingMeaning(plan, force);
    SweepLoads(pending, order, fails, loaded);
    var swept := Sweep(pending, order, fails, loaded);
    forall p | p in swept.loaded - loaded
      ensures exists a :: a in plan && a.code == ReadyToWarm && Targeted(force, a) && PairOf(a) == p
      ensures exists i :: 0 <= i < |pending| && PairOf(pending[i]) == p
    {
      WarmedByAll(pending, order, fails, p);
      var a :| a in pending && PairOf(a) == p;
      var i :| 0 <= i < |pending| && pending[i] == a;
    }
  }

  // ---------------------------------------------------------------- a second pass

  /** The status row a fresh inventory scan would report. */
  ghost predicate ReportsLoaded(w: Worker, loaded: set<Pair>) {
    forall m :: m in w.inventory ==> (m.loaded <==> (w.id, m.name) in loaded)
  }

  lemma {:induction false} PlanRowsOrigin(policy: Policy, rows: seq<Worker>, a: Assignment)
    requires a in PlanRows(policy, rows)
    ensures exists w :: w in rows && Plannable(w) && a == PlanWorker(policy, w)
  {
    var init, last := rows[..|rows| - 1], rows[|rows| - 1];
    assert rows == init + [last];
    if a in PlanRows(policy, init) {
      PlanRowsOrigin(policy, init, a);
      var w :| w in init && Plannable(w) && a == PlanWorker(policy, w);
      assert w in rows;
    } else {
      assert last in rows;
    }
  }

  /** A second pass over a status that reports the fleet as the first pass left it warms nothing the
      fleet already holds, in particular nothing the first pass warmed. */
  lemma SecondPassWarmsNothingHeld(policy: Policy, first: seq<Assignment>, force: Option<string>, order: seq<nat>,
                                   fails: set<Pair>, loaded: set<Pair>, again: seq<Worker>, force': Option<string>)
    requires CompletionOrder(order, |Pending(first, force)|)
    requires var swept := Sweep(Pending(first, force), order, fails, loaded);
             forall w :: w in again ==> ReportsLoaded(w, swept.loaded)
    ensures var swept := Sweep(Pending(first, force), order, fails, loaded);
      && (forall a :: a in Pending(PlanOf(policy, again), force') ==> PairOf(a) !in swept.loaded)
      && (forall a :: a in Pending(first, force) && PairOf(a) !in fails ==> PairOf(a) in swept.loaded)
  {
    var pending := Pending(first, force);
    SweepLoads(pending, order, fails, loaded);
    var swept := Sweep(pending, order, fails, loaded);
    forall a | a in Pending(PlanOf(policy, again), force') ensures PairOf(a) !in swept.loaded {
      PendingNotHeld(policy, again, force', swept.loaded, a);
    }
    forall a | a in pending && PairOf(a) !in fails ensures PairOf(a) in swept.loaded {
      WarmedByAll(pending, order, fails, PairOf(a));
    }
  }

  lemma PendingNotHeld(policy: Policy, status: seq<Worker>, force: Option<string>, loaded: set<Pair>, a: Assignment)
    requires a in Pending(PlanOf(policy, status), force)
    requires forall w :: w in status ==> ReportsLoaded(w, loaded)
    ensures PairOf(a) !in loaded
  {
    PendingMeaning(PlanOf(policy, status), force);
    PlanRowsOrigin(policy, Sort(IdLe, status), a);
    SameMultisetSameElements(Sort(IdLe, status), status);
    var w :| w in Sort(IdLe, status) && Plannable(w) && a == PlanWorker(policy, w);
    ReadyMeansNotLoaded(policy, w, loaded);
  }

  lemma ReadyMeansNotLoaded(policy: Policy, w: Worker, loaded: set<Pair>)
    requires PlanWorker(policy, w).code == ReadyToWarm && ReportsLoaded(w, loaded)
    ensures PairOf(PlanWorker(policy, w)) !in loaded
  {
  }

  // ---------------------------------------------------------------- exactly what is planned, warmed and reported

  ghost predicate Lists(inventory: seq<Model>, name: string) { exists m :: m in inventory && m.name == name }

  /** The first preferred role whose configured model is installed. */
  ghost predicate FirstRole(policy: Policy, inventory: seq<Model>, roles: seq<string>, name: string) {
    exists i :: 0 <= i < |roles| && RoleInstalled(policy, inventory, roles[i]) && policy.roleModels[roles[i]] == name
      && forall k :: 0 <= k < i ==> !RoleInstalled(policy, inventory, roles[k])
  }

  ghost predicate RoleInstalled(policy: Policy, inventory: seq<Model>, role: string) {
    role in policy.roleModels && Lists(inventory, policy.roleModels[role])
  }

  lemma {:induction false} FirstRoleExactly(policy: Policy, inventory: seq<Model>, roles: seq<string>, name: string)
    ensures InstalledRole(policy, inventory, roles) == Some(name) <==> FirstRole(policy, inventory, roles, name)
  {
    if |roles| > 0 {
      var rest := roles[1..];
      FirstRoleExactly(policy, inventory, rest, name);
      if RoleInstalled(policy, inventory, roles[0]) {
      } else {
        if FirstRole(policy, inventory, rest, name) {
          var i :| 0 <= i < |rest| && RoleInstalled(policy, inventory, rest[i]) && policy.roleModels[rest[i]] == name
                && forall k :: 0 <= k < i ==> !RoleInstalled(policy, inventory, rest[k]);
          assert roles[i + 1] == rest[i];
          forall k | 0 <= k < i + 1 ensures !RoleInstalled(policy, inventory, roles[k]) {
            assert k > 0 ==> roles[k] == rest[k - 1];
          }
        }
        if FirstRole(policy, inventory, roles, name) {
          var i :| 0 <= i < |roles| && RoleInstalled(policy, inventory, roles[i])
                && policy.roleModels[roles[i]] == name
                && forall k :: 0 <= k < i ==> !RoleInstalled(policy, inventory, roles[k]);
          assert rest[i - 1] == roles[i];
          forall k | 0 <= k < i - 1 ensures !RoleInstalled(policy, inventory, rest[k]) {
            assert rest[k] == roles[k + 1];
          }
        }
      }
    }
  }

  /** The resident model meant for a worker: the operator's explicit choice, which may be none, or by role. */
  ghost predicate Meant(policy: Policy, w: Worker, name: string) {
    if w.id in policy.explicit then policy.explicit[w.id] == Some(name)
    else FirstRole(policy, w.inventory, policy.rolePreference, name)
  }

  /** Within the policy's share of the memory, and within the free memory where that is known. */
  ghost predicate FitsPlan(policy: Policy, w: Worker, m: Model) {
    && w.total.Some? && w.total.value > 0 && m.size.Some? && m.size.value > 0
    && WithinFraction(policy, m.size.value, w.total.value)
    && (w.free.Some? && w.free.value > 0 ==> m.size.value <= w.free.value)
  }

  lemma FitsPlanExactly(policy: Policy, w: Worker, m: Model)
    ensures ResourceDecision(policy, w, m, false) == RESOURCE_OK <==> FitsPlan(policy, w, m)
  {
    if w.total.Some? && m.size.Some? && policy.denominator > 0 {
      FloorCompares(m.size.value, w.total.value * policy.numerator, policy.denominator);
    }
  }

  ghost predicate Watched(policy: Policy, w: Worker) { policy.enabled && w.available && w.inventoryCurrent }

  ghost predicate Installed(policy: Policy, w: Worker, model: Option<string>, m: Model) {
    Watched(policy, w) && model == Some(m.name) && Meant(policy, w, m.name) && Reported(w.inventory, m.name, m)
  }

  /** What a row means for the plan. */
  ghost predicate PlanReads(policy: Policy, w: Worker, a: Assignment) {
    && a.worker == w.id
    && match a.code
       case Disabled => a.model == None && !policy.enabled
       case Unavailable => a.model == None && policy.enabled && !w.available
       case NotCurrent => a.model == None && policy.enabled && w.available && !w.inventoryCurrent
       case NoEligibleModel => a.model == None && Watched(policy, w) && forall name :: !Meant(policy, w, name)
       case NotInstalled =>
         Watched(policy, w) && a.model.Some? && Meant(policy, w, a.model.value) && !Lists(w.inventory, a.model.value)
       case EvidenceUnknown =>
         exists m :: Installed(policy, w, a.model, m) && !FitsPlan(policy, w, m) && (m.size.None? || w.free.None?)
       case PolicyRejected =>
         exists m :: Installed(policy, w, a.model, m) && !FitsPlan(policy, w, m) && m.size.Some? && w.free.Some?
       case Loaded => exists m :: Installed(policy, w, a.model, m) && FitsPlan(policy, w, m) && m.loaded
       case ReadyToWarm => exists m :: Installed(policy, w, a.model, m) && FitsPlan(policy, w, m) && !m.loaded
  }

  lemma MeantExactly(policy: Policy, w: Worker, name: string)
    ensures ChooseModel(policy, w) == Some(name) <==> Meant(policy, w, name)
  {
    FirstRoleExactly(policy, w.inventory, policy.rolePreference, name);
  }

  lemma PlanWorkerReads(policy: Policy, w: Worker)
    ensures PlanReads(policy, w, PlanWorker(policy, w))
  {
    var chosen := ChooseModel(policy, w);
    forall name ensures chosen == Some(name) <==> Meant(policy, w, name) { MeantExactly(policy, w, name); }
    if Watched(policy, w) && chosen.Some? {
      var m := FindModel(w.inventory, chosen.value);
      if m.Some? {
        FindModelMeaning(w.inventory, chosen.value, m.value);
        FitsPlanExactly(policy, w, m.value);
        assert Installed(policy, w, chosen, m.value);
      }
    }
  }

  /** The readings exclude one another, so the row decides its assignment. */
  lemma PlanReadsOne(policy: Policy, w: Worker, a: Assignment)
    requires PlanReads(policy, w, a)
    ensures a == PlanWorker(policy, w)
  {
    var chosen := ChooseModel(policy, w);
    forall name ensures chosen == Some(name) <==> Meant(policy, w, name) { MeantExactly(policy, w, name); }
    if Watched(policy, w) && chosen.Some? {
      var entry := FindModel(w.inventory, chosen.value);
      forall m ensures Installed(policy, w, chosen, m) <==> entry == Some(m) {
        FindModelMeaning(w.inventory, chosen.value, m);
      }
      if entry.Some? { FitsPlanExactly(policy, w, entry.value); }
    }
  }

  lemma PlanWorkerExactly(policy: Policy, w: Worker, a: Assignment)
    ensures PlanWorker(policy, w) == a <==> PlanReads(policy, w, a)
  {
    PlanWorkerReads(policy, w);
    if PlanReads(policy, w, a) { PlanReadsOne(policy, w, a); }
  }

  lemma {:induction false} PlanRowsMembers(policy: Policy, rows: seq<Worker>, a: Assignment)
    ensures a in PlanRows(policy, rows) <==> exists w :: w in rows && !w.local && w.id != "" && PlanReads(policy, w, a)
  {
    if |rows| > 0 {
      var init, last := rows[..|rows| - 1], rows[|rows| - 1];
      assert rows == init + [last];
      PlanRowsMembers(policy, init, a);
      PlanWorkerExactly(policy, last, a);
      if w :| w in init && !w.local && w.id != "" && PlanReads(policy, w, a) { assert w in rows; }
      assert last in rows;
    }
  }

  /** The plan speaks of exactly the remote rows with an id, and of each as it reads. */
  lemma PlanExactly(policy: Policy, status: seq<Worker>, a: Assignment)
    ensures a in PlanOf(policy, status) <==>
      exists w :: w in status && !w.local && w.id != "" && PlanReads(policy, w, a)
  {
    PlanRowsMembers(policy, Sort(IdLe, status), a);
    SameMultisetSameElements(Sort(IdLe, status), status);
  }

  /** The pair is to be warmed: some remote row plans it, none is forced elsewhere, and its warm does not fail. */
  ghost predicate ToWarm(policy: Policy, status: seq<Worker>, force: Option<string>, fails: set<Pair>, p: Pair) {
    && p !in fails && (force.None? || force.value == p.0)
    && exists w :: w in status && !w.local && w.id != ""
                && PlanReads(policy, w, Assignment(p.0, Some(p.1), ReadyToWarm))
  }

  /** One reconciliation loads exactly the pairs that are to be warmed: on a watched remote worker, the model meant
      for it, installed, fitting and not loaded. */
  lemma ReconcileWarmsExactly(policy: Policy, status: seq<Worker>, force: Option<string>, order: seq<nat>,
                              fails: set<Pair>, loaded: set<Pair>, last: map<string, Record>, p: Pair)
    requires CompletionOrder(order, |Pending(PlanOf(policy, status), force)|)
    ensures p in Reconciliation(PlanOf(policy, status), force, order, fails, loaded, last).loaded <==>
      p in loaded || ToWarm(policy, status, force, fails, p)
  {
    var plan := PlanOf(policy, status);
    forall b | b in plan && b.code == ReadyToWarm ensures b.model.Some? { ReadyHasModel(policy, status, b); }
    PlanWarmsExactly(plan, force, order, fails, loaded, last, p);
    PlanExactly(policy, status, Assignment(p.0, Some(p.1), ReadyToWarm));
  }

  lemma PlanWarmsExactly(plan: seq<Assignment>, force: Option<string>, order: seq<nat>, fails: set<Pair>,
                         loaded: set<Pair>, last: map<string, Record>, p: Pair)
    requires CompletionOrder(order, |Pending(plan, force)|)
    requires forall b :: b in plan && b.code == ReadyToWarm ==> b.model.Some?
    ensures p in Reconciliation(plan, force, order, fails, loaded, last).loaded <==>
      || p in loaded
      || (p !in fails && (force.None? || force.value == p.0) && Assignment(p.0, Some(p.1), ReadyToWarm) in plan)
  {
    var a := Assignment(p.0, Some(p.1), ReadyToWarm);
    PendingMeaning(plan, force);
    SweepLoads(Pending(plan, force), order, fails, loaded);
    WarmedByAll(Pending(plan, force), order, fails, p);
    if force.Some? && a in plan && a.worker == force.value {
      var i :| 0 <= i < |plan| && plan[i] == a;
      assert Knows(plan, force.value);
    }
  }

  lemma ReadyHasModel(policy: Policy, status: seq<Worker>, a: Assignment)
    requires a in PlanOf(policy, status) && a.code == ReadyToWarm
    ensures a.model.Some?
  {
    PlanExactly(policy, status, a);
  }

  /** What is reported of one assignment when `loaded` was the fleet before: an attempt, or the plan itself. */
  ghost function RecordOf(a: Assignment, fails: set<Pair>, loaded: set<Pair>): Record {
    if a.code != ReadyToWarm then Planned(a)
    else if PairOf(a) in fails then Attempted(a, Failed)
    else Attempted(a, WarmedNow(PairOf(a) in loaded, (set p | p in loaded && p.0 == a.worker :: p.1) + {PairOf(a).1}))
  }

  ghost function RecordsOf(plan: seq<Assignment>, force: Option<string>, fails: set<Pair>,
                           loaded: set<Pair>): seq<Record>
  {
    if |plan| == 0 then []
    else
      var last := plan[|plan| - 1];
      RecordsOf(plan[..|plan| - 1], force, fails, loaded)
        + (if force.None? || last.worker == force.value then [RecordOf(last, fails, loaded)] else [])
  }

  lemma {:induction false} ByWorkerMeaning(pending: seq<Assignment>, outcomes: map<nat, Outcome>, i: nat)
    requires DistinctWorkers(pending) && i < |pending| && forall k :: 0 <= k < |pending| ==> k in outcomes
    ensures var m := ByWorker(pending, outcomes);
      pending[i].worker in m && m[pending[i].worker] == Attempted(pending[i], outcomes[i])
  {
    var last := |pending| - 1;
    if i < last { ByWorkerMeaning(pending[..last], outcomes, i); }
  }

  lemma {:induction false} ByWorkerKeys(pending: seq<Assignment>, outcomes: map<nat, Outcome>, worker: string)
    requires forall k :: 0 <= k < |pending| ==> k in outcomes
    ensures worker in ByWorker(pending, outcomes) <==> exists a :: a in pending && a.worker == worker
  {
    if |pending| > 0 {
      var init, last := pending[..|pending| - 1], pending[|pending| - 1];
      ByWorkerKeys(init, outcomes, worker);
      assert pending == init + [last];
      if a :| a in init && a.worker == worker { assert a in pending; }
      assert last in pending;
    }
  }

  lemma {:induction false} ReportReads(plan: seq<Assignment>, force: Option<string>, warmed: map<string, Record>,
                                       fails: set<Pair>, loaded: set<Pair>)
    requires forall a :: a in plan && Targeted(force, a) ==>
               RecordOf(a, fails, loaded) == if a.worker in warmed then warmed[a.worker] else Planned(a)
    ensures Report(plan, force, warmed) == RecordsOf(plan, force, fails, loaded)
  {
    if |plan| > 0 {
      var init, last := plan[..|plan| - 1], plan[|plan| - 1];
      assert plan == init + [last];
      assert forall a :: a in init ==> a in plan;
      ReportReads(init, force, warmed, fails, loaded);
      assert last in plan;
    }
  }

  /** What one reconciliation returns, whatever order the pool finishes in: each targeted assignment in plan order, an
      attempt with its own outcome where it was to be warmed. */
  lemma ReconcileReportsExactly(plan: seq<Assignment>, force: Option<string>, order: seq<nat>, fails: set<Pair>,
                                loaded: set<Pair>, last: map<string, Record>)
    requires DistinctWorkers(plan) && CompletionOrder(order, |Pending(plan, force)|)
    ensures var r := Reconciliation(plan, force, order, fails, loaded, last);
      if force.Some? && forall a :: a in plan ==> a.worker != force.value
      then r.records == [WorkerUnknown(force.value)] && r.lastResults == last
      else r.records == RecordsOf(plan, force, fails, loaded)
  {
    if force.Some? && Knows(plan, force.value) {
      var i :| 0 <= i < |plan| && plan[i].worker == force.value;
      assert plan[i] in plan;
    }
    if a :| a in plan && force.Some? && a.worker == force.value {
      var i :| 0 <= i < |plan| && plan[i] == a;
      assert Knows(plan, force.value);
    }
    var pending := Pending(plan, force);
    var outcomes := Sweep(pending, order, fails, loaded).outcomes;
    PendingMeaning(plan, force);
    SweepIsIndependent(pending, order, fails, loaded);
    forall a | a in plan && Targeted(force, a)
      ensures RecordOf(a, fails, loaded)
           == if a.worker in ByWorker(pending, outcomes) then ByWorker(pending, outcomes)[a.worker] else Planned(a)
    {
      TargetedRecord(plan, force, order, fails, loaded, a);
    }
    ReportReads(plan, force, ByWorker(pending, outcomes), fails, loaded);
  }

  lemma PendingRecord(pending: seq<Assignment>, order: seq<nat>, fails: set<Pair>, loaded: set<Pair>, i: nat)
    requires DistinctWorkers(pending) && CompletionOrder(order, |pending|) && i < |pending|
    ensures var warmed := ByWorker(pending, Sweep(pending, order, fails, loaded).outcomes);
      && pending[i].worker in warmed
      && warmed[pending[i].worker] == Attempted(pending[i], TaskOutcome(pending[i], fails, loaded))
  {
    SweepIsIndependent(pending, order, fails, loaded);
    assert i in order;
    ByWorkerMeaning(pending, Sweep(pending, order, fails, loaded).outcomes, i);
  }

  lemma AttemptIs(a: Assignment, fails: set<Pair>, loaded: set<Pair>)
    requires a.code == ReadyToWarm
    ensures RecordOf(a, fails, loaded) == Attempted(a, TaskOutcome(a, fails, loaded))
  {
  }

  lemma TargetedRecord(plan: seq<Assignment>, force: Option<string>, order: seq<nat>, fails: set<Pair>,
                       loaded: set<Pair>, a: Assignment)
    requires DistinctWorkers(plan) && CompletionOrder(order, |Pending(plan, force)|)
    requires a in plan && Targeted(force, a)
    ensures var warmed := ByWorker(Pending(plan, force), Sweep(Pending(plan, force), order, fails, loaded).outcomes);
      RecordOf(a, fails, loaded) == if a.worker in warmed then warmed[a.worker] else Planned(a)
  {
    var pending := Pending(plan, force);
    var outcomes := Sweep(pending, order, fails, loaded).outcomes;
    PendingMeaning(plan, force);
    ByWorkerKeys(pending, outcomes, a.worker);
    if a.code == ReadyToWarm {
      var i :| 0 <= i < |pending| && pending[i] == a;
      PendingRecord(pending, order, fails, loaded, i);
      AttemptIs(a, fails, loaded);
    } else if b :| b in pending && b.worker == a.worker {
      OneOfWorker(plan, a, b);
    }
  }

  /** What it remembers: each attempt under its worker, and everything else as before. */
  lemma ReconcileRemembersExactly(plan: seq<Assignment>, force: Option<string>, order: seq<nat>, fails: set<Pair>,
                                  loaded: set<Pair>, last: map<string, Record>, worker: string)
    requires DistinctWorkers(plan) && CompletionOrder(order, |Pending(plan, force)|)
    ensures var r := Reconciliation(plan, force, order, fails, loaded, last);
      && (force.None? || worker == force.value ==>
            forall a :: a in plan && a.code == ReadyToWarm && a.worker == worker ==>
              worker in r.lastResults && r.lastResults[worker] == RecordOf(a, fails, loaded))
      && ((forall a :: a in plan && a.code == ReadyToWarm && a.worker == worker ==>
             force.Some? && worker != force.value) ==>
            if worker in last then worker in r.lastResults && r.lastResults[worker] == last[worker]
            else worker !in r.lastResults)
  {
    forall a | a in plan && a.code == ReadyToWarm && a.worker == worker && (force.None? || worker == force.value)
      ensures worker in Reconciliation(plan, force, order, fails, loaded, last).lastResults
      ensures Reconciliation(plan, force, order, fails, loaded, last).lastResults[worker] == RecordOf(a, fails, loaded)
    {
      RemembersAttempt(plan, force, order, fails, loaded, last, a);
    }
    if forall a :: a in plan && a.code == ReadyToWarm && a.worker == worker ==> force.Some? && worker != force.value {
      RemembersOthers(plan, force, order, fails, loaded, last, worker);
    }
  }

  lemma RemembersAttempt(plan: seq<Assignment>, force: Option<string>, order: seq<nat>, fails: set<Pair>,
                         loaded: set<Pair>, last: map<string, Record>, a: Assignment)
    requires DistinctWorkers(plan) && CompletionOrder(order, |Pending(plan, force)|)
    requires a in plan && a.code == ReadyToWarm && Targeted(force, a)
    ensures var r := Reconciliation(plan, force, order, fails, loaded, last);
      a.worker in r.lastResults && r.lastResults[a.worker] == RecordOf(a, fails, loaded)
  {
    var pending := Pending(plan, force);
    PendingMeaning(plan, force);
    ByWorkerKeys(pending, Sweep(pending, order, fails, loaded).outcomes, a.worker);
    assert a in pending;
    TargetedRecord(plan, force, order, fails, loaded, a);
    var i :| 0 <= i < |plan| && plan[i] == a;
    assert force.Some? ==> Knows(plan, force.value);
  }

  lemma RemembersOthers(plan: seq<Assignment>, force: Option<string>, order: seq<nat>, fails: set<Pair>,
                        loaded: set<Pair>, last: map<string, Record>, worker: string)
    requires CompletionOrder(order, |Pending(plan, force)|)
    requires forall a :: a in plan && a.code == ReadyToWarm && a.worker == worker ==> !Targeted(force, a)
    ensures var r := Reconciliation(plan, force, order, fails, loaded, last);
      if worker in last then worker in r.lastResults && r.lastResults[worker] == last[worker]
      else worker !in r.lastResults
  {
    var pending := Pending(plan, force);
    PendingMeaning(plan, force);
    ByWorkerKeys(pending, Sweep(pending, order, fails, loaded).outcomes, worker);
  }

  ghost predicate AscendingWorkers(plan: seq<Assignment>) {
    forall i, j :: 0 <= i < j < |plan| ==> StrLe(plan[i].worker, plan[j].worker)
  }

  lemma AscendingAppend(plan: seq<Assignment>, a: Assignment)
    requires AscendingWorkers(plan) && forall x :: x in plan ==> StrLe(x.worker, a.worker)
    ensures AscendingWorkers(plan + [a])
  {
  }

  lemma PlannedUnderId(policy: Policy, w: Worker)
    ensures PlanWorker(policy, w).worker == w.id
  {
  }

  lemma {:induction false} PlanRowsInOrder(policy: Policy, rows: seq<Worker>)
    requires SortedBy(IdLe, rows)
    ensures AscendingWorkers(PlanRows(policy, rows))
  {
    if |rows| > 0 {
      var init, last := rows[..|rows| - 1], rows[|rows| - 1];
      PlanRowsInOrder(policy, init);
      PlannedUnderId(policy, last);
      forall a | a in PlanRows(policy, init) ensures StrLe(a.worker, last.id) {
        EarlierId(policy, rows, a);
      }
      AscendingAppend(PlanRows(policy, init), PlanWorker(policy, last));
    }
  }

  lemma EarlierId(policy: Policy, rows: seq<Worker>, a: Assignment)
    requires |rows| > 0 && SortedBy(IdLe, rows) && a in PlanRows(policy, rows[..|rows| - 1])
    ensures StrLe(a.worker, rows[|rows| - 1].id)
  {
    var init := rows[..|rows| - 1];
    PlanRowsOrigin(policy, init, a);
    var w :| w in init && Plannable(w) && a == PlanWorker(policy, w);
    PlannedUnderId(policy, w);
    var k :| 0 <= k < |init| && init[k] == w;
    assert IdLe(rows[k], rows[|rows| - 1]);
  }

  /** The plan is in ascending order of worker id. */
  lemma PlanInOrder(policy: Policy, status: seq<Worker>)
    ensures AscendingWorkers(PlanOf(policy, status))
  {
    StrOrder();
    SortSorted(IdLe, status);
    PlanRowsInOrder(policy, Sort(IdLe, status));
  }

  lemma OneOfWorker(plan: seq<Assignment>, a: Assignment, b: Assignment)
    requires DistinctWorkers(plan) && a in plan && b in plan && a.worker == b.worker
    ensures a == b
  {
    var i :| 0 <= i < |plan| && plan[i] == a;
    var j :| 0 <= j < |plan| && plan[j] == b;
    assert i == j;
  }
}
