/** Experiment residency: who may warm which model, who owns the weights afterwards,
    and what teardown gives back. */
module Residency {
  import opened Orders
  import opened MncsExec

  /** (worker id, model name) */
  type Pair = (string, string)

  datatype Model = Model(name: string, provider: string, size: Option<int>, loaded: bool)

  /** One row of a fleet status snapshot; `freshness` is None when the observation carries no timestamp. */
  datatype Worker = Worker(
    id: string, local: bool, available: bool, inventoryCurrent: bool, freshness: Option<bool>,
    total: Option<int>, free: Option<int>, inventory: seq<Model>)

  /** `numerator / denominator` is the configured memory fraction. */
  datatype Policy = Policy(
    enabled: bool, maxPinned: nat, numerator: nat, denominator: nat, rejectConflicting: bool,
    explicit: map<string, Option<string>>, rolePreference: seq<string>, roleModels: map<string, string>)

  datatype Code =
    | WorkerUnavailable | ObservationStale | InventoryNotCurrent | ModelNotInstalled | ProviderUnsupported
    | ResourcePolicyRejected | ConflictingLoadedModels | InventoryRefreshFailed | WarmFailed | Reused | Warmed

  /** One record of `prepare_experiment`; only passing records can be managed. */
  datatype Lease =
    | Lease(worker: string, model: string, code: Code, managed: bool, size: int)
    | PinLimitExceeded(worker: string, models: seq<string>)

  datatype Prepared = ValueError | Returned(leases: seq<Lease>)

  predicate Passing(lease: Lease) {
    lease.Lease? && (lease.code == Reused || lease.code == Warmed)
  }

  // ---------------------------------------------------------------- admission

  function FindModel(inventory: seq<Model>, name: string): (r: Option<Model>)
    ensures r.Some? ==> r.value in inventory && r.value.name == name
    ensures r.None? <==> forall m :: m in inventory ==> m.name != name
  {
    if |inventory| == 0 then None
    else if inventory[0].name == name then Some(inventory[0])
    else
      assert inventory == [inventory[0]] + inventory[1..];
      FindModel(inventory[1..], name)
  }

  /** The row a dictionary keyed by worker id keeps: the last one. */
  function LastWorker(workers: seq<Worker>, id: string): (r: Option<Worker>)
    ensures r.Some? ==> r.value in workers && r.value.id == id
  {
    if |workers| == 0 then None
    else if workers[|workers| - 1].id == id then Some(workers[|workers| - 1])
    else LastWorker(workers[..|workers| - 1], id)
  }

  /** floor(total * fraction) */
  function Budget(policy: Policy, total: int): int {
    if policy.denominator == 0 then 0 else total * policy.numerator / policy.denominator
  }

  predicate FactsComplete(w: Worker, m: Model, requireAvailable: bool) {
    && w.total.Some? && w.total.value > 0 && m.size.Some? && m.size.value > 0
    && (requireAvailable ==> w.free.Some? && w.free.value > 0)
  }

  function ResourceDecision(policy: Policy, w: Worker, m: Model, requireAvailable: bool): ResourceVerdict {
    var hasAvailable := w.free.Some? && w.free.value > 0;
    ResourceGate(FactsComplete(w, m, requireAvailable),
                 if m.size.Some? then m.size.value else 0,
                 if w.total.Some? then Budget(policy, w.total.value) else 0,
                 hasAvailable,
                 if hasAvailable then w.free.value else 0)
  }

  predicate HasConflicts(inventory: seq<Model>, name: string) {
    exists i :: 0 <= i < |inventory| && inventory[i].loaded && inventory[i].name != "" && inventory[i].name != name
  }

  /** Why the pair may not be warmed, in the order the checks are made. */
  function Refusal(policy: Policy, workers: seq<Worker>, p: Pair): Option<Code> {
    var found := LastWorker(workers, p.0);
    if found.None? || !found.value.available then Some(WorkerUnavailable)
    else
      var w := found.value;
      var m := FindModel(w.inventory, p.1);
      if w.freshness == Some(false) then Some(ObservationStale)
      else if !w.inventoryCurrent then Some(InventoryNotCurrent)
      else if m.None? then Some(ModelNotInstalled)
      else if m.value.provider != "ollama" then Some(ProviderUnsupported)
      else if ResourceDecision(policy, w, m.value, true) != RESOURCE_OK then Some(ResourcePolicyRejected)
      else if !ResidencyAdmit(HasConflicts(w.inventory, p.1), policy.rejectConflicting, m.value.loaded)
          then Some(ConflictingLoadedModels)
      else None
  }

  // ---------------------------------------------------------------- the fleet

  /** The providers of the fleet: which models are loaded where. `fails` lists the operations that
      raise; a raising operation changes nothing. */
  class Fleet {
    var loaded: set<Pair>

    constructor (loaded: set<Pair>)
      ensures this.loaded == loaded
    {
      this.loaded := loaded;
    }

    /** Some(preexisting) on success. */
    method Warm(p: Pair, fails: set<Pair>) returns (r: Option<bool>)
      modifies this
      ensures p in fails ==> r.None? && loaded == old(loaded)
      ensures p !in fails ==> r == Some(p in old(loaded)) && loaded == old(loaded) + {p}
    {
      if p in fails { return None; }
      r := Some(p in loaded);
      loaded := loaded + {p};
    }

    method Release(p: Pair, fails: set<Pair>) returns (r: Option<bool>)
      modifies this
      ensures p in fails ==> r.None? && loaded == old(loaded)
      ensures p !in fails ==> r == Some(p in old(loaded)) && loaded == old(loaded) - {p}
    {
      if p in fails { return None; }
      r := Some(p in loaded);
      loaded := loaded - {p};
    }
  }

  // ---------------------------------------------------------------- preparation

  function Managed(leases: seq<Lease>): set<Pair> {
    set l | l in leases && l.Lease? && l.managed :: (l.worker, l.model)
  }

  /** The prior dictionary keeps the last lease of each pair. */
  predicate PriorManaged(prior: seq<Lease>, p: Pair) {
    if |prior| == 0 then false
    else
      var last := prior[|prior| - 1];
      if last.Lease? && (last.worker, last.model) == p then last.managed
      else PriorManaged(prior[..|prior| - 1], p)
  }

  predicate ValidIdentity(id: string) {
    id != "" && |id| <= 256 && forall i :: 0 <= i < |id| ==> id[i] >= ' '
  }

  predicate ValidAssignments(assignments: seq<Pair>) {
    forall i :: 0 <= i < |assignments| ==> assignments[i].0 != "" && assignments[i].1 != ""
  }

  function Requested(assignments: seq<Pair>): seq<Pair> {
    SortedSet(PairLe, assignments)
  }

  lemma RequestedMeaning(assignments: seq<Pair>)
    ensures Distinct(Requested(assignments)) && SameElements(Requested(assignments), assignments)
  {
    PairOrder();
    SortedSetMeaning(PairLe, assignments);
  }

  function ModelsFor(assignments: seq<Pair>, worker: string): set<string> {
    set p | p in assignments && p.0 == worker :: p.1
  }

  predicate Overflows(policy: Policy, assignments: seq<Pair>, worker: string) {
    |ModelsFor(assignments, worker)| > policy.maxPinned
  }

  predicate AnyOverflow(policy: Policy, assignments: seq<Pair>) {
    exists p :: p in assignments && Overflows(policy, assignments, p.0)
  }

  predicate Passes(policy: Policy, workers: seq<Worker>, fails: set<Pair>, p: Pair) {
    Refusal(policy, workers, p).None? && p !in fails
  }

  function RequestedSize(workers: seq<Worker>, p: Pair): int {
    var w := LastWorker(workers, p.0);
    if w.None? then 0
    else
      var m := FindModel(w.value.inventory, p.1);
      if m.Some? && m.value.size.Some? then m.value.size.value else 0
  }

  /** The record of one pair when `loaded` was the fleet before the call. */
  function LeaseFor(policy: Policy, workers: seq<Worker>, prior: seq<Lease>, fails: set<Pair>, loaded: set<Pair>,
      p: Pair): Lease
  {
    var refusal := Refusal(policy, workers, p);
    var size := RequestedSize(workers, p);
    if refusal.Some? then Lease(p.0, p.1, refusal.value, false, size)
    else if p in fails then Lease(p.0, p.1, WarmFailed, false, size)
    else Lease(p.0, p.1, if p in loaded then Reused else Warmed, PriorManaged(prior, p) || p !in loaded, size)
  }

  function LeasesFor(policy: Policy, workers: seq<Worker>, prior: seq<Lease>, fails: set<Pair>, loaded: set<Pair>,
      pairs: seq<Pair>): (r: seq<Lease>)
    ensures |r| == |pairs|
    ensures forall i :: 0 <= i < |r| ==> r[i] == LeaseFor(policy, workers, prior, fails, loaded, pairs[i])
  {
    seq(|pairs|, i requires 0 <= i < |pairs| => LeaseFor(policy, workers, prior, fails, loaded, pairs[i]))
  }

  function PassingPairs(policy: Policy, workers: seq<Worker>, fails: set<Pair>, pairs: seq<Pair>): set<Pair> {
    set p | p in pairs && Passes(policy, workers, fails, p)
  }

  function OverflowLeases(policy: Policy, assignments: seq<Pair>, workers: seq<string>): seq<Lease> {
    if |workers| == 0 then []
    else if Overflows(policy, assignments, workers[0]) then
      [PinLimitExceeded(workers[0], SortedModels(assignments, workers[0]))]
        + OverflowLeases(policy, assignments, workers[1..])
    else OverflowLeases(policy, assignments, workers[1..])
  }

  function ModelList(assignments: seq<Pair>, worker: string): seq<string> {
    if |assignments| == 0 then []
    else (if assignments[0].0 == worker then [assignments[0].1] else []) + ModelList(assignments[1..], worker)
  }

  function SortedModels(assignments: seq<Pair>, worker: string): seq<string> {
    SortedSet(StrLe, ModelList(assignments, worker))
  }

  function WorkerNames(pairs: seq<Pair>): seq<string> {
    seq(|pairs|, i requires 0 <= i < |pairs| => pairs[i].0)
  }

  function SortedWorkers(assignments: seq<Pair>): seq<string> {
    SortedSet(StrLe, WorkerNames(assignments))
  }

  function RefreshFailures(pairs: seq<Pair>): seq<Lease> {
    seq(|pairs|, i requires 0 <= i < |pairs| => Lease(pairs[i].0, pairs[i].1, InventoryRefreshFailed, false, 0))
  }

  /** One `prepare_experiment` call: its arguments, the snapshot it obtains (None when the refresh
      raises) and the warms that fail. */
  datatype Call = Call(id: string, assignments: seq<Pair>, snapshot: Option<seq<Worker>>, fails: set<Pair>)

  predicate Warming(policy: Policy, c: Call) {
    && ValidIdentity(c.id) && ValidAssignments(c.assignments)
    && !AnyOverflow(policy, c.assignments) && c.snapshot.Some?
  }

  function PrepareResult(policy: Policy, c: Call, prior: seq<Lease>, loaded: set<Pair>): Prepared {
    if !ValidIdentity(c.id) || !ValidAssignments(c.assignments) then ValueError
    else if AnyOverflow(policy, c.assignments) then
      Returned(OverflowLeases(policy, c.assignments, SortedWorkers(c.assignments)))
    else if c.snapshot.None? then Returned(RefreshFailures(Requested(c.assignments)))
    else Returned(LeasesFor(policy, c.snapshot.value, prior, c.fails, loaded, Requested(c.assignments)))
  }

  /** The pairs loaded once the call returns. */
  function PrepareLoads(policy: Policy, c: Call, loaded: set<Pair>): set<Pair> {
    if Warming(policy, c)
    then loaded + PassingPairs(policy, c.snapshot.value, c.fails, Requested(c.assignments))
    else loaded
  }

  /** The pairs left loaded by releasing the leases when the releases in `fails` raise. */
  function ReleaseLoads(leases: seq<Lease>, fails: set<Pair>, loaded: set<Pair>): set<Pair> {
    loaded - (Managed(leases) - fails)
  }

  datatype ReleaseCode = LeftPreexisting | Released | AlreadyReleased | ReleaseFailed

  /** What is reported of one lease when `loaded` is the fleet its release meets. */
  function ReleaseCodeOf(lease: Lease, fails: set<Pair>, loaded: set<Pair>): ReleaseCode {
    if !(lease.Lease? && lease.managed) then LeftPreexisting
    else if (lease.worker, lease.model) in fails then ReleaseFailed
    else if (lease.worker, lease.model) in loaded then Released
    else AlreadyReleased
  }

  class ResidencyManager {
    const policy: Policy
    const fleet: Fleet

    constructor (policy: Policy, fleet: Fleet)
      ensures this.policy == policy && this.fleet == fleet
    {
      this.policy := policy;
      this.fleet := fleet;
    }

    method PrepareExperiment(c: Call, prior: seq<Lease>) returns (r: Prepared)
      modifies fleet
      ensures r == PrepareResult(policy, c, prior, old(fleet.loaded))
      ensures fleet.loaded == PrepareLoads(policy, c, old(fleet.loaded))
    {
      if !ValidIdentity(c.id) || !ValidAssignments(c.assignments) { return ValueError; }
      if AnyOverflow(policy, c.assignments) {
        return Returned(OverflowLeases(policy, c.assignments, SortedWorkers(c.assignments)));
      }
      var requested := Requested(c.assignments);
      if c.snapshot.None? { return Returned(RefreshFailures(requested)); }
      RequestedMeaning(c.assignments);
      var leases := WarmRequested(c.snapshot.value, requested, prior, c.fails);
      return Returned(leases);
    }

    /** The loop over the sorted requests. */
    method WarmRequested(workers: seq<Worker>, requested: seq<Pair>, prior: seq<Lease>, fails: set<Pair>)
        returns (results: seq<Lease>)
      requires Distinct(requested)
      modifies fleet
      ensures results == LeasesFor(policy, workers, prior, fails, old(fleet.loaded), requested)
      ensures fleet.loaded == old(fleet.loaded) + PassingPairs(policy, workers, fails, requested)
    {
      results := [];
      for i := 0 to |requested|
        invariant results == LeasesFor(policy, workers, prior, fails, old(fleet.loaded), requested)[..i]
        invariant fleet.loaded == old(fleet.loaded) + PassingPairs(policy, workers, fails, requested[..i])
      {
        var p := requested[i];
        assert requested[..i + 1] == requested[..i] + [p];
        assert p !in requested[..i];
        ghost var expected := LeasesFor(policy, workers, prior, fails, old(fleet.loaded), requested);
        assert expected[..i + 1] == expected[..i] + [LeaseFor(policy, workers, prior, fails, old(fleet.loaded), p)];
        var size := RequestedSize(workers, p);
        var refusal := Refusal(policy, workers, p);
        if refusal.Some? {
          results := results + [Lease(p.0, p.1, refusal.value, false, size)];
          continue;
        }
        var evidence := fleet.Warm(p, fails);
        if evidence.None? {
          results := results + [Lease(p.0, p.1, WarmFailed, false, size)];
          continue;
        }
        var preexisting := evidence.value;
        var managed := PriorManaged(prior, p) || !preexisting;
        results := results + [Lease(p.0, p.1, if preexisting then Reused else Warmed, managed, size)];
      }
      assert requested[..|requested|] == requested;
    }

    method ReleaseExperiment(leases: seq<Lease>, fails: set<Pair>) returns (results: seq<ReleaseCode>)
      modifies fleet
      ensures fleet.loaded == ReleaseLoads(leases, fails, old(fleet.loaded))
      ensures |results| == |leases|
      ensures forall i :: 0 <= i < |leases| ==>
                results[i] == ReleaseCodeOf(leases[i], fails, ReleaseLoads(leases[..i], fails, old(fleet.loaded)))
    {
      results := [];
      for i := 0 to |leases|
        invariant fleet.loaded == ReleaseLoads(leases[..i], fails, old(fleet.loaded))
        invariant |results| == i
        invariant forall k :: 0 <= k < i ==>
                    results[k] == ReleaseCodeOf(leases[k], fails, ReleaseLoads(leases[..k], fails, old(fleet.loaded)))
      {
        var lease := leases[i];
        assert leases[..i + 1] == leases[..i] + [lease];
        ManagedStep(leases[..i], lease);
        if !(lease.Lease? && lease.managed) {
          results := results + [LeftPreexisting];
          continue;
        }
        var evidence := fleet.Release((lease.worker, lease.model), fails);
        results := results
          + [if evidence.None? then ReleaseFailed else if evidence.value then Released else AlreadyReleased];
      }
      assert leases[..|leases|] == leases;
    }
  }

  lemma ManagedStep(leases: seq<Lease>, lease: Lease)
    ensures Managed(leases + [lease])
         == Managed(leases) + (if lease.Lease? && lease.managed then {(lease.worker, lease.model)} else {})
  {
    assert lease in leases + [lease];
    forall l | l in leases ensures l in leases + [lease] {}
  }

  // ---------------------------------------------------------------- restoration

  lemma {:induction false} PriorManagedMeaning(prior: seq<Lease>, p: Pair)
    requires forall i, j :: 0 <= i < j < |prior| && prior[i].Lease? && prior[j].Lease? ==>
               (prior[i].worker, prior[i].model) != (prior[j].worker, prior[j].model)
    ensures PriorManaged(prior, p) <==> p in Managed(prior)
  {
    if |prior| > 0 {
      var init, last := prior[..|prior| - 1], prior[|prior| - 1];
      PriorManagedMeaning(init, p);
      assert Managed(prior)
          == Managed(init) + (if last.Lease? && last.managed then {(last.worker, last.model)} else {}) by {
        ManagedStep(init, last);
        assert prior == init + [last];
      }
      if last.Lease? && (last.worker, last.model) == p {
        forall l | l in init && l.Lease? ensures (l.worker, l.model) != p {
          var i :| 0 <= i < |init| && init[i] == l;
          assert prior[i] == l;
        }
      }
    }
  }

  /** No pair appears in two lease records. */
  ghost predicate OnePerPair(leases: seq<Lease>) {
    forall i, j :: 0 <= i < j < |leases| && leases[i].Lease? && leases[j].Lease? ==>
      (leases[i].worker, leases[i].model) != (leases[j].worker, leases[j].model)
  }

  lemma LeasesOfPairs(policy: Policy, workers: seq<Worker>, prior: seq<Lease>, fails: set<Pair>, loaded: set<Pair>,
      pairs: seq<Pair>)
    requires Distinct(pairs)
    ensures var leases := LeasesFor(policy, workers, prior, fails, loaded, pairs);
      && OnePerPair(leases)
      && forall l :: l in leases <==>
           exists p :: p in pairs && l == LeaseFor(policy, workers, prior, fails, loaded, p)
  {
    var leases := LeasesFor(policy, workers, prior, fails, loaded, pairs);
    forall l
      ensures l in leases <==> exists p :: p in pairs && l == LeaseFor(policy, workers, prior, fails, loaded, p)
    {
      if l in leases {
        var i :| 0 <= i < |leases| && leases[i] == l;
        assert pairs[i] in pairs;
      }
      if p :| p in pairs && l == LeaseFor(policy, workers, prior, fails, loaded, p) {
        var i :| 0 <= i < |pairs| && pairs[i] == p;
        assert leases[i] == l;
      }
    }
  }

  lemma LeaseForMeaning(policy: Policy, workers: seq<Worker>, prior: seq<Lease>, fails: set<Pair>, loaded: set<Pair>,
      p: Pair)
    ensures var l := LeaseFor(policy, workers, prior, fails, loaded, p);
      && l.Lease? && (l.worker, l.model) == p && l.size == RequestedSize(workers, p)
      && (Passing(l) <==> Passes(policy, workers, fails, p))
      && (Passing(l) ==> (l.code == Reused <==> p in loaded))
      && (l.managed <==> Passing(l) && (PriorManaged(prior, p) || p !in loaded))
  {
  }

  /** A record of a call that reached warming: for a requested pair, passing exactly where the pair
      was admitted and warmed, reused exactly where it was loaded before. */
  ghost predicate RecordMeans(policy: Policy, c: Call, loaded: set<Pair>, l: Lease)
    requires c.snapshot.Some?
  {
    && l.Lease? && (l.worker, l.model) in c.assignments
    && (Passing(l) <==> Passes(policy, c.snapshot.value, c.fails, (l.worker, l.model)))
    && (Passing(l) ==> (l.code == Reused <==> (l.worker, l.model) in loaded))
  }

  /** What `prepare_experiment` returns when it gets as far as warming: one record per distinct
      requested pair ... */
  lemma PreparedRecords(policy: Policy, c: Call, prior: seq<Lease>, loaded: set<Pair>)
    requires Warming(policy, c)
    ensures var leases := PrepareResult(policy, c, prior, loaded).leases;
      && OnePerPair(leases)
      && (forall l :: l in leases ==> RecordMeans(policy, c, loaded, l))
      && (forall p :: p in c.assignments ==> exists l :: l in leases && l.Lease? && (l.worker, l.model) == p)
  {
    var workers, pairs := c.snapshot.value, Requested(c.assignments);
    var leases := PrepareResult(policy, c, prior, loaded).leases;
    RequestedMeaning(c.assignments);
    LeasesOfPairs(policy, workers, prior, c.fails, loaded, pairs);
    forall p | p in c.assignments ensures exists l :: l in leases && l.Lease? && (l.worker, l.model) == p {
      LeaseForMeaning(policy, workers, prior, c.fails, loaded, p);
      assert LeaseFor(policy, workers, prior, c.fails, loaded, p) in leases;
    }
    forall l | l in leases ensures RecordMeans(policy, c, loaded, l) {
      var p :| p in pairs && l == LeaseFor(policy, workers, prior, c.fails, loaded, p);
      LeaseForMeaning(policy, workers, prior, c.fails, loaded, p);
    }
  }

  /** ... and managed exactly where the pair was absent before or already managed. */
  lemma PreparedManaged(policy: Policy, c: Call, prior: seq<Lease>, loaded: set<Pair>)
    requires Warming(policy, c) && OnePerPair(prior)
    ensures var leases := PrepareResult(policy, c, prior, loaded).leases;
      && OnePerPair(leases)
      && Managed(leases) == set p | p in PassingPairs(policy, c.snapshot.value, c.fails, Requested(c.assignments))
                                   && (p in Managed(prior) || p !in loaded)
  {
    var workers, pairs := c.snapshot.value, Requested(c.assignments);
    var leases := PrepareResult(policy, c, prior, loaded).leases;
    RequestedMeaning(c.assignments);
    LeasesOfPairs(policy, workers, prior, c.fails, loaded, pairs);
    var expected := set p | p in PassingPairs(policy, workers, c.fails, pairs) && (p in Managed(prior) || p !in loaded);
    forall p ensures p in Managed(leases) <==> p in expected {
      PriorManagedMeaning(prior, p);
      LeaseForMeaning(policy, workers, prior, c.fails, loaded, p);
      if p in Managed(leases) {
        var l :| l in leases && l.Lease? && l.managed && (l.worker, l.model) == p;
        var q :| q in pairs && l == LeaseFor(policy, workers, prior, c.fails, loaded, q);
        LeaseForMeaning(policy, workers, prior, c.fails, loaded, q);
      }
      if p in expected {
        assert LeaseFor(policy, workers, prior, c.fails, loaded, p) in leases;
      }
    }
  }

  /** Nothing managed comes out of a call that never reached a provider. */
  lemma {:induction false} OverflowLeasesUnmanaged(policy: Policy, assignments: seq<Pair>, workers: seq<string>)
    ensures Managed(OverflowLeases(policy, assignments, workers)) == {}
    ensures var leases := OverflowLeases(policy, assignments, workers);
      && (forall l :: l in leases ==> l.PinLimitExceeded?)
      && (forall i :: 0 <= i < |leases| ==> leases[i].PinLimitExceeded?)
  {
    if |workers| > 0 { OverflowLeasesUnmanaged(policy, assignments, workers[1..]); }
  }

  lemma RefreshFailuresUnmanaged(pairs: seq<Pair>)
    requires Distinct(pairs)
    ensures Managed(RefreshFailures(pairs)) == {} && OnePerPair(RefreshFailures(pairs))
  {
    var leases := RefreshFailures(pairs);
    forall l | l in leases ensures l.Lease? && !l.managed {
      var i :| 0 <= i < |leases| && leases[i] == l;
    }
  }

  /** Every valid call without pin overflow returns exactly one record per distinct requested pair; when the refresh
      raises, each of them says so. */
  lemma OneRecordPerPair(policy: Policy, c: Call, prior: seq<Lease>, loaded: set<Pair>)
    requires ValidIdentity(c.id) && ValidAssignments(c.assignments) && !AnyOverflow(policy, c.assignments)
    ensures PrepareResult(policy, c, prior, loaded).Returned?
    ensures var leases := PrepareResult(policy, c, prior, loaded).leases;
      && OnePerPair(leases)
      && (forall l :: l in leases ==> l.Lease? && (l.worker, l.model) in c.assignments)
      && (forall p :: p in c.assignments ==> exists l :: l in leases && l.Lease? && (l.worker, l.model) == p)
      && (c.snapshot.None? ==>
            forall l :: l in leases ==> l == Lease(l.worker, l.model, InventoryRefreshFailed, false, 0))
  {
    if c.snapshot.Some? {
      PreparedRecords(policy, c, prior, loaded);
      var leases := PrepareResult(policy, c, prior, loaded).leases;
      forall l | l in leases ensures l.Lease? && (l.worker, l.model) in c.assignments {
        assert RecordMeans(policy, c, loaded, l);
      }
    } else {
      RequestedMeaning(c.assignments);
      RefreshFailureRecords(Requested(c.assignments));
    }
  }

  lemma RefreshFailureRecords(pairs: seq<Pair>)
    requires Distinct(pairs)
    ensures var leases := RefreshFailures(pairs);
      && OnePerPair(leases)
      && (forall l :: l in leases ==>
            l == Lease(l.worker, l.model, InventoryRefreshFailed, false, 0) && (l.worker, l.model) in pairs)
      && (forall p :: p in pairs ==> exists l :: l in leases && l.Lease? && (l.worker, l.model) == p)
  {
    var leases := RefreshFailures(pairs);
    forall i | 0 <= i < |leases| ensures (leases[i].worker, leases[i].model) == pairs[i] {}
    forall p | p in pairs ensures exists l :: l in leases && l.Lease? && (l.worker, l.model) == p {
      var i :| 0 <= i < |pairs| && pairs[i] == p;
      assert leases[i] in leases;
    }
    forall l | l in leases
      ensures l.Lease? && (l.worker, l.model) in pairs && l.code == InventoryRefreshFailed && !l.managed
    {
      var i :| 0 <= i < |leases| && leases[i] == l;
      assert pairs[i] in pairs;
    }
  }

  lemma NotWarmingUnmanaged(policy: Policy, c: Call, prior: seq<Lease>, loaded: set<Pair>)
    requires !Warming(policy, c) && PrepareResult(policy, c, prior, loaded).Returned?
    ensures var leases := PrepareResult(policy, c, prior, loaded).leases;
            Managed(leases) == {} && OnePerPair(leases)
  {
    if AnyOverflow(policy, c.assignments) {
      OverflowLeasesUnmanaged(policy, c.assignments, SortedWorkers(c.assignments));
    } else {
      RequestedMeaning(c.assignments);
      RefreshFailuresUnmanaged(Requested(c.assignments));
    }
  }

  /** An experiment: successive preparations, each fed the previous results as prior leases. */
  datatype Experiment = Experiment(loaded: set<Pair>, leases: seq<Lease>)

  function Round(policy: Policy, e: Experiment, c: Call): Experiment {
    var r := PrepareResult(policy, c, e.leases, e.loaded);
    if r.ValueError? then e else Experiment(PrepareLoads(policy, c, e.loaded), r.leases)
  }

  function Rounds(policy: Policy, initial: set<Pair>, calls: seq<Call>): Experiment {
    if |calls| == 0 then Experiment(initial, [])
    else Round(policy, Rounds(policy, initial, calls[..|calls| - 1]), calls[|calls| - 1])
  }

  /** If the experiment manages the pair, the call is rejected outright or admits and warms it again. */
  predicate KeepsPair(policy: Policy, e: Experiment, c: Call, p: Pair) {
    p in Managed(e.leases) ==>
      || PrepareResult(policy, c, e.leases, e.loaded).ValueError?
      || (Warming(policy, c) && p in PassingPairs(policy, c.snapshot.value, c.fails, Requested(c.assignments)))
  }

  /** No round dropped the pair while the experiment managed it. */
  predicate NeverDropped(policy: Policy, initial: set<Pair>, calls: seq<Call>, p: Pair) {
    |calls| > 0 ==>
      && NeverDropped(policy, initial, calls[..|calls| - 1], p)
      && KeepsPair(policy, Rounds(policy, initial, calls[..|calls| - 1]), calls[|calls| - 1], p)
  }

  /** What every round keeps: nothing initial is lost or managed. */
  ghost predicate Owns(initial: set<Pair>, e: Experiment) {
    initial <= e.loaded && Managed(e.leases) <= e.loaded - initial && OnePerPair(e.leases)
  }

  /** A pair the experiment brought in is managed exactly as long as no round dropped it, and one that is not
      loaded was never dropped. */
  ghost predicate Accounts(e: Experiment, p: Pair, neverDropped: bool) {
    if p in e.loaded then p in Managed(e.leases) <==> neverDropped else neverDropped
  }

  lemma {:induction false} RoundsInvariant(policy: Policy, initial: set<Pair>, calls: seq<Call>)
    ensures var e := Rounds(policy, initial, calls);
      && Owns(initial, e)
      && forall p :: p !in initial ==> Accounts(e, p, NeverDropped(policy, initial, calls, p))
  {
    if |calls| > 0 {
      var before, c := calls[..|calls| - 1], calls[|calls| - 1];
      RoundsInvariant(policy, initial, before);
      var e := Rounds(policy, initial, before);
      RoundKeepsOwnership(policy, initial, e, c);
      forall p | p !in initial ensures Accounts(Round(policy, e, c), p, NeverDropped(policy, initial, calls, p)) {
        RoundAccounts(policy, initial, e, c, p, NeverDropped(policy, initial, before, p));
      }
    }
  }

  lemma RoundKeepsOwnership(policy: Policy, initial: set<Pair>, e: Experiment, c: Call)
    requires Owns(initial, e)
    ensures Owns(initial, Round(policy, e, c))
  {
    if PrepareResult(policy, c, e.leases, e.loaded).Returned? {
      if Warming(policy, c) {
        PreparedManaged(policy, c, e.leases, e.loaded);
      } else {
        NotWarmingUnmanaged(policy, c, e.leases, e.loaded);
      }
    }
  }

  lemma RoundAccounts(policy: Policy, initial: set<Pair>, e: Experiment, c: Call, p: Pair, neverDropped: bool)
    requires Owns(initial, e) && Accounts(e, p, neverDropped)
    ensures Accounts(Round(policy, e, c), p, neverDropped && KeepsPair(policy, e, c, p))
  {
    if PrepareResult(policy, c, e.leases, e.loaded).Returned? {
      if Warming(policy, c) {
        PreparedManaged(policy, c, e.leases, e.loaded);
      } else {
        NotWarmingUnmanaged(policy, c, e.leases, e.loaded);
      }
    }
  }

  /** Pair by pair: releasing the latest results leaves every initial pair loaded, and takes a pair that was not
      initial away exactly when no round dropped it, whatever became of the other assignments. */
  lemma ReleaseRestoresPair(policy: Policy, initial: set<Pair>, calls: seq<Call>, p: Pair)
    ensures var e := Rounds(policy, initial, calls);
      && (p in initial ==> p in ReleaseLoads(e.leases, {}, e.loaded))
      && (p !in initial ==> (p !in ReleaseLoads(e.leases, {}, e.loaded) <==> NeverDropped(policy, initial, calls, p)))
  {
    RoundsInvariant(policy, initial, calls);
    if p !in initial { assert Accounts(Rounds(policy, initial, calls), p, NeverDropped(policy, initial, calls, p)); }
  }

  /** Releasing the latest results gives every worker back exactly its initial models, whichever
      assignments failed, if and only if no round dropped a pair the experiment was managing. */
  lemma ReleaseRestoresExactly(policy: Policy, initial: set<Pair>, calls: seq<Call>)
    ensures var e := Rounds(policy, initial, calls);
      ReleaseLoads(e.leases, {}, e.loaded) == initial
      <==> forall p :: p !in initial ==> NeverDropped(policy, initial, calls, p)
  {
    var after := ReleaseLoads(Rounds(policy, initial, calls).leases, {}, Rounds(policy, initial, calls).loaded);
    forall p
      ensures p in initial ==> p in after
      ensures p !in initial ==> (p !in after <==> NeverDropped(policy, initial, calls, p))
    {
      ReleaseRestoresPair(policy, initial, calls, p);
    }
  }

  /** A first preparation is always undone by its release, whatever it warmed, failed or reused. */
  lemma SinglePreparationIsUndone(policy: Policy, initial: set<Pair>, c: Call)
    ensures var e := Rounds(policy, initial, [c]);
      ReleaseLoads(e.leases, {}, e.loaded) == initial
  {
    assert [c][..0] == [];
    assert Rounds(policy, initial, []) == Experiment(initial, []);
    forall p ensures NeverDropped(policy, initial, [c], p) {
      assert NeverDropped(policy, initial, [], p);
    }
    ReleaseRestoresExactly(policy, initial, [c]);
  }

  /** Even with failing releases nothing initial is ever lost, and repeating a release changes nothing more. */
  lemma ReleaseNeverTakesMoreAndRepeats(policy: Policy, initial: set<Pair>, calls: seq<Call>, fails: set<Pair>)
    ensures var e := Rounds(policy, initial, calls);
      && initial <= ReleaseLoads(e.leases, fails, e.loaded)
      && ReleaseLoads(e.leases, fails, ReleaseLoads(e.leases, fails, e.loaded))
        == ReleaseLoads(e.leases, fails, e.loaded)
      && ReleaseLoads(e.leases, {}, ReleaseLoads(e.leases, fails, e.loaded)) == ReleaseLoads(e.leases, {}, e.loaded)
  {
    RoundsInvariant(policy, initial, calls);
  }

  // ---------------------------------------------------------------- resource bounds

  /** Releasing the same leases again takes nothing: no lease is reported as released a second time. */
  lemma SecondReleaseReportsNothing(leases: seq<Lease>, fails: set<Pair>, loaded: set<Pair>, i: nat)
    requires i < |leases|
    ensures var after := ReleaseLoads(leases, fails, loaded);
      ReleaseCodeOf(leases[i], fails, ReleaseLoads(leases[..i], fails, after)) != Released
  {
    assert leases[i] in leases;
  }

  lemma SortedNamesMeaning(assignments: seq<Pair>, worker: string)
    ensures worker in SortedWorkers(assignments) <==> exists p :: p in assignments && p.0 == worker
  {
    var names := WorkerNames(assignments);
    StrOrder();
    SortedSetMeaning(StrLe, names);
    if worker in names {
      var i :| 0 <= i < |names| && names[i] == worker;
      assert assignments[i] in assignments;
    }
    if p :| p in assignments && p.0 == worker {
      var i :| 0 <= i < |assignments| && assignments[i] == p;
      assert names[i] == worker;
    }
  }

  /** The record of a worker asked for more distinct models than may be pinned, with these models in order. */
  ghost predicate ExceedsLimit(policy: Policy, assignments: seq<Pair>, l: Lease) {
    && l.PinLimitExceeded? && |l.models| > policy.maxPinned && Distinct(l.models)
    && (forall i, j :: 0 <= i < j < |l.models| ==> StrLe(l.models[i], l.models[j]))
    && forall model :: model in l.models <==> (l.worker, model) in assignments
  }

  ghost predicate AscendingLeases(leases: seq<Lease>) {
    forall i, j :: 0 <= i < j < |leases| ==>
      StrLe(leases[i].worker, leases[j].worker) && leases[i].worker != leases[j].worker
  }

  /** Any pin overflow means nothing is warmed, and the records are exactly those of the overflowing workers, each
      with its models, in ascending order. */
  lemma OverflowWarmsNothing(policy: Policy, c: Call, prior: seq<Lease>, loaded: set<Pair>)
    requires PrepareResult(policy, c, prior, loaded).Returned?
    requires exists worker, models :: RequestedOn(c.assignments, worker, models) && |models| > policy.maxPinned
    ensures PrepareLoads(policy, c, loaded) == loaded
    ensures var leases := PrepareResult(policy, c, prior, loaded).leases;
      && (forall l :: l in leases <==> ExceedsLimit(policy, c.assignments, l))
      && AscendingLeases(leases)
  {
    OverflowExactly(policy, c.assignments);
    var names := SortedWorkers(c.assignments);
    var leases := OverflowLeases(policy, c.assignments, names);
    StrOrder();
    SortedSetMeaning(StrLe, WorkerNames(c.assignments));
    OverflowLeasesInOrder(policy, c.assignments, names);
    assert PrepareResult(policy, c, prior, loaded).leases == leases;
    forall l ensures l in leases <==> ExceedsLimit(policy, c.assignments, l) {
      OverflowLeasesMembers(policy, c.assignments, names, l);
      SortedNamesMeaning(c.assignments, l.worker);
      ExceedsLimitExactly(policy, c.assignments, l);
    }
  }

  lemma ExceedsLimitExactly(policy: Policy, assignments: seq<Pair>, l: Lease)
    ensures ExceedsLimit(policy, assignments, l) <==>
      && l.PinLimitExceeded? && (exists p :: p in assignments && p.0 == l.worker)
      && Overflows(policy, assignments, l.worker) && l.models == SortedModels(assignments, l.worker)
  {
    if l.PinLimitExceeded? {
      var models := SortedModels(assignments, l.worker);
      StrOrder();
      SortedSetMeaning(StrLe, ModelList(assignments, l.worker));
      forall model ensures model in models <==> (l.worker, model) in assignments {
        ModelListMeaning(assignments, l.worker, model);
      }
      forall model ensures model in ModelsFor(assignments, l.worker) <==> model in models {
        assert (l.worker, model) in assignments ==> (l.worker, model).1 in ModelsFor(assignments, l.worker);
      }
      DistinctCount(models, ModelsFor(assignments, l.worker));
      if ExceedsLimit(policy, assignments, l) {
        StrictlySortedUnique(StrLe, l.models, models);
        assert (l.worker, l.models[0]) in assignments;
      }
    }
  }

  lemma {:induction false} ModelListMeaning(assignments: seq<Pair>, worker: string, model: string)
    ensures model in ModelList(assignments, worker) <==> (worker, model) in assignments
  {
    if |assignments| > 0 {
      ModelListMeaning(assignments[1..], worker, model);
      assert assignments == [assignments[0]] + assignments[1..];
    }
  }

  lemma {:induction false} DistinctCount(xs: seq<string>, elements: set<string>)
    requires Distinct(xs) && forall x :: x in elements <==> x in xs
    ensures |xs| == |elements|
  {
    if |xs| == 0 {
      assert elements == {};
    } else {
      assert xs[0] in elements && xs == [xs[0]] + xs[1..];
      DistinctCount(xs[1..], elements - {xs[0]});
    }
  }

  lemma {:induction false} OverflowLeasesMembers(policy: Policy, assignments: seq<Pair>, workers: seq<string>, l: Lease)
    ensures l in OverflowLeases(policy, assignments, workers) <==>
      && l.PinLimitExceeded? && l.worker in workers
      && Overflows(policy, assignments, l.worker) && l.models == SortedModels(assignments, l.worker)
  {
    if |workers| > 0 {
      OverflowLeasesMembers(policy, assignments, workers[1..], l);
      assert workers == [workers[0]] + workers[1..];
      if Overflows(policy, assignments, workers[0]) {
        var first := PinLimitExceeded(workers[0], SortedModels(assignments, workers[0]));
        assert OverflowLeases(policy, assignments, workers)
            == [first] + OverflowLeases(policy, assignments, workers[1..]);
      }
    }
  }

  lemma AscendingPrepend(first: Lease, rest: seq<Lease>)
    requires AscendingLeases(rest)
    requires forall l :: l in rest ==> StrLe(first.worker, l.worker) && first.worker != l.worker
    ensures AscendingLeases([first] + rest)
  {
    var leases := [first] + rest;
    forall i, j | 0 <= i < j < |leases|
      ensures StrLe(leases[i].worker, leases[j].worker) && leases[i].worker != leases[j].worker
    {
      assert leases[j] == rest[j - 1] && leases[j] in rest;
      assert i > 0 ==> leases[i] == rest[i - 1];
    }
  }

  lemma {:induction false} OverflowLeasesInOrder(policy: Policy, assignments: seq<Pair>, workers: seq<string>)
    requires SortedBy(StrLe, workers) && Distinct(workers)
    ensures AscendingLeases(OverflowLeases(policy, assignments, workers))
  {
    if |workers| > 0 {
      OverflowLeasesInOrder(policy, assignments, workers[1..]);
      var rest := OverflowLeases(policy, assignments, workers[1..]);
      forall l | l in rest ensures StrLe(workers[0], l.worker) && workers[0] != l.worker {
        OverflowLeasesMembers(policy, assignments, workers[1..], l);
        var k :| 0 <= k < |workers[1..]| && workers[1..][k] == l.worker;
        assert workers[k + 1] == l.worker;
      }
      AscendingPrepend(PinLimitExceeded(workers[0], SortedModels(assignments, workers[0])), rest);
    }
  }

  // ---------------------------------------------------------------- exactly which pairs are warmed

  /** The row that speaks for a worker: the last one of its id. */
  ghost predicate SpeaksFor(workers: seq<Worker>, id: string, w: Worker) {
    exists i :: 0 <= i < |workers| && workers[i] == w && w.id == id
             && forall k :: i < k < |workers| ==> workers[k].id != id
  }

  /** The entry an inventory has for a model: the first one of its name. */
  ghost predicate Reported(inventory: seq<Model>, name: string, m: Model) {
    exists i :: 0 <= i < |inventory| && inventory[i] == m && m.name == name
             && forall k :: 0 <= k < i ==> inventory[k].name != name
  }

  lemma {:induction false} LastWorkerMeaning(workers: seq<Worker>, id: string, w: Worker)
    ensures LastWorker(workers, id) == Some(w) <==> SpeaksFor(workers, id, w)
  {
    if |workers| > 0 {
      var init, last := workers[..|workers| - 1], workers[|workers| - 1];
      LastWorkerMeaning(init, id, w);
      if last.id != id {
        if SpeaksFor(init, id, w) {
          var i :| 0 <= i < |init| && init[i] == w && w.id == id && forall k :: i < k < |init| ==> init[k].id != id;
          forall k | i < k < |workers| ensures workers[k].id != id { assert k < |init| ==> workers[k] == init[k]; }
          assert workers[i] == w;
        }
        if SpeaksFor(workers, id, w) {
          var i :| 0 <= i < |workers| && workers[i] == w && w.id == id
                && forall k :: i < k < |workers| ==> workers[k].id != id;
          assert init[i] == w && forall k :: i < k < |init| ==> init[k] == workers[k];
        }
      } else {
        assert workers[|workers| - 1] == last;
      }
    }
  }

  lemma {:induction false} FindModelMeaning(inventory: seq<Model>, name: string, m: Model)
    ensures FindModel(inventory, name) == Some(m) <==> Reported(inventory, name, m)
  {
    if |inventory| > 0 {
      var rest := inventory[1..];
      FindModelMeaning(rest, name, m);
      if inventory[0].name != name {
        if Reported(rest, name, m) {
          var i :| 0 <= i < |rest| && rest[i] == m && m.name == name && forall k :: 0 <= k < i ==> rest[k].name != name;
          assert inventory[i + 1] == m;
          forall k | 0 <= k < i + 1 ensures inventory[k].name != name { assert k > 0 ==> inventory[k] == rest[k - 1]; }
        }
        if Reported(inventory, name, m) {
          var i :| 0 <= i < |inventory| && inventory[i] == m && m.name == name
                && forall k :: 0 <= k < i ==> inventory[k].name != name;
          assert rest[i - 1] == m && forall k :: 0 <= k < i - 1 ==> rest[k] == inventory[k + 1];
        }
      } else {
        assert inventory[0].name == name;
      }
    }
  }

  /** The size fits the policy's fraction of the memory: no rounding is lost in the comparison. */
  ghost predicate WithinFraction(policy: Policy, size: int, total: int) {
    policy.denominator > 0 && size * policy.denominator <= total * policy.numerator
  }

  lemma FloorCompares(size: int, product: int, d: int)
    requires d > 0
    ensures size <= product / d <==> size * d <= product
  {
    assert product == (product / d) * d + product % d;
    if size <= product / d {
      ScaleInt(size, product / d, d);
    } else {
      ScaleInt(product / d + 1, size, d);
      assert (product / d + 1) * d == (product / d) * d + d;
    }
  }

  lemma ScaleInt(a: int, b: int, d: int)
    requires a <= b && d >= 0
    ensures a * d <= b * d
  {
  }

  /** All sizes are known and positive, and the model fits the policy and the free memory. */
  ghost predicate Fits(policy: Policy, w: Worker, m: Model) {
    && w.total.Some? && w.total.value > 0 && w.free.Some? && w.free.value > 0 && m.size.Some? && m.size.value > 0
    && WithinFraction(policy, m.size.value, w.total.value) && m.size.value <= w.free.value
  }

  lemma FitsExactly(policy: Policy, w: Worker, m: Model)
    ensures ResourceDecision(policy, w, m, true) == RESOURCE_OK <==> Fits(policy, w, m)
  {
    if w.total.Some? && m.size.Some? && policy.denominator > 0 {
      FloorCompares(m.size.value, w.total.value * policy.numerator, policy.denominator);
    }
  }

  /** Warming would not push another model out: none is loaded beside it, or the policy tolerates it, or the model is
      there already. */
  ghost predicate Tolerated(policy: Policy, w: Worker, m: Model) {
    || !policy.rejectConflicting || m.loaded
    || forall other :: other in w.inventory && other.loaded && other.name != "" ==> other.name == m.name
  }

  lemma ToleratedExactly(policy: Policy, w: Worker, m: Model)
    ensures ResidencyAdmit(HasConflicts(w.inventory, m.name), policy.rejectConflicting, m.loaded)
       <==> Tolerated(policy, w, m)
  {
    if HasConflicts(w.inventory, m.name) {
      var i :| 0 <= i < |w.inventory| && w.inventory[i].loaded && w.inventory[i].name != ""
            && w.inventory[i].name != m.name;
      assert w.inventory[i] in w.inventory;
    }
  }

  /** The pair may be warmed on this row for this entry. */
  ghost predicate Warmable(policy: Policy, w: Worker, m: Model) {
    && w.available && w.freshness != Some(false) && w.inventoryCurrent && m.provider == "ollama"
    && Fits(policy, w, m) && Tolerated(policy, w, m)
  }

  ghost predicate MayWarm(policy: Policy, workers: seq<Worker>, p: Pair) {
    exists w, m :: SpeaksFor(workers, p.0, w) && Reported(w.inventory, p.1, m) && Warmable(policy, w, m)
  }

  /** No refusal is found exactly for the pairs that may be warmed. */
  lemma AdmittedExactly(policy: Policy, workers: seq<Worker>, p: Pair)
    ensures Refusal(policy, workers, p).None? <==> MayWarm(policy, workers, p)
  {
    var found := LastWorker(workers, p.0);
    if found.Some? {
      LastWorkerMeaning(workers, p.0, found.value);
      var entry := FindModel(found.value.inventory, p.1);
      if entry.Some? {
        FindModelMeaning(found.value.inventory, p.1, entry.value);
        FitsExactly(policy, found.value, entry.value);
        ToleratedExactly(policy, found.value, entry.value);
      }
    }
    if w, m :| SpeaksFor(workers, p.0, w) && Reported(w.inventory, p.1, m) && Warmable(policy, w, m) {
      LastWorkerMeaning(workers, p.0, w);
      FindModelMeaning(w.inventory, p.1, m);
    }
  }

  /** The refusal names the first thing that is wrong. */
  ghost predicate Wrong(policy: Policy, workers: seq<Worker>, p: Pair, code: Code) {
    match code
    case WorkerUnavailable => forall w :: SpeaksFor(workers, p.0, w) ==> !w.available
    case ObservationStale => exists w :: SpeaksFor(workers, p.0, w) && w.available && w.freshness == Some(false)
    case InventoryNotCurrent => exists w :: SpeaksFor(workers, p.0, w) && Observed(w) && !w.inventoryCurrent
    case ModelNotInstalled =>
      exists w :: SpeaksFor(workers, p.0, w) && Observed(w) && w.inventoryCurrent
               && forall m :: m in w.inventory ==> m.name != p.1
    case ProviderUnsupported => exists w, m :: Entry(workers, p, w, m) && m.provider != "ollama"
    case ResourcePolicyRejected =>
      exists w, m :: Entry(workers, p, w, m) && m.provider == "ollama" && !Fits(policy, w, m)
    case ConflictingLoadedModels =>
      exists w, m :: Entry(workers, p, w, m) && m.provider == "ollama" && Fits(policy, w, m) && !Tolerated(policy, w, m)
    case _ => false
  }

  ghost predicate Observed(w: Worker) { w.available && w.freshness != Some(false) }

  ghost predicate Entry(workers: seq<Worker>, p: Pair, w: Worker, m: Model) {
    SpeaksFor(workers, p.0, w) && Observed(w) && w.inventoryCurrent && Reported(w.inventory, p.1, m)
  }

  lemma RefusalExactly(policy: Policy, workers: seq<Worker>, p: Pair, code: Code)
    ensures Refusal(policy, workers, p) == Some(code) <==> Wrong(policy, workers, p, code)
  {
    var found := LastWorker(workers, p.0);
    forall w ensures SpeaksFor(workers, p.0, w) <==> found == Some(w) { LastWorkerMeaning(workers, p.0, w); }
    if found.Some? {
      var w := found.value;
      var entry := FindModel(w.inventory, p.1);
      forall m ensures Reported(w.inventory, p.1, m) <==> entry == Some(m) { FindModelMeaning(w.inventory, p.1, m); }
      if entry.Some? {
        FitsExactly(policy, w, entry.value);
        ToleratedExactly(policy, w, entry.value);
        assert Entry(workers, p, w, entry.value) <==> Observed(w) && w.inventoryCurrent;
      }
    }
  }

  /** What one call does to one pair: it is reported as passing exactly when it was requested, may be warmed and its
      warm does not fail; and then, and only then, does the call load it. */
  lemma PreparedExactly(policy: Policy, c: Call, prior: seq<Lease>, loaded: set<Pair>, p: Pair)
    requires Warming(policy, c)
    ensures var leases := PrepareResult(policy, c, prior, loaded).leases;
      (exists l :: l in leases && Passing(l) && (l.worker, l.model) == p) <==>
        p in c.assignments && MayWarm(policy, c.snapshot.value, p) && p !in c.fails
    ensures p in PrepareLoads(policy, c, loaded) <==>
        p in loaded || (p in c.assignments && MayWarm(policy, c.snapshot.value, p) && p !in c.fails)
  {
    AdmittedExactly(policy, c.snapshot.value, p);
    RequestedMeaning(c.assignments);
    PassingRecords(policy, c.snapshot.value, prior, c.fails, loaded, Requested(c.assignments), p);
  }

  lemma PassingRecord(policy: Policy, workers: seq<Worker>, prior: seq<Lease>, fails: set<Pair>, loaded: set<Pair>,
      p: Pair)
    ensures var l := LeaseFor(policy, workers, prior, fails, loaded, p);
      l.Lease? && (l.worker, l.model) == p && (Passing(l) <==> Passes(policy, workers, fails, p))
  {
  }

  lemma PassingRecords(policy: Policy, workers: seq<Worker>, prior: seq<Lease>, fails: set<Pair>, loaded: set<Pair>,
      pairs: seq<Pair>, p: Pair)
    ensures (exists l :: l in LeasesFor(policy, workers, prior, fails, loaded, pairs) && Passing(l)
                      && (l.worker, l.model) == p)
       <==> p in pairs && Passes(policy, workers, fails, p)
  {
    var leases := LeasesFor(policy, workers, prior, fails, loaded, pairs);
    forall i | 0 <= i < |leases|
      ensures leases[i].Lease? && (leases[i].worker, leases[i].model) == pairs[i]
      ensures Passing(leases[i]) <==> Passes(policy, workers, fails, pairs[i])
    {
      PassingRecord(policy, workers, prior, fails, loaded, pairs[i]);
    }
    if l :| l in leases && Passing(l) && (l.worker, l.model) == p {
      var i :| 0 <= i < |leases| && leases[i] == l;
      assert pairs[i] == p;
    }
    if p in pairs && Passes(policy, workers, fails, p) {
      var i :| 0 <= i < |pairs| && pairs[i] == p;
      var l := leases[i];
      assert l in leases && Passing(l) && (l.worker, l.model) == p;
    }
  }

  /** A refused record carries the first thing that was wrong with its pair. */
  lemma RefusedRecordExactly(policy: Policy, c: Call, prior: seq<Lease>, loaded: set<Pair>, l: Lease)
    requires Warming(policy, c) && l in PrepareResult(policy, c, prior, loaded).leases
    ensures l.Lease?
    ensures l.code == WarmFailed ==>
              MayWarm(policy, c.snapshot.value, (l.worker, l.model)) && (l.worker, l.model) in c.fails
    ensures l.code != WarmFailed && !Passing(l) ==> Wrong(policy, c.snapshot.value, (l.worker, l.model), l.code)
  {
    var leases := PrepareResult(policy, c, prior, loaded).leases;
    var i :| 0 <= i < |leases| && leases[i] == l;
    var p := Requested(c.assignments)[i];
    AdmittedExactly(policy, c.snapshot.value, p);
    RefusalExactly(policy, c.snapshot.value, p, l.code);
  }

  ghost predicate RequestedOn(assignments: seq<Pair>, worker: string, models: set<string>) {
    forall m :: m in models ==> (worker, m) in assignments
  }

  /** When a call is turned away before any warming: a malformed request is an error, and more than the allowed number
      of distinct models on one worker an overflow. */
  lemma WarmingExactly(policy: Policy, c: Call, prior: seq<Lease>, loaded: set<Pair>)
    ensures PrepareResult(policy, c, prior, loaded).ValueError? <==>
      || c.id == "" || |c.id| > 256 || (exists i :: 0 <= i < |c.id| && c.id[i] as int < 32)
      || exists p :: p in c.assignments && (p.0 == "" || p.1 == "")
    ensures Warming(policy, c) <==>
      && PrepareResult(policy, c, prior, loaded).Returned? && c.snapshot.Some?
      && forall worker, models :: RequestedOn(c.assignments, worker, models) ==> |models| <= policy.maxPinned
  {
    if p :| p in c.assignments && (p.0 == "" || p.1 == "") {
      var i :| 0 <= i < |c.assignments| && c.assignments[i] == p;
    }
    OverflowExactly(policy, c.assignments);
  }

  lemma OverflowExactly(policy: Policy, assignments: seq<Pair>)
    ensures AnyOverflow(policy, assignments) <==>
      exists worker, models :: RequestedOn(assignments, worker, models) && |models| > policy.maxPinned
  {
    if AnyOverflow(policy, assignments) {
      var p :| p in assignments && Overflows(policy, assignments, p.0);
      assert RequestedOn(assignments, p.0, ModelsFor(assignments, p.0));
    }
    if worker, models :| RequestedOn(assignments, worker, models) && |models| > policy.maxPinned {
      var m :| m in models;
      assert models <= ModelsFor(assignments, worker);
      FewerElements(models, ModelsFor(assignments, worker));
      assert Overflows(policy, assignments, (worker, m).0);
    }
  }

  lemma FewerElements(a: set<string>, b: set<string>)
    requires a <= b
    ensures |a| <= |b|
  {
    if a != {} {
      var x :| x in a;
      FewerElements(a - {x}, b - {x});
    }
  }

  /** The prior records hold the pair as managed: the last one about it does. */
  ghost predicate HeldBefore(prior: seq<Lease>, p: Pair) {
    exists i :: 0 <= i < |prior| && prior[i].Lease? && (prior[i].worker, prior[i].model) == p && prior[i].managed
      && forall k :: i < k < |prior| && prior[k].Lease? ==> (prior[k].worker, prior[k].model) != p
  }

  lemma {:induction false} HeldBeforeExactly(prior: seq<Lease>, p: Pair)
    ensures PriorManaged(prior, p) <==> HeldBefore(prior, p)
  {
    if |prior| > 0 {
      var init, last := prior[..|prior| - 1], prior[|prior| - 1];
      if last.Lease? && (last.worker, last.model) == p {
        assert prior[|prior| - 1] == last;
      } else {
        HeldBeforeExactly(init, p);
        if HeldBefore(init, p) {
          var i :| 0 <= i < |init| && init[i].Lease? && (init[i].worker, init[i].model) == p && init[i].managed
                && forall k :: i < k < |init| && init[k].Lease? ==> (init[k].worker, init[k].model) != p;
          assert prior[i] == init[i];
          forall k | i < k < |prior| && prior[k].Lease? ensures (prior[k].worker, prior[k].model) != p {
            assert k < |init| ==> prior[k] == init[k];
          }
        }
        if HeldBefore(prior, p) {
          var i :| 0 <= i < |prior| && prior[i].Lease? && (prior[i].worker, prior[i].model) == p && prior[i].managed
                && forall k :: i < k < |prior| && prior[k].Lease? ==> (prior[k].worker, prior[k].model) != p;
          assert init[i] == prior[i] && forall k :: i < k < |init| ==> init[k] == prior[k];
        }
      }
    }
  }

  /** The size the worker reports of the model, and zero where it reports none. */
  ghost predicate SizeReads(workers: seq<Worker>, p: Pair, size: int) {
    || (exists w, m :: SpeaksFor(workers, p.0, w) && Reported(w.inventory, p.1, m) && m.size == Some(size))
    || (size == 0 && forall w, m :: SpeaksFor(workers, p.0, w) && Reported(w.inventory, p.1, m) ==> m.size.None?)
  }

  lemma SizeExactly(workers: seq<Worker>, p: Pair)
    ensures SizeReads(workers, p, RequestedSize(workers, p))
  {
    var size := RequestedSize(workers, p);
    var found := LastWorker(workers, p.0);
    if found.Some? && FindModel(found.value.inventory, p.1).Some? {
      var w, m := found.value, FindModel(found.value.inventory, p.1).value;
      LastWorkerMeaning(workers, p.0, w);
      FindModelMeaning(w.inventory, p.1, m);
      assert SpeaksFor(workers, p.0, w) && Reported(w.inventory, p.1, m);
    }
    forall w, m | SpeaksFor(workers, p.0, w) && Reported(w.inventory, p.1, m)
      ensures if m.size.Some? then m.size.value == size else size == 0
    {
      LastWorkerMeaning(workers, p.0, w);
      FindModelMeaning(w.inventory, p.1, m);
    }
    if w, m :| SpeaksFor(workers, p.0, w) && Reported(w.inventory, p.1, m) && m.size.Some? {
      assert m.size == Some(size);
    }
  }

  /** The records come in ascending order of worker and model and show the size reported, and a passing one says
      whether the pair was there before and whether the experiment manages it: it brought the pair in now, or held it
      before. */
  lemma RecordsExactly(policy: Policy, c: Call, prior: seq<Lease>, loaded: set<Pair>)
    requires Warming(policy, c)
    ensures var leases := PrepareResult(policy, c, prior, loaded).leases;
      && (forall i, j :: 0 <= i < j < |leases| ==>
            && leases[i].Lease? && leases[j].Lease?
            && PairLe((leases[i].worker, leases[i].model), (leases[j].worker, leases[j].model)))
      && (forall l :: l in leases ==>
            && l.Lease? && SizeReads(c.snapshot.value, (l.worker, l.model), l.size)
            && (l.code == Reused ==> (l.worker, l.model) in loaded)
            && (l.code == Warmed ==> (l.worker, l.model) !in loaded)
            && (l.managed <==> l.code == Warmed || (l.code == Reused && HeldBefore(prior, (l.worker, l.model)))))
  {
    var leases, pairs := PrepareResult(policy, c, prior, loaded).leases, Requested(c.assignments);
    PairOrder();
    SortedSetMeaning(PairLe, c.assignments);
    forall i | 0 <= i < |leases| ensures leases[i].Lease? && (leases[i].worker, leases[i].model) == pairs[i] {}
    forall l | l in leases
      ensures l.Lease? && SizeReads(c.snapshot.value, (l.worker, l.model), l.size)
      ensures l.code == Reused ==> (l.worker, l.model) in loaded
      ensures l.code == Warmed ==> (l.worker, l.model) !in loaded
      ensures l.managed <==> l.code == Warmed || (l.code == Reused && HeldBefore(prior, (l.worker, l.model)))
    {
      var i :| 0 <= i < |leases| && leases[i] == l;
      RecordExactly(policy, c.snapshot.value, prior, c.fails, loaded, pairs[i]);
      SizeExactly(c.snapshot.value, pairs[i]);
    }
  }

  lemma RecordExactly(policy: Policy, workers: seq<Worker>, prior: seq<Lease>, fails: set<Pair>, loaded: set<Pair>,
      p: Pair)
    ensures var l := LeaseFor(policy, workers, prior, fails, loaded, p);
      && l.Lease? && l.size == RequestedSize(workers, p)
      && (l.code == Reused ==> p in loaded) && (l.code == Warmed ==> p !in loaded)
      && (l.managed <==> l.code == Warmed || (l.code == Reused && HeldBefore(prior, p)))
  {
    HeldBeforeExactly(prior, p);
  }

  /** What a release reports of each lease: unmanaged ones are left; of the managed the release fails where the
      provider raises, and otherwise finds the pair unless it was not loaded or an earlier lease gave it back. */
  lemma ReleaseExactly(leases: seq<Lease>, fails: set<Pair>, loaded: set<Pair>, i: nat)
    requires i < |leases|
    ensures var code := ReleaseCodeOf(leases[i], fails, ReleaseLoads(leases[..i], fails, loaded));
      && (code == LeftPreexisting <==> leases[i].PinLimitExceeded? || !leases[i].managed)
      && (leases[i].Lease? && leases[i].managed ==>
            var p := (leases[i].worker, leases[i].model);
            && (code == ReleaseFailed <==> p in fails)
            && (code == Released <==> p !in fails && p in loaded && !GivenBack(leases[..i], p)))
    ensures forall p :: p in ReleaseLoads(leases, fails, loaded) <==>
              p in loaded && (p in fails || !GivenBack(leases, p))
  {
  }

  /** The leases list the pair as managed. */
  ghost predicate GivenBack(leases: seq<Lease>, p: Pair) {
    exists l :: l in leases && l.Lease? && l.managed && (l.worker, l.model) == p
  }

  /** A passing pair fits the policy budget and the available memory of its worker's snapshot, and
      under the conflict policy it was loaded there or had no other loaded model beside it. */
  lemma PassingPairFits(policy: Policy, workers: seq<Worker>, fails: set<Pair>, p: Pair)
    requires Passes(policy, workers, fails, p)
    ensures LastWorker(workers, p.0).Some?
    ensures var w := LastWorker(workers, p.0).value;
      && w.available && w.inventoryCurrent && w.total.Some? && w.free.Some?
      && 0 < RequestedSize(workers, p) <= Budget(policy, w.total.value)
      && RequestedSize(workers, p) <= w.free.value
      && FindModel(w.inventory, p.1).Some?
      && (policy.rejectConflicting && !FindModel(w.inventory, p.1).value.loaded ==>
            forall i :: 0 <= i < |w.inventory| && w.inventory[i].loaded && w.inventory[i].name != "" ==>
              w.inventory[i].name == p.1)
  {
  }

  /** How many passing leases a worker holds, and the sum of their sizes. */
  function PassingCount(leases: seq<Lease>, worker: string): nat {
    if |leases| == 0 then 0
    else (if Passing(leases[0]) && leases[0].worker == worker then 1 else 0) + PassingCount(leases[1..], worker)
  }

  function PassingSize(leases: seq<Lease>, worker: string): int {
    if |leases| == 0 then 0
    else
      var first := if Passing(leases[0]) && leases[0].worker == worker then leases[0].size else 0;
      first + PassingSize(leases[1..], worker)
  }

  lemma {:induction false} SizeWithinCount(leases: seq<Lease>, worker: string, budget: int)
    requires forall l :: l in leases && Passing(l) && l.worker == worker ==> l.size <= budget
    ensures PassingSize(leases, worker) <= PassingCount(leases, worker) * budget
  {
    if |leases| > 0 {
      assert leases == [leases[0]] + leases[1..];
      SizeWithinCount(leases[1..], worker, budget);
      var n := PassingCount(leases[1..], worker);
      assert (1 + n) * budget == budget + n * budget;
    }
  }

  lemma {:induction false} CountWithinModels(leases: seq<Lease>, worker: string, models: set<string>)
    requires OnePerPair(leases)
    requires forall l :: l in leases && Passing(l) && l.worker == worker ==> l.model in models
    ensures PassingCount(leases, worker) <= |models|
  {
    if |leases| > 0 {
      var first, rest := leases[0], leases[1..];
      assert leases == [first] + rest;
      if Passing(first) && first.worker == worker {
        assert first in leases;
        forall l | l in rest && Passing(l) && l.worker == worker ensures l.model in models - {first.model} {
          var i :| 0 <= i < |rest| && rest[i] == l;
          assert leases[i + 1] == l && l in leases;
        }
        CountWithinModels(rest, worker, models - {first.model});
      } else {
        CountWithinModels(rest, worker, models);
      }
    }
  }

  /** Per worker: at most `max_pinned` passing leases, whose sizes add up to at most `max_pinned`
      times the policy budget of the worker's memory. */
  lemma WorkerStaysWithinPolicy(policy: Policy, c: Call, prior: seq<Lease>, loaded: set<Pair>, worker: string)
    requires Warming(policy, c)
    ensures var leases := PrepareResult(policy, c, prior, loaded).leases;
      && PassingCount(leases, worker) <= policy.maxPinned
      && (PassingCount(leases, worker) > 0 ==>
            var w := LastWorker(c.snapshot.value, worker);
            w.Some? && w.value.total.Some? &&
            PassingSize(leases, worker) <= policy.maxPinned * Budget(policy, w.value.total.value))
  {
    var workers := c.snapshot.value;
    var leases := PrepareResult(policy, c, prior, loaded).leases;
    var models := ModelsFor(c.assignments, worker);
    PreparedRecords(policy, c, prior, loaded);
    LeaseSizes(policy, c, prior, loaded);
    forall l | l in leases && Passing(l) && l.worker == worker ensures l.model in models {
      assert RecordMeans(policy, c, loaded, l);
    }
    CountWithinModels(leases, worker, models);
    if PassingCount(leases, worker) > 0 {
      var l := SomePassing(leases, worker);
      assert RecordMeans(policy, c, loaded, l);
      assert !Overflows(policy, c.assignments, worker);
      PassingPairFits(policy, workers, c.fails, (l.worker, l.model));
      var budget := Budget(policy, LastWorker(workers, worker).value.total.value);
      forall m | m in leases && Passing(m) && m.worker == worker ensures m.size <= budget {
        assert RecordMeans(policy, c, loaded, m);
        PassingPairFits(policy, workers, c.fails, (m.worker, m.model));
      }
      SizeWithinCount(leases, worker, budget);
      Scale(PassingCount(leases, worker), policy.maxPinned, budget);
    }
  }

  lemma Scale(n: nat, m: nat, budget: int)
    requires n <= m && budget >= 0
    ensures n * budget <= m * budget
  {
  }

  lemma LeaseSizes(policy: Policy, c: Call, prior: seq<Lease>, loaded: set<Pair>)
    requires Warming(policy, c)
    ensures forall l :: l in PrepareResult(policy, c, prior, loaded).leases ==>
              l.Lease? && l.size == RequestedSize(c.snapshot.value, (l.worker, l.model))
  {
    var leases := PrepareResult(policy, c, prior, loaded).leases;
    forall l | l in leases ensures l.Lease? && l.size == RequestedSize(c.snapshot.value, (l.worker, l.model)) {
      var i :| 0 <= i < |leases| && leases[i] == l;
    }
  }

  lemma {:induction false} SomePassing(leases: seq<Lease>, worker: string) returns (l: Lease)
    requires PassingCount(leases, worker) > 0
    ensures l in leases && Passing(l) && l.worker == worker
  {
    if Passing(leases[0]) && leases[0].worker == worker {
      l := leases[0];
    } else {
      l := SomePassing(leases[1..], worker);
    }
  }
}
