/** Resolving a role to a worker and model against one captured Fabric status. */
module Placement {
  import opened Orders
  import opened ModelSelection

  datatype Mode = AUTO | ROLE | MODEL | WORKER | WORKER_MODEL | WORKER_MODEL_ROLE

  /** The operator's request; `worker` and `model` are meaningful in the modes that carry them. */
  datatype Override = Override(mode: Mode, worker: string, model: string, allowFallback: bool)

  datatype PlaceDecision = AUTO_ALLOWED | PIN_HONORED | PIN_FAILED_CLOSED | FALLBACK_ALLOWED

  function AdmitPlacement(autoOrRole: bool, present: bool, allowFallback: bool): PlaceDecision {
    if autoOrRole then AUTO_ALLOWED
    else if present then PIN_HONORED
    else if allowFallback then FALLBACK_ALLOWED
    else PIN_FAILED_CLOSED
  }

  /** One worker row of a status. Empty strings stand for absent fields; `observed` is the model list of
      an AVAILABLE capability observation, None when there is none. */
  datatype Row = Row(id: string, source: string, availability: string, modelStatus: string, capabilityStatus: string,
      observed: Option<seq<Item>>)

  /** The session's inventory cache. */
  datatype Cache = Cache(api: bool, inventories: map<string, seq<Item>>, errors: set<string>)

  datatype Status = Status(state: string, rows: seq<Row>)

  /** Everything else a resolution depends on. */
  datatype Setting = Setting(
    cache: Cache, enabled: bool, preferResident: bool, residents: map<string, string>,
    strip: string -> string, criteria: Criteria, configured: string)

  /** An available selection names its worker; an unavailable one carries the reason code as `status`. */
  datatype Selection = Selection(available: bool, worker: Option<string>, model: string, status: string, loaded: bool,
      resident: bool)

  // ---------------------------------------------------------------- inventories

  function Freshness(row: Row): string {
    if row.modelStatus != "" then row.modelStatus
    else if row.capabilityStatus != "" then row.capabilityStatus
    else "UNKNOWN"
  }

  function WorkerInventory(cache: Cache, row: Row): seq<Item> {
    if row.id in cache.errors then []
    else if cache.api then
      if (row.capabilityStatus == "CURRENT" || row.capabilityStatus == "STALE") && row.observed.Some?
          then row.observed.value else []
    else if row.id in cache.inventories then cache.inventories[row.id] else []
  }

  predicate Routable(row: Row) {
    && (row.source == "" || row.source == "remote" || row.source == "registry")
    && row.availability == "AVAILABLE"
    && (Freshness(row) == "CURRENT" || Freshness(row) == "STALE")
  }

  type Candidate = (string, seq<Item>)

  function Candidates(cache: Cache, rows: seq<Row>): seq<Candidate> {
    if |rows| == 0 then []
    else
      var last := rows[|rows| - 1];
      Candidates(cache, rows[..|rows| - 1]) +
      (if Routable(last) && WorkerInventory(cache, last) != [] then [(last.id, WorkerInventory(cache, last))] else [])
  }

  function FirstRow(rows: seq<Row>, id: string): (r: Option<Row>)
    ensures r.Some? ==> r.value in rows && r.value.id == id
    ensures r.None? <==> forall row :: row in rows ==> row.id != id
  {
    if |rows| == 0 then None
    else if rows[0].id == id then Some(rows[0])
    else
      assert rows == [rows[0]] + rows[1..];
      FirstRow(rows[1..], id)
  }

  /** Names as `model_name` reads them. */
  function Stripped(strip: string -> string, items: seq<Item>): (r: seq<Item>)
    ensures |r| == |items| && forall i :: 0 <= i < |r| ==> r[i] == items[i].(name := strip(items[i].name))
  {
    seq(|items|, i requires 0 <= i < |items| => items[i].(name := strip(items[i].name)))
  }

  function Combined(candidates: seq<Candidate>): seq<Item> {
    if |candidates| == 0 then [] else candidates[0].1 + Combined(candidates[1..])
  }

  // ---------------------------------------------------------------- choosing among workers

  /** The sort key of one worker offering the wanted model. */
  datatype Spot = Spot(cold: bool, foreign: bool, worker: string)

  predicate SpotLe(a: Spot, b: Spot) {
    if a.cold != b.cold then b.cold
    else if a.foreign != b.foreign then b.foreign
    else StrLe(a.worker, b.worker)
  }

  function SpotOf(preferResident: bool, residents: map<string, string>, model: string, worker: string,
      loaded: bool): Spot
  {
    Spot(preferResident && !loaded, !(worker in residents && residents[worker] == model), worker)
  }

  /** The spots of the candidates that report the model, in listing order. */
  function Spots(preferResident: bool, residents: map<string, string>, model: string,
      candidates: seq<Candidate>): seq<Spot>
  {
    if |candidates| == 0 then []
    else
      var last := candidates[|candidates| - 1];
      var item := Named(last.1, model);
      Spots(preferResident, residents, model, candidates[..|candidates| - 1]) +
      (if item.Some? then [SpotOf(preferResident, residents, model, last.0, item.value.loaded)] else [])
  }

  /** The head of the spots once sorted: the least one. */
  function Least(spots: seq<Spot>): Option<Spot> {
    if |spots| == 0 then None
    else
      var best := Least(spots[..|spots| - 1]);
      var last := spots[|spots| - 1];
      if best.None? || !SpotLe(best.value, last) then Some(last) else best
  }

  function Place(preferResident: bool, residents: map<string, string>, model: string,
      candidates: seq<Candidate>): Option<string>
  {
    var spot := Least(Spots(preferResident, residents, model, candidates));
    if spot.None? then None else Some(spot.value.worker)
  }

  /** The candidate at the head of the listing once stably sorted by spot. */
  function Winner(preferResident: bool, residents: map<string, string>, model: string,
      candidates: seq<Candidate>): (r: Option<Candidate>)
    ensures r.Some? ==> r.value in candidates && Named(r.value.1, model).Some?
  {
    if |candidates| == 0 then None
    else
      var best := Winner(preferResident, residents, model, candidates[..|candidates| - 1]);
      var last := candidates[|candidates| - 1];
      if Named(last.1, model).None? then best
      else if best.None? || !SpotLe(SpotIn(preferResident, residents, model, best.value),
                                    SpotIn(preferResident, residents, model, last)) then Some(last)
      else best
  }

  /** The spot of a candidate that reports the model. */
  function SpotIn(preferResident: bool, residents: map<string, string>, model: string, c: Candidate): Spot
    requires Named(c.1, model).Some?
  {
    SpotOf(preferResident, residents, model, c.0, Named(c.1, model).value.loaded)
  }

  /** The winner holds the least spot. */
  lemma {:induction false} WinnerHoldsLeast(preferResident: bool, residents: map<string, string>, model: string,
      candidates: seq<Candidate>)
    ensures var w := Winner(preferResident, residents, model, candidates);
      Least(Spots(preferResident, residents, model, candidates))
        == if w.None? then None else Some(SpotIn(preferResident, residents, model, w.value))
  {
    if |candidates| > 0 {
      var init, last := candidates[..|candidates| - 1], candidates[|candidates| - 1];
      WinnerHoldsLeast(preferResident, residents, model, init);
      if Named(last.1, model).Some? {
        var before := Spots(preferResident, residents, model, init);
        var spot := SpotIn(preferResident, residents, model, last);
        assert (before + [spot])[..|before|] == before;
      } else {
        assert Spots(preferResident, residents, model, init) + [] == Spots(preferResident, residents, model, init);
      }
    }
  }

  /** The winner's inventory, from which the selection is described. */
  function WinnerInventory(preferResident: bool, residents: map<string, string>, model: string,
      candidates: seq<Candidate>): seq<Item>
  {
    var w := Winner(preferResident, residents, model, candidates);
    if w.None? then [] else w.value.1
  }

  method PlaceModel(preferResident: bool, residents: map<string, string>, model: string, candidates: seq<Candidate>)
      returns (r: Option<Candidate>)
    ensures r == Winner(preferResident, residents, model, candidates)
    ensures Place(preferResident, residents, model, candidates) == if r.None? then None else Some(r.value.0)
  {
    r := None;
    for i := 0 to |candidates|
      invariant r == Winner(preferResident, residents, model, candidates[..i])
    {
      assert candidates[..i + 1][..i] == candidates[..i];
      var c := candidates[i];
      var item := Named(c.1, model);
      if item.None? { continue; }
      var spot := SpotOf(preferResident, residents, model, c.0, item.value.loaded);
      if r.None? {
        r := Some(c);
      } else {
        var held := Named(r.value.1, model);
        if !SpotLe(SpotOf(preferResident, residents, model, r.value.0, held.value.loaded), spot) { r := Some(c); }
      }
    }
    assert candidates[..|candidates|] == candidates;
    WinnerHoldsLeast(preferResident, residents, model, candidates);
  }

  // ---------------------------------------------------------------- the resolution

  function Selected(s: Setting, rows: seq<Row>, worker: string, model: string, inventory: seq<Item>): Selection {
    var row := FirstRow(rows, worker);
    var item := Named(inventory, model);
    Selection(true, Some(worker), model, if row.Some? then Freshness(row.value) else "UNKNOWN",
              item.Some? && item.value.loaded, worker in s.residents && s.residents[worker] == model)
  }

  function Unavailable(code: string, worker: Option<string>, model: string): Selection {
    Selection(false, worker, model, code, false, false)
  }

  predicate PinsWorker(mode: Mode) { mode.WORKER? || mode.WORKER_MODEL? || mode.WORKER_MODEL_ROLE? }

  predicate Automatic(mode: Mode) { mode.AUTO? || mode.ROLE? }

  /** What a worker pin resolves to before fallback is considered. */
  function WorkerPin(s: Setting, rows: seq<Row>, q: Override): Selection {
    var target := FirstRow(rows, q.worker);
    var named := if q.mode.WORKER? then s.configured else q.model;
    if target.None? || target.value.availability != "AVAILABLE" then
      Unavailable("PINNED_WORKER_UNAVAILABLE", Some(q.worker), named)
    else if !(Freshness(target.value) == "CURRENT" || (q.mode.WORKER_MODEL? && Freshness(target.value) == "STALE")) then
      Unavailable("PINNED_INVENTORY_NOT_CURRENT", Some(q.worker), named)
    else
      var inventory := WorkerInventory(s.cache, target.value);
      if !q.mode.WORKER? then
        if Named(inventory, q.model).None? then Unavailable("PINNED_MODEL_MISSING", Some(q.worker), q.model)
        else Selected(s, rows, q.worker, q.model, inventory)
      else
        var resolved := Chosen(s.criteria, s.configured, Stripped(s.strip, inventory));
        if resolved.None? then Unavailable("PINNED_WORKER_HAS_NO_ELIGIBLE_MODEL", Some(q.worker), s.configured)
        else Selected(s, rows, q.worker, resolved.value.model, inventory)
  }

  predicate HasCurrentRow(rows: seq<Row>, id: string) {
    exists i :: 0 <= i < |rows| && rows[i].id == id && Freshness(rows[i]) == "CURRENT"
  }

  function CurrentOnly(rows: seq<Row>, candidates: seq<Candidate>): seq<Candidate> {
    if |candidates| == 0 then []
    else
      var last := candidates[|candidates| - 1];
      CurrentOnly(rows, candidates[..|candidates| - 1]) + (if HasCurrentRow(rows, last.0) then [last] else [])
  }

  /** What a model pin resolves to; None leaves the decision to admission. */
  function ModelPin(s: Setting, rows: seq<Row>, candidates: seq<Candidate>, q: Override): Option<Selection> {
    var live := CurrentOnly(rows, candidates);
    var worker := Place(true, s.residents, q.model, live);
    if worker.Some? then
      Some(Selected(s, rows, worker.value, q.model, WinnerInventory(true, s.residents, q.model, live)))
    else if !q.allowFallback then Some(Unavailable("PINNED_MODEL_UNAVAILABLE", None, q.model))
    else None
  }

  /** The selection the pins alone produce. */
  function PinSelection(s: Setting, rows: seq<Row>, candidates: seq<Candidate>, q: Override): Option<Selection> {
    if PinsWorker(q.mode) then
      var pin := WorkerPin(s, rows, q);
      if pin.available || !q.allowFallback then Some(pin) else None
    else if q.mode.MODEL? then ModelPin(s, rows, candidates, q)
    else None
  }

  /** The fallback choice over all listed inventories, under the names `model_name` reads. */
  function Fallback(s: Setting, candidates: seq<Candidate>): Option<Choice> {
    Chosen(s.criteria, s.configured, Stripped(s.strip, Combined(candidates)))
  }

  /** Worker and model of an automatic placement: the configured model where it is installed, else the fallback
      choice. */
  function AutoPlace(s: Setting, candidates: seq<Candidate>): Option<(string, string)> {
    AutoPlaceOr(s, Fallback(s, candidates), candidates)
  }

  function AutoPlaceOr(s: Setting, fallback: Option<Choice>, candidates: seq<Candidate>): Option<(string, string)> {
    var exact := Place(s.preferResident, s.residents, s.configured, candidates);
    if exact.Some? then Some((exact.value, s.configured))
    else if fallback.None? then None
    else
      var worker := Place(s.preferResident, s.residents, fallback.value.model, candidates);
      if worker.None? then None else Some((worker.value, fallback.value.model))
  }

  /** The selection an automatic placement leads to. */
  function AutoSelection(s: Setting, rows: seq<Row>, candidates: seq<Candidate>): Option<Selection> {
    var auto := AutoPlace(s, candidates);
    if auto.None? then None
    else Some(Selected(s, rows, auto.value.0, auto.value.1,
                       WinnerInventory(s.preferResident, s.residents, auto.value.1, candidates)))
  }

  predicate Reachable(row: Row) { row.source == "remote" && row.availability == "AVAILABLE" }

  function UnavailableStatus(rows: seq<Row>, state: string): string {
    if state != "available" then "FABRIC_UNAVAILABLE"
    else if forall i :: 0 <= i < |rows| ==> rows[i].source != "remote" then "UNKNOWN"
    else if forall i :: 0 <= i < |rows| ==> !Reachable(rows[i]) then "WORKER_UNAVAILABLE"
    else if exists i :: 0 <= i < |rows| && Reachable(rows[i]) && rows[i].capabilityStatus == "STALE" then "STALE"
    else if forall i :: 0 <= i < |rows| && Reachable(rows[i]) ==> rows[i].capabilityStatus == "CURRENT"
    then "MODEL_NOT_INSTALLED"
    else "UNKNOWN"
  }

  function Resolved(s: Setting, status: Status, q: Override): Option<Selection> {
    var candidates := Candidates(s.cache, status.rows);
    var pin := PinSelection(s, status.rows, candidates, q);
    var admission := AdmitPlacement(Automatic(q.mode), pin.Some?, q.allowFallback);
    if admission == PIN_HONORED || admission == PIN_FAILED_CLOSED then pin
    else
      var auto := AutoSelection(s, status.rows, candidates);
      if auto.Some? then auto
      else if s.enabled then Some(Unavailable(UnavailableStatus(status.rows, status.state), None, s.configured))
      else None
  }

  /** The pins, before admission. */
  method ResolvePins(s: Setting, rows: seq<Row>, candidates: seq<Candidate>, q: Override)
      returns (selection: Option<Selection>)
    ensures selection == PinSelection(s, rows, candidates, q)
  {
    selection := None;
    if PinsWorker(q.mode) {
      var pin := WorkerPin(s, rows, q);
      if pin.available || !q.allowFallback { selection := Some(pin); }
    }
    if selection.None? && q.mode.MODEL? {
      var live := CurrentOnly(rows, candidates);
      var winner := PlaceModel(true, s.residents, q.model, live);
      if winner.Some? {
        selection := Some(Selected(s, rows, winner.value.0, q.model, winner.value.1));
      } else if !q.allowFallback {
        selection := Some(Unavailable("PINNED_MODEL_UNAVAILABLE", None, q.model));
      }
    }
  }

  /** The configured model where it is reported, else the fallback choice. */
  method PlaceAutomatically(s: Setting, rows: seq<Row>, candidates: seq<Candidate>)
      returns (selection: Option<Selection>)
    ensures selection == AutoSelection(s, rows, candidates)
  {
    var exact := PlaceModel(s.preferResident, s.residents, s.configured, candidates);
    if exact.Some? { return Some(Selected(s, rows, exact.value.0, s.configured, exact.value.1)); }
    var fallback := Fallback(s, candidates);
    if fallback.None? { return None; }
    var winner := PlaceModel(s.preferResident, s.residents, fallback.value.model, candidates);
    if winner.None? { return None; }
    return Some(Selected(s, rows, winner.value.0, fallback.value.model, winner.value.1));
  }

  method ResolveModelFromStatus(s: Setting, status: Status, q: Override)
      returns (selection: Option<Selection>, admission: PlaceDecision)
    ensures selection == Resolved(s, status, q)
    ensures var pin := PinSelection(s, status.rows, Candidates(s.cache, status.rows), q);
      admission == AdmitPlacement(Automatic(q.mode), pin.Some?, q.allowFallback)
  {
    var rows := status.rows;
    var candidates := Candidates(s.cache, rows);
    selection := ResolvePins(s, rows, candidates, q);
    admission := AdmitPlacement(Automatic(q.mode), selection.Some?, q.allowFallback);
    if admission == PIN_HONORED || admission == PIN_FAILED_CLOSED { return; }
    selection := PlaceAutomatically(s, rows, candidates);
    if selection.None? && s.enabled {
      selection := Some(Unavailable(UnavailableStatus(rows, status.state), None, s.configured));
    }
  }
}
