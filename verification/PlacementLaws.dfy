/** What a placement promises: soundness, exact pins, and independence of listing order. */
module PlacementLaws {
  import opened Orders
  import opened ModelSelection
  import opened Placement

  // ---------------------------------------------------------------- the parts

  /** The row lists the candidate. */
  predicate Contributes(cache: Cache, row: Row, c: Candidate) {
    Routable(row) && WorkerInventory(cache, row) != [] && c == (row.id, WorkerInventory(cache, row))
  }

  lemma {:induction false} CandidatesMeaning(cache: Cache, rows: seq<Row>, c: Candidate)
    ensures c in Candidates(cache, rows) <==>
      exists row :: row in rows && Contributes(cache, row, c)
  {
    if |rows| > 0 {
      var init, last := rows[..|rows| - 1], rows[|rows| - 1];
      assert rows == init + [last];
      CandidatesMeaning(cache, init, c);
      if row :| row in init && Contributes(cache, row, c) { assert row in rows; }
      assert last in rows;
    }
  }

  lemma {:induction false} SpotsMeaning(prefer: bool, residents: map<string, string>, model: string,
      candidates: seq<Candidate>, spot: Spot)
    ensures spot in Spots(prefer, residents, model, candidates) <==>
      exists c :: c in candidates && Named(c.1, model).Some?
               && spot == SpotOf(prefer, residents, model, c.0, Named(c.1, model).value.loaded)
  {
    if |candidates| > 0 {
      var init, last := candidates[..|candidates| - 1], candidates[|candidates| - 1];
      assert candidates == init + [last];
      SpotsMeaning(prefer, residents, model, init, spot);
      if c :| c in init && Named(c.1, model).Some?
              && spot == SpotOf(prefer, residents, model, c.0, Named(c.1, model).value.loaded) {
        assert c in candidates;
      }
      assert last in candidates;
    }
  }

  lemma SpotTotal(a: Spot, b: Spot)
    ensures SpotLe(a, b) || SpotLe(b, a)
    ensures SpotLe(a, b) && SpotLe(b, a) ==> a == b
  {
    StrTotal(a.worker, b.worker);
    if StrLe(a.worker, b.worker) && StrLe(b.worker, a.worker) { StrAntisymmetric(a.worker, b.worker); }
  }

  lemma SpotTransitive(a: Spot, b: Spot, c: Spot)
    requires SpotLe(a, b) && SpotLe(b, c)
    ensures SpotLe(a, c)
  {
    if StrLe(a.worker, b.worker) && StrLe(b.worker, c.worker) { StrTransitive(a.worker, b.worker, c.worker); }
  }

  lemma {:induction false} LeastMeaning(spots: seq<Spot>)
    ensures Least(spots).None? <==> spots == []
    ensures Least(spots).Some? ==>
        Least(spots).value in spots && forall x :: x in spots ==> SpotLe(Least(spots).value, x)
  {
    if |spots| > 0 {
      var init, last := spots[..|spots| - 1], spots[|spots| - 1];
      assert spots == init + [last];
      LeastMeaning(init);
      SpotTotal(last, last);
      if Least(init).Some? {
        var best := Least(init).value;
        SpotTotal(best, last);
        if !SpotLe(best, last) {
          forall x | x in init ensures SpotLe(last, x) { SpotTransitive(last, best, x); }
        }
      }
    }
  }

  lemma LeastForgetsOrder(a: seq<Spot>, b: seq<Spot>)
    requires SameElements(a, b)
    ensures Least(a) == Least(b)
  {
    LeastMeaning(a);
    LeastMeaning(b);
    assert a != [] ==> a[0] in a;
    assert b != [] ==> b[0] in b;
    if Least(a).Some? && Least(b).Some? { SpotTotal(Least(a).value, Least(b).value); }
  }

  ghost predicate OffersModel(candidates: seq<Candidate>, worker: string, model: string) {
    exists c :: c in candidates && c.0 == worker && Named(c.1, model).Some?
  }

  /** A placement names a candidate that reports the model verbatim, and fails only when none does. */
  lemma PlaceMeaning(prefer: bool, residents: map<string, string>, model: string, candidates: seq<Candidate>)
    ensures var r := Place(prefer, residents, model, candidates);
      && (r.Some? ==> OffersModel(candidates, r.value, model))
      && (r.None? ==> forall worker :: !OffersModel(candidates, worker, model))
  {
    var spots := Spots(prefer, residents, model, candidates);
    LeastMeaning(spots);
    if Least(spots).Some? {
      SpotsMeaning(prefer, residents, model, candidates, Least(spots).value);
    }
    forall worker | OffersModel(candidates, worker, model) ensures spots != [] {
      var c :| c in candidates && c.0 == worker && Named(c.1, model).Some?;
      var spot := SpotOf(prefer, residents, model, c.0, Named(c.1, model).value.loaded);
      SpotsMeaning(prefer, residents, model, candidates, spot);
      assert spot in spots;
    }
  }

  lemma {:induction false} CurrentOnlyMeaning(rows: seq<Row>, candidates: seq<Candidate>, c: Candidate)
    ensures c in CurrentOnly(rows, candidates) <==> c in candidates && HasCurrentRow(rows, c.0)
  {
    if |candidates| > 0 {
      CurrentOnlyMeaning(rows, candidates[..|candidates| - 1], c);
      assert candidates == candidates[..|candidates| - 1] + [candidates[|candidates| - 1]];
    }
  }

  // ---------------------------------------------------------------- soundness

  ghost predicate Reports(s: Setting, row: Row, model: string) {
    Named(WorkerInventory(s.cache, row), model).Some?
  }

  ghost predicate ReportsStripped(s: Setting, row: Row, model: string) {
    exists item :: item in WorkerInventory(s.cache, row) && s.strip(item.name) == model
  }

  ghost predicate Live(row: Row) {
    row.availability == "AVAILABLE" && (Freshness(row) == "CURRENT" || Freshness(row) == "STALE")
  }

  /** Some live row of the worker reports the model. */
  ghost predicate ReportedLive(s: Setting, rows: seq<Row>, worker: string, model: string) {
    exists row :: row in rows && row.id == worker && Live(row) && Reports(s, row, model)
  }

  lemma OfferedByRow(s: Setting, rows: seq<Row>, worker: string, model: string)
    requires OffersModel(Candidates(s.cache, rows), worker, model)
    ensures exists row :: row in rows && row.id == worker && Live(row) && Routable(row) && Reports(s, row, model)
  {
    var c :| c in Candidates(s.cache, rows) && c.0 == worker && Named(c.1, model).Some?;
    CandidatesMeaning(s.cache, rows, c);
    var row :| row in rows && Routable(row) && WorkerInventory(s.cache, row) != []
        && c == (row.id, WorkerInventory(s.cache, row));
    assert Reports(s, row, model);
  }

  /** The model a selection chooses is one of the listed names. */
  lemma ChosenIsListed(c: Criteria, configured: string, items: seq<Item>)
    requires Chosen(c, configured, items).Some?
    ensures exists item :: item in items && item.name == Chosen(c, configured, items).value.model
  {
    ChosenExactly(c, configured, items);
    if Installed(items, configured) {
      assert Named(items, configured).value in items;
    } else {
      var item :| ModelSelection.Candidate(c, items, item)
          && Chosen(c, configured, items).value == Choice(item.name, item.size, item.loaded);
      assert item in items;
    }
  }

  lemma NamedWorkerPin(s: Setting, rows: seq<Row>, q: Override)
    requires PinsWorker(q.mode) && !q.mode.WORKER? && WorkerPin(s, rows, q).available
    ensures FirstRow(rows, q.worker).Some? && WorkerPin(s, rows, q).worker == Some(q.worker)
    ensures WorkerPin(s, rows, q).model == q.model
    ensures var row := FirstRow(rows, q.worker).value;
            Live(row) && (Freshness(row) == "CURRENT" || q.mode.WORKER_MODEL?) && Reports(s, row, q.model)
  {
  }

  lemma BareWorkerPin(s: Setting, rows: seq<Row>, q: Override)
    requires q.mode.WORKER? && WorkerPin(s, rows, q).available
    ensures FirstRow(rows, q.worker).Some? && WorkerPin(s, rows, q).worker == Some(q.worker)
    ensures var row := FirstRow(rows, q.worker).value;
            Live(row) && Freshness(row) == "CURRENT" && ReportsStripped(s, row, WorkerPin(s, rows, q).model)
  {
    var pin := WorkerPin(s, rows, q);
    var inventory := WorkerInventory(s.cache, FirstRow(rows, q.worker).value);
    var stripped := Stripped(s.strip, inventory);
    ChosenIsListed(s.criteria, s.configured, stripped);
    var item :| item in stripped && item.name == pin.model;
    var i :| 0 <= i < |stripped| && stripped[i] == item;
    assert inventory[i] in inventory;
  }

  lemma BareModelPin(s: Setting, rows: seq<Row>, q: Override)
    requires var pin := ModelPin(s, rows, Candidates(s.cache, rows), q); pin.Some? && pin.value.available
    ensures var pin := ModelPin(s, rows, Candidates(s.cache, rows), q).value;
      && pin.worker.Some? && pin.model == q.model && HasCurrentRow(rows, pin.worker.value)
      && exists row :: row in rows && row.id == pin.worker.value && Live(row) && Reports(s, row, q.model)
  {
    var candidates := Candidates(s.cache, rows);
    var live := CurrentOnly(rows, candidates);
    PlaceMeaning(true, s.residents, q.model, live);
    var worker := ModelPin(s, rows, candidates, q).value.worker.value;
    var c :| c in live && c.0 == worker && Named(c.1, q.model).Some?;
    CurrentOnlyMeaning(rows, candidates, c);
    OfferedByRow(s, rows, worker, q.model);
  }

  ghost predicate HonoursPin(s: Setting, status: Status, q: Override) {
    var pin := PinSelection(s, status.rows, Candidates(s.cache, status.rows), q);
    pin.Some? && pin.value.available
  }

  /** A pin that is honoured resolves to its own worker and model. The row of a worker pin is CURRENT, or last-known
      for WORKER_MODEL; for MODEL some row of the id is CURRENT and some live row of it reports the model, and
      ModelPinsFreshExactly says when these are one row. */
  lemma HonouredPinIsExact(s: Setting, status: Status, q: Override)
    requires HonoursPin(s, status, q)
    ensures var pin := PinSelection(s, status.rows, Candidates(s.cache, status.rows), q).value;
      && pin.worker.Some? && !Automatic(q.mode)
      && (PinsWorker(q.mode) ==>
            && pin.worker.value == q.worker && FirstRow(status.rows, q.worker).Some?
            && var row := FirstRow(status.rows, q.worker).value;
            && Live(row) && (Freshness(row) == "CURRENT" || q.mode.WORKER_MODEL?)
            && (if q.mode.WORKER? then ReportsStripped(s, row, pin.model) else Reports(s, row, pin.model)))
      && (q.mode.MODEL? ==>
            && HasCurrentRow(status.rows, pin.worker.value)
            && ReportedLive(s, status.rows, pin.worker.value, pin.model))
      && (!q.mode.WORKER? ==> pin.model == q.model)
  {
    match q.mode
    case WORKER => BareWorkerPin(s, status.rows, q);
    case WORKER_MODEL => NamedWorkerPin(s, status.rows, q);
    case WORKER_MODEL_ROLE => NamedWorkerPin(s, status.rows, q);
    case MODEL => BareModelPin(s, status.rows, q);
    case _ =>
  }

  ghost predicate DistinctRowIds(rows: seq<Row>) {
    forall i, j :: 0 <= i < j < |rows| ==> rows[i].id != rows[j].id
  }

  function WithResidents(s: Setting, residents: map<string, string>): Setting { s.(residents := residents) }

  /** Some row of the worker is AVAILABLE and CURRENT and itself reports the model. */
  ghost predicate FreshlyReported(s: Setting, rows: seq<Row>, worker: string, model: string) {
    exists row :: row in rows && row.id == worker && row.availability == "AVAILABLE" && Freshness(row) == "CURRENT"
               && Reports(s, row, model)
  }

  /** A model pin, if it is honoured, is honoured on such a worker. */
  ghost predicate PinsFresh(s: Setting, status: Status, q: Override) {
    q.mode.MODEL? && HonoursPin(s, status, q) ==>
      var pin := PinSelection(s, status.rows, Candidates(s.cache, status.rows), q).value;
      pin.worker.Some? && pin.model == q.model && FreshlyReported(s, status.rows, pin.worker.value, q.model)
  }

  /** A row a pin of the model may be honoured on: listed, and CURRENT by itself or by a row of the same id. */
  ghost predicate PinEligible(s: Setting, rows: seq<Row>, row: Row, model: string) {
    row in rows && Routable(row) && HasCurrentRow(rows, row.id) && Reports(s, row, model)
  }

  predicate LoadedOn(s: Setting, row: Row, model: string) {
    var item := Named(WorkerInventory(s.cache, row), model);
    item.Some? && item.value.loaded
  }

  /** Among these the ranking looks for one that holds the model loaded, if there is any. */
  ghost predicate Winnable(s: Setting, rows: seq<Row>, row: Row, model: string) {
    && PinEligible(s, rows, row, model)
    && (LoadedOn(s, row, model) || forall other :: PinEligible(s, rows, other, model) ==> !LoadedOn(s, other, model))
  }

  ghost predicate WinnersFresh(s: Setting, rows: seq<Row>) {
    forall row, model :: Winnable(s, rows, row, model) ==> FreshlyReported(s, rows, row.id, model)
  }

  /** When every model pin, whatever is resident, rests on an AVAILABLE and CURRENT row that reports the model. */
  lemma ModelPinsFreshExactly(s: Setting, status: Status)
    ensures (forall residents, q :: PinsFresh(WithResidents(s, residents), status, q)) <==> WinnersFresh(s, status.rows)
  {
    if WinnersFresh(s, status.rows) {
      forall residents, q ensures PinsFresh(WithResidents(s, residents), status, q) {
        WinnersPinFresh(s, residents, status, q);
      }
    }
    if forall residents, q :: PinsFresh(WithResidents(s, residents), status, q) {
      forall row, model | Winnable(s, status.rows, row, model)
        ensures FreshlyReported(s, status.rows, row.id, model)
      {
        ResidentIsPinned(s, status, row, model);
        assert PinsFresh(WithResidents(s, map[row.id := model]), status, Override(MODEL, "", model, false));
      }
    }
  }

  /** The candidates a pin of the model chooses from. */
  function LiveOnes(s: Setting, rows: seq<Row>): seq<Candidate> { CurrentOnly(rows, Candidates(s.cache, rows)) }

  lemma EligibleIsLive(s: Setting, rows: seq<Row>, row: Row, model: string)
    requires PinEligible(s, rows, row, model)
    ensures (row.id, WorkerInventory(s.cache, row)) in LiveOnes(s, rows)
  {
    var c := (row.id, WorkerInventory(s.cache, row));
    CandidatesMeaning(s.cache, rows, c);
    assert Contributes(s.cache, row, c);
    CurrentOnlyMeaning(rows, Candidates(s.cache, rows), c);
  }

  lemma LiveIsEligible(s: Setting, rows: seq<Row>, c: Candidate, model: string) returns (row: Row)
    requires c in LiveOnes(s, rows) && Named(c.1, model).Some?
    ensures PinEligible(s, rows, row, model) && c == (row.id, WorkerInventory(s.cache, row))
  {
    CurrentOnlyMeaning(rows, Candidates(s.cache, rows), c);
    CandidatesMeaning(s.cache, rows, c);
    row :| row in rows && Contributes(s.cache, row, c);
  }

  /** An eligible row has its spot among those the pin ranks. */
  lemma EligibleSpot(s: Setting, rows: seq<Row>, residents: map<string, string>, row: Row, model: string)
    requires PinEligible(s, rows, row, model)
    ensures SpotOf(true, residents, model, row.id, LoadedOn(s, row, model))
         in Spots(true, residents, model, LiveOnes(s, rows))
  {
    EligibleIsLive(s, rows, row, model);
    var spot := SpotOf(true, residents, model, row.id, LoadedOn(s, row, model));
    SpotsMeaning(true, residents, model, LiveOnes(s, rows), spot);
  }

  lemma SpotIsEligible(s: Setting, rows: seq<Row>, residents: map<string, string>, model: string, spot: Spot)
      returns (row: Row)
    requires spot in Spots(true, residents, model, LiveOnes(s, rows))
    ensures PinEligible(s, rows, row, model) && spot == SpotOf(true, residents, model, row.id, LoadedOn(s, row, model))
  {
    SpotsMeaning(true, residents, model, LiveOnes(s, rows), spot);
    var c :| c in LiveOnes(s, rows) && Named(c.1, model).Some?
        && spot == SpotOf(true, residents, model, c.0, Named(c.1, model).value.loaded);
    row := LiveIsEligible(s, rows, c, model);
  }

  /** Only a winnable row is ever placed ... */
  lemma PlacedIsWinnable(s: Setting, rows: seq<Row>, residents: map<string, string>, model: string) returns (row: Row)
    requires Place(true, residents, model, LiveOnes(s, rows)).Some?
    ensures Winnable(s, rows, row, model) && Place(true, residents, model, LiveOnes(s, rows)) == Some(row.id)
  {
    var spots := Spots(true, residents, model, LiveOnes(s, rows));
    LeastMeaning(spots);
    row := SpotIsEligible(s, rows, residents, model, Least(spots).value);
    forall other | PinEligible(s, rows, other, model) ensures LoadedOn(s, other, model) ==> LoadedOn(s, row, model) {
      EligibleSpot(s, rows, residents, other, model);
    }
  }

  /** ... and any winnable row is, once its worker alone has the model resident. */
  lemma ResidentIsPlaced(s: Setting, rows: seq<Row>, row: Row, model: string)
    requires Winnable(s, rows, row, model)
    ensures Place(true, map[row.id := model], model, LiveOnes(s, rows)) == Some(row.id)
  {
    var residents := map[row.id := model];
    var spots := Spots(true, residents, model, LiveOnes(s, rows));
    LeastMeaning(spots);
    EligibleSpot(s, rows, residents, row, model);
    var best := SpotIsEligible(s, rows, residents, model, Least(spots).value);
    assert LoadedOn(s, best, model) ==> LoadedOn(s, row, model);
  }

  /** A model pin is honoured exactly on the worker the ranking places. */
  lemma ModelPinPlaces(s: Setting, status: Status, q: Override)
    requires q.mode.MODEL?
    ensures var placed := Place(true, s.residents, q.model, LiveOnes(s, status.rows));
      && (HonoursPin(s, status, q) <==> placed.Some?)
      && (placed.Some? ==>
            var pin := PinSelection(s, status.rows, Candidates(s.cache, status.rows), q).value;
            pin.worker == placed && pin.model == q.model)
  {
  }

  lemma WinnersPinFresh(s: Setting, residents: map<string, string>, status: Status, q: Override)
    requires WinnersFresh(s, status.rows)
    ensures PinsFresh(WithResidents(s, residents), status, q)
  {
    var s' := WithResidents(s, residents);
    if q.mode.MODEL? && HonoursPin(s', status, q) {
      ModelPinPlaces(s', status, q);
      var row := PlacedIsWinnable(s, status.rows, residents, q.model);
      FreshAnywhere(s, s', status.rows, row.id, q.model);
    }
  }

  lemma FreshAnywhere(s: Setting, s': Setting, rows: seq<Row>, worker: string, model: string)
    requires FreshlyReported(s, rows, worker, model) && s.cache == s'.cache
    ensures FreshlyReported(s', rows, worker, model)
  {
    var row :| row in rows && row.id == worker && row.availability == "AVAILABLE" && Freshness(row) == "CURRENT"
        && Reports(s, row, model);
    assert Reports(s', row, model);
  }

  lemma ResidentIsPinned(s: Setting, status: Status, row: Row, model: string)
    requires Winnable(s, status.rows, row, model)
    requires PinsFresh(WithResidents(s, map[row.id := model]), status, Override(MODEL, "", model, false))
    ensures FreshlyReported(s, status.rows, row.id, model)
  {
    var s' := WithResidents(s, map[row.id := model]);
    ResidentIsPlaced(s, status.rows, row, model);
    ModelPinPlaces(s', status, Override(MODEL, "", model, false));
    FreshAnywhere(s', s, status.rows, row.id, model);
  }

  /** With distinct row ids the row that reports a pinned model is AVAILABLE and CURRENT itself. */
  lemma ModelPinIsFresh(s: Setting, status: Status, q: Override)
    requires q.mode.MODEL? && DistinctRowIds(status.rows)
    requires HonoursPin(s, status, q)
    ensures var pin := PinSelection(s, status.rows, Candidates(s.cache, status.rows), q).value;
      && pin.worker.Some? && pin.model == q.model
      && FreshlyReported(s, status.rows, pin.worker.value, q.model)
  {
    forall row, model | Winnable(s, status.rows, row, model) ensures FreshlyReported(s, status.rows, row.id, model) {
      DistinctIsFresh(status.rows, row);
    }
    WinnersPinFresh(s, s.residents, status, q);
    assert WithResidents(s, s.residents) == s;
  }

  lemma DistinctIsFresh(rows: seq<Row>, row: Row)
    requires DistinctRowIds(rows) && row in rows && HasCurrentRow(rows, row.id)
    ensures Freshness(row) == "CURRENT"
  {
    var i :| 0 <= i < |rows| && rows[i].id == row.id && Freshness(rows[i]) == "CURRENT";
    var j :| 0 <= j < |rows| && rows[j] == row;
    assert i == j;
  }

  /** A repeated id breaks that: a CURRENT row with nothing observed lends its freshness to a STALE row of the same
      id, and the pin is honoured on the stale report alone. */
  lemma RepeatedIdPinsStale(s: Setting, m: Item)
    requires s.cache == Cache(true, map[], {})
    ensures var current := Row("w", "remote", "AVAILABLE", "CURRENT", "CURRENT", Some([]));
      var stale := Row("w", "remote", "AVAILABLE", "STALE", "STALE", Some([m]));
      var q := Override(MODEL, "", m.name, false);
      var pin := PinSelection(s, [current, stale], Candidates(s.cache, [current, stale]), q);
      && pin.Some? && pin.value.available && pin.value.worker == Some("w")
      && !Reports(s, current, m.name) && Reports(s, stale, m.name) && Freshness(stale) == "STALE"
  {
    var current := Row("w", "remote", "AVAILABLE", "CURRENT", "CURRENT", Some([]));
    var stale := Row("w", "remote", "AVAILABLE", "STALE", "STALE", Some([m]));
    var rows := [current, stale];
    assert WorkerInventory(s.cache, stale) == [m] && WorkerInventory(s.cache, current) == [];
    assert Routable(stale) && stale in rows;
    assert rows[0].id == "w" && Freshness(rows[0]) == "CURRENT";
    CandidatesMeaning(s.cache, rows, ("w", [m]));
    forall c | c in Candidates(s.cache, rows) ensures c.0 == "w" { CandidatesMeaning(s.cache, rows, c); }
    OnlyWorkerIsPinned(s, rows, Candidates(s.cache, rows), ("w", [m]), Override(MODEL, "", m.name, false));
  }

  /** A model pin is honoured on the only listed worker that offers the model, if some row of its id is CURRENT. */
  lemma OnlyWorkerIsPinned(s: Setting, rows: seq<Row>, candidates: seq<Candidate>, c: Candidate, q: Override)
    requires q.mode.MODEL? && c in candidates && HasCurrentRow(rows, c.0) && Named(c.1, q.model).Some?
    requires forall d :: d in candidates ==> d.0 == c.0
    ensures var pin := PinSelection(s, rows, candidates, q);
      pin.Some? && pin.value.available && pin.value.worker == Some(c.0)
  {
    OnlyWorkerIsPlacedCurrent(rows, s.residents, q.model, candidates, c);
  }

  lemma OnlyWorkerIsPlacedCurrent(rows: seq<Row>, residents: map<string, string>, model: string,
      candidates: seq<Candidate>, c: Candidate)
    requires c in candidates && HasCurrentRow(rows, c.0) && Named(c.1, model).Some?
    requires forall d :: d in candidates ==> d.0 == c.0
    ensures Place(true, residents, model, CurrentOnly(rows, candidates)) == Some(c.0)
  {
    var live := CurrentOnly(rows, candidates);
    CurrentOnlyMeaning(rows, candidates, c);
    forall d | d in live ensures d.0 == c.0 { CurrentOnlyMeaning(rows, candidates, d); }
    OnlyWorkerIsPlaced(true, residents, model, live, c);
  }

  lemma OnlyWorkerIsPlaced(prefer: bool, residents: map<string, string>, model: string, candidates: seq<Candidate>,
      c: Candidate)
    requires c in candidates && Named(c.1, model).Some? && forall d :: d in candidates ==> d.0 == c.0
    ensures Place(prefer, residents, model, candidates) == Some(c.0)
  {
    PlaceMeaning(prefer, residents, model, candidates);
    assert OffersModel(candidates, c.0, model);
  }

  /** Without fallback a pinned request yields its own worker and model or an unavailable record,
      and admission never answers PIN_FAILED_CLOSED, with or without fallback. */
  lemma PinsNeverDrift(s: Setting, status: Status, q: Override)
    ensures var pin := PinSelection(s, status.rows, Candidates(s.cache, status.rows), q);
      && AdmitPlacement(Automatic(q.mode), pin.Some?, q.allowFallback) != PIN_FAILED_CLOSED
      && (!Automatic(q.mode) && !q.allowFallback ==>
            && Resolved(s, status, q) == pin && pin.Some?
            && (pin.value.available ==>
                  && (PinsWorker(q.mode) ==> pin.value.worker == Some(q.worker))
                  && (!q.mode.WORKER? ==> pin.value.model == q.model)))
  {
    var pin := PinSelection(s, status.rows, Candidates(s.cache, status.rows), q);
    if pin.Some? && pin.value.available { HonouredPinIsExact(s, status, q); }
  }

  ghost predicate HonoursWorker(s: Setting, rows: seq<Row>, q: Override) {
    q.mode.WORKER? && WorkerPin(s, rows, q).available
  }

  /** Every available selection names a live worker of the status whose inventory reports the model;
      only an honoured worker pin may report it up to surrounding whitespace. */
  lemma AvailableSelectionIsSound(s: Setting, status: Status, q: Override)
    requires Resolved(s, status, q).Some? && Resolved(s, status, q).value.available
    ensures var r := Resolved(s, status, q).value;
      r.worker.Some? && exists row :: (row in status.rows && row.id == r.worker.value && Live(row)
        && (Reports(s, row, r.model) || (HonoursWorker(s, status.rows, q) && ReportsStripped(s, row, r.model))))
  {
    var candidates := Candidates(s.cache, status.rows);
    var pin := PinSelection(s, status.rows, candidates, q);
    var r := Resolved(s, status, q).value;
    if pin.Some? && !Automatic(q.mode) {
      HonouredPinIsExact(s, status, q);
      if PinsWorker(q.mode) {
        assert FirstRow(status.rows, q.worker).value in status.rows;
      }
    } else {
      AutoPlaceMeaning(s, candidates);
      OfferedByRow(s, status.rows, r.worker.value, r.model);
    }
  }

  function Configuring(s: Setting, configured: string): Setting { s.(configured := configured) }

  /** An available selection is reported verbatim: by the pinned row if a worker pin was honoured, by some live row
      of its worker in any case. */
  ghost predicate Verbatim(s: Setting, status: Status, q: Override) {
    var r := Resolved(s, status, q);
    r.Some? && r.value.available ==>
      && r.value.worker.Some?
      && ReportedLive(s, status.rows, r.value.worker.value, r.value.model)
      && (HonoursWorker(s, status.rows, q) ==>
            Reports(s, FirstRow(status.rows, q.worker).value, r.value.model))
  }

  /** The rows a worker pin can be honoured on. */
  ghost predicate Pinnable(rows: seq<Row>, row: Row) {
    FirstRow(rows, row.id) == Some(row) && row.availability == "AVAILABLE" && Freshness(row) == "CURRENT"
  }

  /** Every name such a row reports is also reported without its surrounding whitespace. */
  ghost predicate StrippedNamesReported(s: Setting, rows: seq<Row>) {
    forall row, item :: row in rows && Pinnable(rows, row) && item in WorkerInventory(s.cache, row) ==>
      s.strip(item.name) != "" ==> Reports(s, row, s.strip(item.name))
  }

  /** When every available selection of every request is reported verbatim, whatever model is configured. */
  lemma VerbatimExactly(s: Setting, status: Status)
    ensures (forall configured, q :: Verbatim(Configuring(s, configured), status, q))
      <==> StrippedNamesReported(s, status.rows)
  {
    if StrippedNamesReported(s, status.rows) {
      forall configured, q ensures Verbatim(Configuring(s, configured), status, q) {
        StrippedSelectionIsVerbatim(Configuring(s, configured), status, q);
      }
    }
    if forall configured, q :: Verbatim(Configuring(s, configured), status, q) {
      forall row, item | row in status.rows && Pinnable(status.rows, row) && item in WorkerInventory(s.cache, row)
          && s.strip(item.name) != ""
        ensures Reports(s, row, s.strip(item.name))
      {
        PinStripped(s, status, row, item);
        assert Verbatim(Configuring(s, s.strip(item.name)), status, Override(WORKER, row.id, "", false));
      }
    }
  }

  /** Pinning such a row while a stripped name of its inventory is configured selects that name. */
  lemma PinStripped(s: Setting, status: Status, row: Row, item: Item)
    requires row in status.rows && Pinnable(status.rows, row)
    requires item in WorkerInventory(s.cache, row) && s.strip(item.name) != ""
    ensures var name, q := s.strip(item.name), Override(WORKER, row.id, "", false);
      var pin := WorkerPin(Configuring(s, name), status.rows, q);
      pin.available && pin.model == name && Resolved(Configuring(s, name), status, q) == Some(pin)
  {
    var name := s.strip(item.name);
    var stripped := Stripped(s.strip, WorkerInventory(s.cache, row));
    StrippedMeaning(s.strip, WorkerInventory(s.cache, row), item.(name := name));
    assert item.(name := name) in stripped;
    ChosenExactly(s.criteria, name, stripped);
  }

  lemma StrippedSelectionIsVerbatim(s: Setting, status: Status, q: Override)
    requires StrippedNamesReported(s, status.rows)
    ensures Verbatim(s, status, q)
  {
    if HonoursWorker(s, status.rows, q) {
      PinReportsStripped(s, status.rows, q);
      assert Resolved(s, status, q) == Some(WorkerPin(s, status.rows, q));
      assert FirstRow(status.rows, q.worker).value in status.rows;
    } else if Resolved(s, status, q).Some? && Resolved(s, status, q).value.available {
      AvailableSelectionIsSound(s, status, q);
    }
  }

  lemma PinReportsStripped(s: Setting, rows: seq<Row>, q: Override)
    requires StrippedNamesReported(s, rows) && HonoursWorker(s, rows, q)
    ensures WorkerPin(s, rows, q).worker == Some(q.worker)
    ensures FirstRow(rows, q.worker).Some? && Live(FirstRow(rows, q.worker).value)
    ensures Reports(s, FirstRow(rows, q.worker).value, WorkerPin(s, rows, q).model)
  {
    BareWorkerPin(s, rows, q);
    var row, model := FirstRow(rows, q.worker).value, WorkerPin(s, rows, q).model;
    var stripped := Stripped(s.strip, WorkerInventory(s.cache, row));
    ChosenIsListed(s.criteria, s.configured, stripped);
    var item :| item in WorkerInventory(s.cache, row) && s.strip(item.name) == model;
    assert Pinnable(rows, row);
    assert model != "" by { ChosenIsNamed(s.criteria, s.configured, stripped); }
  }

  lemma ChosenIsNamed(c: Criteria, configured: string, items: seq<Item>)
    requires Chosen(c, configured, items).Some?
    ensures Chosen(c, configured, items).value.model != ""
  {
    DedupedMeaning(items);
    var available := Deduped(items);
    BestIsLeast(c, available, available);
    var exact := Named(available, configured);
    if exact.Some? { assert exact.value in available; }
  }

  /** A padded name breaks that: pinning a worker whose only model is reported with surrounding
      whitespace yields an available selection for a name its inventory does not report. */
  lemma PaddedNameIsNotReported(s: Setting, item: Item)
    requires s.strip(item.name) == s.configured && s.configured != item.name && s.configured != ""
    requires s.cache == Cache(false, map["w" := [item]], {})
    ensures var row := Row("w", "remote", "AVAILABLE", "CURRENT", "CURRENT", None);
            var r := Resolved(s, Status("available", [row]), Override(WORKER, "w", "", false));
      r.Some? && r.value.available && r.value.model == s.configured && !Reports(s, row, r.value.model)
  {
    var row := Row("w", "remote", "AVAILABLE", "CURRENT", "CURRENT", None);
    var stripped := Stripped(s.strip, [item]);
    assert stripped == [item.(name := s.configured)];
    assert stripped[0] in stripped;
    ChosenExactly(s.criteria, s.configured, stripped);
    assert WorkerInventory(s.cache, row) == [item];
    assert FirstRow([row], "w") == Some(row);
  }

  // ---------------------------------------------------------------- automatic placement

  /** Automatic placement prefers the configured model wherever it is reported; otherwise it places the
      fallback choice on a worker that reports it, and fails exactly when there is no such pair. */
  lemma AutoPlaceMeaning(s: Setting, candidates: seq<Candidate>)
    ensures var r, fallback := AutoPlace(s, candidates), Fallback(s, candidates);
      && (r.Some? ==> OffersModel(candidates, r.value.0, r.value.1))
      && ((exists worker :: OffersModel(candidates, worker, s.configured)) ==> r.Some? && r.value.1 == s.configured)
      && ((forall worker :: !OffersModel(candidates, worker, s.configured)) ==>
            && (r.Some? <==> fallback.Some? && exists worker :: OffersModel(candidates, worker, fallback.value.model))
            && (r.Some? ==> r.value.1 == fallback.value.model))
  {
    if worker :| OffersModel(candidates, worker, s.configured) {
      ConfiguredIsPlaced(s, Fallback(s, candidates), candidates, worker);
    } else {
      FallbackIsPlaced(s, Fallback(s, candidates), candidates);
    }
  }

  lemma ConfiguredIsPlaced(s: Setting, fallback: Option<Choice>, candidates: seq<Candidate>, worker: string)
    requires OffersModel(candidates, worker, s.configured)
    ensures var r := AutoPlaceOr(s, fallback, candidates);
      r.Some? && r.value.1 == s.configured && OffersModel(candidates, r.value.0, s.configured)
  {
    PlaceMeaning(s.preferResident, s.residents, s.configured, candidates);
  }

  lemma FallbackIsPlaced(s: Setting, fallback: Option<Choice>, candidates: seq<Candidate>)
    requires forall worker :: !OffersModel(candidates, worker, s.configured)
    ensures var r := AutoPlaceOr(s, fallback, candidates);
      && (r.Some? <==> fallback.Some? && exists worker :: OffersModel(candidates, worker, fallback.value.model))
      && (r.Some? ==> r.value.1 == fallback.value.model && OffersModel(candidates, r.value.0, fallback.value.model))
  {
    PlaceMeaning(s.preferResident, s.residents, s.configured, candidates);
    if fallback.Some? {
      PlacedExactly(s.preferResident, s.residents, fallback.value.model, candidates);
    }
  }

  lemma PlacedExactly(prefer: bool, residents: map<string, string>, model: string, candidates: seq<Candidate>)
    ensures var r := Place(prefer, residents, model, candidates);
      && (r.Some? <==> exists worker :: OffersModel(candidates, worker, model))
      && (r.Some? ==> OffersModel(candidates, r.value, model))
  {
    PlaceMeaning(prefer, residents, model, candidates);
  }

  /** Every candidate of one listing appears in the other with the same models, in any order. */
  ghost predicate ListedIn(a: seq<Candidate>, b: seq<Candidate>) {
    forall c {:trigger HasTwin(c, b)} :: c in a ==> HasTwin(c, b)
  }

  ghost predicate HasTwin(c: Candidate, b: seq<Candidate>) {
    exists d :: d in b && d.0 == c.0 && SameElements(c.1, d.1)
  }

  /** Two listings of one fleet: the same workers offering the same models, in any order. */
  ghost predicate SameListing(a: seq<Candidate>, b: seq<Candidate>) {
    ListedIn(a, b) && ListedIn(b, a)
  }

  lemma {:induction false} CombinedMeaning(candidates: seq<Candidate>, item: Item)
    ensures item in Combined(candidates) <==> exists c :: c in candidates && item in c.1
  {
    if |candidates| > 0 {
      CombinedMeaning(candidates[1..], item);
      assert candidates == [candidates[0]] + candidates[1..];
      if c :| c in candidates[1..] && item in c.1 { assert c in candidates; }
      assert candidates[0] in candidates;
    }
  }

  lemma StrippedMeaning(strip: string -> string, items: seq<Item>, x: Item)
    ensures x in Stripped(strip, items) <==> exists item :: item in items && x == item.(name := strip(item.name))
  {
    var r := Stripped(strip, items);
    if x in r {
      var i :| 0 <= i < |r| && r[i] == x;
      assert items[i] in items;
    }
    if item :| item in items && x == item.(name := strip(item.name)) {
      var i :| 0 <= i < |items| && items[i] == item;
      assert r[i] == x;
    }
  }

  /** One worker's inventory reports each model in one loading state. */
  ghost predicate SelfAgrees(c: Candidate) {
    forall x, y :: x in c.1 && y in c.1 && x.name == y.name ==> x.loaded == y.loaded
  }

  ghost predicate EachAgrees(a: seq<Candidate>) {
    forall c :: c in a ==> SelfAgrees(c)
  }

  /** Agreement across the fleet includes agreement within each inventory. */
  lemma FleetAgrees(strip: string -> string, a: seq<Candidate>)
    requires NamesAgree(Stripped(strip, Combined(a)))
    ensures EachAgrees(a)
  {
    forall c, x, y | c in a && x in c.1 && y in c.1 && x.name == y.name ensures x.loaded == y.loaded {
      CombinedMeaning(a, x);
      CombinedMeaning(a, y);
      var x', y' := x.(name := strip(x.name)), y.(name := strip(y.name));
      StrippedMeaning(strip, Combined(a), x');
      StrippedMeaning(strip, Combined(a), y');
      assert x' in Stripped(strip, Combined(a)) && y' in Stripped(strip, Combined(a));
    }
  }

  /** Reordered inventories report a model in the same loading state. */
  lemma TwinsReportAlike(c: Candidate, d: Candidate, model: string)
    requires SelfAgrees(c) && SameElements(c.1, d.1) && Named(c.1, model).Some?
    ensures Named(d.1, model).Some? && Named(d.1, model).value.loaded == Named(c.1, model).value.loaded
  {
    var x := Named(c.1, model).value;
    assert x in d.1;
    var y := Named(d.1, model).value;
    assert y in c.1;
  }

  lemma SpotsForgetOrder(residents: map<string, string>, prefer: bool, model: string, a: seq<Candidate>,
      b: seq<Candidate>,
      spot: Spot)
    requires ListedIn(a, b) && EachAgrees(a)
    requires spot in Spots(prefer, residents, model, a)
    ensures spot in Spots(prefer, residents, model, b)
  {
    SpotsMeaning(prefer, residents, model, a, spot);
    var c :| c in a && Named(c.1, model).Some?
        && spot == SpotOf(prefer, residents, model, c.0, Named(c.1, model).value.loaded);
    var d := Twin(a, b, c);
    TwinsReportAlike(c, d, model);
    SpotsMeaning(prefer, residents, model, b, spot);
  }

  /** Two listings that differ in order only: of the workers alone, or also of the models within an inventory that
      reports each of them in one state. */
  ghost predicate Reordered(a: seq<Candidate>, b: seq<Candidate>) {
    SameElements(a, b) || (SameListing(a, b) && EachAgrees(a) && EachAgrees(b))
  }

  lemma Twin(a: seq<Candidate>, b: seq<Candidate>, c: Candidate) returns (d: Candidate)
    requires ListedIn(a, b) && c in a
    ensures d in b && d.0 == c.0 && SameElements(c.1, d.1)
  {
    assert HasTwin(c, b);
    d :| d in b && d.0 == c.0 && SameElements(c.1, d.1);
  }

  /** Where one given model is placed never depends on the listing order, though it be warm here and cold there. */
  lemma PlaceForgetsOrder(prefer: bool, residents: map<string, string>, model: string, a: seq<Candidate>,
      b: seq<Candidate>)
    requires Reordered(a, b)
    ensures Place(prefer, residents, model, a) == Place(prefer, residents, model, b)
  {
    var x, y := Spots(prefer, residents, model, a), Spots(prefer, residents, model, b);
    assert SameElements(x, y) by {
      forall spot ensures spot in x <==> spot in y {
        SpotsIff(prefer, residents, model, a, b, spot);
      }
    }
    LeastForgetsOrder(x, y);
  }

  lemma SpotsIff(prefer: bool, residents: map<string, string>, model: string, a: seq<Candidate>, b: seq<Candidate>,
      spot: Spot)
    requires Reordered(a, b)
    ensures spot in Spots(prefer, residents, model, a) <==> spot in Spots(prefer, residents, model, b)
  {
    if SameElements(a, b) {
      SpotsMeaning(prefer, residents, model, a, spot);
      SpotsMeaning(prefer, residents, model, b, spot);
    } else {
      if spot in Spots(prefer, residents, model, a) { SpotsForgetOrder(residents, prefer, model, a, b, spot); }
      if spot in Spots(prefer, residents, model, b) { SpotsForgetOrder(residents, prefer, model, b, a, spot); }
    }
  }

  lemma CombinedListed(a: seq<Candidate>, b: seq<Candidate>, item: Item)
    requires ListedIn(a, b) && item in Combined(a)
    ensures item in Combined(b)
  {
    CombinedMeaning(a, item);
    var c :| c in a && item in c.1;
    var d := Twin(a, b, c);
    CombinedMeaning(b, item);
  }

  lemma StrippedSame(strip: string -> string, a: seq<Candidate>, b: seq<Candidate>)
    requires SameListing(a, b)
    ensures SameElements(Stripped(strip, Combined(a)), Stripped(strip, Combined(b)))
  {
    forall x ensures x in Stripped(strip, Combined(a)) <==> x in Stripped(strip, Combined(b)) {
      StrippedMeaning(strip, Combined(a), x);
      StrippedMeaning(strip, Combined(b), x);
      forall item ensures item in Combined(a) <==> item in Combined(b) {
        if item in Combined(a) { CombinedListed(a, b, item); }
        if item in Combined(b) { CombinedListed(b, a, item); }
      }
    }
  }

  /** The configured model is placed alike in every listing order, with no agreement between workers. */
  lemma ConfiguredPlacementForgetsOrder(s: Setting, a: seq<Candidate>, b: seq<Candidate>)
    requires Reordered(a, b) && exists worker :: OffersModel(a, worker, s.configured)
    ensures AutoPlace(s, a) == AutoPlace(s, b)
  {
    ConfiguredAlike(s, Fallback(s, a), Fallback(s, b), a, b);
  }

  lemma ConfiguredAlike(s: Setting, one: Option<Choice>, other: Option<Choice>, a: seq<Candidate>, b: seq<Candidate>)
    requires Reordered(a, b) && exists worker :: OffersModel(a, worker, s.configured)
    ensures AutoPlaceOr(s, one, a) == AutoPlaceOr(s, other, b)
  {
    PlaceMeaning(s.preferResident, s.residents, s.configured, a);
    PlaceForgetsOrder(s.preferResident, s.residents, s.configured, a, b);
  }

  lemma FallbackAlike(s: Setting, fallback: Option<Choice>, a: seq<Candidate>, b: seq<Candidate>)
    requires Reordered(a, b)
    ensures AutoPlaceOr(s, fallback, a) == AutoPlaceOr(s, fallback, b)
  {
    PlaceForgetsOrder(s.preferResident, s.residents, s.configured, a, b);
    if fallback.Some? { PlaceForgetsOrder(s.preferResident, s.residents, fallback.value.model, a, b); }
  }

  /** Permuting workers, and models within inventories, leaves automatic placement on the same worker and model; the
      fallback choice, and it alone, needs same-named models to agree across the fleet. */
  lemma AutoPlaceForgetsOrder(s: Setting, a: seq<Candidate>, b: seq<Candidate>)
    requires SameListing(a, b)
    requires NamesAgree(Stripped(s.strip, Combined(a)))
             || (Reordered(a, b) && exists worker :: OffersModel(a, worker, s.configured))
    ensures AutoPlace(s, a) == AutoPlace(s, b)
  {
    if Reordered(a, b) && exists worker :: OffersModel(a, worker, s.configured) {
      ConfiguredPlacementForgetsOrder(s, a, b);
    } else {
      FleetAgrees(s.strip, a);
      FallbackForgetsOrder(s, a, b);
      FallbackAlike(s, Fallback(s, a), a, b);
    }
  }

  lemma FallbackForgetsOrder(s: Setting, a: seq<Candidate>, b: seq<Candidate>)
    requires SameListing(a, b) && NamesAgree(Stripped(s.strip, Combined(a)))
    ensures EachAgrees(b)
    ensures Fallback(s, a) == Fallback(s, b)
  {
    StrippedSame(s.strip, a, b);
    AgreementForgetsOrder(Stripped(s.strip, Combined(a)), Stripped(s.strip, Combined(b)));
    FleetAgrees(s.strip, b);
    ChosenForgetsOrder(s.criteria, s.configured, Stripped(s.strip, Combined(a)), Stripped(s.strip, Combined(b)));
  }

  lemma AgreementForgetsOrder(x: seq<Item>, y: seq<Item>)
    requires NamesAgree(x) && SameElements(x, y)
    ensures NamesAgree(y)
  {
  }

  lemma RowOrderSameCandidates(cache: Cache, rows: seq<Row>, others: seq<Row>)
    requires SameElements(rows, others)
    ensures SameElements(Candidates(cache, rows), Candidates(cache, others))
    ensures SameListing(Candidates(cache, rows), Candidates(cache, others))
  {
    forall c ensures c in Candidates(cache, rows) <==> c in Candidates(cache, others) {
      CandidatesMeaning(cache, rows, c);
      CandidatesMeaning(cache, others, c);
    }
  }

  /** The rows list the same worker alike, with the models of its inventory in any order. */
  ghost predicate RowTwin(s: Setting, s': Setting, row: Row, other: Row) {
    && other.id == row.id && (Routable(row) <==> Routable(other))
    && SameElements(WorkerInventory(s.cache, row), WorkerInventory(s'.cache, other))
  }

  ghost predicate HasRowTwin(s: Setting, s': Setting, row: Row, others: seq<Row>) {
    exists other :: other in others && RowTwin(s, s', row, other)
  }

  ghost predicate RowsListed(s: Setting, s': Setting, rows: seq<Row>, others: seq<Row>) {
    forall row {:trigger HasRowTwin(s, s', row, others)} :: row in rows ==> HasRowTwin(s, s', row, others)
  }

  /** One fleet observed twice, by two caches or two statuses: the same rows with the same models, in any order. */
  ghost predicate SameFleet(s: Setting, s': Setting, rows: seq<Row>, others: seq<Row>) {
    && s' == s.(cache := s'.cache)
    && RowsListed(s, s', rows, others) && RowsListed(s', s, others, rows)
  }

  lemma RowsListCandidates(s: Setting, s': Setting, rows: seq<Row>, others: seq<Row>)
    requires RowsListed(s, s', rows, others)
    ensures ListedIn(Candidates(s.cache, rows), Candidates(s'.cache, others))
  {
    forall c | c in Candidates(s.cache, rows) ensures HasTwin(c, Candidates(s'.cache, others)) {
      CandidatesMeaning(s.cache, rows, c);
      var row :| row in rows && Contributes(s.cache, row, c);
      assert HasRowTwin(s, s', row, others);
      var other :| other in others && RowTwin(s, s', row, other);
      TwinIsCandidate(s, s', row, other, others);
    }
  }

  lemma TwinIsCandidate(s: Setting, s': Setting, row: Row, other: Row, others: seq<Row>)
    requires Contributes(s.cache, row, (row.id, WorkerInventory(s.cache, row)))
    requires other in others && RowTwin(s, s', row, other)
    ensures HasTwin((row.id, WorkerInventory(s.cache, row)), Candidates(s'.cache, others))
  {
    var d := (other.id, WorkerInventory(s'.cache, other));
    assert WorkerInventory(s.cache, row)[0] in WorkerInventory(s'.cache, other);
    assert Contributes(s'.cache, other, d);
    CandidatesMeaning(s'.cache, others, d);
  }

  /** Agreement within each inventory is seen from either listing. */
  lemma AgreementTravels(a: seq<Candidate>, b: seq<Candidate>)
    requires ListedIn(b, a) && EachAgrees(a)
    ensures EachAgrees(b)
  {
    forall d | d in b ensures SelfAgrees(d) { var c := Twin(b, a, d); }
  }

  lemma CacheNeverPlaces(s: Setting, s': Setting, candidates: seq<Candidate>)
    requires s' == s.(cache := s'.cache)
    ensures AutoPlace(s, candidates) == AutoPlace(s', candidates)
  {
  }

  lemma ResolvedAutomatically(s: Setting, status: Status, q: Override)
    requires Automatic(q.mode)
    ensures var r, auto := Resolved(s, status, q), AutoPlace(s, Candidates(s.cache, status.rows));
      && (r.Some? <==> auto.Some? || s.enabled)
      && (r.Some? ==> r.value.available == auto.Some?)
      && (r.Some? && auto.Some? ==> r.value.worker == Some(auto.value.0) && r.value.model == auto.value.1)
      && (r.Some? && auto.None? ==> r.value.worker == None && r.value.model == s.configured)
  {
  }

  /** At the level of the whole resolution: listing the status rows, or the models within an inventory, in another
      order moves no automatic placement of the configured model, and none at all where same-named models agree. */
  lemma ResolutionForgetsOrder(s: Setting, s': Setting, state: string, rows: seq<Row>, others: seq<Row>, q: Override)
    requires SameFleet(s, s', rows, others) && Automatic(q.mode)
    requires var a, b := Candidates(s.cache, rows), Candidates(s'.cache, others);
      || NamesAgree(Stripped(s.strip, Combined(a)))
      || ((SameElements(a, b) || EachAgrees(a)) && exists worker :: OffersModel(a, worker, s.configured))
    ensures var a, b := Resolved(s, Status(state, rows), q), Resolved(s', Status(state, others), q);
      && (a.Some? <==> b.Some?)
      && (a.Some? ==>
        a.value.available == b.value.available && a.value.worker == b.value.worker && a.value.model == b.value.model)
  {
    var a, b := Candidates(s.cache, rows), Candidates(s'.cache, others);
    RowsListCandidates(s, s', rows, others);
    RowsListCandidates(s', s, others, rows);
    if EachAgrees(a) { AgreementTravels(a, b); }
    AutoPlaceForgetsOrder(s, a, b);
    CacheNeverPlaces(s, s', b);
    ResolvedAutomatically(s, Status(state, rows), q);
    ResolvedAutomatically(s', Status(state, others), q);
  }

  /** In particular over one cache the rows alone may come in any order, with no agreement for the configured model. */
  lemma ResolutionForgetsRowOrder(s: Setting, state: string, rows: seq<Row>, others: seq<Row>, q: Override)
    requires SameElements(rows, others) && Automatic(q.mode)
    requires NamesAgree(Stripped(s.strip, Combined(Candidates(s.cache, rows))))
             || exists worker :: OffersModel(Candidates(s.cache, rows), worker, s.configured)
    ensures var a, b := Resolved(s, Status(state, rows), q), Resolved(s, Status(state, others), q);
      && (a.Some? <==> b.Some?)
      && (a.Some? ==>
        a.value.available == b.value.available && a.value.worker == b.value.worker && a.value.model == b.value.model)
  {
    RowOrderSameCandidates(s.cache, rows, others);
    forall row | row in rows ensures HasRowTwin(s, s, row, others) { assert RowTwin(s, s, row, row); }
    forall row | row in others ensures HasRowTwin(s, s, row, rows) { assert RowTwin(s, s, row, row); }
    ResolutionForgetsOrder(s, s, state, rows, others, q);
  }

  /** Agreement is needed: when one worker holds a model loaded and another lists it cold, the order in
      which the two are listed decides which model the fallback ranks first. */
  lemma DisagreeingListingsMatter(c: Criteria, hot: Item, small: Item)
    requires c.req == RequirementsFor("e2b") && c.evidence == []
    requires hot.loaded && !small.loaded && 0 < small.size < hot.size
    requires hot.name != "" && small.name != "" && hot.name != small.name
    ensures var cold := hot.(loaded := false);
      forall configured :: configured != hot.name && configured != small.name ==>
        && Chosen(c, configured, [hot, cold, small]) == Some(Choice(hot.name, hot.size, true))
        && Chosen(c, configured, [cold, hot, small]) == Some(Choice(small.name, small.size, false))
  {
    var cold := hot.(loaded := false);
    forall configured | configured != hot.name && configured != small.name
      ensures Chosen(c, configured, [hot, cold, small]) == Some(Choice(hot.name, hot.size, true))
      ensures Chosen(c, configured, [cold, hot, small]) == Some(Choice(small.name, small.size, false))
    {
      PrefersLoaded(c, configured, hot, cold, small);
      PrefersSmall(c, configured, hot, cold, small);
    }
  }

  /** A candidate no other candidate outranks or ties with is the choice. */
  lemma BestIsChosen(c: Criteria, configured: string, items: seq<Item>, best: Item)
    requires !Installed(items, configured) && ModelSelection.Candidate(c, items, best)
    requires forall item :: item in items && item != best && ModelSelection.Candidate(c, items, item) ==>
               !RanksBefore(c, item, best)
    ensures Chosen(c, configured, items) == Some(Choice(best.name, best.size, best.loaded))
  {
    ChosenExactly(c, configured, items);
    var item :| ModelSelection.Candidate(c, items, item)
        && Chosen(c, configured, items).value == Choice(item.name, item.size, item.loaded)
             && RanksBefore(c, item, best);
    assert item in items;
  }

  lemma PrefersLoaded(c: Criteria, configured: string, hot: Item, cold: Item, small: Item)
    requires c.req == RequirementsFor("e2b") && c.evidence == []
    requires cold == hot.(loaded := false) && hot.loaded && !small.loaded
    requires hot.name != "" && small.name != "" && hot.name != small.name && configured != hot.name
        && configured != small.name
    ensures Chosen(c, configured, [hot, cold, small]) == Some(Choice(hot.name, hot.size, true))
  {
    var items := [hot, cold, small];
    assert Named(items, hot.name) == Some(hot);
    assert MayServe(c, hot) && ModelSelection.Candidate(c, items, hot);
    assert !RanksBefore(c, small, hot);
    BestIsChosen(c, configured, items, hot);
  }

  lemma PrefersSmall(c: Criteria, configured: string, hot: Item, cold: Item, small: Item)
    requires c.req == RequirementsFor("e2b") && c.evidence == []
    requires cold == hot.(loaded := false) && hot.loaded && !small.loaded && 0 < small.size < hot.size
    requires hot.name != "" && small.name != "" && hot.name != small.name && configured != hot.name
        && configured != small.name
    ensures Chosen(c, configured, [cold, hot, small]) == Some(Choice(small.name, small.size, false))
  {
    var items := [cold, hot, small];
    assert Named(items, cold.name) == Some(cold);
    assert Named(items[1..], small.name) == Some(small) by { assert items[1..][1..] == [small]; }
    assert Named(items, small.name) == Some(small);
    assert MayServe(c, small) && ModelSelection.Candidate(c, items, small);
    assert !RanksBefore(c, cold, small);
    BestIsChosen(c, configured, items, small);
  }
}
