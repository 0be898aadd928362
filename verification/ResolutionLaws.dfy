/** What a resolution decides, read off the status rows and the cache themselves. */
module ResolutionLaws {
  import opened Orders
  import opened ModelSelection
  import opened Placement
  import opened PlacementLaws

  // ---------------------------------------------------------------- rows

  /** The model inventory counts as fresh as its own status says, or as the capability inventory where it says
      nothing. */
  ghost predicate HasStatus(row: Row, status: string) {
    if row.modelStatus != "" then row.modelStatus == status else row.capabilityStatus == status
  }

  /** The models a row is taken to report: none after a failed scan; from Fabric's observation where observations are
      published, as long as it is CURRENT or STALE; otherwise what the session scanned. */
  ghost function Shown(cache: Cache, row: Row): seq<Item> {
    if row.id in cache.errors then []
    else if !cache.api then (if row.id in cache.inventories then cache.inventories[row.id] else [])
    else if row.observed.None? || (row.capabilityStatus != "CURRENT" && row.capabilityStatus != "STALE") then []
    else row.observed.value
  }

  /** A row work may be routed to. */
  ghost predicate Open(row: Row) {
    && (row.source == "" || row.source == "remote" || row.source == "registry")
    && row.availability == "AVAILABLE" && (HasStatus(row, "CURRENT") || HasStatus(row, "STALE"))
  }

  lemma RowExactly(cache: Cache, row: Row)
    ensures WorkerInventory(cache, row) == Shown(cache, row) && (Routable(row) <==> Open(row))
    ensures Freshness(row) == "CURRENT" <==> HasStatus(row, "CURRENT")
    ensures Freshness(row) == "STALE" <==> HasStatus(row, "STALE")
  {
    assert "UNKNOWN"[0] == 'U' && "CURRENT"[0] == 'C' && "STALE"[0] == 'S';
  }

  /** The row a worker id is looked up as: the first one. */
  ghost predicate IsRowOf(rows: seq<Row>, id: string, row: Row) {
    exists i :: 0 <= i < |rows| && rows[i] == row && row.id == id && forall k :: 0 <= k < i ==> rows[k].id != id
  }

  lemma {:induction false} FirstRowExactly(rows: seq<Row>, id: string, row: Row)
    ensures FirstRow(rows, id) == Some(row) <==> IsRowOf(rows, id, row)
  {
    if |rows| > 0 && rows[0].id != id {
      var rest := rows[1..];
      FirstRowExactly(rest, id, row);
      if IsRowOf(rest, id, row) {
        var i :| 0 <= i < |rest| && rest[i] == row && row.id == id && forall k :: 0 <= k < i ==> rest[k].id != id;
        assert rows[i + 1] == row;
        forall k | 0 <= k < i + 1 ensures rows[k].id != id { assert k > 0 ==> rows[k] == rest[k - 1]; }
      }
      if IsRowOf(rows, id, row) {
        var i :| 0 <= i < |rows| && rows[i] == row && row.id == id && forall k :: 0 <= k < i ==> rows[k].id != id;
        assert rest[i - 1] == row && forall k :: 0 <= k < i - 1 ==> rest[k] == rows[k + 1];
      }
    } else if |rows| > 0 {
      assert rows[0].id == id;
    }
  }

  // ---------------------------------------------------------------- ranking

  /** The worker has this model as its explicit resident. */
  ghost predicate ResidentOn(residents: map<string, string>, worker: string, model: string) {
    worker in residents && residents[worker] == model
  }

  /** A worker is ranked no later than another: holding the model loaded comes first where that is preferred, then
      having it as its resident, then the smaller id. */
  ghost predicate Precedes(prefer: bool, residents: map<string, string>, model: string, worker: string, loaded: bool,
      other: string, otherLoaded: bool)
  {
    if prefer && loaded != otherLoaded then loaded
    else if ResidentOn(residents, worker, model) != ResidentOn(residents, other, model)
    then ResidentOn(residents, worker, model)
    else StrLe(worker, other)
  }

  lemma PrecedesExactly(prefer: bool, residents: map<string, string>, model: string, worker: string, loaded: bool,
      other: string, otherLoaded: bool)
    ensures SpotLe(SpotOf(prefer, residents, model, worker, loaded),
                   SpotOf(prefer, residents, model, other, otherLoaded))
       <==> Precedes(prefer, residents, model, worker, loaded, other, otherLoaded)
  {
  }

  /** The row is routed to, reports the model, and, for a bare model pin, some row of its id is CURRENT. */
  ghost predicate Offering(s: Setting, rows: seq<Row>, live: bool, model: string, row: Row) {
    && row in rows && Open(row) && Named(Shown(s.cache, row), model).Some?
    && (live ==> exists other :: other in rows && other.id == row.id && HasStatus(other, "CURRENT"))
  }

  ghost predicate HoldsLoaded(s: Setting, row: Row, model: string) {
    Named(Shown(s.cache, row), model).Some? && Named(Shown(s.cache, row), model).value.loaded
  }

  /** Of all rows offering the model none is ranked before this one. */
  ghost predicate First(s: Setting, rows: seq<Row>, live: bool, prefer: bool, model: string, row: Row) {
    && Offering(s, rows, live, model, row)
    && forall other :: Offering(s, rows, live, model, other) ==>
         Precedes(prefer, s.residents, model, row.id, HoldsLoaded(s, row, model), other.id,
                  HoldsLoaded(s, other, model))
  }

  /** The candidates a placement looks at. */
  ghost function Pool(s: Setting, rows: seq<Row>, live: bool): seq<Candidate> {
    if live then CurrentOnly(rows, Candidates(s.cache, rows)) else Candidates(s.cache, rows)
  }

  lemma CurrentRowExactly(rows: seq<Row>, id: string, cache: Cache)
    ensures HasCurrentRow(rows, id) <==> exists row :: row in rows && row.id == id && HasStatus(row, "CURRENT")
  {
    if HasCurrentRow(rows, id) {
      var i :| 0 <= i < |rows| && rows[i].id == id && Freshness(rows[i]) == "CURRENT";
      RowExactly(cache, rows[i]);
      assert rows[i] in rows;
    }
    if row :| row in rows && row.id == id && HasStatus(row, "CURRENT") {
      RowExactly(cache, row);
      var i :| 0 <= i < |rows| && rows[i] == row;
    }
  }

  /** The pool holds exactly the offering rows' candidates. */
  lemma PoolExactly(s: Setting, rows: seq<Row>, live: bool, model: string, c: Candidate)
    ensures c in Pool(s, rows, live) && Named(c.1, model).Some? <==>
      exists row :: Offering(s, rows, live, model, row) && c == (row.id, Shown(s.cache, row))
  {
    CandidatesMeaning(s.cache, rows, c);
    CurrentOnlyMeaning(rows, Candidates(s.cache, rows), c);
    CurrentRowExactly(rows, c.0, s.cache);
    if c in Candidates(s.cache, rows) {
      var row :| row in rows && Contributes(s.cache, row, c);
      RowExactly(s.cache, row);
      assert Named(c.1, model).Some? && (live ==> HasCurrentRow(rows, c.0)) ==> Offering(s, rows, live, model, row);
    }
    if row :| Offering(s, rows, live, model, row) && c == (row.id, Shown(s.cache, row)) {
      RowExactly(s.cache, row);
      assert Contributes(s.cache, row, c);
    }
  }

  /** The winner of the pool is a row none precedes. */
  lemma WinnerExactly(s: Setting, rows: seq<Row>, live: bool, prefer: bool, model: string)
    ensures var w := Winner(prefer, s.residents, model, Pool(s, rows, live));
      && (w.None? <==> forall row :: !Offering(s, rows, live, model, row))
      && (w.Some? ==> exists row ::
            First(s, rows, live, prefer, model, row) && w.value == (row.id, Shown(s.cache, row)))
  {
    var pool := Pool(s, rows, live);
    var w := Winner(prefer, s.residents, model, pool);
    WinnerHoldsLeast(prefer, s.residents, model, pool);
    LeastMeaning(Spots(prefer, s.residents, model, pool));
    forall row | Offering(s, rows, live, model, row)
      ensures SpotOf(prefer, s.residents, model, row.id, HoldsLoaded(s, row, model))
           in Spots(prefer, s.residents, model, pool)
    {
      var c := (row.id, Shown(s.cache, row));
      PoolExactly(s, rows, live, model, c);
      var spot := SpotOf(prefer, s.residents, model, row.id, HoldsLoaded(s, row, model));
      SpotsMeaning(prefer, s.residents, model, pool, spot);
    }
    if w.Some? {
      PoolExactly(s, rows, live, model, w.value);
      var row :| Offering(s, rows, live, model, row) && w.value == (row.id, Shown(s.cache, row));
      forall other | Offering(s, rows, live, model, other)
        ensures Precedes(prefer, s.residents, model, row.id, HoldsLoaded(s, row, model), other.id,
                         HoldsLoaded(s, other, model))
      {
        PrecedesExactly(prefer, s.residents, model, row.id, HoldsLoaded(s, row, model), other.id,
          HoldsLoaded(s, other, model));
      }
      assert First(s, rows, live, prefer, model, row);
    }
  }

  // ---------------------------------------------------------------- selections

  /** The status a selection quotes for its worker: that of the first row of the id. */
  ghost function Quoted(rows: seq<Row>, worker: string): string {
    var row := FirstRow(rows, worker);
    if row.None? then "UNKNOWN"
    else if row.value.modelStatus != "" then row.value.modelStatus
    else if row.value.capabilityStatus != "" then row.value.capabilityStatus
    else "UNKNOWN"
  }

  /** An available selection of the model on the worker, described from the inventory. */
  ghost predicate Describes(s: Setting, rows: seq<Row>, sel: Selection, worker: string, model: string,
      items: seq<Item>)
  {
    && sel.available && sel.worker == Some(worker) && sel.model == model && sel.status == Quoted(rows, worker)
    && (sel.loaded <==> Named(items, model).Some? && Named(items, model).value.loaded)
    && (sel.resident <==> ResidentOn(s.residents, worker, model))
  }

  /** A record that says why nothing is available. */
  ghost predicate Refuses(sel: Selection, code: string, worker: Option<string>, model: string) {
    !sel.available && sel.worker == worker && sel.model == model && sel.status == code && !sel.loaded && !sel.resident
  }

  lemma SelectedExactly(s: Setting, rows: seq<Row>, worker: string, model: string, items: seq<Item>)
    ensures Describes(s, rows, Selected(s, rows, worker, model, items), worker, model, items)
  {
  }

  /** What a worker pin resolves to before fallback is considered. */
  ghost predicate WorkerPinned(s: Setting, rows: seq<Row>, q: Override, sel: Selection) {
    var named := if q.mode.WORKER? then s.configured else q.model;
    if forall row :: IsRowOf(rows, q.worker, row) ==> row.availability != "AVAILABLE"
    then Refuses(sel, "PINNED_WORKER_UNAVAILABLE", Some(q.worker), named)
    else exists row :: IsRowOf(rows, q.worker, row) && PinnedOn(s, rows, q, sel, row, named)
  }

  ghost predicate PinnedOn(s: Setting, rows: seq<Row>, q: Override, sel: Selection, row: Row, named: string) {
    var items := Shown(s.cache, row);
    if !HasStatus(row, "CURRENT") && !(q.mode.WORKER_MODEL? && HasStatus(row, "STALE"))
    then Refuses(sel, "PINNED_INVENTORY_NOT_CURRENT", Some(q.worker), named)
    else if q.mode.WORKER? then
      var chosen := Chosen(s.criteria, s.configured, Stripped(s.strip, items));
      if chosen.None? then Refuses(sel, "PINNED_WORKER_HAS_NO_ELIGIBLE_MODEL", Some(q.worker), s.configured)
      else Describes(s, rows, sel, q.worker, chosen.value.model, items)
    else if Named(items, q.model).None? then Refuses(sel, "PINNED_MODEL_MISSING", Some(q.worker), q.model)
    else Describes(s, rows, sel, q.worker, q.model, items)
  }

  lemma WorkerPinExactly(s: Setting, rows: seq<Row>, q: Override)
    ensures WorkerPinned(s, rows, q, WorkerPin(s, rows, q))
  {
    var target := FirstRow(rows, q.worker);
    forall row ensures IsRowOf(rows, q.worker, row) <==> target == Some(row) { FirstRowExactly(rows, q.worker, row); }
    if target.Some? {
      RowExactly(s.cache, target.value);
      var named := if q.mode.WORKER? then s.configured else q.model;
      assert target.value.availability == "AVAILABLE" ==>
          PinnedOn(s, rows, q, WorkerPin(s, rows, q), target.value, named);
    }
  }

  /** Every model the open rows report, row by row. */
  ghost function Listing(s: Setting, rows: seq<Row>): seq<Item> {
    if |rows| == 0 then []
    else
      var last := rows[|rows| - 1];
      Listing(s, rows[..|rows| - 1]) + (if Open(last) then Shown(s.cache, last) else [])
  }

  lemma {:induction false} CombinedAppend(a: seq<Placement.Candidate>, b: seq<Placement.Candidate>)
    ensures Combined(a + b) == Combined(a) + Combined(b)
  {
    if |a| == 0 {
      assert a + b == b;
    } else {
      assert (a + b)[0] == a[0] && (a + b)[1..] == a[1..] + b;
      CombinedAppend(a[1..], b);
      assert a[0].1 + (Combined(a[1..]) + Combined(b)) == a[0].1 + Combined(a[1..]) + Combined(b);
    }
  }

  lemma {:induction false} ListingExactly(s: Setting, rows: seq<Row>)
    ensures Combined(Candidates(s.cache, rows)) == Listing(s, rows)
  {
    if |rows| > 0 {
      var init, last := rows[..|rows| - 1], rows[|rows| - 1];
      ListingExactly(s, init);
      RowExactly(s.cache, last);
      var before, c := Candidates(s.cache, init), (last.id, Shown(s.cache, last));
      if Open(last) && Shown(s.cache, last) != [] {
        assert Candidates(s.cache, rows) == before + [c];
        CombinedAppend(before, [c]);
        assert [c][1..] == [] && Combined([c]) == Shown(s.cache, last) + [];
      } else {
        assert Candidates(s.cache, rows) == before + [];
        assert Listing(s, init) + [] == Listing(s, init) && before + [] == before;
      }
    }
  }

  /** The model is placed on a row none precedes. */
  ghost predicate PlacedFirst(s: Setting, rows: seq<Row>, live: bool, prefer: bool, model: string, sel: Selection) {
    exists row :: First(s, rows, live, prefer, model, row)
               && Describes(s, rows, sel, row.id, model, Shown(s.cache, row))
  }

  ghost predicate Offered(s: Setting, rows: seq<Row>, live: bool, model: string) {
    exists row :: Offering(s, rows, live, model, row)
  }

  /** What automatic placement leads to: the configured model where it is offered, else the choice made from all that
      is listed, where that is offered. */
  ghost predicate AutoReads(s: Setting, rows: seq<Row>, r: Option<Selection>) {
    if Offered(s, rows, false, s.configured)
    then r.Some? && PlacedFirst(s, rows, false, s.preferResident, s.configured, r.value)
    else
      var choice := Chosen(s.criteria, s.configured, Stripped(s.strip, Listing(s, rows)));
      if choice.None? || !Offered(s, rows, false, choice.value.model) then r == None
      else r.Some? && PlacedFirst(s, rows, false, s.preferResident, choice.value.model, r.value)
  }

  lemma PlacementExactly(s: Setting, rows: seq<Row>, live: bool, prefer: bool, model: string)
    ensures var w := Winner(prefer, s.residents, model, Pool(s, rows, live));
      && (w.Some? <==> Offered(s, rows, live, model))
      && Place(prefer, s.residents, model, Pool(s, rows, live)) == (if w.None? then None else Some(w.value.0))
      && (w.Some? ==> PlacedFirst(s, rows, live, prefer, model, Selected(s, rows, w.value.0, model, w.value.1)))
  {
    WinnerExactly(s, rows, live, prefer, model);
    WinnerHoldsLeast(prefer, s.residents, model, Pool(s, rows, live));
    var w := Winner(prefer, s.residents, model, Pool(s, rows, live));
    if w.Some? { SelectedExactly(s, rows, w.value.0, model, w.value.1); }
  }

  lemma AutoExactly(s: Setting, rows: seq<Row>)
    ensures AutoReads(s, rows, AutoSelection(s, rows, Candidates(s.cache, rows)))
  {
    ListingExactly(s, rows);
    PlacementExactly(s, rows, false, s.preferResident, s.configured);
    AutoFrom(s, rows, Candidates(s.cache, rows), Fallback(s, Candidates(s.cache, rows)));
  }

  lemma AutoFrom(s: Setting, rows: seq<Row>, candidates: seq<Placement.Candidate>, choice: Option<Choice>)
    requires candidates == Pool(s, rows, false) && choice == Fallback(s, candidates)
    requires choice == Chosen(s.criteria, s.configured, Stripped(s.strip, Listing(s, rows)))
    ensures AutoReads(s, rows, AutoSelection(s, rows, candidates))
  {
    PlacementExactly(s, rows, false, s.preferResident, s.configured);
    if choice.Some? { PlacementExactly(s, rows, false, s.preferResident, choice.value.model); }
  }

  // ---------------------------------------------------------------- the whole resolution

  /** Why nothing could be placed. */
  ghost function Diagnosis(status: Status): string {
    if status.state != "available" then "FABRIC_UNAVAILABLE"
    else if forall row :: row in status.rows ==> row.source != "remote" then "UNKNOWN"
    else if forall row :: row in status.rows && row.source == "remote" ==> row.availability != "AVAILABLE"
    then "WORKER_UNAVAILABLE"
    else if exists row :: row in status.rows && row.source == "remote" && row.availability == "AVAILABLE"
                       && row.capabilityStatus == "STALE" then "STALE"
    else if forall row :: row in status.rows && row.source == "remote" && row.availability == "AVAILABLE" ==>
              row.capabilityStatus == "CURRENT" then "MODEL_NOT_INSTALLED"
    else "UNKNOWN"
  }

  lemma DiagnosisExactly(status: Status)
    ensures UnavailableStatus(status.rows, status.state) == Diagnosis(status)
  {
    var rows := status.rows;
    forall row | row in rows ensures exists i :: 0 <= i < |rows| && rows[i] == row {}
    assert forall i :: 0 <= i < |rows| ==> rows[i] in rows;
  }

  /** Automatic placement, or what is reported in its stead. */
  ghost predicate AutoOutcome(s: Setting, status: Status, r: Option<Selection>) {
    exists auto :: AutoReads(s, status.rows, auto) &&
      if auto.Some? then r == auto
      else if s.enabled then r.Some? && Refuses(r.value, Diagnosis(status), None, s.configured)
      else r == None
  }

  /** What a request resolves to, mode by mode. */
  ghost predicate ResolutionReads(s: Setting, status: Status, q: Override, r: Option<Selection>) {
    match q.mode
    case AUTO => AutoOutcome(s, status, r)
    case ROLE => AutoOutcome(s, status, r)
    case MODEL =>
      if Offered(s, status.rows, true, q.model)
      then r.Some? && PlacedFirst(s, status.rows, true, true, q.model, r.value)
      else if q.allowFallback then AutoOutcome(s, status, r)
      else r.Some? && Refuses(r.value, "PINNED_MODEL_UNAVAILABLE", None, q.model)
    case _ =>
      exists pin :: WorkerPinned(s, status.rows, q, pin) &&
        if pin.available || !q.allowFallback then r == Some(pin) else AutoOutcome(s, status, r)
  }

  lemma AutoOutcomeExactly(s: Setting, status: Status)
    ensures var auto := AutoSelection(s, status.rows, Candidates(s.cache, status.rows));
      AutoOutcome(s, status,
        if auto.Some? then auto
        else if s.enabled then Some(Unavailable(UnavailableStatus(status.rows, status.state), None, s.configured))
        else None)
  {
    AutoExactly(s, status.rows);
    DiagnosisExactly(status);
  }

  lemma ModelResolves(s: Setting, status: Status, q: Override)
    requires q.mode.MODEL?
    ensures ResolutionReads(s, status, q, Resolved(s, status, q))
  {
    AutoOutcomeExactly(s, status);
    PlacementExactly(s, status.rows, true, true, q.model);
  }

  lemma WorkerResolves(s: Setting, status: Status, q: Override)
    requires PinsWorker(q.mode)
    ensures ResolutionReads(s, status, q, Resolved(s, status, q))
  {
    AutoOutcomeExactly(s, status);
    WorkerPinExactly(s, status.rows, q);
  }

  /** Every resolution, over everything it depends on. */
  lemma ResolvedExactly(s: Setting, status: Status, q: Override)
    ensures ResolutionReads(s, status, q, Resolved(s, status, q))
  {
    match q.mode
    case AUTO => AutoOutcomeExactly(s, status);
    case ROLE => AutoOutcomeExactly(s, status);
    case MODEL => ModelResolves(s, status, q);
    case _ => WorkerResolves(s, status, q);
  }
}
