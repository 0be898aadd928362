/** The session's inventory cache across refreshes, and the codec that publishes a
    model inventory as capability entries. */
module InventorySession {
  import opened Orders
  import opened ModelSelection
  import Placement

  // ---------------------------------------------------------------- refreshing the cache

  /** How one worker's scan went: probed, with the error if publishing the inventory failed, or not probed. After
      either error an unavailable observation is published, which may fail in its turn. */
  datatype Scan =
    | Scanned(inventory: seq<Item>, ingestError: Option<string>, publishError: Option<string>)
    | ProbeFailed(error: string, publishError: Option<string>)

  datatype Listed = Listed(id: string, remote: bool, available: bool, scan: Scan)

  /** The answer to one refresh: not supported here, the worker list could not be read, or the workers in turn. */
  datatype Listing = Unsupported | ListFailed(error: string) | Workers(rows: seq<Listed>)

  /** `api`: inventories are published to Fabric instead of being kept by the session. */
  datatype State = State(api: bool, inventories: map<string, seq<Item>>, errors: map<string, string>)

  const STAR := "*"

  predicate Scannable(w: Listed) { w.id != "" && w.remote && w.available }

  predicate ScanFails(api: bool, scan: Scan) {
    scan.ProbeFailed? || (api && scan.ingestError.Some?)
  }

  function ScanError(api: bool, scan: Scan): string {
    var error := match scan
      case ProbeFailed(error, _) => error
      case Scanned(_, ingestError, _) => if ingestError.Some? then ingestError.value else "";
    if api && scan.publishError.Some?
        then error + "; failed to publish unavailable observation: " + scan.publishError.value else error
  }

  function AfterWorker(s: State, w: Listed): State {
    if !Scannable(w) then s
    else if ScanFails(s.api, w.scan) then
      s.(inventories := s.inventories - {w.id}, errors := s.errors[w.id := ScanError(s.api, w.scan)])
    else if s.api then s.(inventories := s.inventories - {w.id}, errors := s.errors - {w.id})
    else s.(inventories := s.inventories[w.id := w.scan.inventory], errors := s.errors - {w.id})
  }

  function AfterWorkers(s: State, rows: seq<Listed>): State {
    if |rows| == 0 then s else AfterWorker(AfterWorkers(s, rows[..|rows| - 1]), rows[|rows| - 1])
  }

  function ObservedRemote(rows: seq<Listed>): set<string> {
    set w | w in rows && w.remote && w.id != "" :: w.id
  }

  function Pruned(s: State, observed: set<string>): State {
    s.(inventories := map w | w in s.inventories && w in observed :: s.inventories[w],
       errors := map w | w in s.errors && (w == STAR || w in observed) :: s.errors[w])
  }

  function AfterRefresh(s: State, listing: Listing): State {
    match listing
    case Unsupported => s
    case ListFailed(error) => s.(errors := s.errors[STAR := error])
    case Workers(rows) => Pruned(AfterWorkers(s, rows), ObservedRemote(rows))
  }

  /** What a connection finds: a client or none, the controller mode, and whether the client publishes observations. */
  datatype Connection = Connection(connected: bool, embedded: bool, serviceExecution: bool, ingests: bool) {
    predicate Supported() { embedded || serviceExecution }
  }

  /** Connecting with a client decides anew whether observations are published, and may refresh at once. */
  function AfterConnect(s: State, c: Connection, refresh: bool, listing: Listing): State {
    if !c.connected then s
    else AfterRefresh(s.(api := c.Supported() && c.ingests), if refresh && c.Supported() then listing else Unsupported)
  }

  class InventoryCache {
    var api: bool
    var modelInventories: map<string, seq<Item>>
    var modelInventoryErrors: map<string, string>

    function Contents(): State reads this {
      State(api, modelInventories, modelInventoryErrors)
    }

    constructor ()
      ensures Contents() == EMPTY
    {
      api, modelInventories, modelInventoryErrors := false, map[], map[];
    }

    method Initialize(c: Connection, refresh: bool, listing: Listing)
      modifies this
      ensures Contents() == AfterConnect(old(Contents()), c, refresh, listing)
    {
      if c.connected {
        api := c.Supported() && c.ingests;
        if refresh && c.Supported() { RefreshModelInventories(listing); }
      }
    }

    method RefreshModelInventories(listing: Listing)
      modifies `modelInventories, `modelInventoryErrors
      ensures Contents() == AfterRefresh(old(Contents()), listing)
    {
      match listing
      case Unsupported => return;
      case ListFailed(error) =>
        modelInventoryErrors := modelInventoryErrors[STAR := error];
        return;
      case Workers(rows) =>
        var observed: set<string> := {};
        for i := 0 to |rows|
          invariant observed == ObservedRemote(rows[..i])
          invariant Contents() == AfterWorkers(old(Contents()), rows[..i])
        {
          assert rows[..i + 1][..i] == rows[..i];
          assert rows[..i + 1] == rows[..i] + [rows[i]];
          ObservedStep(rows[..i], rows[i]);
          if rows[i].remote && rows[i].id != "" { observed := observed + {rows[i].id}; }
          if Scannable(rows[i]) { RecordScan(rows[i]); }
        }
        assert rows[..|rows|] == rows;
        modelInventories := map w | w in modelInventories && w in observed :: modelInventories[w];
        modelInventoryErrors := map w | w in modelInventoryErrors
          && (w == STAR || w in observed) :: modelInventoryErrors[w];
    }

    /** One worker's try/except: a failed fresh scan also forgets the stale inventory. */
    method RecordScan(w: Listed)
      requires Scannable(w)
      modifies `modelInventories, `modelInventoryErrors
      ensures Contents() == AfterWorker(old(Contents()), w)
    {
      if ScanFails(api, w.scan) {
        modelInventories := modelInventories - {w.id};
        modelInventoryErrors := modelInventoryErrors[w.id := ScanError(api, w.scan)];
        return;
      }
      if api {
        modelInventories := modelInventories - {w.id};
      } else {
        modelInventories := modelInventories[w.id := w.scan.inventory];
      }
      modelInventoryErrors := modelInventoryErrors - {w.id};
    }
  }

  lemma ObservedStep(rows: seq<Listed>, w: Listed)
    ensures ObservedRemote(rows + [w]) == ObservedRemote(rows) + (if w.remote && w.id != "" then {w.id} else {})
  {
    assert w in rows + [w];
    forall x | x in rows ensures x in rows + [w] {}
  }

  // ---------------------------------------------------------------- what every refresh keeps

  /** No worker is both routable and failed; the list error is kept under a name of its own. */
  ghost predicate Exclusive(s: State) {
    forall w :: w != STAR && w in s.inventories ==> w !in s.errors
  }

  ghost predicate Within(s: State, observed: set<string>) {
    s.inventories.Keys <= observed && s.errors.Keys <= observed + {STAR}
  }

  lemma {:induction false} WorkersKeepExclusive(s: State, rows: seq<Listed>)
    requires Exclusive(s)
    ensures Exclusive(AfterWorkers(s, rows)) && AfterWorkers(s, rows).api == s.api
  {
    if |rows| > 0 { WorkersKeepExclusive(s, rows[..|rows| - 1]); }
  }

  const EMPTY := State(false, map[], map[])

  datatype Step = Connect(c: Connection, refresh: bool, listing: Listing) | Refresh(listing: Listing)

  function AfterStep(s: State, step: Step): State {
    match step
    case Connect(c, refresh, listing) => AfterConnect(s, c, refresh, listing)
    case Refresh(listing) => AfterRefresh(s, listing)
  }

  function AfterSteps(steps: seq<Step>): State {
    if |steps| == 0 then EMPTY else AfterStep(AfterSteps(steps[..|steps| - 1]), steps[|steps| - 1])
  }

  /** The step reads the worker list. */
  predicate Lists(step: Step) {
    step.listing.Workers? && (step.Connect? ==> step.c.connected && step.c.Supported() && step.refresh)
  }

  /** Over any sequence of connections and refreshes no worker is in both tables, and a step that could list the
      workers leaves only workers it observed (and the list error). */
  lemma {:induction false} EveryRefreshKeepsTables(steps: seq<Step>)
    ensures Exclusive(AfterSteps(steps))
    ensures |steps| > 0 && Lists(steps[|steps| - 1]) ==>
              Within(AfterSteps(steps), ObservedRemote(steps[|steps| - 1].listing.rows))
  {
    if |steps| > 0 {
      var before, last := AfterSteps(steps[..|steps| - 1]), steps[|steps| - 1];
      EveryRefreshKeepsTables(steps[..|steps| - 1]);
      if last.listing.Workers? {
        WorkersKeepExclusive(before, last.listing.rows);
        if last.Connect? {
          WorkersKeepExclusive(before.(api := last.c.Supported() && last.c.ingests), last.listing.rows);
        }
      }
    }
  }

  /** No name at all is in both tables. */
  ghost predicate Apart(s: State) { s.inventories.Keys !! s.errors.Keys }

  lemma {:induction false} WorkersKeepApart(s: State, rows: seq<Listed>)
    requires Apart(s)
    ensures Apart(AfterWorkers(s, rows))
  {
    if |rows| > 0 {
      var before, w := AfterWorkers(s, rows[..|rows| - 1]), rows[|rows| - 1];
      WorkersKeepApart(s, rows[..|rows| - 1]);
      var after := AfterWorker(before, w);
      assert after.inventories.Keys <= before.inventories.Keys + {w.id};
      assert after.errors.Keys <= before.errors.Keys + {w.id};
    }
  }

  /** The one refresh that puts a name in both tables: the list cannot be read while a worker called "*" has an
      inventory. */
  lemma TablesCollideExactly(s: State, listing: Listing)
    requires Apart(s)
    ensures Apart(AfterRefresh(s, listing)) <==> !(listing.ListFailed? && STAR in s.inventories)
  {
    match listing
    case Workers(rows) =>
      WorkersKeepApart(s, rows);
      var after := AfterWorkers(s, rows);
      assert AfterRefresh(s, listing).inventories.Keys <= after.inventories.Keys;
      assert AfterRefresh(s, listing).errors.Keys <= after.errors.Keys;
    case ListFailed(error) =>
      assert AfterRefresh(s, listing).errors.Keys == s.errors.Keys + {STAR};
    case Unsupported =>
  }

  /** It happens: a worker called "*" is in both tables after a good scan on connecting without publication followed
      by a refresh that cannot list the workers. */
  lemma StarCollides(c: Connection, inventory: seq<Item>, error: string)
    requires c.connected && c.Supported() && !c.ingests
    ensures var listed := Workers([Listed(STAR, true, true, Scanned(inventory, None, None))]);
      var s := AfterSteps([Connect(c, true, listed), Refresh(ListFailed(error))]);
      STAR in s.inventories && STAR in s.errors
  {
    var listed := Workers([Listed(STAR, true, true, Scanned(inventory, None, None))]);
    var first, second := Connect(c, true, listed), Refresh(ListFailed(error));
    var both := [first, second];
    assert both[..1] == [first] && [first][..0] == [] && listed.rows[..0] == [];
    var s := AfterWorkers(EMPTY, listed.rows);
    assert AfterWorkers(EMPTY, listed.rows[..0]) == EMPTY;
    assert s == AfterWorker(EMPTY, listed.rows[0]);
    assert STAR in s.inventories;
    assert listed.rows[0] in listed.rows;
    assert STAR in ObservedRemote(listed.rows);
    assert AfterSteps([first]) == AfterRefresh(EMPTY, listed);
    assert AfterSteps(both) == AfterRefresh(AfterSteps([first]), ListFailed(error));
  }

  /** The listing's last scan of the worker. */
  ghost predicate ScannedAs(rows: seq<Listed>, id: string, scan: Scan) {
    && id != ""
    && exists i :: 0 <= i < |rows| && Probed(rows[i], id) && rows[i].scan == scan
                && forall k :: i < k < |rows| ==> !Probed(rows[k], id)
  }

  ghost predicate Probed(w: Listed, id: string) { w.id == id && w.remote && w.available }

  /** The scan went through, its inventory published where it has to be. */
  ghost predicate WentThrough(api: bool, scan: Scan) { scan.Scanned? && (api ==> scan.ingestError == None) }

  /** The error recorded for a scan that did not. */
  ghost predicate Records(api: bool, scan: Scan, error: string) {
    exists cause :: Caused(scan, cause) && error ==
      if api && scan.publishError.Some?
      then cause + "; failed to publish unavailable observation: " + scan.publishError.value
      else cause
  }

  ghost predicate Caused(scan: Scan, cause: string) {
    if scan.ProbeFailed? then cause == scan.error else scan.ingestError == Some(cause)
  }

  ghost predicate Remote(rows: seq<Listed>, id: string) {
    id != "" && exists w :: w in rows && w.remote && w.id == id
  }

  lemma {:induction false} LastScanExactly(rows: seq<Listed>, id: string, scan: Scan)
    ensures LastScan(rows, id) == Some(scan) <==> ScannedAs(rows, id, scan)
  {
    if |rows| > 0 {
      var init, last := rows[..|rows| - 1], rows[|rows| - 1];
      if Probed(last, id) && id != "" {
        assert rows[|rows| - 1] == last;
      } else {
        LastScanExactly(init, id, scan);
        if ScannedAs(init, id, scan) {
          var i :| 0 <= i < |init| && Probed(init[i], id) && init[i].scan == scan
                && forall k :: i < k < |init| ==> !Probed(init[k], id);
          assert rows[i] == init[i];
          forall k | i < k < |rows| ensures !Probed(rows[k], id) { assert k < |init| ==> rows[k] == init[k]; }
        }
        if ScannedAs(rows, id, scan) {
          var i :| 0 <= i < |rows| && Probed(rows[i], id) && rows[i].scan == scan
                && forall k :: i < k < |rows| ==> !Probed(rows[k], id);
          assert init[i] == rows[i] && forall k :: i < k < |init| ==> init[k] == rows[k];
        }
      }
    }
  }

  /** What a successful listing leaves of one worker: its last scan decides, or where it was not scanned its former
      entries, and either only while the listing shows it as remote. */
  ghost predicate Leaves(before: State, rows: seq<Listed>, id: string, after: State) {
    && (forall scan :: ScannedAs(rows, id, scan) ==> ScanLeaves(before.api, id, scan, after))
    && ((forall scan :: !ScannedAs(rows, id, scan)) ==>
          && (id in after.inventories <==> id in before.inventories && Remote(rows, id))
          && (id in after.inventories ==> after.inventories[id] == before.inventories[id])
          && (id in after.errors <==> id in before.errors && (id == "*" || Remote(rows, id)))
          && (id in after.errors ==> after.errors[id] == before.errors[id]))
  }

  ghost predicate ScanLeaves(api: bool, id: string, scan: Scan, after: State) {
    if WentThrough(api, scan) then
      && id !in after.errors
      && (if api then id !in after.inventories
          else id in after.inventories && after.inventories[id] == scan.inventory)
    else id !in after.inventories && id in after.errors && Records(api, scan, after.errors[id])
  }

  /** The last scan a listing makes of a worker, if it makes one. */
  function LastScan(rows: seq<Listed>, id: string): Option<Scan> {
    if |rows| == 0 then None
    else if Scannable(rows[|rows| - 1]) && rows[|rows| - 1].id == id then Some(rows[|rows| - 1].scan)
    else LastScan(rows[..|rows| - 1], id)
  }

  lemma {:induction false} ScanDecides(s: State, rows: seq<Listed>, id: string)
    ensures var t := AfterWorkers(s, rows);
      && t.api == s.api
      && match LastScan(rows, id)
         case None =>
           && (id in t.inventories <==> id in s.inventories) && (id in t.errors <==> id in s.errors)
           && (id in t.inventories ==> t.inventories[id] == s.inventories[id])
           && (id in t.errors ==> t.errors[id] == s.errors[id])
         case Some(scan) =>
           if ScanFails(s.api, scan) then
             id in t.errors && t.errors[id] == ScanError(s.api, scan) && id !in t.inventories
           else if s.api then id !in t.errors && id !in t.inventories
           else id !in t.errors && id in t.inventories && t.inventories[id] == scan.inventory
  {
    if |rows| > 0 { ScanDecides(s, rows[..|rows| - 1], id); }
  }

  lemma {:induction false} ScannedIsObserved(rows: seq<Listed>, id: string)
    requires LastScan(rows, id).Some?
    ensures id in ObservedRemote(rows)
  {
    var last := rows[|rows| - 1];
    if Scannable(last) && last.id == id {
      assert last in rows;
    } else {
      ScannedIsObserved(rows[..|rows| - 1], id);
      var w :| w in rows[..|rows| - 1] && w.remote && w.id != "" && w.id == id;
      assert w in rows;
    }
  }

  lemma ErrorExactly(api: bool, scan: Scan)
    requires ScanFails(api, scan)
    ensures Records(api, scan, ScanError(api, scan)) && !WentThrough(api, scan)
  {
    assert Caused(scan, if scan.ProbeFailed? then scan.error else scan.ingestError.value);
  }

  /** Every refresh, name by name: an unsupported one changes nothing, an unreadable list is recorded as "*", and a
      read one leaves of each worker what its scan says. */
  lemma RefreshedExactly(s: State, listing: Listing, id: string)
    ensures var t := AfterRefresh(s, listing);
      && t.api == s.api
      && match listing
         case Unsupported => t == s
         case ListFailed(error) => t.inventories == s.inventories && t.errors == s.errors["*" := error]
         case Workers(rows) => Leaves(s, rows, id, t)
  {
    match listing
    case Workers(rows) =>
      ScanDecides(s, rows, id);
      forall scan ensures LastScan(rows, id) == Some(scan) <==> ScannedAs(rows, id, scan) {
        LastScanExactly(rows, id, scan);
      }
      ObservedExactly(rows, id);
      if LastScan(rows, id).Some? {
        ScannedIsObserved(rows, id);
        if ScanFails(s.api, LastScan(rows, id).value) { ErrorExactly(s.api, LastScan(rows, id).value); }
      }
    case _ =>
  }

  lemma ObservedExactly(rows: seq<Listed>, id: string)
    ensures id in ObservedRemote(rows) <==> Remote(rows, id)
  {
  }

  /** When a connection publishes observations, and that it refreshes where asked for and supported. */
  lemma ConnectedExactly(s: State, c: Connection, refresh: bool, listing: Listing)
    ensures var t := AfterConnect(s, c, refresh, listing);
      if !c.connected then t == s
      else
        && (t.api <==> (c.embedded || c.serviceExecution) && c.ingests)
        && t == AfterRefresh(s.(api := t.api),
                             if refresh && (c.embedded || c.serviceExecution) then listing else Unsupported)
  {
    if c.connected && refresh && c.Supported() {
      RefreshedExactly(s.(api := c.Supported() && c.ingests), listing, "");
    }
  }

  /** What routing sees of a scanned worker: nothing after a failed fresh scan, whatever was cached
      before, and in embedded mode exactly the scanned inventory after a good one. */
  lemma RoutingSeesLastScan(s: State, rows: seq<Listed>, row: Placement.Row)
    requires LastScan(rows, row.id).Some?
    ensures var t := AfterRefresh(s, Workers(rows));
      var cache := Placement.Cache(t.api, t.inventories, t.errors.Keys);
      var scan := LastScan(rows, row.id).value;
      && (ScanFails(s.api, scan) ==> Placement.WorkerInventory(cache, row) == [])
      && (!ScanFails(s.api, scan) && !s.api ==> Placement.WorkerInventory(cache, row) == scan.inventory)
  {
    ScanDecides(s, rows, row.id);
    ScannedIsObserved(rows, row.id);
  }

  // ---------------------------------------------------------------- the capability codec

  datatype ModelRecord = ModelRecord(
    name: string, provider: Option<string>, loaded: bool,
    size: Option<int>, digest: Option<string>, sizeVram: Option<int>, contextLength: Option<int>,
    modifiedAt: Option<string>, expiresAt: Option<string>, providerVersion: Option<string>,
    capabilities: Option<seq<string>>,
    format: Option<string>, family: Option<string>, parameterSize: Option<string>, quantization: Option<string>)

  datatype Attribute =
    | SizeBytes | LoadedFlag | ResidencyControl | SizeVram | ContextLength | ModifiedAt | ExpiresAt
    | ProviderVersion | OllamaCapabilities | Format | Family | ParameterSize | Quantization

  datatype Value = Num(n: int) | Txt(s: string) | Flag(b: bool) | Names(names: seq<string>)

  datatype Entry =
    | RuntimeEntry(version: Option<string>)
    | ModelEntry(name: string, namespace: string, subject: Option<string>, attributes: map<Attribute, Value>)

  function NonEmpty(v: Option<string>): Option<string> {
    if v.Some? && v.value != "" then v else None
  }

  function NonNegative(v: Option<int>): Option<int> {
    if v.Some? && v.value >= 0 then v else None
  }

  function NumFact(v: Option<int>): Option<Value> {
    if NonNegative(v).Some? then Some(Num(v.value)) else None
  }

  function TextFact(v: Option<string>): Option<Value> {
    if NonEmpty(v).Some? then Some(Txt(v.value)) else None
  }

  /** The fact stored under each attribute key, if the model carries it. */
  function Fact(m: ModelRecord, key: Attribute): Option<Value> {
    match key
    case SizeBytes => NumFact(m.size)
    case LoadedFlag => Some(Flag(m.loaded))
    case ResidencyControl => Some(Txt("provider-loopback-api"))
    case SizeVram => NumFact(m.sizeVram)
    case ContextLength => NumFact(m.contextLength)
    case ModifiedAt => TextFact(m.modifiedAt)
    case Format => TextFact(m.format)
    case Family => TextFact(m.family)
    case ParameterSize => TextFact(m.parameterSize)
    case Quantization => TextFact(m.quantization)
    case ExpiresAt => TextFact(m.expiresAt)
    case ProviderVersion => TextFact(m.providerVersion)
    case OllamaCapabilities => if m.capabilities.Some? then Some(Names(m.capabilities.value)) else None
  }

  function Attributes(m: ModelRecord): map<Attribute, Value> {
    map key: Attribute | Fact(m, key).Some? :: Fact(m, key).value
  }

  function EncodeModel(strip: string -> string, m: ModelRecord): Entry {
    ModelEntry(strip(m.name), "ollama", NonEmpty(m.digest), Attributes(m))
  }

  function GetNum(m: map<Attribute, Value>, key: Attribute): Option<int> {
    if key in m && m[key].Num? then Some(m[key].n) else None
  }

  function GetText(m: map<Attribute, Value>, key: Attribute): Option<string> {
    if key in m && m[key].Txt? then Some(m[key].s) else None
  }

  function DecodeModel(e: Entry): ModelRecord
    requires e.ModelEntry?
  {
    var a := e.attributes;
    ModelRecord(
      e.name, Some(e.namespace), LoadedFlag in a && a[LoadedFlag] == Flag(true),
      GetNum(a, SizeBytes), e.subject, GetNum(a, SizeVram), GetNum(a, ContextLength),
      GetText(a, ModifiedAt), GetText(a, ExpiresAt), GetText(a, ProviderVersion),
      if OllamaCapabilities in a && a[OllamaCapabilities].Names? then Some(a[OllamaCapabilities].names) else None,
      GetText(a, Format), GetText(a, Family), GetText(a, ParameterSize), GetText(a, Quantization))
  }

  function Versions(models: seq<ModelRecord>): seq<string> {
    if |models| == 0 then []
    else Versions(models[..|models| - 1]) +
         (if models[|models| - 1].providerVersion.Some? then [models[|models| - 1].providerVersion.value] else [])
  }

  /** The models published at all: those with a name left after stripping. */
  function Kept(strip: string -> string, models: seq<ModelRecord>): seq<ModelRecord> {
    if |models| == 0 then []
    else
      var last := models[|models| - 1];
      Kept(strip, models[..|models| - 1]) + (if strip(last.name) != "" then [last] else [])
  }

  function ModelEntries(strip: string -> string, models: seq<ModelRecord>): (r: seq<Entry>)
    ensures |r| == |models| && forall i :: 0 <= i < |r| ==> r[i] == EncodeModel(strip, models[i])
  {
    seq(|models|, i requires 0 <= i < |models| => EncodeModel(strip, models[i]))
  }

  function Encode(strip: string -> string, models: seq<ModelRecord>): seq<Entry> {
    var versions := SortedSet(StrLe, Versions(models));
    [RuntimeEntry(if |versions| == 1 then Some(versions[0]) else None)] + ModelEntries(strip, Kept(strip, models))
  }

  lemma EntriesAppend(strip: string -> string, models: seq<ModelRecord>, m: ModelRecord)
    ensures ModelEntries(strip, models + [m]) == ModelEntries(strip, models) + [EncodeModel(strip, m)]
  {
  }

  method ModelCapabilityEntries(strip: string -> string, models: seq<ModelRecord>) returns (entries: seq<Entry>)
    ensures entries == Encode(strip, models)
  {
    var versions := SortedSet(StrLe, Versions(models));
    entries := [RuntimeEntry(if |versions| == 1 then Some(versions[0]) else None)];
    ghost var head := entries;
    for i := 0 to |models|
      invariant entries == head + ModelEntries(strip, Kept(strip, models[..i]))
    {
      assert models[..i + 1][..i] == models[..i];
      if strip(models[i].name) == "" { continue; }
      EntriesAppend(strip, Kept(strip, models[..i]), models[i]);
      entries := entries + [EncodeModel(strip, models[i])];
    }
    assert models[..|models|] == models;
  }

  /** The models among the entries, as `_worker_inventory` reads them back. */
  function Decode(entries: seq<Entry>): seq<ModelRecord> {
    if |entries| == 0 then []
    else
      var last := entries[|entries| - 1];
      Decode(entries[..|entries| - 1]) + (if last.ModelEntry? then [DecodeModel(last)] else [])
  }

  /** A text that is there and not empty. */
  ghost function Filled(v: Option<string>): Option<string> { if v == Some("") then None else v }

  /** A number that is there and not negative. */
  ghost function Counted(v: Option<int>): Option<int> { if v.Some? && v.value < 0 then None else v }

  /** What a trip keeps of a model: everything well-formed, under the stripped name. */
  ghost function Carried(strip: string -> string, m: ModelRecord): ModelRecord {
    ModelRecord(strip(m.name), Some("ollama"), m.loaded,
                Counted(m.size), Filled(m.digest), Counted(m.sizeVram), Counted(m.contextLength),
                Filled(m.modifiedAt), Filled(m.expiresAt), Filled(m.providerVersion), m.capabilities,
                Filled(m.format), Filled(m.family), Filled(m.parameterSize), Filled(m.quantization))
  }

  ghost function CarriedNamed(strip: string -> string, models: seq<ModelRecord>): (r: seq<ModelRecord>)
    ensures |r| == |Kept(strip, models)| && forall i :: 0 <= i < |r| ==> r[i] == Carried(strip, Kept(strip, models)[i])
  {
    var kept := Kept(strip, models);
    seq(|kept|, i requires 0 <= i < |kept| => Carried(strip, kept[i]))
  }

  /** The map stores exactly the facts the model carries. */
  ghost predicate Stores(m: ModelRecord, a: map<Attribute, Value>) {
    forall key: Attribute :: (key in a <==> Fact(m, key).Some?) && (key in a ==> a[key] == Fact(m, key).value)
  }

  lemma AttributesStore(m: ModelRecord)
    ensures Stores(m, Attributes(m))
  {
  }

  lemma NumRead(m: ModelRecord, a: map<Attribute, Value>, key: Attribute, v: Option<int>)
    requires Stores(m, a) && Fact(m, key) == NumFact(v)
    ensures GetNum(a, key) == NonNegative(v)
  {
  }

  lemma TextRead(m: ModelRecord, a: map<Attribute, Value>, key: Attribute, v: Option<string>)
    requires Stores(m, a) && Fact(m, key) == TextFact(v)
    ensures GetText(a, key) == NonEmpty(v)
  {
  }

  /** Every carried fact reads back from the attribute map. */
  ghost predicate ReadsBack(m: ModelRecord, a: map<Attribute, Value>) {
    && LoadedFlag in a && a[LoadedFlag] == Flag(m.loaded)
    && GetNum(a, SizeBytes) == NonNegative(m.size) && GetNum(a, SizeVram) == NonNegative(m.sizeVram)
    && GetNum(a, ContextLength) == NonNegative(m.contextLength)
    && GetText(a, Format) == NonEmpty(m.format) && GetText(a, Family) == NonEmpty(m.family)
    && GetText(a, ParameterSize) == NonEmpty(m.parameterSize) && GetText(a, Quantization) == NonEmpty(m.quantization)
    && GetText(a, ModifiedAt) == NonEmpty(m.modifiedAt) && GetText(a, ExpiresAt) == NonEmpty(m.expiresAt)
    && GetText(a, ProviderVersion) == NonEmpty(m.providerVersion)
    && (OllamaCapabilities in a <==> m.capabilities.Some?)
    && (m.capabilities.Some? ==> a[OllamaCapabilities] == Names(m.capabilities.value))
  }

  lemma StoredReadBack(m: ModelRecord, a: map<Attribute, Value>)
    requires Stores(m, a)
    ensures ReadsBack(m, a)
  {
    assert Fact(m, LoadedFlag) == Some(Flag(m.loaded));
    NumRead(m, a, SizeBytes, m.size);
    NumRead(m, a, SizeVram, m.sizeVram);
    NumRead(m, a, ContextLength, m.contextLength);
    TextRead(m, a, Format, m.format);
    TextRead(m, a, Family, m.family);
    TextRead(m, a, ParameterSize, m.parameterSize);
    TextRead(m, a, Quantization, m.quantization);
    TextRead(m, a, ModifiedAt, m.modifiedAt);
    TextRead(m, a, ExpiresAt, m.expiresAt);
    TextRead(m, a, ProviderVersion, m.providerVersion);
  }

  lemma ReadBack(name: string, subject: Option<string>, m: ModelRecord, a: map<Attribute, Value>)
    requires ReadsBack(m, a)
    ensures DecodeModel(ModelEntry(name, "ollama", subject, a)) ==
      ModelRecord(name, Some("ollama"), m.loaded,
                  NonNegative(m.size), subject, NonNegative(m.sizeVram), NonNegative(m.contextLength),
                  NonEmpty(m.modifiedAt), NonEmpty(m.expiresAt), NonEmpty(m.providerVersion), m.capabilities,
                  NonEmpty(m.format), NonEmpty(m.family), NonEmpty(m.parameterSize), NonEmpty(m.quantization))
  {
  }

  lemma ModelRoundTrip(strip: string -> string, m: ModelRecord)
    ensures DecodeModel(EncodeModel(strip, m)) == Carried(strip, m)
  {
    AttributesStore(m);
    StoredReadBack(m, Attributes(m));
    ReadBack(strip(m.name), NonEmpty(m.digest), m, Attributes(m));
  }

  lemma {:induction false} DecodeModels(entries: seq<Entry>)
    requires forall i :: 0 <= i < |entries| ==> entries[i].ModelEntry?
    ensures |Decode(entries)| == |entries|
        && forall i :: 0 <= i < |entries| ==> Decode(entries)[i] == DecodeModel(entries[i])
  {
    if |entries| > 0 { DecodeModels(entries[..|entries| - 1]); }
  }

  lemma {:induction false} DecodeSkipsHead(head: Entry, entries: seq<Entry>)
    requires head.RuntimeEntry?
    ensures Decode([head] + entries) == Decode(entries)
  {
    var all := [head] + entries;
    if |entries| == 0 {
      assert all[..0] == [];
    } else {
      assert all[..|all| - 1] == [head] + entries[..|entries| - 1];
      DecodeSkipsHead(head, entries[..|entries| - 1]);
    }
  }

  /** Publishing an inventory and reading it back keeps every named model, in order, with every
      well-formed field unchanged. */
  lemma RoundTrip(strip: string -> string, models: seq<ModelRecord>)
    ensures Decode(Encode(strip, models)) == CarriedNamed(strip, models)
  {
    var kept := Kept(strip, models);
    var entries := ModelEntries(strip, kept);
    DecodeSkipsHead(Encode(strip, models)[0], entries);
    DecodeModels(entries);
    forall i | 0 <= i < |kept| ensures Decode(entries)[i] == CarriedNamed(strip, models)[i] {
      ModelRoundTrip(strip, kept[i]);
    }
  }

  /** Which models are published: those with a name left, one by one and in order. */
  lemma {:induction false} KeptConcat(strip: string -> string, a: seq<ModelRecord>, b: seq<ModelRecord>)
    ensures Kept(strip, a + b) == Kept(strip, a) + Kept(strip, b)
  {
    if |b| == 0 {
      assert a + b == a && Kept(strip, a) + [] == Kept(strip, a);
    } else {
      var init := b[..|b| - 1];
      assert (a + b)[..|a + b| - 1] == a + init;
      KeptConcat(strip, a, init);
    }
  }

  lemma KeptOne(strip: string -> string, m: ModelRecord)
    ensures Kept(strip, [m]) == if strip(m.name) == "" then [] else [m]
  {
    assert [m][..0] == [];
  }

  /** The fact published under a key, if there is one. */
  ghost function Published(m: ModelRecord, key: Attribute): Option<Value> {
    match key
    case LoadedFlag => Some(Flag(m.loaded))
    case ResidencyControl => Some(Txt("provider-loopback-api"))
    case OllamaCapabilities => if m.capabilities.Some? then Some(Names(m.capabilities.value)) else None
    case SizeBytes => Number(m.size)
    case SizeVram => Number(m.sizeVram)
    case ContextLength => Number(m.contextLength)
    case ModifiedAt => Line(m.modifiedAt)
    case ExpiresAt => Line(m.expiresAt)
    case ProviderVersion => Line(m.providerVersion)
    case Format => Line(m.format)
    case Family => Line(m.family)
    case ParameterSize => Line(m.parameterSize)
    case Quantization => Line(m.quantization)
  }

  ghost function Number(v: Option<int>): Option<Value> { if Counted(v).Some? then Some(Num(v.value)) else None }

  ghost function Line(v: Option<string>): Option<Value> { if Filled(v).Some? then Some(Txt(v.value)) else None }

  /** The entry published for a model: under its stripped name, with exactly these facts. */
  lemma EntryExactly(strip: string -> string, m: ModelRecord, key: Attribute)
    ensures var e := EncodeModel(strip, m);
      && e.ModelEntry? && e.name == strip(m.name) && e.namespace == "ollama" && e.subject == Filled(m.digest)
      && (key in e.attributes <==> Published(m, key).Some?)
      && (key in e.attributes ==> e.attributes[key] == Published(m, key).value)
  {
    AttributesStore(m);
    assert Fact(m, key) == Published(m, key);
    StoredAt(m, Attributes(m), key);
  }

  lemma StoredAt(m: ModelRecord, a: map<Attribute, Value>, key: Attribute)
    requires Stores(m, a)
    ensures (key in a <==> Fact(m, key).Some?) && (key in a ==> a[key] == Fact(m, key).value)
  {
  }

  lemma {:induction false} VersionsMembers(models: seq<ModelRecord>, v: string)
    ensures v in Versions(models) <==> exists m :: m in models && m.providerVersion == Some(v)
  {
    if |models| > 0 {
      var init, last := models[..|models| - 1], models[|models| - 1];
      assert models == init + [last];
      VersionsMembers(init, v);
      if m :| m in init && m.providerVersion == Some(v) { assert m in models; }
      assert last in models;
    }
  }

  /** The runtime entry names the provider version when all the models that state one state the same. */
  lemma RuntimeExactly(strip: string -> string, models: seq<ModelRecord>, v: string)
    ensures Encode(strip, models)[0].RuntimeEntry?
    ensures Encode(strip, models)[0].version == Some(v) <==>
      && (exists m :: m in models && m.providerVersion == Some(v))
      && forall m :: m in models && m.providerVersion.Some? ==> m.providerVersion.value == v
  {
    StrOrder();
    var versions := SortedSet(StrLe, Versions(models));
    SortedSetMeaning(StrLe, Versions(models));
    forall u ensures u in versions <==> exists m :: m in models && m.providerVersion == Some(u) {
      VersionsMembers(models, u);
    }
    if |versions| == 1 && versions[0] == v {
      forall m | m in models && m.providerVersion.Some? ensures m.providerVersion.value == v {
        assert m.providerVersion.value in versions;
      }
      assert v in versions;
    }
    if v in versions && forall m :: m in models && m.providerVersion.Some? ==> m.providerVersion.value == v {
      forall i | 0 <= i < |versions| ensures versions[i] == v { assert versions[i] in versions; }
      FirstTwo(versions, v);
    }
  }

  lemma FirstTwo(xs: seq<string>, v: string)
    requires forall i :: 0 <= i < |xs| ==> xs[i] == v
    ensures |xs| > 1 ==> xs[0] == xs[1]
  {
  }

  lemma CarriedIdempotent(strip: string -> string, m: ModelRecord)
    requires strip(strip(m.name)) == strip(m.name)
    ensures Carried(strip, Carried(strip, m)) == Carried(strip, m) && Carried(strip, m).name == strip(m.name)
  {
  }

  lemma {:induction false} KeptAlready(strip: string -> string, models: seq<ModelRecord>)
    requires forall i :: 0 <= i < |models| ==> strip(models[i].name) != ""
    ensures Kept(strip, models) == models
  {
    if |models| > 0 {
      KeptAlready(strip, models[..|models| - 1]);
      assert models == models[..|models| - 1] + [models[|models| - 1]];
    }
  }

  lemma {:induction false} KeptAreNamed(strip: string -> string, models: seq<ModelRecord>)
    ensures forall i :: 0 <= i < |Kept(strip, models)| ==> strip(Kept(strip, models)[i].name) != ""
  {
    if |models| > 0 { KeptAreNamed(strip, models[..|models| - 1]); }
  }

  lemma CarriedTwice(strip: string -> string, models: seq<ModelRecord>)
    requires forall s :: strip(strip(s)) == strip(s)
    ensures CarriedNamed(strip, CarriedNamed(strip, models)) == CarriedNamed(strip, models)
  {
    var kept, once := Kept(strip, models), CarriedNamed(strip, models);
    KeptAreNamed(strip, models);
    forall i | 0 <= i < |once| ensures strip(once[i].name) != "" && Carried(strip, once[i]) == once[i] {
      assert strip(strip(kept[i].name)) == strip(kept[i].name);
      CarriedIdempotent(strip, kept[i]);
    }
    KeptAlready(strip, once);
  }

  /** A second trip over the result is the identity. */
  lemma SecondTripIsIdentity(strip: string -> string, models: seq<ModelRecord>)
    requires forall s :: strip(strip(s)) == strip(s)
    ensures var once := Decode(Encode(strip, models)); Decode(Encode(strip, once)) == once
  {
    RoundTrip(strip, models);
    RoundTrip(strip, CarriedNamed(strip, models));
    CarriedTwice(strip, models);
  }
}
