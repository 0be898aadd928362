/** The verdict kernels and the fixed-width folds that evaluate lists of any
    length through them. */
module MncsExec {
  import opened Orders
  import opened Lattice

  datatype Result<+T> = Success(value: T) | RuntimeError

  // ---------------------------------------------------------------- kernels

  datatype Status = PASS | FAIL | UNKNOWN_STATUS
  datatype Grant = GRANTED | UNKNOWN | REFUSED
  datatype Readiness = READY | DEGRADED | BLOCKED | UNKNOWN_READINESS

  function Dominate(left: Status, right: Status): Status {
    match left
    case PASS => right
    case FAIL => FAIL
    case UNKNOWN_STATUS => if right == FAIL then FAIL else UNKNOWN_STATUS
  }

  function FoldPair(left: Grant, right: Grant): Grant {
    match left
    case GRANTED => right
    case REFUSED => REFUSED
    case UNKNOWN => if right == REFUSED then REFUSED else UNKNOWN
  }

  function DominateReadiness(left: Readiness, right: Readiness): Readiness {
    match left
    case BLOCKED => BLOCKED
    case UNKNOWN_READINESS => if right == BLOCKED then BLOCKED else UNKNOWN_READINESS
    case DEGRADED =>
      (match right
       case BLOCKED => BLOCKED
       case UNKNOWN_READINESS => UNKNOWN_READINESS
       case _ => DEGRADED)
    case READY => right
  }

  /** Reading a status off a host string; anything else cannot be marshalled. */
  function ParseStatus(s: string): Option<Status> {
    if s == "PASS" then Some(PASS) else if s == "FAIL" then Some(FAIL)
    else if s == "UNKNOWN" then Some(UNKNOWN_STATUS) else None
  }

  function ParseGrant(s: string): Option<Grant> {
    if s == "GRANTED" then Some(GRANTED) else if s == "UNKNOWN" then Some(UNKNOWN)
    else if s == "REFUSED" then Some(REFUSED) else None
  }

  function ParseReadiness(s: string): Option<Readiness> {
    if s == "READY" then Some(READY) else if s == "DEGRADED" then Some(DEGRADED)
    else if s == "BLOCKED" then Some(BLOCKED) else if s == "UNKNOWN" then Some(UNKNOWN_READINESS) else None
  }

  function CombineAll(checks: seq<Status>): Status { Fold(Dominate, PASS, checks) }

  function FoldGrants(grants: seq<Grant>): Grant { Fold(FoldPair, GRANTED, grants) }

  function FoldLayers(layers: seq<Readiness>): Readiness { Fold(DominateReadiness, READY, layers) }

  function Combine8(xs: seq<Status>): Status requires |xs| == 8 { CombineAll(xs) }

  function Combine4(xs: seq<Status>): Status requires |xs| == 4 { CombineAll(xs) }

  function Fold4(xs: seq<Grant>): Grant requires |xs| == 4 { FoldGrants(xs) }

  function ReadinessFold4(xs: seq<Readiness>): Readiness requires |xs| == 4 { FoldLayers(xs) }

  function ReadinessFold8(xs: seq<Readiness>): Readiness requires |xs| == 8 { FoldLayers(xs) }

  function DispatchGate(folded: Grant, targetMatches: bool): (r: Grant)
    ensures r.GRANTED? <==> folded.GRANTED? && targetMatches
    ensures r.REFUSED? <==> folded.REFUSED? || (folded.GRANTED? && !targetMatches)
  {
    if targetMatches then folded else if folded == UNKNOWN then UNKNOWN else REFUSED
  }

  function ToolAdmission(granted: bool, covered: bool): (r: Grant)
    ensures r.GRANTED? <==> granted && covered
    ensures !r.UNKNOWN?
  {
    if !granted then REFUSED else if !covered then REFUSED else GRANTED
  }

  const TWO_63: int := 0x8000_0000_0000_0000

  /** The integers a kernel can be handed. */
  predicate I64(x: int) { -TWO_63 <= x < TWO_63 }

  /** The kernels' wrapping subtraction. */
  function WrapSub(a: int, b: int): (r: int)
    ensures r == a - b || r == a - b + 2 * TWO_63 || r == a - b - 2 * TWO_63
    ensures I64(a) && I64(b) ==> I64(r)
  {
    var d := a - b;
    if d >= TWO_63 then d - 2 * TWO_63 else if d < -TWO_63 then d + 2 * TWO_63 else d
  }

  predicate AttestationWindowOk(issuedAt: int, now: int, maxAge: int) {
    issuedAt <= now && WrapSub(now, issuedAt) <= maxAge
  }

  /** The window is the age test exactly until the subtraction wraps. */
  lemma WindowMeansAge(issuedAt: int, now: int, maxAge: int)
    requires I64(issuedAt) && I64(now) && 0 <= maxAge < TWO_63
    ensures (AttestationWindowOk(issuedAt, now, maxAge) <==> 0 <= now - issuedAt <= maxAge) <==> now - issuedAt < TWO_63
  {
  }

  ghost predicate AdmittedTimesAreAnInterval(issuedAt: int, maxAge: int) {
    forall early, middle, late {:trigger AttestationWindowOk(issuedAt, early, maxAge),
      AttestationWindowOk(issuedAt, middle, maxAge), AttestationWindowOk(issuedAt, late, maxAge)} ::
      I64(early) && I64(late) && early <= middle <= late
      && AttestationWindowOk(issuedAt, early, maxAge) && AttestationWindowOk(issuedAt, late, maxAge)
      ==> AttestationWindowOk(issuedAt, middle, maxAge)
  }

  /** The instants at which one attestation is admitted form an interval exactly when it was not issued before the
      epoch. */
  lemma WindowIsAnIntervalExactly(issuedAt: int, maxAge: int)
    requires I64(issuedAt) && 0 <= maxAge < TWO_63 - 1
    ensures AdmittedTimesAreAnInterval(issuedAt, maxAge) <==> issuedAt >= 0
  {
    if issuedAt < 0 {
      var early, middle, late := issuedAt, issuedAt + maxAge + 1, issuedAt + TWO_63;
      assert AttestationWindowOk(issuedAt, early, maxAge) && AttestationWindowOk(issuedAt, late, maxAge);
      assert !AttestationWindowOk(issuedAt, middle, maxAge);
    }
  }

  predicate ResidencyAdmit(hasConflicts: bool, rejectConflicting: bool, alreadyLoaded: bool) {
    !hasConflicts || !rejectConflicting || alreadyLoaded
  }

  datatype ResourceVerdict = RESOURCE_OK | MISSING_FACTS | OVER_BUDGET | OVER_AVAILABLE

  function ResourceGate(factsComplete: bool, size: int, budget: int, hasAvailable: bool,
      available: int): (r: ResourceVerdict)
    ensures r.MISSING_FACTS? <==> !factsComplete
    ensures r.OVER_AVAILABLE? <==> factsComplete && size <= budget && hasAvailable && available < size
    ensures r.RESOURCE_OK? <==> factsComplete && size <= budget && (hasAvailable ==> size <= available)
  {
    if !factsComplete then MISSING_FACTS
    else if size > budget then OVER_BUDGET
    else if hasAvailable && size > available then OVER_AVAILABLE
    else RESOURCE_OK
  }

  // ---------------------------------------------------------------- the three lattices

  /** Each kernel join is a semilattice, so every law of `Lattice` applies to it. */
  lemma KernelLattices()
    ensures Semilattice(Dominate, PASS)
    ensures Semilattice(FoldPair, GRANTED)
    ensures Semilattice(DominateReadiness, READY)
  {
  }

  /** FAIL over UNKNOWN over PASS, read off the list itself. */
  lemma {:induction false} CombineAllWorst(xs: seq<Status>)
    ensures CombineAll(xs) ==
            if FAIL in xs then FAIL else if UNKNOWN_STATUS in xs then UNKNOWN_STATUS else PASS
  {
    if |xs| > 0 {
      CombineAllWorst(xs[..|xs| - 1]);
      assert xs == xs[..|xs| - 1] + [xs[|xs| - 1]];
    }
  }

  /** REFUSED over UNKNOWN over GRANTED. */
  lemma {:induction false} FoldGrantsWorst(xs: seq<Grant>)
    ensures FoldGrants(xs) ==
            if REFUSED in xs then REFUSED else if UNKNOWN in xs then UNKNOWN else GRANTED
  {
    if |xs| > 0 {
      FoldGrantsWorst(xs[..|xs| - 1]);
      assert xs == xs[..|xs| - 1] + [xs[|xs| - 1]];
    }
  }

  /** BLOCKED over UNKNOWN over DEGRADED over READY. */
  lemma {:induction false} FoldLayersWorst(xs: seq<Readiness>)
    ensures FoldLayers(xs) ==
            if BLOCKED in xs then BLOCKED
            else if UNKNOWN_READINESS in xs then UNKNOWN_READINESS
            else if DEGRADED in xs then DEGRADED else READY
  {
    if |xs| > 0 {
      FoldLayersWorst(xs[..|xs| - 1]);
      assert xs == xs[..|xs| - 1] + [xs[|xs| - 1]];
    }
  }

  // ---------------------------------------------------------------- fixed-width evaluation

  /** Every string of the list is one of the kernel's variants. */
  ghost predicate Marshals<T(!new)>(parse: string -> Option<T>, raw: seq<string>) {
    forall i :: 0 <= i < |raw| ==> parse(raw[i]).Some?
  }

  /** The list of kernel values named by the strings. */
  ghost function Parsed<T(!new)>(parse: string -> Option<T>, raw: seq<string>): (r: seq<T>)
    requires Marshals(parse, raw)
    ensures |r| == |raw| && forall i :: 0 <= i < |raw| ==> r[i] == parse(raw[i]).value
  {
    seq(|raw|, i requires 0 <= i < |raw| => parse(raw[i]).value)
  }

  method Marshal<T(0,!new)>(parse: string -> Option<T>, raw: seq<string>) returns (r: Result<seq<T>>)
    ensures r.Success? <==> Marshals(parse, raw)
    ensures r.Success? ==> r.value == Parsed(parse, raw)
  {
    var values: seq<T> := [];
    for i := 0 to |raw|
      invariant |values| == i
      invariant forall k :: 0 <= k < i ==> parse(raw[k]) == Some(values[k])
    {
      match parse(raw[i])
      case None => return RuntimeError;
      case Some(v) => values := values + [v];
    }
    return Success(values);
  }

  /** The next `width` elements, filled up with the neutral verdict. */
  function Padded<T>(xs: seq<T>, fill: T, width: nat): (r: seq<T>)
    requires |xs| <= width
    ensures |r| == width
  {
    xs + seq(width - |xs|, _ => fill)
  }

  function Min(a: nat, b: nat): nat { if a < b then a else b }

  /** One fixed-width call over a slice extends the fold over the prefix. */
  lemma FoldSlice<T(!new)>(join: (T, T) -> T, bottom: T, xs: seq<T>, from: nat, to: nat, width: nat)
    requires Semilattice(join, bottom) && from <= to <= |xs| && to - from <= width
    ensures Fold(join, bottom, xs[..to])
         == join(Fold(join, bottom, xs[..from]), Fold(join, bottom, Padded(xs[from..to], bottom, width)))
  {
    assert xs[..to] == xs[..from] + xs[from..to];
    FoldConcat(join, bottom, xs[..from], xs[from..to]);
    FoldPadding(join, bottom, xs[from..to], width - (to - from));
  }

  lemma FoldAppend<T(!new)>(join: (T, T) -> T, bottom: T, xs: seq<T>, x: T)
    ensures Fold(join, bottom, xs + [x]) == join(Fold(join, bottom, xs), x)
  {
    assert (xs + [x])[..|xs + [x]| - 1] == xs;
  }

  /** Appending the value of a padded slice to the partial results keeps them in step with the prefix. */
  lemma ChunkStep<T(!new)>(join: (T, T) -> T, bottom: T, xs: seq<T>, partials: seq<T>, from: nat, to: nat, width: nat)
    requires Semilattice(join, bottom) && from <= to <= |xs| && to - from <= width
    requires Fold(join, bottom, partials) == Fold(join, bottom, xs[..from])
    ensures Fold(join, bottom, partials + [Fold(join, bottom, Padded(xs[from..to], bottom, width))])
         == Fold(join, bottom, xs[..to])
  {
    FoldSlice(join, bottom, xs, from, to, width);
    FoldAppend(join, bottom, partials, Fold(join, bottom, Padded(xs[from..to], bottom, width)));
  }

  ghost predicate StatusName(s: string) { s == "PASS" || s == "FAIL" || s == "UNKNOWN" }

  ghost predicate GrantName(s: string) { s == "GRANTED" || s == "UNKNOWN" || s == "REFUSED" }

  ghost predicate ReadinessName(s: string) { s == "READY" || s == "DEGRADED" || s == "BLOCKED" || s == "UNKNOWN" }

  lemma NamesDiffer()
    ensures "PASS" != "FAIL" && "PASS" != "UNKNOWN" && "FAIL" != "UNKNOWN"
    ensures "GRANTED" != "UNKNOWN" && "GRANTED" != "REFUSED" && "UNKNOWN" != "REFUSED"
    ensures "READY" != "DEGRADED" && "READY" != "BLOCKED" && "READY" != "UNKNOWN"
    ensures "DEGRADED" != "BLOCKED" && "DEGRADED" != "UNKNOWN" && "BLOCKED" != "UNKNOWN"
  {
    assert "PASS"[0] == 'P' && "FAIL"[0] == 'F' && "UNKNOWN"[0] == 'U' && "GRANTED"[0] == 'G';
    assert "REFUSED"[0] == 'R' && "READY"[0] == 'R' && "DEGRADED"[0] == 'D' && "BLOCKED"[0] == 'B';
  }

  /** The parsed list holds the value a string names exactly where the list holds the string. */
  lemma NamedIn<T(!new)>(parse: string -> Option<T>, raw: seq<string>, name: string, value: T)
    requires Marshals(parse, raw) && parse(name) == Some(value)
    requires forall s :: parse(s) == Some(value) ==> s == name
    ensures value in Parsed(parse, raw) <==> name in raw
  {
    var parsed := Parsed(parse, raw);
    if value in parsed {
      var i :| 0 <= i < |parsed| && parsed[i] == value;
      assert raw[i] == name;
    }
    if name in raw {
      var i :| 0 <= i < |raw| && raw[i] == name;
      assert parsed[i] == value;
    }
  }

  lemma StatusesRead(raw: seq<string>)
    ensures Marshals(ParseStatus, raw) <==> forall i :: 0 <= i < |raw| ==> StatusName(raw[i])
    ensures Marshals(ParseStatus, raw) ==>
      CombineAll(Parsed(ParseStatus, raw))
        == if "FAIL" in raw then FAIL else if "UNKNOWN" in raw then UNKNOWN_STATUS else PASS
  {
    NamesDiffer();
    if Marshals(ParseStatus, raw) {
      CombineAllWorst(Parsed(ParseStatus, raw));
      NamedIn(ParseStatus, raw, "FAIL", FAIL);
      NamedIn(ParseStatus, raw, "UNKNOWN", UNKNOWN_STATUS);
    }
  }

  lemma GrantsRead(raw: seq<string>)
    ensures Marshals(ParseGrant, raw) <==> forall i :: 0 <= i < |raw| ==> GrantName(raw[i])
    ensures Marshals(ParseGrant, raw) ==>
      FoldGrants(Parsed(ParseGrant, raw))
        == if "REFUSED" in raw then REFUSED else if "UNKNOWN" in raw then UNKNOWN else GRANTED
  {
    NamesDiffer();
    if Marshals(ParseGrant, raw) {
      FoldGrantsWorst(Parsed(ParseGrant, raw));
      NamedIn(ParseGrant, raw, "REFUSED", REFUSED);
      NamedIn(ParseGrant, raw, "UNKNOWN", UNKNOWN);
    }
  }

  lemma LayersRead(raw: seq<string>)
    ensures Marshals(ParseReadiness, raw) <==> forall i :: 0 <= i < |raw| ==> ReadinessName(raw[i])
    ensures Marshals(ParseReadiness, raw) ==>
      FoldLayers(Parsed(ParseReadiness, raw))
        == if "BLOCKED" in raw then BLOCKED
           else if "UNKNOWN" in raw then UNKNOWN_READINESS
           else if "DEGRADED" in raw then DEGRADED else READY
  {
    NamesDiffer();
    if Marshals(ParseReadiness, raw) {
      FoldLayersWorst(Parsed(ParseReadiness, raw));
      NamedIn(ParseReadiness, raw, "BLOCKED", BLOCKED);
      NamedIn(ParseReadiness, raw, "UNKNOWN", UNKNOWN_READINESS);
      NamedIn(ParseReadiness, raw, "DEGRADED", DEGRADED);
    }
  }

  /** Eight-wide chunks, then four-wide groups until at most four remain. */
  method Combine(checks: seq<string>) returns (r: Result<Status>)
    ensures r.Success? <==> forall i :: 0 <= i < |checks| ==> StatusName(checks[i])
    ensures r.Success? ==>
      r.value == if "FAIL" in checks then FAIL else if "UNKNOWN" in checks then UNKNOWN_STATUS else PASS
  {
    StatusesRead(checks);
    var marshalled := Marshal(ParseStatus, checks);
    if marshalled.RuntimeError? { return RuntimeError; }
    var status := CombineMarshalled(marshalled.value);
    return Success(status);
  }

  lemma VerdictChunk(xs: seq<Status>, partials: seq<Status>, from: nat, to: nat, width: nat, piece: Status)
    requires from <= to <= |xs| && to - from <= width
    requires CombineAll(partials) == CombineAll(xs[..from])
    requires piece == CombineAll(Padded(xs[from..to], PASS, width))
    ensures CombineAll(partials + [piece]) == CombineAll(xs[..to])
  {
    KernelLattices();
    ChunkStep(Dominate, PASS, xs, partials, from, to, width);
  }

  lemma SingleVerdict(status: Status)
    ensures CombineAll([status]) == status
  {
    KernelLattices();
    FoldSingle(Dominate, PASS, status);
  }

  lemma PaddedVerdicts(xs: seq<Status>, width: nat)
    requires |xs| <= width
    ensures CombineAll(Padded(xs, PASS, width)) == CombineAll(xs)
  {
    KernelLattices();
    FoldPadding(Dominate, PASS, xs, width - |xs|);
  }

  method CombineMarshalled(xs: seq<Status>) returns (r: Status)
    ensures r == CombineAll(xs)
  {
    if |xs| == 0 { return PASS; }
    var halves := CombineChunks(xs);
    while |halves| > 4
      invariant |halves| > 0 && CombineAll(halves) == CombineAll(xs)
    {
      halves := CombineGroups(halves);
    }
    if |halves| == 1 {
      SingleVerdict(halves[0]);
      assert halves == [halves[0]];
      return halves[0];
    }
    r := Combine4(Padded(halves, PASS, 4));
    PaddedVerdicts(halves, 4);
  }

  /** One eight-wide call per chunk of the list. */
  method CombineChunks(xs: seq<Status>) returns (halves: seq<Status>)
    ensures CombineAll(halves) == CombineAll(xs)
    ensures |xs| > 0 ==> |halves| > 0
  {
    halves := [];
    var index := 0;
    while index < |xs|
      invariant 0 <= index
      invariant CombineAll(halves) == CombineAll(xs[..Min(index, |xs|)])
      invariant index > 0 ==> |halves| > 0
    {
      var to := Min(index + 8, |xs|);
      var half := Combine8(Padded(xs[index..to], PASS, 8));
      VerdictChunk(xs, halves, index, to, 8, half);
      halves := halves + [half];
      index := index + 8;
    }
    assert xs[..|xs|] == xs;
  }

  /** The body of the shrinking loop: one four-wide call per group of the partial results. */
  method CombineGroups(halves: seq<Status>) returns (folded: seq<Status>)
    ensures CombineAll(folded) == CombineAll(halves)
    ensures |folded| == (|halves| + 3) / 4
  {
    folded := [];
    var at := 0;
    while at < |halves|
      invariant at == 4 * |folded| && at < |halves| + 4
      invariant CombineAll(folded) == CombineAll(halves[..Min(at, |halves|)])
    {
      var to := Min(at + 4, |halves|);
      var group := Combine4(Padded(halves[at..to], PASS, 4));
      VerdictChunk(halves, folded, at, to, 4, group);
      folded := folded + [group];
      at := at + 4;
    }
    assert halves[..|halves|] == halves;
  }

  /** Four-wide groups, then a pairwise walk over the partial grants. */
  method FoldDecisions(decisions: seq<string>) returns (r: Result<Grant>)
    ensures r.Success? <==> forall i :: 0 <= i < |decisions| ==> GrantName(decisions[i])
    ensures r.Success? ==>
      r.value == if "REFUSED" in decisions then REFUSED else if "UNKNOWN" in decisions then UNKNOWN else GRANTED
  {
    GrantsRead(decisions);
    var marshalled := Marshal(ParseGrant, decisions);
    if marshalled.RuntimeError? { return RuntimeError; }
    var grant := FoldMarshalled(marshalled.value);
    return Success(grant);
  }

  method FoldMarshalled(xs: seq<Grant>) returns (result: Grant)
    ensures result == FoldGrants(xs)
  {
    if |xs| == 0 { return GRANTED; }
    var halves: seq<Grant> := [];
    var index := 0;
    while index < |xs|
      invariant 0 <= index
      invariant FoldGrants(halves) == FoldGrants(xs[..Min(index, |xs|)])
      invariant index > 0 ==> |halves| > 0
    {
      var to := Min(index + 4, |xs|);
      var half := Fold4(Padded(xs[index..to], GRANTED, 4));
      assert FoldGrants(halves + [half]) == FoldGrants(xs[..to]) by {
        KernelLattices();
        ChunkStep(FoldPair, GRANTED, xs, halves, index, to, 4);
      }
      halves := halves + [half];
      index := index + 4;
    }
    assert xs[..|xs|] == xs;
    result := FoldPairs(halves);
  }

  /** The closing loop: `fold_pair` from the first partial grant on. */
  method FoldPairs(halves: seq<Grant>) returns (result: Grant)
    requires |halves| > 0
    ensures result == FoldGrants(halves)
  {
    result := halves[0];
    assert FoldGrants(halves[..1]) == result by {
      KernelLattices();
      FoldSingle(FoldPair, GRANTED, halves[0]);
      assert halves[..1] == [halves[0]];
    }
    for k := 1 to |halves|
      invariant result == FoldGrants(halves[..k])
    {
      assert halves[..k + 1] == halves[..k] + [halves[k]];
      FoldAppend(FoldPair, GRANTED, halves[..k], halves[k]);
      result := FoldPair(result, halves[k]);
    }
    assert halves[..|halves|] == halves;
  }

  /** One eight-wide head (four-wide when short and alone), four-wide tail pieces, pairwise domination. */
  method FoldReadiness(layers: seq<string>) returns (r: Result<Readiness>)
    ensures r.Success? <==> forall i :: 0 <= i < |layers| ==> ReadinessName(layers[i])
    ensures r.Success? ==>
      r.value == if "BLOCKED" in layers then BLOCKED
                 else if "UNKNOWN" in layers then UNKNOWN_READINESS
                 else if "DEGRADED" in layers then DEGRADED else READY
  {
    LayersRead(layers);
    var marshalled := Marshal(ParseReadiness, layers);
    if marshalled.RuntimeError? { return RuntimeError; }
    var state := FoldLayersMarshalled(marshalled.value);
    return Success(state);
  }

  method FoldLayersMarshalled(xs: seq<Readiness>) returns (result: Readiness)
    ensures result == FoldLayers(xs)
  {
    if |xs| == 0 { return READY; }
    var cut := Min(8, |xs|);
    var head, tail := xs[..cut], xs[cut..];
    var first;
    if |head| <= 4 && |tail| == 0 {
      first := ReadinessFold4(Padded(head, READY, 4));
      PaddedLayers(head, 4);
    } else {
      first := ReadinessFold8(Padded(head, READY, 8));
      PaddedLayers(head, 8);
    }
    var partials := [first];
    assert FoldLayers(partials) == first by { KernelLattices(); FoldSingle(DominateReadiness, READY, first); }
    result := FoldTail(xs, cut, partials);
  }

  lemma PaddedLayers(xs: seq<Readiness>, width: nat)
    requires |xs| <= width
    ensures FoldLayers(Padded(xs, READY, width)) == FoldLayers(xs)
  {
    KernelLattices();
    FoldPadding(DominateReadiness, READY, xs, width - |xs|);
  }

  lemma LayersChunk(xs: seq<Readiness>, partials: seq<Readiness>, from: nat, to: nat, piece: Readiness)
    requires from <= to <= |xs| && to - from <= 4
    requires FoldLayers(partials) == FoldLayers(xs[..from])
    requires piece == FoldLayers(Padded(xs[from..to], READY, 4))
    ensures FoldLayers(partials + [piece]) == FoldLayers(xs[..to])
  {
    KernelLattices();
    ChunkStep(DominateReadiness, READY, xs, partials, from, to, 4);
  }

  /** The shrinking tail, four at a time. */
  method FoldTail(xs: seq<Readiness>, cut: nat, head: seq<Readiness>) returns (result: Readiness)
    requires cut <= |xs| && |head| > 0 && FoldLayers(head) == FoldLayers(xs[..cut])
    ensures result == FoldLayers(xs)
  {
    var partials, tail := head, xs[cut..];
    ghost var done := cut;
    while |tail| > 0
      invariant |partials| > 0 && done <= |xs| && tail == xs[done..]
      invariant FoldLayers(partials) == FoldLayers(xs[..done])
      decreases |tail|
    {
      var to := Min(4, |tail|);
      var piece := ReadinessFold4(Padded(tail[..to], READY, 4));
      assert tail[..to] == xs[done..done + to] && tail[to..] == xs[done + to..];
      LayersChunk(xs, partials, done, done + to, piece);
      tail := tail[to..];
      partials := partials + [piece];
      done := done + to;
    }
    assert xs[..done] == xs;
    result := DominateAll(partials);
  }

  /** The closing loop: pairwise domination from the first partial verdict on. */
  method DominateAll(partials: seq<Readiness>) returns (result: Readiness)
    requires |partials| > 0
    ensures result == FoldLayers(partials)
  {
    result := partials[0];
    assert FoldLayers(partials[..1]) == result by {
      KernelLattices();
      FoldSingle(DominateReadiness, READY, partials[0]);
      assert partials[..1] == [partials[0]];
    }
    for k := 1 to |partials|
      invariant result == FoldLayers(partials[..k])
    {
      assert partials[..k + 1] == partials[..k] + [partials[k]];
      FoldAppend(DominateReadiness, READY, partials[..k], partials[k]);
      result := DominateReadiness(result, partials[k]);
    }
    assert partials[..|partials|] == partials;
  }

  // ---------------------------------------------------------------- what the folds promise

  /** Listing order and duplicates never change a verdict; concatenation is the join. */
  lemma VerdictsForgetOrder(xs: seq<Status>, ys: seq<Status>)
    ensures SameElements(xs, ys) ==> CombineAll(xs) == CombineAll(ys)
    ensures multiset(xs) == multiset(ys) ==> CombineAll(xs) == CombineAll(ys)
    ensures CombineAll(xs + ys) == Dominate(CombineAll(xs), CombineAll(ys))
  {
    KernelLattices();
    FoldConcat(Dominate, PASS, xs, ys);
    if multiset(xs) == multiset(ys) { SameMultisetSameElements(xs, ys); }
    if SameElements(xs, ys) { FoldForgetsOrder(Dominate, PASS, xs, ys); }
  }

  lemma GrantsForgetOrder(xs: seq<Grant>, ys: seq<Grant>)
    ensures SameElements(xs, ys) ==> FoldGrants(xs) == FoldGrants(ys)
    ensures multiset(xs) == multiset(ys) ==> FoldGrants(xs) == FoldGrants(ys)
    ensures FoldGrants(xs + ys) == FoldPair(FoldGrants(xs), FoldGrants(ys))
  {
    KernelLattices();
    FoldConcat(FoldPair, GRANTED, xs, ys);
    if multiset(xs) == multiset(ys) { SameMultisetSameElements(xs, ys); }
    if SameElements(xs, ys) { FoldForgetsOrder(FoldPair, GRANTED, xs, ys); }
  }

  lemma LayersForgetOrder(xs: seq<Readiness>, ys: seq<Readiness>)
    ensures SameElements(xs, ys) ==> FoldLayers(xs) == FoldLayers(ys)
    ensures multiset(xs) == multiset(ys) ==> FoldLayers(xs) == FoldLayers(ys)
    ensures FoldLayers(xs + ys) == DominateReadiness(FoldLayers(xs), FoldLayers(ys))
  {
    KernelLattices();
    FoldConcat(DominateReadiness, READY, xs, ys);
    if multiset(xs) == multiset(ys) { SameMultisetSameElements(xs, ys); }
    if SameElements(xs, ys) { FoldForgetsOrder(DominateReadiness, READY, xs, ys); }
  }

  /** Replacing entries by worse ones never yields a better verdict, in any of the three lattices. */
  lemma FoldsMonotone(a: seq<Status>, b: seq<Status>, g: seq<Grant>, h: seq<Grant>, l: seq<Readiness>,
      m: seq<Readiness>)
    requires |a| == |b| && |g| == |h| && |l| == |m|
    requires forall i :: 0 <= i < |a| ==> Below(Dominate, a[i], b[i])
    requires forall i :: 0 <= i < |g| ==> Below(FoldPair, g[i], h[i])
    requires forall i :: 0 <= i < |l| ==> Below(DominateReadiness, l[i], m[i])
    ensures Below(Dominate, CombineAll(a), CombineAll(b))
    ensures Below(FoldPair, FoldGrants(g), FoldGrants(h))
    ensures Below(DominateReadiness, FoldLayers(l), FoldLayers(m))
  {
    KernelLattices();
    FoldMonotone(Dominate, PASS, a, b);
    FoldMonotone(FoldPair, GRANTED, g, h);
    FoldMonotone(DominateReadiness, READY, l, m);
  }
}
