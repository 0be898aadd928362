/** The tool registry: binding carried authority and gating every consequential effect on it. */
module Tools {
  import opened Orders
  import opened MncsExec
  import opened AtlasBinding

  const WRITE_TOOLS: set<string> := {
    "commons_publish_record",
    "commons_submit_work_record",
    "commons_propose_work_record",
    "commons_work_propose",
    "commons_family_health_sweep",
    "commons_claim_work_record",
    "commons_transition_work_record"
  }

  const PUBLISH_NEEDS: seq<string> := ["evidence.attest"]

  /** The capabilities a controller tool declares; None for tools that need no binding. */
  function ToolNeeds(name: string): Option<seq<string>> {
    if name == "run_command" then Some([WORKER_DISPATCH])
    else if name == "write_file" then Some(["repo.edit"])
    else None
  }

  datatype Effect = FileWritten(path: string) | CommandRun | Published(tool: string)

  function EffectNeeds(e: Effect): seq<string> {
    match e
    case FileWritten(_) => ["repo.edit"]
    case CommandRun => [WORKER_DISPATCH]
    case Published(_) => PUBLISH_NEEDS
  }

  /** What the surroundings answer during one call: whether the handler raises before its effect,
      whether command or write policy allows it, whether approval is given, the resolved path, and whether the
      effect, once begun, completes well: a write that is not cut short, a command that ends in time with code 0,
      a publication Commons accepts. */
  datatype Answers = Answers(raises: bool, allowed: bool, approved: bool, path: string, completes: bool)

  /** An attached Commons: whether it is ready, the tools it offers, and the publication switch. */
  datatype Commons = Commons(ready: bool, offered: set<string>, publishes: bool)

  /** Fixed at construction. */
  datatype Setup = Setup(commons: Option<Commons>)

  const CONTROLLER_TOOLS: set<string> := {
    "read_file", "list_directory", "search_text", "write_file", "run_command", "git_diff", "system_info"
  }

  /** `_build_tools`: the controller's own tools, and those of a Commons that is ready. */
  function Registered(setup: Setup): set<string> {
    CONTROLLER_TOOLS
    + (if setup.commons.Some? && setup.commons.value.ready then setup.commons.value.offered else {})
  }

  predicate PublicationOff(setup: Setup) { setup.commons.Some? && !setup.commons.value.publishes }

  datatype Event =
    | Bound(requirement: Requirement, acceptance: Acceptance, observed: string)
    | Did(effect: Effect, completed: bool)

  datatype Binding = Binding(requirement: Requirement, acceptance: Acceptance)

  /** The registry's mutable state, with the history of bindings and effects so far. */
  datatype State = State(binding: Option<Binding>, modifiedPaths: seq<string>, trace: seq<Event>)

  const INITIAL := State(None, [], [])

  // ---------------------------------------------------------------- specification

  /** The acceptance a bind call stores: the operator-expected session first, then the leg's verdict. */
  function BindAcceptance(r: Requirement, legName: string, observed: string, participant: string,
      scope: string): Acceptance
  {
    if participant != "" && r.participant != participant then Acceptance(REFUSED, legName, [])
    else if scope != "" && r.scope != scope then Acceptance(REFUSED, legName, [])
    else Acceptance(AcceptVerdict(r, legName, observed), legName, [])
  }

  function AfterBind(s: State, r: Requirement, acceptance: Acceptance, observed: string): State {
    s.(binding := Some(Binding(r, acceptance)), trace := s.trace + [Bound(r, acceptance, observed)])
  }

  /** The bound acceptance is GRANTED and its leg lists every capability. */
  predicate Covers(r: Requirement, acceptance: Acceptance, needs: seq<string>) {
    var leg := FindLeg(r.legs, acceptance.leg);
    acceptance.verdict == GRANTED && forall need :: need in needs ==> leg.Some? && need in leg.value.needs
  }

  predicate Authorized(s: State, needs: seq<string>) {
    s.binding.Some? && Covers(s.binding.value.requirement, s.binding.value.acceptance, needs)
  }

  /** The effect the named tool would have, were nothing in its way. */
  function Intent(setup: Setup, name: string, answers: Answers): Option<Effect> {
    if name == "write_file" then Some(FileWritten(answers.path))
    else if name == "run_command" then Some(CommandRun)
    else if setup.commons.Some? && name in WRITE_TOOLS then Some(Published(name))
    else None
  }

  predicate Happens(s: State, setup: Setup, name: string, answers: Answers) {
    && name in Registered(setup)
    && Intent(setup, name, answers).Some?
    && Authorized(s, EffectNeeds(Intent(setup, name, answers).value))
    && !answers.raises && answers.approved
    && (if Intent(setup, name, answers).value.Published? then !PublicationOff(setup) else answers.allowed)
  }

  /** A write is remembered once it is complete. */
  function Remember(paths: seq<string>, e: Effect, completed: bool): seq<string> {
    if completed && e.FileWritten? && e.path !in paths then paths + [e.path] else paths
  }

  function AfterExecute(s: State, setup: Setup, name: string, answers: Answers): State {
    if Happens(s, setup, name, answers) then
      var e := Intent(setup, name, answers).value;
      s.(modifiedPaths := Remember(s.modifiedPaths, e, answers.completes), trace :=
        s.trace + [Did(e, answers.completes)])
    else s
  }

  /** Success: the tool is registered, nothing stood in the way of its effect, and it completed. */
  predicate Succeeds(s: State, setup: Setup, name: string, answers: Answers) {
    && name in Registered(setup) && !answers.raises && answers.completes
    && (Intent(setup, name, answers).Some? ==> Happens(s, setup, name, answers))
  }

  /** A Commons write reaches the exchange. */
  predicate Publishes(s: State, setup: Setup, answers: Answers) {
    Authorized(s, PUBLISH_NEEDS) && !PublicationOff(setup) && !answers.raises && answers.approved
  }

  // ---------------------------------------------------------------- the registry itself

  class ToolRegistry {
    const setup: Setup
    var atlasRequirement: Option<Requirement>
    var atlasAcceptance: Option<Acceptance>
    var modifiedPaths: seq<string>
    ghost var trace: seq<Event>

    ghost predicate Valid() reads this {
      atlasRequirement.Some? <==> atlasAcceptance.Some?
    }

    ghost function Contents(): State reads this requires Valid() {
      State(if atlasRequirement.Some? then Some(Binding(atlasRequirement.value, atlasAcceptance.value)) else None,
            modifiedPaths, trace)
    }

    constructor (setup: Setup)
      ensures Valid() && Contents() == INITIAL && this.setup == setup
    {
      this.setup := setup;
      atlasRequirement, atlasAcceptance := None, None;
      modifiedPaths, trace := [], [];
    }

    method BindAtlasRequirement(r: Requirement, legName: string, observed: string, participant: string, scope: string)
        returns (acceptance: Acceptance)
      requires Valid()
      modifies this
      ensures Valid() && acceptance == BindAcceptance(r, legName, observed, participant, scope)
      ensures Contents() == AfterBind(old(Contents()), r, acceptance, observed)
    {
      if participant != "" && r.participant != participant {
        acceptance := Acceptance(REFUSED, legName, []);
      } else if scope != "" && r.scope != scope {
        acceptance := Acceptance(REFUSED, legName, []);
      } else {
        acceptance := Accept(r, legName, observed);
      }
      atlasRequirement := Some(r);
      atlasAcceptance := Some(acceptance);
      trace := trace + [Bound(r, acceptance, observed)];
    }

    /** True when Atlas authority covers the tool. */
    method AtlasGate(needs: seq<string>) returns (covered: bool)
      requires Valid()
      ensures covered <==> Authorized(Contents(), needs)
    {
      if atlasRequirement.None? || atlasAcceptance.None? { return false; }
      var acceptance := atlasAcceptance.value;
      var leg := FindLeg(atlasRequirement.value.legs, acceptance.leg);
      var uncovered: seq<string> := [];
      for i := 0 to |needs|
        invariant forall need :: need in uncovered
                    <==> need in needs[..i] && (leg.None? || need !in leg.value.needs)
      {
        assert needs[..i + 1] == needs[..i] + [needs[i]];
        if leg.None? || needs[i] !in leg.value.needs { uncovered := uncovered + [needs[i]]; }
      }
      assert needs[..|needs|] == needs;
      assert |uncovered| > 0 ==> uncovered[0] in uncovered;
      return ToolAdmission(acceptance.verdict == GRANTED, |uncovered| == 0) == GRANTED;
    }

    method Execute(name: string, answers: Answers) returns (success: bool)
      requires Valid()
      modifies this
      ensures Valid() && Contents() == AfterExecute(old(Contents()), setup, name, answers)
      ensures success <==> Succeeds(old(Contents()), setup, name, answers)
    {
      if name !in Registered(setup) { return false; }
      if name in WRITE_TOOLS && PublicationOff(setup) { return false; }
      var needs := ToolNeeds(name);
      if needs.Some? {
        var covered := AtlasGate(needs.value);
        if !covered { return false; }
      }
      if name == "write_file" {
        success := WriteFile(answers);
      } else if name == "run_command" {
        success := RunCommand(answers);
      } else if setup.commons.Some? {
        success := CommonsCall(name, answers);
      } else {
        success := !answers.raises && answers.completes;
      }
    }

    method WriteFile(answers: Answers) returns (success: bool)
      requires Valid()
      modifies this
      ensures Valid() && unchanged(`atlasRequirement, `atlasAcceptance)
      ensures success <==> !answers.raises && answers.allowed && answers.approved && answers.completes
      ensures modifiedPaths == if success then Remember(old(modifiedPaths), FileWritten(answers.path), true)
          else old(modifiedPaths)
      ensures trace ==
        if !answers.raises && answers.allowed && answers.approved
        then old(trace) + [Did(FileWritten(answers.path), answers.completes)] else old(trace)
    {
      if answers.raises || !answers.allowed || !answers.approved { return false; }
      trace := trace + [Did(FileWritten(answers.path), answers.completes)];
      if !answers.completes { return false; }
      if answers.path !in modifiedPaths { modifiedPaths := modifiedPaths + [answers.path]; }
      return true;
    }

    method RunCommand(answers: Answers) returns (success: bool)
      requires Valid()
      modifies `trace
      ensures Valid()
      ensures success <==> !answers.raises && answers.allowed && answers.approved && answers.completes
      ensures trace ==
        if !answers.raises && answers.allowed && answers.approved
        then old(trace) + [Did(CommandRun, answers.completes)] else old(trace)
    {
      if answers.raises || !answers.allowed || !answers.approved { return false; }
      trace := trace + [Did(CommandRun, answers.completes)];
      return answers.completes;
    }

    method CommonsCall(name: string, answers: Answers) returns (success: bool)
      requires Valid() && setup.commons.Some?
      modifies `trace
      ensures Valid()
      ensures trace ==
        if name in WRITE_TOOLS && Publishes(old(Contents()), setup, answers)
        then old(trace) + [Did(Published(name), answers.completes)] else old(trace)
      ensures success <==>
        !answers.raises && answers.completes && (name in WRITE_TOOLS ==> Publishes(old(Contents()), setup, answers))
    {
      if name in WRITE_TOOLS {
        var covered := AtlasGate(PUBLISH_NEEDS);
        if !covered || PublicationOff(setup) || answers.raises || !answers.approved { return false; }
        trace := trace + [Did(Published(name), answers.completes)];
        return answers.completes;
      }
      return !answers.raises && answers.completes;
    }
  }

  // ---------------------------------------------------------------- every run is safe

  datatype Op =
    | BindOp(r: Requirement, legName: string, observed: string, participant: string, scope: string)
    | ExecuteOp(name: string, answers: Answers)

  function Step(s: State, setup: Setup, op: Op): State {
    match op
    case BindOp(r, legName, observed, participant, scope) =>
      AfterBind(s, r, BindAcceptance(r, legName, observed, participant, scope), observed)
    case ExecuteOp(name, answers) => AfterExecute(s, setup, name, answers)
  }

  function Run(setup: Setup, ops: seq<Op>): State {
    if |ops| == 0 then INITIAL else Step(Run(setup, ops[..|ops| - 1]), setup, ops[|ops| - 1])
  }

  /** Position of the last binding before `end`; `end` itself when there is none. */
  function LastBound(trace: seq<Event>, end: nat): (j: nat)
    requires end <= |trace|
    ensures j <= end
    ensures j < end ==> trace[j].Bound? && forall k :: j < k < end ==> trace[k].Did?
    ensures j == end ==> forall k :: 0 <= k < end ==> trace[k].Did?
    decreases end
  {
    if end == 0 then 0
    else if trace[end - 1].Bound? then end - 1
    else
      var j := LastBound(trace, end - 1);
      if j == end - 1 then end else j
  }

  /** The effect at `i` was covered by the binding in force when it happened. */
  ghost predicate CoveredAt(trace: seq<Event>, i: nat)
    requires i < |trace| && trace[i].Did?
  {
    var j := LastBound(trace, i);
    j < i && Covers(trace[j].requirement, trace[j].acceptance, EffectNeeds(trace[i].effect))
  }

  ghost predicate SafeState(s: State) {
    && (forall i :: 0 <= i < |s.trace| && s.trace[i].Did? ==> CoveredAt(s.trace, i))
    && (var j := LastBound(s.trace, |s.trace|);
        s.binding == if j == |s.trace| then None else Some(Binding(s.trace[j].requirement, s.trace[j].acceptance)))
    && Distinct(s.modifiedPaths)
    && (forall path :: path in s.modifiedPaths <==> Did(FileWritten(path), true) in s.trace)
  }

  lemma {:induction false} LastBoundOfPrefix(trace: seq<Event>, e: Event, end: nat)
    requires end <= |trace|
    ensures LastBound(trace + [e], end) == LastBound(trace, end)
    decreases end
  {
    if end > 0 { LastBoundOfPrefix(trace, e, end - 1); }
  }

  lemma CoveredKept(trace: seq<Event>, e: Event)
    requires forall i :: 0 <= i < |trace| && trace[i].Did? ==> CoveredAt(trace, i)
    ensures forall i :: 0 <= i < |trace| && trace[i].Did? ==> CoveredAt(trace + [e], i)
  {
    forall i | 0 <= i < |trace| && trace[i].Did? ensures CoveredAt(trace + [e], i) {
      LastBoundOfPrefix(trace, e, i);
    }
  }

  lemma BindKeepsSafety(s: State, r: Requirement, acceptance: Acceptance, observed: string)
    requires SafeState(s)
    ensures SafeState(AfterBind(s, r, acceptance, observed))
  {
    var e := Bound(r, acceptance, observed);
    CoveredKept(s.trace, e);
  }

  lemma EffectKeepsSafety(s: State, e: Effect, completed: bool)
    requires SafeState(s) && Authorized(s, EffectNeeds(e))
    ensures SafeState(s.(modifiedPaths := Remember(s.modifiedPaths, e, completed), trace :=
        s.trace + [Did(e, completed)]))
  {
    EffectCovered(s, e, completed);
    BindingStays(s, e, completed);
    RememberKeeps(s.modifiedPaths, s.trace, e, completed);
  }

  lemma EffectCovered(s: State, e: Effect, completed: bool)
    requires SafeState(s) && Authorized(s, EffectNeeds(e))
    ensures var trace := s.trace + [Did(e, completed)];
      forall i :: 0 <= i < |trace| && trace[i].Did? ==> CoveredAt(trace, i)
  {
    CoveredKept(s.trace, Did(e, completed));
    LastBoundOfPrefix(s.trace, Did(e, completed), |s.trace|);
  }

  lemma BindingStays(s: State, e: Effect, completed: bool)
    requires SafeState(s)
    ensures var trace := s.trace + [Did(e, completed)];
      var j := LastBound(trace, |trace|);
      s.binding == if j == |trace| then None else Some(Binding(trace[j].requirement, trace[j].acceptance))
  {
    LastBoundOfPrefix(s.trace, Did(e, completed), |s.trace|);
  }

  /** The list of written paths follows the trace. */
  lemma RememberKeeps(paths: seq<string>, trace: seq<Event>, e: Effect, completed: bool)
    requires Distinct(paths) && forall path :: path in paths <==> Did(FileWritten(path), true) in trace
    ensures Distinct(Remember(paths, e, completed))
    ensures forall path :: path in Remember(paths, e, completed) <==>
              Did(FileWritten(path), true) in trace + [Did(e, completed)]
  {
    var did := Did(e, completed);
    forall path
      ensures path in Remember(paths, e, completed) <==> Did(FileWritten(path), true) in trace + [did]
    {
      assert Did(FileWritten(path), true) in trace + [did]
        <==> Did(FileWritten(path), true) in trace || did == Did(FileWritten(path), true);
    }
  }

  lemma StepKeepsSafety(s: State, setup: Setup, op: Op)
    requires SafeState(s)
    ensures SafeState(Step(s, setup, op))
  {
    match op
    case BindOp(r, legName, observed, participant, scope) =>
      BindKeepsSafety(s, r, BindAcceptance(r, legName, observed, participant, scope), observed);
    case ExecuteOp(name, answers) =>
      if Happens(s, setup, name, answers) {
        EffectKeepsSafety(s, Intent(setup, name, answers).value, answers.completes);
      }
  }

  /** In every run of bind and execute calls each effect was covered by the binding then in force,
      and the modified paths list exactly the files written to completion, once each. */
  lemma {:induction false} EveryRunIsSafe(setup: Setup, ops: seq<Op>)
    ensures SafeState(Run(setup, ops))
  {
    if |ops| > 0 {
      EveryRunIsSafe(setup, ops[..|ops| - 1]);
      StepKeepsSafety(Run(setup, ops[..|ops| - 1]), setup, ops[|ops| - 1]);
    }
  }

  /** A refused or unknown rebind revokes: no effect follows until another binding is granted. */
  lemma RefusedRebindRevokes(setup: Setup, ops: seq<Op>, j: nat, i: nat)
    requires j < i < |Run(setup, ops).trace|
    requires Run(setup, ops).trace[j].Bound? && Run(setup, ops).trace[j].acceptance.verdict != GRANTED
    requires Run(setup, ops).trace[i].Did?
    ensures var trace := Run(setup, ops).trace;
      exists k :: j < k < i && trace[k].Bound? && trace[k].acceptance.verdict == GRANTED
  {
    EveryRunIsSafe(setup, ops);
    var trace := Run(setup, ops).trace;
    assert CoveredAt(trace, i);
    var k := LastBound(trace, i);
    assert k >= j;
  }

  lemma {:induction false} BindingsAreDecided(setup: Setup, ops: seq<Op>, j: nat)
    requires j < |Run(setup, ops).trace| && Run(setup, ops).trace[j].Bound?
    ensures var e := Run(setup, ops).trace[j];
      e.acceptance.verdict == GRANTED ==> AcceptVerdict(e.requirement, e.acceptance.leg, e.observed) == GRANTED
  {
    if |ops| > 0 {
      var before := Run(setup, ops[..|ops| - 1]);
      if j < |before.trace| { BindingsAreDecided(setup, ops[..|ops| - 1], j); }
    }
  }

  /** The capability an effect of this kind consumes. */
  ghost predicate Consumes(e: Effect, need: string) {
    match e
    case FileWritten(_) => need == "repo.edit"
    case CommandRun => need == "worker.dispatch"
    case Published(_) => need == "evidence.attest"
  }

  /** End to end: behind every effect of every run stands the binding last made, of an artifact no other was observed
      for, whose leg had each of its needs decided, placeable, undenied and evidenced, the effect's own among them. */
  lemma EffectsRestOnAtlas(setup: Setup, ops: seq<Op>, i: nat, need: string)
    requires i < |Run(setup, ops).trace| && Run(setup, ops).trace[i].Did?
    requires Consumes(Run(setup, ops).trace[i].effect, need)
    ensures var trace := Run(setup, ops).trace;
      exists j, leg :: 0 <= j < i && trace[j].Bound? && leg in trace[j].requirement.legs
        && (forall k :: j < k < i ==> trace[k].Did?)
        && (trace[j].observed == "" || trace[j].observed == trace[j].requirement.artifactId)
        && need in leg.needs && NeedsMet(trace[j].requirement, leg)
  {
    EveryRunIsSafe(setup, ops);
    var trace := Run(setup, ops).trace;
    assert CoveredAt(trace, i);
    var j := LastBound(trace, i);
    var r := trace[j].requirement;
    BindingsAreDecided(setup, ops, j);
    AcceptExactly(r, trace[j].acceptance.leg, trace[j].observed);
    var leg := FindLeg(r.legs, trace[j].acceptance.leg).value;
    assert need in EffectNeeds(trace[i].effect);
    assert leg in r.legs && need in leg.needs && NeedsMet(r, leg);
  }

  // ---------------------------------------------------------------- what a call does after any run

  /** The latest bind call, read off the calls themselves: it was for the session the operator expects, no other
      artifact was observed, and the leg it names exists, has its needs met and lists the capability. */
  ghost predicate BoundFor(ops: seq<Op>, need: string) {
    exists j :: 0 <= j < |ops| && BindsFor(ops[j], need) && forall k :: j < k < |ops| ==> ops[k].ExecuteOp?
  }

  ghost predicate BindsFor(op: Op, need: string) {
    && op.BindOp?
    && (op.participant == "" || op.participant == op.r.participant) && (op.scope == "" || op.scope == op.r.scope)
    && (op.observed == "" || op.observed == op.r.artifactId)
    && FindLeg(op.r.legs, op.legName).Some?
    && var leg := FindLeg(op.r.legs, op.legName).value;
    NeedsMet(op.r, leg) && need in leg.needs
  }

  lemma BindMeaning(s: State, setup: Setup, op: Op, need: string)
    requires op.BindOp?
    ensures Authorized(Step(s, setup, op), [need]) <==> BindsFor(op, need)
  {
    AcceptExactly(op.r, op.legName, op.observed);
    assert need in [need];
  }

  lemma {:induction false} BindingInForce(setup: Setup, ops: seq<Op>, need: string)
    ensures Authorized(Run(setup, ops), [need]) <==> BoundFor(ops, need)
  {
    if |ops| > 0 {
      var init, last := ops[..|ops| - 1], ops[|ops| - 1];
      assert ops == init + [last];
      if last.BindOp? {
        BindMeaning(Run(setup, init), setup, last, need);
        LastBindDecides(init, last, need);
      } else {
        BindingInForce(setup, init, need);
        ExecuteKeepsBinding(Run(setup, init), setup, last);
        BoundStep(init, last, need);
      }
    }
  }

  lemma ExecuteKeepsBinding(s: State, setup: Setup, op: Op)
    requires op.ExecuteOp?
    ensures Step(s, setup, op).binding == s.binding
  {
  }

  lemma LastBindDecides(init: seq<Op>, last: Op, need: string)
    requires last.BindOp?
    ensures BoundFor(init + [last], need) <==> BindsFor(last, need)
  {
    var ops := init + [last];
    assert ops[|init|] == last;
  }

  lemma BoundStep(init: seq<Op>, last: Op, need: string)
    requires last.ExecuteOp?
    ensures BoundFor(init + [last], need) <==> BoundFor(init, need)
  {
    var ops := init + [last];
    if BoundFor(init, need) {
      var j :| 0 <= j < |init| && BindsFor(init[j], need) && forall k :: j < k < |init| ==> init[k].ExecuteOp?;
      assert BindsFor(ops[j], need);
      forall k | j < k < |ops| ensures ops[k].ExecuteOp? { assert k < |init| ==> ops[k] == init[k]; }
    }
    if BoundFor(ops, need) {
      var j :| 0 <= j < |ops| && BindsFor(ops[j], need) && forall k :: j < k < |ops| ==> ops[k].ExecuteOp?;
      assert ops[j] == init[j];
      forall k | j < k < |init| ensures init[k].ExecuteOp? { assert init[k] == ops[k]; }
    }
  }

  /** What a binding is worth: the verdict on the leg, unless the operator expects another participant or scope; then
      it is refused. */
  lemma BindExactly(s: State, setup: Setup, op: Op)
    requires op.BindOp?
    ensures var t := Step(s, setup, op);
      && t.modifiedPaths == s.modifiedPaths && t.binding.Some?
      && t.trace == s.trace + [Bound(op.r, t.binding.value.acceptance, op.observed)]
      && t.binding.value.requirement == op.r
      && var acceptance := t.binding.value.acceptance;
         && acceptance.leg == op.legName && acceptance.outstanding == []
         && acceptance.verdict ==
              if (op.participant == "" || op.participant == op.r.participant)
                 && (op.scope == "" || op.scope == op.r.scope)
              then AcceptVerdict(op.r, op.legName, op.observed) else REFUSED
  {
  }

  /** A name Commons publishes under. */
  ghost predicate PublicationTool(name: string) {
    || name == "commons_publish_record" || name == "commons_submit_work_record"
    || name == "commons_propose_work_record" || name == "commons_work_propose"
    || name == "commons_family_health_sweep" || name == "commons_claim_work_record"
    || name == "commons_transition_work_record"
  }

  /** Nothing stands in the way of the named tool's effect after these calls. */
  ghost predicate Free(setup: Setup, ops: seq<Op>, name: string, answers: Answers) {
    && !answers.raises && answers.approved
    && if name == "write_file" then BoundFor(ops, "repo.edit") && answers.allowed
       else if name == "run_command" then BoundFor(ops, "worker.dispatch") && answers.allowed
       else
         && PublicationTool(name) && BoundFor(ops, "evidence.attest")
         && setup.commons.Some? && setup.commons.value.ready && name in setup.commons.value.offered
         && setup.commons.value.publishes
  }

  /** The effect the named tool has when it is free to. */
  ghost function EffectOf(name: string, answers: Answers): Effect {
    if name == "write_file" then FileWritten(answers.path)
    else if name == "run_command" then CommandRun
    else Published(name)
  }

  /** After any run of calls a consequential tool has its effect, and succeeds once that completes, exactly when the
      latest binding covers its capability, policy allows it and approval is given; publishing, moreover, exactly
      when a ready Commons offers the tool with publication on. Otherwise it does nothing and fails. */
  lemma ConsequentialExactly(setup: Setup, ops: seq<Op>, name: string, answers: Answers)
    requires name == "write_file" || name == "run_command" || PublicationTool(name)
    ensures var s := Run(setup, ops);
      && (Succeeds(s, setup, name, answers) <==> Free(setup, ops, name, answers) && answers.completes)
      && AfterExecute(s, setup, name, answers).binding == s.binding
      && AfterExecute(s, setup, name, answers).trace
         == s.trace
            + (if Free(setup, ops, name, answers) then [Did(EffectOf(name, answers), answers.completes)] else [])
      && AfterExecute(s, setup, name, answers).modifiedPaths
         == s.modifiedPaths + (if name == "write_file" && Free(setup, ops, name, answers) && answers.completes
                                  && answers.path !in s.modifiedPaths then [answers.path] else [])
  {
    BindingInForce(setup, ops, "repo.edit");
    BindingInForce(setup, ops, "worker.dispatch");
    BindingInForce(setup, ops, "evidence.attest");
    ToolNames(name);
    assert Happens(Run(setup, ops), setup, name, answers) <==> Free(setup, ops, name, answers);
    var s := Run(setup, ops);
    assert s.trace + [] == s.trace && s.modifiedPaths + [] == s.modifiedPaths;
  }

  /** Which names are which. */
  lemma ToolNames(name: string)
    ensures name in WRITE_TOOLS <==> PublicationTool(name)
    ensures PublicationTool(name) ==> name !in CONTROLLER_TOOLS && name != "write_file" && name != "run_command"
    ensures "write_file" in CONTROLLER_TOOLS && "run_command" in CONTROLLER_TOOLS
  {
    if PublicationTool(name) {
      assert name[0] == 'c';
      assert "read_file"[0] == 'r' && "list_directory"[0] == 'l' && "search_text"[0] == 's' && "write_file"[0] == 'w';
      assert "run_command"[0] == 'r' && "git_diff"[0] == 'g' && "system_info"[0] == 's';
    }
  }

  /** Every other registered tool succeeds whenever its handler does, bound or not, and has no effect. */
  lemma ReadingExactly(setup: Setup, ops: seq<Op>, name: string, answers: Answers)
    requires name != "write_file" && name != "run_command" && !PublicationTool(name)
    ensures var s := Run(setup, ops);
      && AfterExecute(s, setup, name, answers) == s
      && (Succeeds(s, setup, name, answers) <==>
            && !answers.raises && answers.completes
            && (|| name == "read_file" || name == "list_directory" || name == "search_text" || name == "git_diff"
                || name == "system_info"
                || (setup.commons.Some? && setup.commons.value.ready && name in setup.commons.value.offered)))
  {
    ToolNames(name);
  }
}
