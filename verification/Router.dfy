/** Route planning: which roles an agent run may walk through. */
module Router {
  import opened Orders
  import opened Placement

  datatype Task = Task(hasCode: bool, asksEdit: bool, asksExec: bool, highRisk: bool, hasImage: bool, complex: bool)

  /** `models` are the configured roles in order; `lane` is the worker role of the compatibility lane, if one
      applies. */
  datatype Config = Config(models: seq<string>, codeSpecialist: bool, maxAttempts: int, lane: Option<string>)

  datatype Request = Request(mode: Mode, role: Option<string>)

  datatype Plan = Roles(primary: string, escalations: seq<string>) | UnknownRole | NoModels

  function AllRoles(plan: Plan): seq<string>
    requires plan.Roles?
  {
    [plan.primary] + plan.escalations
  }

  // ---------------------------------------------------------------- the kernel

  datatype Role = E2B | E4B | CODER | REVIEWER

  function ClassifyRoute(task: Task): Role {
    if task.highRisk || task.hasImage || task.complex then REVIEWER
    else if task.asksEdit || task.asksExec then E4B
    else E2B
  }

  predicate NeedsCoder(primary: Role, specialist: bool, hasCode: bool) {
    primary == E4B && specialist && hasCode
  }

  predicate IsExactPin(mode: Mode) { mode != AUTO && mode != ROLE }

  // ---------------------------------------------------------------- planning

  function Available(preferred: string, models: seq<string>): string
    requires |models| > 0
  {
    if preferred in models then preferred else models[0]
  }

  function Configured(role: string, models: seq<string>): seq<string> {
    if role in models then [role] else []
  }

  function Chain(kernel: Role, task: Task, config: Config): seq<string> {
    match kernel
    case REVIEWER => []
    case E4B =>
      var specialist := config.codeSpecialist && "coder" in config.models;
      (if NeedsCoder(E4B, specialist, task.hasCode) then ["coder"] else []) + Configured("reviewer", config.models)
    case _ => Configured("e4b", config.models) + Configured("reviewer", config.models)
  }

  function Preferred(kernel: Role): string {
    match kernel
    case REVIEWER => "reviewer"
    case E4B => "e4b"
    case _ => "e2b"
  }

  function MaxRoles(config: Config): nat { if config.maxAttempts < 1 then 1 else config.maxAttempts }

  function DeterministicRoute(task: Task, config: Config): Plan {
    if |config.models| == 0 then NoModels
    else
      var kernel := ClassifyRoute(task);
      var all := [Available(Preferred(kernel), config.models)] + Chain(kernel, task, config);
      var kept := if |all| <= MaxRoles(config) then all else all[..MaxRoles(config)];
      Roles(kept[0], kept[1..])
  }

  function PlanRoute(task: Task, config: Config, request: Request): Plan {
    if request.role.Some? then
      if request.role.value in config.models then Roles(request.role.value, []) else UnknownRole
    else
      var plan := DeterministicRoute(task, config);
      if plan.NoModels? then NoModels
      else if IsExactPin(request.mode) then plan.(escalations := [])
      else if request.mode == AUTO && config.lane.Some? && config.lane.value in config.models
          then plan.(primary := config.lane.value)
      else plan
  }

  /** A plan names at least one role and at most `max(1, max_attempts)`, all of them configured; a forced role and
      an exact pin plan exactly one. Planning fails exactly on an unknown forced role or an empty configuration. */
  lemma PlanBounded(task: Task, config: Config, request: Request)
    ensures var plan := PlanRoute(task, config, request);
      && (plan.UnknownRole? <==> request.role.Some? && request.role.value !in config.models)
      && (plan.NoModels? <==> request.role.None? && config.models == [])
    ensures var plan := PlanRoute(task, config, request);
      plan.Roles? ==>
        && 1 <= |AllRoles(plan)| <= MaxRoles(config)
        && (forall i :: 0 <= i < |AllRoles(plan)| ==> AllRoles(plan)[i] in config.models)
        && (request.role.Some? || IsExactPin(request.mode) ==> |AllRoles(plan)| == 1)
  {
    var plan := PlanRoute(task, config, request);
    if plan.Roles? && request.role.None? {
      var kernel := ClassifyRoute(task);
      var all := [Available(Preferred(kernel), config.models)] + Chain(kernel, task, config);
      assert forall i :: 0 <= i < |all| ==> all[i] in config.models;
      var base := DeterministicRoute(task, config);
      forall i | 0 <= i < |base.escalations| ensures base.escalations[i] in config.models {
        assert base.escalations[i] == all[i + 1];
      }
    }
  }

  /** The roles a task calls for, the preferred one first: the reviewer alone for what is risky, pictured or complex;
      the editor, a coder where code is at hand and a specialist wanted, and the reviewer for edits and execution; and
      otherwise the small model, the editor and the reviewer. */
  ghost function Ladder(task: Task, config: Config): seq<string>
    requires config.models != []
  {
    var reviewer := if "reviewer" in config.models then ["reviewer"] else [];
    if task.highRisk || task.hasImage || task.complex then [Standing("reviewer", config)]
    else if task.asksEdit || task.asksExec then
      [Standing("e4b", config)]
      + (if config.codeSpecialist && task.hasCode && "coder" in config.models then ["coder"] else []) + reviewer
    else [Standing("e2b", config)] + (if "e4b" in config.models then ["e4b"] else []) + reviewer
  }

  /** The role itself where it is configured, the first configured one in its stead. */
  ghost function Standing(role: string, config: Config): string
    requires config.models != []
  {
    if role in config.models then role else config.models[0]
  }

  /** As many as the attempts allow, and at least one. */
  ghost function Bounded(roles: seq<string>, attempts: int): seq<string> {
    if |roles| <= 1 || |roles| <= attempts then roles
    else if attempts < 1 then roles[..1]
    else roles[..attempts]
  }

  /** The roles a plan walks through: a forced role alone; of the bounded ladder the first under an exact pin, and all
      of it otherwise, led by the lane's worker role where automatic routing has one. */
  lemma PlanExactly(task: Task, config: Config, request: Request)
    requires PlanRoute(task, config, request).Roles?
    ensures var roles := AllRoles(PlanRoute(task, config, request));
      if request.role.Some? then roles == [request.role.value]
      else
        config.models != [] &&
        var ladder := Bounded(Ladder(task, config), config.maxAttempts);
        if request.mode != AUTO && request.mode != ROLE then roles == [ladder[0]]
        else if request.mode == AUTO && config.lane.Some? && config.lane.value in config.models
        then roles == [config.lane.value] + ladder[1..]
        else roles == ladder
  {
    if request.role.None? { LadderExactly(task, config); }
  }

  lemma LadderExactly(task: Task, config: Config)
    requires config.models != []
    ensures var plan := DeterministicRoute(task, config);
      plan.Roles? && AllRoles(plan) == Bounded(Ladder(task, config), config.maxAttempts)
  {
    var kernel := ClassifyRoute(task);
    var all := [Available(Preferred(kernel), config.models)] + Chain(kernel, task, config);
    assert all == Ladder(task, config);
    assert all[..|all|] == all;
  }

  /** Escalation never repeats a role when the preferred one is configured and no lane replaced it. */
  lemma EscalationClimbs(task: Task, config: Config)
    requires Preferred(ClassifyRoute(task)) in config.models
    ensures Distinct(AllRoles(DeterministicRoute(task, config)))
  {
    var kernel := ClassifyRoute(task);
    var chain := Chain(kernel, task, config);
    var all := [Preferred(kernel)] + chain;
    assert |"e4b"| == 3 && |"e2b"| == 3 && |"coder"| == 5 && |"reviewer"| == 8 && "e4b"[1] != "e2b"[1];
    assert Distinct(all);
    var plan := DeterministicRoute(task, config);
    assert forall i :: 0 <= i < |AllRoles(plan)| ==> AllRoles(plan)[i] == all[i];
  }
}
