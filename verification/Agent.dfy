/** Bounded escalation: roles tried in turn, each a bounded conversation with tool steps, each verified against
    every path modified so far. The provider, the tools and the verifier are an arbitrary world. */
module Agent {
  import opened MncsExec
  import opened Orders
  import opened Router

  datatype Execution = Execution(name: string, output: string, success: bool, path: Option<string>)

  /** A tool round is the executions its calls led to, in order. */
  datatype Reply = Raises(text: string) | Answer(content: string, round: seq<Execution>)

  datatype Report = Report(checks: seq<string>, failures: seq<string>)

  /** What attempt number `a` meets: the reply at each step, and the verifier's findings over the given paths. */
  datatype World = World(reply: (nat, nat) -> Reply, verify: (nat, seq<string>) -> Report, blank: string -> bool)

  datatype Config = Config(maxToolSteps: int, escalateOnToolError: bool, escalateOnVerifierFailure: bool)

  const EXCEEDED := "Model exceeded its tool steps"
  const UNEXPECTED := "Tool loop ended unexpectedly"
  const NO_CONTENT := "Model returned no final content"

  // ---------------------------------------------------------------- one conversation

  datatype Conversation = Conversation(calls: nat, content: string, error: Option<string>, executions: seq<Execution>)

  const OPENED := Conversation(0, "", None, [])

  function Steps(config: Config): nat { if config.maxToolSteps < 0 then 0 else config.maxToolSteps + 1 }

  /** The conversation from `step` on. */
  function Talk(w: World, a: nat, step: nat, config: Config, c: Conversation): Conversation
    decreases Steps(config) - step
  {
    if step >= Steps(config) then c.(error := Some(UNEXPECTED))
    else match w.reply(a, step)
      case Raises(text) => c.(calls := c.calls + 1, error := Some(text))
      case Answer(content, round) =>
        var heard := c.(calls := c.calls + 1, content := content);
        if round == [] then heard
        else if step >= config.maxToolSteps then heard.(error := Some(EXCEEDED))
        else Talk(w, a, step + 1, config, heard.(executions := heard.executions + round))
  }

  method Converse(w: World, a: nat, config: Config) returns (c: Conversation)
    ensures c == Talk(w, a, 0, config, OPENED)
  {
    c := OPENED;
    var step: nat := 0;
    while step < Steps(config)
      invariant step <= Steps(config)
      invariant Talk(w, a, step, config, c) == Talk(w, a, 0, config, OPENED)
    {
      match w.reply(a, step) {
        case Raises(text) =>
          c := c.(calls := c.calls + 1, error := Some(text));
          return;
        case Answer(content, round) =>
          c := c.(calls := c.calls + 1, content := content);
          if round == [] { return; }
          if step >= config.maxToolSteps {
            c := c.(error := Some(EXCEEDED));
            return;
          }
          c := c.(executions := c.executions + round);
      }
      step := step + 1;
    }
    c := c.(error := Some(UNEXPECTED));
  }

  /** A conversation makes at most one provider call per step. */
  lemma {:induction false} TalkBounded(w: World, a: nat, step: nat, config: Config, c: Conversation)
    requires step <= Steps(config)
    ensures Talk(w, a, step, config, c).calls <= c.calls + Steps(config) - step
    decreases Steps(config) - step
  {
    if step < Steps(config) && w.reply(a, step).Answer? {
      var reply := w.reply(a, step);
      var heard := c.(calls := c.calls + 1, content := reply.content);
      TalkBounded(w, a, step + 1, config, heard.(executions := heard.executions + reply.round));
    }
  }

  predicate Asks(w: World, a: nat, step: nat) { w.reply(a, step).Answer? && w.reply(a, step).round != [] }

  predicate Finishes(w: World, a: nat, step: nat) { w.reply(a, step).Answer? && w.reply(a, step).round == [] }

  /** All rounds of `n` steps, beginning at `from`. */
  function Rounds(w: World, a: nat, from: nat, n: nat): seq<Execution>
    decreases n
  {
    if n == 0 then []
        else (if w.reply(a, from).Answer? then w.reply(a, from).round else []) + Rounds(w, a, from + 1, n - 1)
  }

  /** The first step that does not ask for tools, if one of the allowed steps is such. */
  function FirstStop(w: World, a: nat, step: nat, config: Config): (r: Option<nat>)
    ensures r.Some? ==> step <= r.value < Steps(config) && !Asks(w, a, r.value)
    ensures forall k :: step <= k < (if r.Some? then r.value else Steps(config)) ==> Asks(w, a, k)
    decreases Steps(config) - step
  {
    if step >= Steps(config) then None
    else if !Asks(w, a, step) then Some(step)
    else FirstStop(w, a, step + 1, config)
  }

  /** How a conversation ends: at the first step that asks for no tool, in its answer or in the provider's error;
      past the last step in the exceeded error; and unexpectedly only when no step is allowed at all. Every round
      before the end was run, in order. */
  lemma {:induction false} TalkMeaning(w: World, a: nat, step: nat, config: Config, c: Conversation)
    requires step <= Steps(config) && c.error.None? && (step == Steps(config) ==> step == 0)
    ensures var r, stop := Talk(w, a, step, config, c), FirstStop(w, a, step, config);
      if stop.Some? then
        && r.calls == c.calls + stop.value - step + 1
        && r.executions == c.executions + Rounds(w, a, step, stop.value - step)
        && (if Finishes(w, a, stop.value) then r.error.None? && r.content == w.reply(a, stop.value).content
            else r.error == Some(w.reply(a, stop.value).text))
      else if Steps(config) == 0 then r.calls == c.calls && r.error == Some(UNEXPECTED) && r.executions == c.executions
      else
        && r.calls == c.calls + Steps(config) - step && r.error == Some(EXCEEDED)
        && r.executions == c.executions + Rounds(w, a, step, Steps(config) - 1 - step)
    decreases Steps(config) - step
  {
    if step < Steps(config) && Asks(w, a, step) && step < config.maxToolSteps {
      var reply := w.reply(a, step);
      var heard := c.(calls := c.calls + 1, content := reply.content);
      TalkMeaning(w, a, step + 1, config, heard.(executions := heard.executions + reply.round));
      var stop := FirstStop(w, a, step, config);
      var n := (if stop.Some? then stop.value else Steps(config) - 1) - step - 1;
      assert (c.executions + reply.round) + Rounds(w, a, step + 1, n)
          == c.executions + (reply.round + Rounds(w, a, step + 1, n));
    }
  }

  // ---------------------------------------------------------------- one attempt

  /** Paths appended in order, each at most once. */
  function Merge(known: seq<string>, paths: seq<string>): seq<string> {
    if |paths| == 0 then known
    else
      var init := Merge(known, paths[..|paths| - 1]);
      var last := paths[|paths| - 1];
      if last in init then init else init + [last]
  }

  method MergePaths(known: seq<string>, paths: seq<string>) returns (merged: seq<string>)
    ensures merged == Merge(known, paths)
  {
    merged := known;
    for i := 0 to |paths|
      invariant merged == Merge(known, paths[..i])
    {
      assert paths[..i + 1][..i] == paths[..i];
      if paths[i] !in merged { merged := merged + [paths[i]]; }
    }
    assert paths[..|paths|] == paths;
  }

  lemma {:induction false} MergeMeaning(known: seq<string>, paths: seq<string>)
    requires Distinct(known)
    ensures Distinct(Merge(known, paths)) && known <= Merge(known, paths)
    ensures forall p :: p in Merge(known, paths) <==> p in known || p in paths
  {
    if |paths| > 0 {
      var init, last := paths[..|paths| - 1], paths[|paths| - 1];
      assert paths == init + [last];
      MergeMeaning(known, init);
    }
  }

  function Paths(executions: seq<Execution>): seq<string> {
    if |executions| == 0 then []
    else
      var last := executions[|executions| - 1];
      Paths(executions[..|executions| - 1]) + (if last.path.Some? then [last.path.value] else [])
  }

  /** The registry's own record of an attempt's writes. */
  function ModifiedPaths(c: Conversation): seq<string> { Merge([], Paths(c.executions)) }

  function ToolFailures(executions: seq<Execution>): seq<string> {
    if |executions| == 0 then []
    else
      var last := executions[|executions| - 1];
      ToolFailures(executions[..|executions| - 1]) + (if last.success then [] else [last.name + ": " + last.output])
  }

  datatype Attempt = Attempt(role: string, previous: Option<string>, talk: Conversation, checked: seq<string>,
      passed: bool, failures: seq<string>)

  /** Everything held against an attempt, before duplicates are dropped. */
  function Findings(w: World, config: Config, talk: Conversation, report: Report): seq<string> {
    report.failures
    + (if talk.error.Some? && talk.error.value != "" then [talk.error.value] else [])
    + (if config.escalateOnToolError then ToolFailures(talk.executions) else [])
    + (if w.blank(talk.content) && talk.error.None? then [NO_CONTENT] else [])
  }

  function AttemptOf(w: World, config: Config, role: string, a: nat, previous: Option<string>,
      known: seq<string>): Attempt
  {
    var talk := Talk(w, a, 0, config, OPENED);
    var checked := Merge(known, ModifiedPaths(talk));
    var findings := Findings(w, config, talk, w.verify(a, checked));
    Attempt(role, previous, talk, checked, findings == [], Merge([], findings))
  }

  /** The verifier's verdict is the lattice fold of one FAIL per failure and one PASS per check. */
  method Verdict(report: Report) returns (passed: bool)
    ensures passed <==> report.failures == []
  {
    var envelope := seq(|report.failures|, i => FAIL) + seq(|report.checks|, i => PASS);
    var verdict := CombineMarshalled(envelope);
    CombineAllWorst(envelope);
    assert |report.failures| > 0 ==> envelope[0] == FAIL;
    passed := verdict == PASS;
  }

  method CollectToolFailures(executions: seq<Execution>) returns (failures: seq<string>)
    ensures failures == ToolFailures(executions)
  {
    failures := [];
    for i := 0 to |executions|
      invariant failures == ToolFailures(executions[..i])
    {
      assert executions[..i + 1][..i] == executions[..i];
      if !executions[i].success { failures := failures + [executions[i].name + ": " + executions[i].output]; }
    }
    assert executions[..|executions|] == executions;
  }

  method CollectPaths(executions: seq<Execution>) returns (modified: seq<string>)
    ensures modified == Merge([], Paths(executions))
  {
    var paths := [];
    for i := 0 to |executions|
      invariant paths == Paths(executions[..i])
    {
      assert executions[..i + 1][..i] == executions[..i];
      if executions[i].path.Some? { paths := paths + [executions[i].path.value]; }
    }
    assert executions[..|executions|] == executions;
    modified := MergePaths([], paths);
  }

  method CollectFindings(w: World, config: Config, talk: Conversation, report: Report) returns (failures: seq<string>)
    ensures failures == Findings(w, config, talk, report)
  {
    var toolFailures := CollectToolFailures(talk.executions);
    failures := report.failures;
    if talk.error.Some? && talk.error.value != "" { failures := failures + [talk.error.value]; }
    if config.escalateOnToolError { failures := failures + toolFailures; }
    if w.blank(talk.content) && talk.error.None? { failures := failures + [NO_CONTENT]; }
  }

  method RunAttempt(w: World, config: Config, role: string, a: nat, previous: Option<string>, known: seq<string>)
    returns (attempt: Attempt)
    ensures attempt == AttemptOf(w, config, role, a, previous, known)
  {
    var talk := Converse(w, a, config);
    var modified := CollectPaths(talk.executions);
    var checked := MergePaths(known, modified);
    var report := w.verify(a, checked);
    var passed := Verdict(report);
    var failures := CollectFindings(w, config, talk, report);
    if failures != [] { passed := false; }
    var unique := MergePaths([], failures);
    attempt := Attempt(role, previous, talk, checked, passed, unique);
  }

  lemma {:induction false} ToolFailuresMeaning(executions: seq<Execution>)
    ensures ToolFailures(executions) == [] <==> forall i :: 0 <= i < |executions| ==> executions[i].success
  {
    if |executions| > 0 { ToolFailuresMeaning(executions[..|executions| - 1]); }
  }

  /** When an attempt passes. A provider error with an empty message is not held against it. */
  lemma PassedExactly(w: World, config: Config, role: string, a: nat, previous: Option<string>, known: seq<string>)
    ensures var attempt := AttemptOf(w, config, role, a, previous, known);
      attempt.passed <==>
        && w.verify(a, attempt.checked).failures == []
        && (attempt.talk.error.None? || attempt.talk.error.value == "")
        && (config.escalateOnToolError ==>
          forall i :: 0 <= i < |attempt.talk.executions| ==> attempt.talk.executions[i].success)
        && (attempt.talk.error.None? ==> !w.blank(attempt.talk.content))
  {
    ToolFailuresMeaning(Talk(w, a, 0, config, OPENED).executions);
  }

  // ---------------------------------------------------------------- the run

  /** The attempts from role number `a` on. */
  function Attempts(w: World, config: Config, roles: seq<string>, a: nat, previous: Option<string>,
      known: seq<string>): seq<Attempt>
    requires a <= |roles|
    decreases |roles| - a
  {
    if a == |roles| then []
    else
      var attempt := AttemptOf(w, config, roles[a], a, previous, known);
      if attempt.passed || !config.escalateOnVerifierFailure then [attempt]
      else [attempt] + Attempts(w, config, roles, a + 1, Some(roles[a]), attempt.checked)
  }

  method Run(w: World, config: Config, roles: seq<string>) returns (attempts: seq<Attempt>)
    ensures attempts == Attempts(w, config, roles, 0, None, [])
  {
    attempts := [];
    var cumulative: seq<string> := [];
    var previous := None;
    var a: nat := 0;
    while a < |roles|
      invariant a <= |roles|
      invariant attempts + Attempts(w, config, roles, a, previous, cumulative)
          == Attempts(w, config, roles, 0, None, [])
    {
      var attempt := RunAttempt(w, config, roles[a], a, previous, cumulative);
      cumulative := attempt.checked;
      attempts := attempts + [attempt];
      if attempt.passed { return; }
      if !config.escalateOnVerifierFailure { return; }
      previous := Some(attempt.role);
      a := a + 1;
    }
  }

  predicate Successful(attempts: seq<Attempt>) { attempts != [] && attempts[|attempts| - 1].passed }

  function Calls(attempts: seq<Attempt>): nat {
    if |attempts| == 0 then 0 else attempts[0].talk.calls + Calls(attempts[1..])
  }

  predicate Stops(config: Config, attempt: Attempt) { attempt.passed || !config.escalateOnVerifierFailure }

  /** The attempts walk a prefix of the roles, each told of the one before; all but the last failed; and the walk
      stops short only on a pass or with escalation off. */
  ghost predicate WalksPrefix(xs: seq<Attempt>, config: Config, roles: seq<string>, a: nat, previous: Option<string>)
    requires a <= |roles|
  {
    && |xs| <= |roles| - a && (a < |roles| ==> |xs| > 0)
    && (forall i :: 0 <= i < |xs| ==> xs[i].role == roles[a + i])
    && (forall i :: 0 <= i < |xs| ==> xs[i].previous == if i == 0 then previous else Some(roles[a + i - 1]))
    && (forall i :: 0 <= i < |xs| - 1 ==> !Stops(config, xs[i]))
    && (|xs| < |roles| - a ==> Stops(config, xs[|xs| - 1]))
  }

  lemma PrefixStep(attempt: Attempt, rest: seq<Attempt>, config: Config, roles: seq<string>, a: nat,
      previous: Option<string>)
    requires a < |roles| && attempt.role == roles[a] && attempt.previous == previous
    requires if Stops(config, attempt) then rest == [] else WalksPrefix(rest, config, roles, a + 1, Some(roles[a]))
    ensures WalksPrefix([attempt] + rest, config, roles, a, previous)
  {
    var xs := [attempt] + rest;
    forall i | 0 < i < |xs|
      ensures xs[i].role == roles[a + i] && xs[i].previous == Some(roles[a + i - 1])
    {
      assert xs[i] == rest[i - 1];
    }
    forall i | 0 <= i < |xs| - 1 ensures !Stops(config, xs[i]) {
      assert i > 0 ==> xs[i] == rest[i - 1];
    }
  }

  lemma {:induction false} AttemptsPrefix(w: World, config: Config, roles: seq<string>, a: nat,
      previous: Option<string>, known: seq<string>)
    requires a <= |roles|
    ensures WalksPrefix(Attempts(w, config, roles, a, previous, known), config, roles, a, previous)
    decreases |roles| - a
  {
    if a < |roles| {
      var attempt, rest := Next(w, config, roles, a, previous, known);
      if !Stops(config, attempt) { AttemptsPrefix(w, config, roles, a + 1, Some(roles[a]), attempt.checked); }
      PrefixStep(attempt, rest, config, roles, a, previous);
    }
  }

  /** The first attempt and the others. */
  lemma Next(w: World, config: Config, roles: seq<string>, a: nat, previous: Option<string>, known: seq<string>)
    returns (attempt: Attempt, rest: seq<Attempt>)
    requires a < |roles|
    ensures Attempts(w, config, roles, a, previous, known) == [attempt] + rest
    ensures rest == if Stops(config, attempt) then []
        else Attempts(w, config, roles, a + 1, Some(roles[a]), attempt.checked)
    ensures attempt.role == roles[a] && attempt.previous == previous
    ensures attempt.talk.calls <= Steps(config)
    ensures attempt.checked == Merge(known, ModifiedPaths(attempt.talk))
  {
    attempt := AttemptOf(w, config, roles[a], a, previous, known);
    rest := if Stops(config, attempt) then [] else Attempts(w, config, roles, a + 1, Some(roles[a]), attempt.checked);
    TalkBounded(w, a, 0, config, OPENED);
  }

  /** A run succeeds exactly when some attempt passed. */
  lemma SuccessfulExactly(w: World, config: Config, roles: seq<string>)
    ensures var xs := Attempts(w, config, roles, 0, None, []);
      Successful(xs) <==> exists i :: 0 <= i < |xs| && xs[i].passed
  {
    AttemptsPrefix(w, config, roles, 0, None, []);
    var xs := Attempts(w, config, roles, 0, None, []);
    forall i | 0 <= i < |xs| && xs[i].passed ensures i == |xs| - 1 { assert Stops(config, xs[i]); }
  }

  /** Some attempt up to number `i` modified the path. */
  ghost predicate ModifiedBy(xs: seq<Attempt>, i: nat, path: string) {
    exists k :: 0 <= k <= i && k < |xs| && Writes(xs[k].talk.executions, path)
  }

  ghost predicate Writes(executions: seq<Execution>, path: string) {
    exists e :: e in executions && e.path == Some(path)
  }

  lemma {:induction false} PathsMeaning(executions: seq<Execution>, path: string)
    ensures path in Paths(executions) <==> Writes(executions, path)
  {
    if |executions| > 0 {
      var init, last := executions[..|executions| - 1], executions[|executions| - 1];
      assert executions == init + [last];
      PathsMeaning(init, path);
      if Writes(init, path) {
        var e :| e in init && e.path == Some(path);
        assert e in executions;
      }
      assert last in executions;
    }
  }

  /** Each attempt is verified against exactly the paths modified so far, each once, in a growing list. */
  ghost predicate ChecksAll(xs: seq<Attempt>, known: seq<string>) {
    forall i :: 0 <= i < |xs| ==> ChecksAllAt(xs, known, i)
  }

  ghost predicate ChecksAllAt(xs: seq<Attempt>, known: seq<string>, i: nat)
    requires i < |xs|
  {
    && Distinct(xs[i].checked) && (if i == 0 then known else xs[i - 1].checked) <= xs[i].checked
    && forall path :: path in xs[i].checked <==> path in known || ModifiedBy(xs, i, path)
  }

  lemma ChecksStep(attempt: Attempt, rest: seq<Attempt>, known: seq<string>)
    requires Distinct(known) && attempt.checked == Merge(known, ModifiedPaths(attempt.talk))
    requires ChecksAll(rest, attempt.checked)
    ensures ChecksAll([attempt] + rest, known)
  {
    var xs := [attempt] + rest;
    var paths := Paths(attempt.talk.executions);
    MergeMeaning([], paths);
    MergeMeaning(known, ModifiedPaths(attempt.talk));
    assert xs[0] == attempt;
    forall path ensures path in paths <==> Writes(attempt.talk.executions, path) {
      PathsMeaning(attempt.talk.executions, path);
    }
    forall i | 0 <= i < |xs| ensures ChecksAllAt(xs, known, i) {
      if i > 0 {
        assert xs[i] == rest[i - 1] && ChecksAllAt(rest, attempt.checked, i - 1);
        assert i > 1 ==> xs[i - 1] == rest[i - 2];
        forall path ensures path in xs[i].checked <==> path in known || ModifiedBy(xs, i, path) {
          ModifiedShift(xs, rest, i, path);
        }
      }
    }
  }

  lemma ModifiedShift(xs: seq<Attempt>, rest: seq<Attempt>, i: nat, path: string)
    requires 1 <= i < |xs| && xs == [xs[0]] + rest
    ensures ModifiedBy(xs, i, path) <==> Writes(xs[0].talk.executions, path) || ModifiedBy(rest, i - 1, path)
  {
    if ModifiedBy(rest, i - 1, path) {
      var k :| 0 <= k <= i - 1 && k < |rest| && Writes(rest[k].talk.executions, path);
      assert rest[k] == xs[k + 1];
    }
    if ModifiedBy(xs, i, path) {
      var k :| 0 <= k <= i && k < |xs| && Writes(xs[k].talk.executions, path);
      assert k > 0 ==> rest[k - 1] == xs[k];
    }
  }

  lemma {:induction false} AttemptsCheck(w: World, config: Config, roles: seq<string>, a: nat,
      previous: Option<string>, known: seq<string>)
    requires a <= |roles| && Distinct(known)
    ensures ChecksAll(Attempts(w, config, roles, a, previous, known), known)
    decreases |roles| - a
  {
    if a < |roles| {
      var attempt, rest := Next(w, config, roles, a, previous, known);
      MergeMeaning(known, ModifiedPaths(attempt.talk));
      if !Stops(config, attempt) { AttemptsCheck(w, config, roles, a + 1, Some(roles[a]), attempt.checked); }
      ChecksStep(attempt, rest, known);
    }
  }

  // ---------------------------------------------------------------- the run, read off the world

  /** How many steps at the start ask for tools, out of the `n` first. */
  ghost predicate AsksUntil(w: World, a: nat, k: nat) {
    forall j :: 0 <= j < k ==> w.reply(a, j).Answer? && w.reply(a, j).round != []
  }

  /** One conversation: the first step that asks for no tool ends it, in its answer or the provider's error; when all
      `maxToolSteps + 1` steps ask, it is cut off there; the rounds before the end were run in order. */
  lemma TalkExactly(w: World, a: nat, config: Config, k: nat)
    ensures config.maxToolSteps < 0 ==>
      Talk(w, a, 0, config, OPENED) == Conversation(0, "", Some("Tool loop ended unexpectedly"), [])
    ensures k <= config.maxToolSteps && AsksUntil(w, a, k) && w.reply(a, k).Answer? && w.reply(a, k).round == [] ==>
      var c := Talk(w, a, 0, config, OPENED);
      && c.calls == k + 1 && c.error == None && c.executions == Rounds(w, a, 0, k)
      && c.content == w.reply(a, k).content
    ensures k <= config.maxToolSteps && AsksUntil(w, a, k) && w.reply(a, k).Raises? ==>
      var c := Talk(w, a, 0, config, OPENED);
      c.calls == k + 1 && c.error == Some(w.reply(a, k).text) && c.executions == Rounds(w, a, 0, k)
    ensures k == config.maxToolSteps && AsksUntil(w, a, k + 1) ==>
      var c := Talk(w, a, 0, config, OPENED);
      && c.calls == k + 1 && c.error == Some("Model exceeded its tool steps") && c.executions == Rounds(w, a, 0, k)
  {
    if k <= config.maxToolSteps && AsksUntil(w, a, k) {
      TalkMeaning(w, a, 0, config, OPENED);
      FirstStopIs(w, a, config, k);
      assert OPENED.executions + Rounds(w, a, 0, k) == Rounds(w, a, 0, k);
    }
  }

  lemma FirstStopIs(w: World, a: nat, config: Config, k: nat)
    requires k <= config.maxToolSteps && AsksUntil(w, a, k)
    ensures !Asks(w, a, k) ==> FirstStop(w, a, 0, config) == Some(k)
    ensures k == config.maxToolSteps && Asks(w, a, k) ==> FirstStop(w, a, 0, config) == None
  {
    forall j | 0 <= j < k ensures Asks(w, a, j) {}
  }

  /** What is held against an attempt, each finding once: the verifier's failures, a non-empty error, each failing
      tool with its output where these count, and an answer that stayed blank without an error. */
  lemma FailuresExactly(w: World, config: Config, role: string, a: nat, previous: Option<string>, known: seq<string>,
      failure: string)
    ensures var attempt := AttemptOf(w, config, role, a, previous, known);
      && Distinct(attempt.failures)
      && (failure in attempt.failures <==>
            || failure in w.verify(a, attempt.checked).failures
            || (failure != "" && attempt.talk.error == Some(failure))
            || (config.escalateOnToolError
                && exists e :: e in attempt.talk.executions && !e.success && failure == e.name + ": " + e.output)
            || (failure == "Model returned no final content" && attempt.talk.error == None
                && w.blank(attempt.talk.content)))
  {
    var attempt := AttemptOf(w, config, role, a, previous, known);
    MergeMeaning([], Findings(w, config, attempt.talk, w.verify(a, attempt.checked)));
    ToolFailuresMembers(attempt.talk.executions, failure);
  }

  lemma {:induction false} ToolFailuresMembers(executions: seq<Execution>, failure: string)
    ensures failure in ToolFailures(executions) <==>
      exists e :: e in executions && !e.success && failure == e.name + ": " + e.output
  {
    if |executions| > 0 {
      var init, last := executions[..|executions| - 1], executions[|executions| - 1];
      assert executions == init + [last];
      ToolFailuresMembers(init, failure);
      if e :| e in init && !e.success && failure == e.name + ": " + e.output { assert e in executions; }
      assert last in executions;
    }
  }

  /** The attempt is number `a`: its talk and verification are, and it passed exactly when nothing was found. */
  ghost predicate AttemptReads(w: World, config: Config, x: Attempt, a: nat) {
    && x.talk == Talk(w, a, 0, config, OPENED)
    && (x.passed <==>
          && w.verify(a, x.checked).failures == []
          && (x.talk.error.None? || x.talk.error.value == "")
          && (config.escalateOnToolError ==> forall e :: e in x.talk.executions ==> e.success)
          && (x.talk.error.None? ==> !w.blank(x.talk.content)))
  }

  /** The attempts are numbered from `a` on. */
  ghost predicate AllRead(w: World, config: Config, xs: seq<Attempt>, a: nat) {
    forall i :: 0 <= i < |xs| ==> AttemptReads(w, config, xs[i], a + i)
  }

  lemma AttemptOfReads(w: World, config: Config, role: string, a: nat, previous: Option<string>, known: seq<string>)
    ensures AttemptReads(w, config, AttemptOf(w, config, role, a, previous, known), a)
  {
    PassedExactly(w, config, role, a, previous, known);
  }

  /** Every attempt of a run is the one its number says. */
  lemma {:induction false} AttemptsRead(w: World, config: Config, roles: seq<string>, a: nat,
      previous: Option<string>, known: seq<string>)
    requires a <= |roles|
    ensures AllRead(w, config, Attempts(w, config, roles, a, previous, known), a)
    decreases |roles| - a
  {
    if a < |roles| {
      var attempt := AttemptOf(w, config, roles[a], a, previous, known);
      AttemptOfReads(w, config, roles[a], a, previous, known);
      if !attempt.passed && config.escalateOnVerifierFailure {
        AttemptsRead(w, config, roles, a + 1, Some(roles[a]), attempt.checked);
        var rest := Attempts(w, config, roles, a + 1, Some(roles[a]), attempt.checked);
        ReadsShift(w, config, attempt, rest, a);
      }
    }
  }

  lemma ReadsShift(w: World, config: Config, first: Attempt, rest: seq<Attempt>, a: nat)
    requires AttemptReads(w, config, first, a)
    requires AllRead(w, config, rest, a + 1)
    ensures AllRead(w, config, [first] + rest, a)
  {
    var xs := [first] + rest;
    forall i | 0 <= i < |xs| ensures AttemptReads(w, config, xs[i], a + i) {
      if i > 0 { assert xs[i] == rest[i - 1] && a + 1 + (i - 1) == a + i; }
    }
  }

  /** `s` provider calls for each of `n` attempts. */
  function Budget(n: nat, s: nat): nat {
    if n == 0 then 0 else s + Budget(n - 1, s)
  }

  lemma {:induction false} BudgetIsProduct(n: nat, s: nat)
    ensures Budget(n, s) == n * s
  {
    if n > 0 { BudgetIsProduct(n - 1, s); }
  }

  lemma {:induction false} AttemptsCalls(w: World, config: Config, roles: seq<string>, a: nat,
      previous: Option<string>, known: seq<string>)
    requires a <= |roles|
    ensures Calls(Attempts(w, config, roles, a, previous, known)) <= Budget(|roles| - a, Steps(config))
    decreases |roles| - a
  {
    if a < |roles| {
      var attempt, rest := Next(w, config, roles, a, previous, known);
      if !Stops(config, attempt) { AttemptsCalls(w, config, roles, a + 1, Some(roles[a]), attempt.checked); }
      CallsFirst(attempt, rest);
    }
  }

  lemma CallsFirst(attempt: Attempt, rest: seq<Attempt>)
    ensures Calls([attempt] + rest) == attempt.talk.calls + Calls(rest)
  {
    assert ([attempt] + rest)[1..] == rest;
  }

  /** Planned and run: at most `max(1, max_attempts)` conversations of at most `max_tool_steps + 1` provider calls. */
  lemma RunBounded(w: World, config: Config, task: Task, routing: Router.Config, request: Request)
    ensures var plan := PlanRoute(task, routing, request);
      plan.Roles? ==>
        var xs := Attempts(w, config, AllRoles(plan), 0, None, []);
        && 1 <= |xs| <= MaxRoles(routing)
        && Calls(xs) <= MaxRoles(routing) * Steps(config)
  {
    var plan := PlanRoute(task, routing, request);
    if plan.Roles? {
      PlanBounded(task, routing, request);
      AttemptsPrefix(w, config, AllRoles(plan), 0, None, []);
      AttemptsCalls(w, config, AllRoles(plan), 0, None, []);
      BudgetIsProduct(|AllRoles(plan)|, Steps(config));
      Scale(|AllRoles(plan)|, MaxRoles(routing), Steps(config));
    }
  }

  lemma Scale(a: nat, b: nat, n: nat)
    requires a <= b
    ensures a * n <= b * n
  {
  }
}
