/** Choosing an installed model for a role: exact preference first, then eligible
    candidates ranked by evidence, claims, residency, size and name. */
module ModelSelection {
  import opened Orders

  // ---------------------------------------------------------------- items, evidence, requirements

  /** An inventory entry; `capabilities` is None when the provider reports no list. Selection sees
      every name stripped. */
  datatype Item = Item(name: string, size: nat, loaded: bool, capabilities: Option<seq<string>>)

  datatype Observed = NONE | PASS | FAIL
  datatype UnknownPolicy = FailClosed | Explore | ProviderClaimCompat | Other

  datatype Evidence = Evidence(model: string, capability: string, outcome: Observed)

  datatype Requirements = Requirements(
    needsCompletion: bool, needsTools: bool, needsCodeEdit: bool, preferSmall: bool, preferLarge: bool,
      unknown: UnknownPolicy)

  datatype SelectionPolicy = SelectionPolicy(maxCoderBytes: nat, requireObserved: bool, allowUnclaimed: bool)

  const DEFAULT_POLICY := SelectionPolicy(10 * 1024 * 1024 * 1024, false, true)

  function RequirementsFor(role: string): Requirements {
    if role == "e2b" then Requirements(true, false, false, true, false, Explore)
    else if role == "e4b" then Requirements(true, true, false, false, false, ProviderClaimCompat)
    else if role == "coder" then Requirements(true, true, true, false, false, ProviderClaimCompat)
    else if role == "reviewer" then Requirements(true, true, false, false, true, ProviderClaimCompat)
    else Requirements(true, false, false, false, false, ProviderClaimCompat)
  }

  predicate Claims(item: Item, capability: string) {
    capability != "" && item.capabilities.Some? && capability in item.capabilities.value
  }

  function Latest(evidence: seq<Evidence>, model: string, capability: string): Observed {
    if |evidence| == 0 then NONE
    else
      var last := evidence[|evidence| - 1];
      if last.model == model && last.capability == capability then last.outcome
      else Latest(evidence[..|evidence| - 1], model, capability)
  }

  // ---------------------------------------------------------------- eligibility kernel

  predicate CompletionGate(observed: Observed, claimed: bool, unknown: UnknownPolicy, requireObserved: bool) {
    match observed
    case FAIL => false
    case PASS => true
    case NONE => claimed || !(unknown.FailClosed? && requireObserved)
  }

  predicate ToolsGate(observed: Observed, claimed: bool, unknown: UnknownPolicy, requireObserved: bool,
      allowUnclaimed: bool)
  {
    match observed
    case FAIL => false
    case PASS => true
    case NONE =>
      if claimed then !requireObserved
      else unknown.Explore? || (unknown.ProviderClaimCompat? && allowUnclaimed)
  }

  predicate CodeEditGate(observed: Observed) { !observed.FAIL? }

  /** What a selection depends on besides the inventory. */
  datatype Criteria = Criteria(req: Requirements, evidence: seq<Evidence>, policy: SelectionPolicy)

  predicate Eligible(c: Criteria, item: Item) {
    var name := item.name;
    && (c.req.needsCompletion ==>
          CompletionGate(Latest(c.evidence, name, "reachability"), Claims(item, "completion"), c.req.unknown,
            c.policy.requireObserved))
    && (c.req.needsTools ==>
          ToolsGate(Latest(c.evidence, name, "tool_call"), Claims(item, "tools"), c.req.unknown,
                    c.policy.requireObserved, c.policy.allowUnclaimed))
    && (c.req.needsCodeEdit ==> CodeEditGate(Latest(c.evidence, name, "code_edit")))
  }

  predicate ToolSignal(c: Criteria, item: Item) {
    Claims(item, "tools") || Latest(c.evidence, item.name, "tool_call").PASS?
  }

  predicate AnyToolSignal(c: Criteria, items: seq<Item>) {
    exists i :: 0 <= i < |items| && ToolSignal(c, items[i])
  }

  /** A candidate among `items`: eligible, and showing a tools signal whenever tools are needed and anyone shows one. */
  predicate Admitted(c: Criteria, items: seq<Item>, item: Item) {
    Eligible(c, item) && !(c.req.needsTools && AnyToolSignal(c, items) && !ToolSignal(c, item))
  }

  // ---------------------------------------------------------------- ranking

  const NO_SIZE_SMALL := 0x4000_0000_0000_0000
  const NO_SIZE_CODER := 0x2000_0000_0000_0000

  function SizeRank(c: Criteria, item: Item): int {
    if c.req.preferSmall then (if item.size > 0 then item.size else NO_SIZE_SMALL)
    else if c.req.preferLarge then 0 - item.size
    else if 0 < item.size <= c.policy.maxCoderBytes then 0 - item.size
    else if item.size > 0 then item.size
    else NO_SIZE_CODER
  }

  datatype Key = Key(tools: int, codeEdit: int, claim: int, cold: int, size: int, name: string)

  function RankKey(c: Criteria, item: Item): Key {
    var name := item.name;
    Key(if c.req.needsTools && Latest(c.evidence, name, "tool_call").PASS? then 0 else 1,
        if c.req.needsCodeEdit && Latest(c.evidence, name, "code_edit").PASS? then 0 else 1,
        if c.req.needsTools && Claims(item, "tools") then 0 else 1,
        if item.loaded then 0 else 1,
        SizeRank(c, item),
        name)
  }

  /** Python's tuple order. */
  predicate KeyLe(a: Key, b: Key) {
    if a.tools != b.tools then a.tools < b.tools
    else if a.codeEdit != b.codeEdit then a.codeEdit < b.codeEdit
    else if a.claim != b.claim then a.claim < b.claim
    else if a.cold != b.cold then a.cold < b.cold
    else if a.size != b.size then a.size < b.size
    else StrLe(a.name, b.name)
  }

  lemma KeyTotal(a: Key, b: Key)
    ensures KeyLe(a, b) || KeyLe(b, a)
    ensures KeyLe(a, b) && KeyLe(b, a) ==> a == b
  {
    StrTotal(a.name, b.name);
    if StrLe(a.name, b.name) && StrLe(b.name, a.name) { StrAntisymmetric(a.name, b.name); }
  }

  lemma KeyTransitive(a: Key, b: Key, c: Key)
    requires KeyLe(a, b) && KeyLe(b, c)
    ensures KeyLe(a, c)
  {
    if StrLe(a.name, b.name) && StrLe(b.name, c.name) { StrTransitive(a.name, b.name, c.name); }
  }

  // ---------------------------------------------------------------- selection

  function Named(items: seq<Item>, name: string): (r: Option<Item>)
    ensures r.Some? ==> r.value in items && r.value.name == name
    ensures r.None? <==> forall i :: i in items ==> i.name != name
  {
    if |items| == 0 then None
    else if items[0].name == name then Some(items[0])
    else
      assert items == [items[0]] + items[1..];
      Named(items[1..], name)
  }

  function Names(items: seq<Item>): seq<string> {
    if |items| == 0 then []
    else Names(items[..|items| - 1]) + (if items[|items| - 1].name != "" then [items[|items| - 1].name] else [])
  }

  lemma {:induction false} NamesMeaning(items: seq<Item>, name: string)
    ensures name in Names(items) <==> name != "" && exists i :: i in items && i.name == name
  {
    if |items| > 0 {
      var init, last := items[..|items| - 1], items[|items| - 1];
      assert items == init + [last];
      NamesMeaning(init, name);
      if i :| i in init && i.name == name { assert i in items; }
      assert last in items;
    }
  }

  function FirstOf(items: seq<Item>, names: seq<string>): (r: seq<Item>)
    requires forall n :: n in names ==> Named(items, n).Some?
    ensures |r| == |names| && forall i :: 0 <= i < |r| ==> r[i] == Named(items, names[i]).value
  {
    seq(|names|, i requires 0 <= i < |names| => assert names[i] in names; Named(items, names[i]).value)
  }

  lemma NamesAreNamed(items: seq<Item>)
    ensures forall n :: n in SortedSet(StrLe, Names(items)) ==> Named(items, n).Some?
    ensures forall n :: n in Names(items) ==> Named(items, n).Some?
  {
    StrOrder();
    SortedSetMeaning(StrLe, Names(items));
    forall n | n in Names(items) ensures Named(items, n).Some? { NamesMeaning(items, n); }
  }

  /** The first item of each non-empty name, in name order. */
  function Deduped(items: seq<Item>): seq<Item> {
    NamesAreNamed(items);
    FirstOf(items, SortedSet(StrLe, Names(items)))
  }

  lemma OrderedNames(items: seq<Item>)
    ensures forall n :: n in SortedSet(StrLe, Names(items)) <==> n in Names(items)
  {
    StrOrder();
    SortedSetMeaning(StrLe, Names(items));
  }

  method DedupeModels(items: seq<Item>) returns (r: seq<Item>)
    ensures r == Deduped(items)
  {
    var byName := FirstByName(items);
    var order := SortedSet(StrLe, Names(items));
    OrderedNames(items);
    r := PickInOrder(byName, order);
    forall i | 0 <= i < |order| ensures r[i] == Named(items, order[i]).value { assert order[i] in order; }
  }

  method PickInOrder(byName: map<string, Item>, order: seq<string>) returns (r: seq<Item>)
    requires forall n :: n in order ==> n in byName
    ensures |r| == |order| && forall k :: 0 <= k < |r| ==> order[k] in order && r[k] == byName[order[k]]
  {
    r := [];
    for k := 0 to |order|
      invariant |r| == k && forall j :: 0 <= j < k ==> r[j] == byName[order[j]]
    {
      assert order[k] in order;
      r := r + [byName[order[k]]];
    }
  }

  /** The dictionary of first items. */
  method FirstByName(items: seq<Item>) returns (byName: map<string, Item>)
    ensures forall n :: n in byName <==> n in Names(items)
    ensures forall n :: n in byName ==> Named(items, n) == Some(byName[n])
  {
    byName := map[];
    for i := 0 to |items|
      invariant forall n :: n in byName <==> n in Names(items[..i])
      invariant forall n :: n in byName ==> Named(items[..i], n) == Some(byName[n])
    {
      assert items[..i + 1] == items[..i] + [items[i]];
      var name := items[i].name;
      forall n ensures Named(items[..i + 1], n) ==
          if Named(items[..i], n).Some? then Named(items[..i], n) else if n == name then Some(items[i]) else None
      {
        NamedAppend(items[..i], items[i], n);
      }
      NamesMeaning(items[..i], name);
      if name != "" && name !in byName { byName := byName[name := items[i]]; }
    }
    assert items[..|items|] == items;
  }

  lemma {:induction false} NamedAppend(items: seq<Item>, item: Item, name: string)
    ensures Named(items + [item], name) ==
      if Named(items, name).Some? then Named(items, name) else if name == item.name then Some(item) else None
  {
    if |items| == 0 {
      assert items + [item] == [item];
    } else {
      assert (items + [item])[1..] == items[1..] + [item];
      NamedAppend(items[1..], item, name);
    }
  }

  /** The least-ranked admitted item of a suffix, relative to the whole list. */
  function Best(c: Criteria, all: seq<Item>, items: seq<Item>): Option<Item> {
    if |items| == 0 then None
    else
      var best := Best(c, all, items[..|items| - 1]);
      var last := items[|items| - 1];
      if !Admitted(c, all, last) then best
      else if best.None? || !KeyLe(RankKey(c, best.value), RankKey(c, last)) then Some(last)
      else best
  }

  datatype Choice = Choice(model: string, size: nat, loaded: bool)

  function Chosen(c: Criteria, configured: string, models: seq<Item>): Option<Choice> {
    var available := Deduped(models);
    var exact := Named(available, configured);
    if exact.Some? then Some(Choice(configured, exact.value.size, exact.value.loaded))
    else
      var best := Best(c, available, available);
      if best.None? then None
      else Some(Choice(best.value.name, best.value.size, best.value.loaded))
  }

  method SelectInstalledModel(role: string, configured: string, models: seq<Item>, evidence: seq<Evidence>)
      returns (r: Option<Choice>)
    ensures r == Chosen(Criteria(RequirementsFor(role), evidence, DEFAULT_POLICY), configured, models)
  {
    var c := Criteria(RequirementsFor(role), evidence, DEFAULT_POLICY);
    var available := DedupeModels(models);
    if |available| == 0 { return None; }
    var exact := Named(available, configured);
    if exact.Some? { return Some(Choice(configured, exact.value.size, exact.value.loaded)); }
    var best: Option<Item> := None;
    for i := 0 to |available|
      invariant best == Best(c, available, available[..i])
    {
      assert available[..i + 1][..i] == available[..i];
      var item := available[i];
      if !Admitted(c, available, item) { continue; }
      if best.None? || !KeyLe(RankKey(c, best.value), RankKey(c, item)) { best := Some(item); }
    }
    assert available[..|available|] == available;
    if best.None? { return None; }
    return Some(Choice(best.value.name, best.value.size, best.value.loaded));
  }

  // ---------------------------------------------------------------- what a selection promises

  lemma {:induction false} BestIsLeast(c: Criteria, all: seq<Item>, items: seq<Item>)
    ensures var best := Best(c, all, items);
      && (best.None? <==> forall item :: item in items ==> !Admitted(c, all, item))
      && (best.Some? ==>
            && best.value in items && Admitted(c, all, best.value)
            && forall item :: item in items && Admitted(c, all, item) ==>
                 KeyLe(RankKey(c, best.value), RankKey(c, item)))
  {
    if |items| > 0 {
      var init, last := items[..|items| - 1], items[|items| - 1];
      assert items == init + [last];
      BestIsLeast(c, all, init);
      var before := Best(c, all, init);
      if Admitted(c, all, last) {
        KeyTotal(RankKey(c, last), RankKey(c, last));
        if before.Some? {
          KeyTotal(RankKey(c, before.value), RankKey(c, last));
          if !KeyLe(RankKey(c, before.value), RankKey(c, last)) {
            forall item | item in init && Admitted(c, all, item) ensures KeyLe(RankKey(c, last), RankKey(c, item)) {
              KeyTransitive(RankKey(c, last), RankKey(c, before.value), RankKey(c, item));
            }
          }
        }
      }
    }
  }

  lemma DedupedMeaning(items: seq<Item>)
    ensures forall item :: item in Deduped(items) ==>
              item in items && item.name != "" && Named(items, item.name) == Some(item)
    ensures forall item :: item in items && item.name != "" ==>
              Named(items, item.name).Some? && Named(items, item.name).value in Deduped(items)
    ensures forall name :: name != "" ==> Named(Deduped(items), name) == Named(items, name)
  {
    NamesAreNamed(items);
    var order := SortedNames(items);
    var r := Deduped(items);
    assert |r| == |order| && forall i :: 0 <= i < |r| ==> r[i] == Named(items, order[i]).value;
    forall item | item in r ensures item in items && item.name != "" && Named(items, item.name) == Some(item) {
      var i :| 0 <= i < |r| && r[i] == item;
      SortedNamesMeaning(items, order[i]);
      assert order[i] in order;
    }
    forall item | item in items && item.name != ""
      ensures Named(items, item.name).Some? && Named(items, item.name).value in r
    {
      SortedNamesMeaning(items, item.name);
      var i :| 0 <= i < |order| && order[i] == item.name;
      assert r[i] == Named(items, item.name).value;
    }
    forall name | name != "" ensures Named(r, name) == Named(items, name) {
      if Named(items, name).Some? {
        var first := Named(items, name).value;
        assert first in r;
      }
    }
  }

  function SortedNames(items: seq<Item>): seq<string> {
    SortedSet(StrLe, Names(items))
  }

  lemma SortedNamesMeaning(items: seq<Item>, name: string)
    ensures name in SortedNames(items) <==> name != "" && exists i :: i in items && i.name == name
  {
    StrOrder();
    SortedSetMeaning(StrLe, Names(items));
    NamesMeaning(items, name);
  }

  ghost predicate FirstNamed(items: seq<Item>, name: string, item: Item) {
    exists i :: 0 <= i < |items| && items[i] == item && item.name == name
             && forall k :: 0 <= k < i ==> items[k].name != name
  }

  /** A name is looked up as its first occurrence. */
  lemma {:induction false} NamedIsFirst(items: seq<Item>, name: string, item: Item)
    ensures Named(items, name) == Some(item) <==> FirstNamed(items, name, item)
  {
    if |items| > 0 && items[0].name != name {
      var rest := items[1..];
      NamedIsFirst(rest, name, item);
      if Named(items, name) == Some(item) {
        var i :| 0 <= i < |rest| && rest[i] == item && item.name == name
              && forall k :: 0 <= k < i ==> rest[k].name != name;
        assert items[i + 1] == item;
        forall k | 0 <= k < i + 1 ensures items[k].name != name { assert k > 0 ==> items[k] == rest[k - 1]; }
      }
      if FirstNamed(items, name, item) {
        var i :| 0 <= i < |items| && items[i] == item && item.name == name
              && forall k :: 0 <= k < i ==> items[k].name != name;
        assert rest[i - 1] == item && forall k :: 0 <= k < i - 1 ==> rest[k] == items[k + 1];
      }
    } else if |items| > 0 {
      assert items[0].name == name;
    }
  }

  /** The item a listing offers under a name: the first one that carries it. */
  ghost predicate Offers(items: seq<Item>, item: Item) {
    item.name != "" && Named(items, item.name) == Some(item)
  }

  /** The latest evidence about the model's capability says so. */
  ghost predicate Shown(evidence: seq<Evidence>, model: string, capability: string, outcome: Observed) {
    exists i :: 0 <= i < |evidence| && evidence[i] == Evidence(model, capability, outcome)
      && forall k :: i < k < |evidence| ==> evidence[k].model != model || evidence[k].capability != capability
  }

  lemma {:induction false} LatestExactly(evidence: seq<Evidence>, model: string, capability: string, outcome: Observed)
    requires outcome != NONE
    ensures Latest(evidence, model, capability) == outcome <==> Shown(evidence, model, capability, outcome)
  {
    if |evidence| > 0 {
      var init, last := evidence[..|evidence| - 1], evidence[|evidence| - 1];
      if last.model == model && last.capability == capability {
        assert evidence[|evidence| - 1] == last;
      } else {
        LatestExactly(init, model, capability, outcome);
        if Shown(init, model, capability, outcome) {
          var i :| 0 <= i < |init| && init[i] == Evidence(model, capability, outcome)
                && forall k :: i < k < |init| ==> init[k].model != model || init[k].capability != capability;
          assert evidence[i] == init[i];
          forall k | i < k < |evidence| ensures evidence[k].model != model || evidence[k].capability != capability {
            assert k < |init| ==> evidence[k] == init[k];
          }
        }
        if Shown(evidence, model, capability, outcome) {
          var i :| 0 <= i < |evidence| && evidence[i] == Evidence(model, capability, outcome)
                && forall k :: i < k < |evidence| ==>
                     evidence[k].model != model || evidence[k].capability != capability;
          assert init[i] == evidence[i] && forall k :: i < k < |init| ==> init[k] == evidence[k];
        }
      }
    }
  }

  ghost predicate Lists(item: Item, capability: string) {
    item.capabilities.Some? && capability in item.capabilities.value
  }

  /** Nothing needed is known to fail, and what is merely unknown is tolerated by role and policy. */
  ghost predicate MayServe(c: Criteria, item: Item) {
    && (c.req.needsCompletion ==>
          && !Shown(c.evidence, item.name, "reachability", FAIL)
          && (Shown(c.evidence, item.name, "reachability", PASS) || Lists(item, "completion")
              || !c.req.unknown.FailClosed? || !c.policy.requireObserved))
    && (c.req.needsTools ==>
          && !Shown(c.evidence, item.name, "tool_call", FAIL)
          && (|| Shown(c.evidence, item.name, "tool_call", PASS)
              || (Lists(item, "tools") && !c.policy.requireObserved)
              || (!Lists(item, "tools")
                  && (c.req.unknown.Explore? || (c.req.unknown.ProviderClaimCompat? && c.policy.allowUnclaimed)))))
    && (c.req.needsCodeEdit ==> !Shown(c.evidence, item.name, "code_edit", FAIL))
  }

  lemma EligibleExactly(c: Criteria, item: Item)
    ensures Eligible(c, item) <==> MayServe(c, item)
  {
    LatestExactly(c.evidence, item.name, "reachability", FAIL);
    LatestExactly(c.evidence, item.name, "reachability", PASS);
    LatestExactly(c.evidence, item.name, "tool_call", FAIL);
    LatestExactly(c.evidence, item.name, "tool_call", PASS);
    LatestExactly(c.evidence, item.name, "code_edit", FAIL);
  }

  /** The item claims tools, or has shown them. */
  ghost predicate Signals(c: Criteria, item: Item) {
    Lists(item, "tools") || Shown(c.evidence, item.name, "tool_call", PASS)
  }

  lemma SignalExactly(c: Criteria, item: Item)
    ensures ToolSignal(c, item) <==> Signals(c, item)
  {
    LatestExactly(c.evidence, item.name, "tool_call", PASS);
  }

  /** Some offered item shows a tools signal. */
  ghost predicate SignalAround(c: Criteria, items: seq<Item>) {
    exists item :: Offers(items, item) && Signals(c, item)
  }

  ghost predicate Candidate(c: Criteria, items: seq<Item>, item: Item) {
    && Offers(items, item) && MayServe(c, item)
    && (c.req.needsTools && SignalAround(c, items) ==> Signals(c, item))
  }

  lemma AdmittedIsCandidate(c: Criteria, items: seq<Item>, item: Item)
    ensures item in Deduped(items) && Admitted(c, Deduped(items), item) <==> Candidate(c, items, item)
  {
    var available := Deduped(items);
    DedupedMeaning(items);
    EligibleExactly(c, item);
    SignalExactly(c, item);
    if AnyToolSignal(c, available) {
      var i :| 0 <= i < |available| && ToolSignal(c, available[i]);
      SignalExactly(c, available[i]);
      assert available[i] in available && Offers(items, available[i]);
    }
    if SignalAround(c, items) {
      var other :| Offers(items, other) && Signals(c, other);
      SignalExactly(c, other);
      assert other in available;
      var i :| 0 <= i < |available| && available[i] == other;
    }
  }

  /** Where a size stands: the smaller the better, the larger the better, or the largest within the allowance and then
      the smallest beyond it; an unknown size comes last, as 2^62, nothing and 2^61. */
  ghost function SizePlace(c: Criteria, size: nat): int {
    if c.req.preferSmall then if size == 0 then 0x4000_0000_0000_0000 else size
    else if c.req.preferLarge then 0 - size
    else if size == 0 then 0x2000_0000_0000_0000
    else if size <= c.policy.maxCoderBytes then 0 - size
    else size
  }

  /** One item is ranked no later than another: shown tools decide first, then shown edits, claimed tools, residency,
      size and at last the name. */
  ghost predicate RanksBefore(c: Criteria, a: Item, b: Item) {
    var toolsA := c.req.needsTools && Shown(c.evidence, a.name, "tool_call", PASS);
    var toolsB := c.req.needsTools && Shown(c.evidence, b.name, "tool_call", PASS);
    var editsA := c.req.needsCodeEdit && Shown(c.evidence, a.name, "code_edit", PASS);
    var editsB := c.req.needsCodeEdit && Shown(c.evidence, b.name, "code_edit", PASS);
    var claimA, claimB := c.req.needsTools && Lists(a, "tools"), c.req.needsTools && Lists(b, "tools");
    if toolsA != toolsB then toolsA
    else if editsA != editsB then editsA
    else if claimA != claimB then claimA
    else if a.loaded != b.loaded then a.loaded
    else if SizePlace(c, a.size) != SizePlace(c, b.size) then SizePlace(c, a.size) < SizePlace(c, b.size)
    else StrLe(a.name, b.name)
  }

  lemma RankExactly(c: Criteria, a: Item, b: Item)
    ensures KeyLe(RankKey(c, a), RankKey(c, b)) <==> RanksBefore(c, a, b)
  {
    LatestExactly(c.evidence, a.name, "tool_call", PASS);
    LatestExactly(c.evidence, b.name, "tool_call", PASS);
    LatestExactly(c.evidence, a.name, "code_edit", PASS);
    LatestExactly(c.evidence, b.name, "code_edit", PASS);
  }

  /** What each role needs and how it treats the unknown, under the default policy. */
  lemma RolesExactly(role: string)
    ensures var req := RequirementsFor(role);
      && req.needsCompletion
      && (req.needsTools <==> role == "e4b" || role == "coder" || role == "reviewer")
      && (req.needsCodeEdit <==> role == "coder")
      && (req.preferSmall <==> role == "e2b") && (req.preferLarge <==> role == "reviewer")
      && req.unknown == (if role == "e2b" then Explore else ProviderClaimCompat)
    ensures DEFAULT_POLICY.maxCoderBytes == 10_737_418_240
    ensures !DEFAULT_POLICY.requireObserved && DEFAULT_POLICY.allowUnclaimed
  {
    assert "e2b"[1] == '2' && "e4b"[1] == '4' && "coder"[0] == 'c' && "reviewer"[0] == 'r';
  }

  ghost predicate Installed(models: seq<Item>, name: string) {
    name != "" && exists item :: item in models && item.name == name
  }

  /** A configured model that is installed wins, as it is first listed. Otherwise the choice is a candidate no other
      candidate outranks, and there is none exactly when nothing is a candidate. */
  lemma ChosenExactly(c: Criteria, configured: string, models: seq<Item>)
    ensures var r := Chosen(c, configured, models);
      && (Installed(models, configured) ==>
            exists item :: Offers(models, item) && item.name == configured
                        && r == Some(Choice(configured, item.size, item.loaded)))
      && (!Installed(models, configured) ==>
            && (r.None? <==> forall item :: !Candidate(c, models, item))
            && (r.Some? ==> exists item ::
                  && Candidate(c, models, item) && r.value == Choice(item.name, item.size, item.loaded)
                  && forall other :: Candidate(c, models, other) ==> RanksBefore(c, item, other)))
  {
    var available := Deduped(models);
    DedupedMeaning(models);
    BestIsLeast(c, available, available);
    forall item ensures item in available && Admitted(c, available, item) <==> Candidate(c, models, item) {
      AdmittedIsCandidate(c, models, item);
    }
    forall a, b ensures KeyLe(RankKey(c, a), RankKey(c, b)) <==> RanksBefore(c, a, b) { RankExactly(c, a, b); }
    if Installed(models, configured) {
      assert Offers(models, Named(models, configured).value);
    }
  }

  /** When the role needs tools and anything offered shows a tools signal, a fallback choice shows one. */
  lemma ChosenShowsTools(c: Criteria, configured: string, models: seq<Item>)
    requires !Installed(models, configured) && Chosen(c, configured, models).Some?
    requires c.req.needsTools && SignalAround(c, models)
    ensures var name := Chosen(c, configured, models).value.model;
      exists item :: Offers(models, item) && Signals(c, item) && item.name == name
  {
    ChosenExactly(c, configured, models);
    var item :| Candidate(c, models, item)
        && Chosen(c, configured, models).value == Choice(item.name, item.size, item.loaded);
  }

  /** Models of one name are the same wherever they are listed. */
  ghost predicate NamesAgree(items: seq<Item>) {
    forall a, b :: a in items && b in items && a.name == b.name ==> a == b
  }

  /** Listing order and repetition never change a selection among agreeing listings. */
  lemma ChosenForgetsOrder(c: Criteria, configured: string, models: seq<Item>, others: seq<Item>)
    requires NamesAgree(models) && SameElements(models, others)
    ensures Chosen(c, configured, models) == Chosen(c, configured, others)
  {
    forall name ensures Named(models, name) == Named(others, name) {
    }
    forall name ensures name in Names(models) <==> name in Names(others) {
      NamesMeaning(models, name);
      NamesMeaning(others, name);
    }
    StrOrder();
    SortedSetForgetsOrder(StrLe, Names(models), Names(others));
    assert SortedNames(models) == SortedNames(others);
    assert Deduped(models) == Deduped(others);
  }
}
