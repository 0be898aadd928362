/** The router-only profile: a chain of section edits over one configuration file, read back as a whole. */
module ControllerLight {
  import opened Orders
  import opened TomlProfile
  import opened TomlLaws

  const FABRIC: seq<Entry> := [
    Entry("enabled", "true"), Entry("fallback_to_local", "false"),
    Entry("refresh_on_startup", "true"), Entry("runtime_probe_on_refresh", "false")]

  const ROUTER: seq<Entry> := [
    Entry("mode", "\"deterministic\""), Entry("backend", "\"transformers\""), Entry("enable_semantic_routing", "true")]

  const MODEL: seq<Entry> := [
    Entry("provider", "\"fabric\""), Entry("execution_device", "\"cpu\""),
    Entry("offload", "\"auto\""), Entry("precision", "\"auto\"")]

  const DROPPED: set<string> := {"accelerator_backend"}

  function Section(role: string): string { "models." + role }

  function EditRole(text: seq<Line>, role: string): seq<Line> {
    Removal(Upsert(text, Section(role), MODEL), false, Section(role), DROPPED)
  }

  function EditRoles(text: seq<Line>, roles: seq<string>): seq<Line> {
    if |roles| == 0 then text
    else EditRole(EditRoles(text, roles[..|roles| - 1]), roles[|roles| - 1])
  }

  function Profile(text: seq<Line>, roles: seq<string>): seq<Line> {
    EditRoles(Upsert(Upsert(text, "fabric", FABRIC), "router", ROUTER), roles)
  }

  // ---------------------------------------------------------------- files the profile reads well on

  /** No array of tables is opened inside the section's table. */
  predicate ArrayFree(lines: seq<Line>, current: Table, section: string) {
    |lines| > 0 ==>
      && (lines[0].ArrayHeader? ==> current != Named(section))
      && ArrayFree(lines[1..], Enter(current, lines[0]), section)
  }

  /** The removal recognises every header line at which the section's table is opened or left. */
  predicate Steady(lines: seq<Line>, current: Table, section: string) {
    |lines| > 0 ==>
      && Step(lines[0], current == Named(section), section) == (Enter(current, lines[0]) == Named(section))
      && Steady(lines[1..], Enter(current, lines[0]), section)
  }

  predicate RoleReady(lines: seq<Line>, role: string) {
    ArrayFree(lines, Root, Section(role)) && Steady(lines, Root, Section(role))
  }

  /** Unique headers, no array of tables inside an edited table, and no commented header at the borders of a
      role's table. */
  ghost predicate Prepared(lines: seq<Line>, roles: seq<string>) {
    && UniqueHeaders(lines)
    && ArrayFree(lines, Root, "fabric") && ArrayFree(lines, Root, "router")
    && forall i :: 0 <= i < |roles| ==> RoleReady(lines, roles[i])
  }

  /** All of this can be read off the header lines. */
  lemma {:induction false} ReadOffSkeleton(lines: seq<Line>, current: Table, section: string)
    ensures ArrayFree(Skeleton(lines), current, section) <==> ArrayFree(lines, current, section)
    ensures Steady(Skeleton(lines), current, section) <==> Steady(lines, current, section)
  {
    if |lines| > 0 {
      ReadOffSkeleton(lines[1..], Enter(current, lines[0]), section);
      if lines[0].Header? || lines[0].ArrayHeader? {
        assert ([lines[0]] + Skeleton(lines[1..]))[1..] == Skeleton(lines[1..]);
      }
    }
  }

  lemma {:induction false} NewHeaderIsHarmless(lines: seq<Line>, current: Table, section: string, name: string)
    ensures var longer := lines + [Header(name, false)];
      && (ArrayFree(longer, current, section) <==> ArrayFree(lines, current, section))
      && (Steady(longer, current, section) <==> Steady(lines, current, section))
  {
    var longer := lines + [Header(name, false)];
    if |lines| == 0 {
      assert longer[1..] == [];
    } else {
      assert longer[1..] == lines[1..] + [Header(name, false)];
      NewHeaderIsHarmless(lines[1..], Enter(current, lines[0]), section, name);
    }
  }

  lemma UpsertSkeleton(lines: seq<Line>, section: string, values: seq<Entry>)
    ensures Skeleton(Upsert(lines, section, values)) ==
      if HasHeader(lines, section) then Skeleton(lines) else Skeleton(lines) + [Header(section, false)]
  {
    if HasHeader(lines, section) {
      EditKeepsSkeleton(lines, section, values);
    } else {
      var gap := if |lines| > 0 && !lines[|lines| - 1].Blank? then [Blank] else [];
      var header := [Header(section, false)];
      SkeletonConcat(lines + gap + header, Rendered(values));
      SkeletonConcat(lines + gap, header);
      SkeletonConcat(lines, gap);
      KeysHaveNoSkeleton(gap);
      KeysHaveNoSkeleton(Rendered(values));
      assert header[1..] == [];
      assert Skeleton(lines) + [] == Skeleton(lines);
    }
  }

  lemma {:induction false} RemovalKeepsSkeleton(lines: seq<Line>, inSection: bool, section: string, keys: set<string>)
    ensures Skeleton(Removal(lines, inSection, section, keys)) == Skeleton(lines)
  {
    if |lines| > 0 {
      var rest := Removal(lines[1..], Step(lines[0], inSection, section), section, keys);
      RemovalKeepsSkeleton(lines[1..], Step(lines[0], inSection, section), section, keys);
      assert ([lines[0]] + rest)[1..] == rest;
    }
  }

  lemma UpsertStaysUnique(lines: seq<Line>, section: string, values: seq<Entry>)
    requires UniqueHeaders(lines)
    ensures UniqueHeaders(Upsert(lines, section, values))
  {
    UpsertSkeleton(lines, section, values);
    SkeletonNames(lines);
    SkeletonNames(Upsert(lines, section, values));
    if !HasHeader(lines, section) {
      HeaderNamesConcat(Skeleton(lines), [Header(section, false)]);
      assert [Header(section, false)][1..] == [];
      HeaderNamesMeaning(lines, section);
      assert HeaderNames(Upsert(lines, section, values)) == HeaderNames(lines) + [section];
    }
  }

  lemma UpsertKeepsBorders(lines: seq<Line>, section: string, values: seq<Entry>, other: string)
    ensures var upserted := Upsert(lines, section, values);
      && (ArrayFree(upserted, Root, other) <==> ArrayFree(lines, Root, other))
      && (Steady(upserted, Root, other) <==> Steady(lines, Root, other))
  {
    UpsertSkeleton(lines, section, values);
    ReadOffSkeleton(lines, Root, other);
    ReadOffSkeleton(Upsert(lines, section, values), Root, other);
    NewHeaderIsHarmless(Skeleton(lines), Root, other, section);
  }

  lemma UpsertStaysPrepared(lines: seq<Line>, roles: seq<string>, section: string, values: seq<Entry>)
    requires Prepared(lines, roles)
    ensures Prepared(Upsert(lines, section, values), roles)
  {
    UpsertStaysUnique(lines, section, values);
    UpsertKeepsBorders(lines, section, values, "fabric");
    UpsertKeepsBorders(lines, section, values, "router");
    forall i | 0 <= i < |roles| ensures RoleReady(Upsert(lines, section, values), roles[i]) {
      UpsertKeepsBorders(lines, section, values, Section(roles[i]));
    }
  }

  lemma EditRoleKeepsBorders(lines: seq<Line>, role: string, other: string)
    requires UniqueHeaders(lines)
    ensures UniqueHeaders(EditRole(lines, role))
    ensures ArrayFree(EditRole(lines, role), Root, other) <==> ArrayFree(lines, Root, other)
    ensures Steady(EditRole(lines, role), Root, other) <==> Steady(lines, Root, other)
  {
    var upserted := Upsert(lines, Section(role), MODEL);
    UpsertStaysUnique(lines, Section(role), MODEL);
    UpsertKeepsBorders(lines, Section(role), MODEL, other);
    RemovalKeepsSkeleton(upserted, false, Section(role), DROPPED);
    SkeletonNames(upserted);
    SkeletonNames(EditRole(lines, role));
    ReadOffSkeleton(upserted, Root, other);
    ReadOffSkeleton(EditRole(lines, role), Root, other);
  }

  lemma {:induction false} EditRolesKeepBorders(lines: seq<Line>, roles: seq<string>, other: string)
    requires UniqueHeaders(lines)
    ensures UniqueHeaders(EditRoles(lines, roles))
    ensures ArrayFree(EditRoles(lines, roles), Root, other) <==> ArrayFree(lines, Root, other)
    ensures Steady(EditRoles(lines, roles), Root, other) <==> Steady(lines, Root, other)
  {
    if |roles| > 0 {
      EditRolesKeepBorders(lines, roles[..|roles| - 1], other);
      EditRoleKeepsBorders(EditRoles(lines, roles[..|roles| - 1]), roles[|roles| - 1], other);
    }
  }

  lemma {:induction false} ArrayFreeBody(lines: seq<Line>, section: string)
    requires ArrayFree(lines, Named(section), section)
    ensures NoArrayHeader(Body(lines))
  {
    if |lines| > 0 && !lines[0].Header? { ArrayFreeBody(lines[1..], section); }
  }

  lemma {:induction false} ArrayFreeSection(lines: seq<Line>, current: Table, section: string)
    requires ArrayFree(lines, current, section)
    ensures NoArrayHeader(SectionBody(lines, section))
  {
    if |lines| > 0 {
      if IsHeader(lines[0], section) {
        ArrayFreeBody(lines[1..], section);
      } else {
        ArrayFreeSection(lines[1..], Enter(current, lines[0]), section);
      }
    }
  }

  lemma {:induction false} SteadyTracks(lines: seq<Line>, current: Table, section: string)
    requires Steady(lines, current, section)
    ensures Tracks(lines, current == Named(section), current, section)
  {
    if |lines| > 0 { SteadyTracks(lines[1..], Enter(current, lines[0]), section); }
  }

  // ---------------------------------------------------------------- reading the profile

  ghost predicate IsRoleTable(table: Table, roles: seq<string>) {
    exists i :: 0 <= i < |roles| && table == Named(Section(roles[i]))
  }

  lemma RoleReads(lines: seq<Line>, role: string, table: Table, key: string)
    requires UniqueHeaders(lines) && RoleReady(lines, role)
    ensures Lookup(EditRole(lines, role), Root, table, key) ==
      if table != Named(Section(role)) then Lookup(lines, Root, table, key)
      else if Find(MODEL, key).Some? then Find(MODEL, key)
      else if key in DROPPED then None
      else Lookup(lines, Root, table, key)
  {
    var section := Section(role);
    var upserted := Upsert(lines, section, MODEL);
    ArrayFreeSection(lines, Root, section);
    UpsertReads(lines, section, MODEL, table, key);
    UpsertKeepsBorders(lines, section, MODEL, section);
    SteadyTracks(upserted, Root, section);
    TrackedRemoval(upserted, false, Root, section, DROPPED);
    StrippedReads(upserted, Root, section, DROPPED, table, key);
    ModelKeepsDropped(key);
  }

  lemma ModelKeepsDropped(key: string)
    ensures Find(MODEL, key).Some? ==> key !in DROPPED
  {
    if Find(MODEL, key).Some? {
      var i :| 0 <= i < |MODEL| && MODEL[i].key == key;
      assert MODEL[i].key[0] != 'a';
    }
  }

  lemma {:induction false} RolesRead(lines: seq<Line>, roles: seq<string>, table: Table, key: string)
    requires Prepared(lines, roles)
    ensures Lookup(EditRoles(lines, roles), Root, table, key) ==
      if !IsRoleTable(table, roles) then Lookup(lines, Root, table, key)
      else if Find(MODEL, key).Some? then Find(MODEL, key)
      else if key in DROPPED then None
      else Lookup(lines, Root, table, key)
  {
    if |roles| > 0 {
      var init, last := roles[..|roles| - 1], roles[|roles| - 1];
      assert RoleReady(lines, last);
      RolesRead(lines, init, table, key);
      EditRolesKeepBorders(lines, init, Section(last));
      RoleReads(EditRoles(lines, init), last, table, key);
      RoleTableStep(table, roles);
    }
  }

  lemma RoleTableStep(table: Table, roles: seq<string>)
    requires |roles| > 0
    ensures IsRoleTable(table, roles) <==>
      IsRoleTable(table, roles[..|roles| - 1]) || table == Named(Section(roles[|roles| - 1]))
  {
    var init, last := roles[..|roles| - 1], roles[|roles| - 1];
    if IsRoleTable(table, init) {
      var i :| 0 <= i < |init| && table == Named(Section(init[i]));
      assert roles[i] == init[i];
    }
    if IsRoleTable(table, roles) && table != Named(Section(last)) {
      var i :| 0 <= i < |roles| && table == Named(Section(roles[i]));
      assert init[i] == roles[i];
    }
  }

  /** The value the profile prescribes for a key of the fabric, the router or a role's table. */
  ghost function Prescribed(table: Table, role: bool, key: string): Option<string> {
    if table == Named("fabric") then
      if key == "enabled" || key == "refresh_on_startup" then Some("true")
      else if key == "fallback_to_local" || key == "runtime_probe_on_refresh" then Some("false")
      else None
    else if table == Named("router") then
      if key == "mode" then Some("\"deterministic\"")
      else if key == "backend" then Some("\"transformers\"")
      else if key == "enable_semantic_routing" then Some("true")
      else None
    else if role then
      if key == "provider" then Some("\"fabric\"")
      else if key == "execution_device" then Some("\"cpu\"")
      else if key == "offload" || key == "precision" then Some("\"auto\"")
      else None
    else None
  }

  /** The table of one of the roles. */
  ghost predicate OfRole(table: Table, roles: seq<string>) {
    exists role :: role in roles && table == Named("models." + role)
  }

  /** What the profile makes of a setting: what it prescribes; nothing for the dropped key of a role; and otherwise
      what the file said. */
  ghost function Expected(lines: seq<Line>, roles: seq<string>, table: Table, key: string): Option<string> {
    if Prescribed(table, OfRole(table, roles), key).Some? then Prescribed(table, OfRole(table, roles), key)
    else if OfRole(table, roles) && key == "accelerator_backend" then None
    else Lookup(lines, Root, table, key)
  }

  lemma RoleTables(table: Table, roles: seq<string>)
    ensures OfRole(table, roles) <==> IsRoleTable(table, roles)
  {
    if role :| role in roles && table == Named("models." + role) {
      var i :| 0 <= i < |roles| && roles[i] == role;
      assert table == Named(Section(roles[i]));
    }
  }

  lemma FabricValues(key: string)
    ensures Find(FABRIC, key) == Prescribed(Named("fabric"), false, key)
  {
    FindEach(FABRIC, key);
    assert "enabled"[0] == 'e' && "fallback_to_local"[0] == 'f' && "refresh_on_startup"[1] == 'e'
        && "runtime_probe_on_refresh"[1] == 'u' && "refresh_on_startup"[0] == 'r'
        && "runtime_probe_on_refresh"[0] == 'r';
  }

  lemma RouterValues(key: string)
    ensures Find(ROUTER, key) == Prescribed(Named("router"), false, key)
  {
    FindEach(ROUTER, key);
    assert "mode"[0] == 'm' && "backend"[0] == 'b' && "enable_semantic_routing"[0] == 'e' && "router"[0] == 'r'
        && "fabric"[0] == 'f';
  }

  lemma RoleValues(table: Table, key: string)
    requires table != Named("fabric") && table != Named("router")
    ensures Find(MODEL, key) == Prescribed(table, true, key)
  {
    FindEach(MODEL, key);
    assert "provider"[1] == 'r' && "execution_device"[0] == 'e' && "offload"[0] == 'o' && "precision"[2] == 'e'
        && "provider"[2] == 'o';
  }

  /** Looking up a key in a list of four. */
  lemma FindEach(values: seq<Entry>, key: string)
    requires 3 <= |values| <= 4
    ensures Find(values, key) ==
      if values[0].key == key then Some(values[0].value)
      else if values[1].key == key then Some(values[1].value)
      else if values[2].key == key then Some(values[2].value)
      else if |values| == 4 && values[3].key == key then Some(values[3].value)
      else None
  {
    var r := Find(values, key);
    assert values[1..][1..] == values[2..] && (|values| == 4 ==> values[2..][1..] == values[3..]);
    assert Find(values[2..], key)
        == if values[2].key == key then Some(values[2].value) else Find(values[2..][1..], key);
  }

  /** The profiled file reads the profile's settings, loses exactly the dropped key of each role, and keeps
      every other setting of every table, arrays of tables included. */
  lemma ProfileReads(lines: seq<Line>, roles: seq<string>, table: Table, key: string)
    requires Prepared(lines, roles)
    ensures Lookup(Profile(lines, roles), Root, table, key) == Expected(lines, roles, table, key)
  {
    var one := Upsert(lines, "fabric", FABRIC);
    ArrayFreeSection(lines, Root, "fabric");
    UpsertReads(lines, "fabric", FABRIC, table, key);
    UpsertStaysPrepared(lines, roles, "fabric", FABRIC);
    ArrayFreeSection(one, Root, "router");
    UpsertReads(one, "router", ROUTER, table, key);
    UpsertStaysPrepared(one, roles, "router", ROUTER);
    RolesRead(Upsert(one, "router", ROUTER), roles, table, key);
    NoRoleIsNamed(table, roles);
    RoleTables(table, roles);
    FabricValues(key);
    RouterValues(key);
    if table != Named("fabric") && table != Named("router") { RoleValues(table, key); }
    assert "fabric"[0] == 'f' && "router"[0] == 'r';
  }

  lemma ProfileStaysPrepared(lines: seq<Line>, roles: seq<string>)
    requires Prepared(lines, roles)
    ensures Prepared(Profile(lines, roles), roles)
  {
    var one := Upsert(lines, "fabric", FABRIC);
    var two := Upsert(one, "router", ROUTER);
    UpsertStaysPrepared(lines, roles, "fabric", FABRIC);
    UpsertStaysPrepared(one, roles, "router", ROUTER);
    EditRolesKeepBorders(two, roles, "fabric");
    EditRolesKeepBorders(two, roles, "router");
    forall i | 0 <= i < |roles| ensures RoleReady(Profile(lines, roles), roles[i]) {
      EditRolesKeepBorders(two, roles, Section(roles[i]));
    }
  }

  lemma NoRoleIsNamed(table: Table, roles: seq<string>)
    ensures IsRoleTable(table, roles) ==> table != Named("fabric") && table != Named("router")
  {
    if IsRoleTable(table, roles) {
      var i :| 0 <= i < |roles| && table == Named(Section(roles[i]));
      assert Section(roles[i])[0] == 'm' && "fabric"[0] == 'f' && "router"[0] == 'r';
    }
  }

  /** Applying the profile again changes no setting. */
  lemma ProfileSettles(lines: seq<Line>, roles: seq<string>, table: Table, key: string)
    requires Prepared(lines, roles)
    ensures Lookup(Profile(Profile(lines, roles), roles), Root, table, key)
        == Lookup(Profile(lines, roles), Root, table, key)
  {
    ProfileReads(lines, roles, table, key);
    ProfileStaysPrepared(lines, roles);
    ProfileReads(Profile(lines, roles), roles, table, key);
    NoRoleIsNamed(table, roles);
  }

  /** The text rewritten step by step. */
  method ApplyControllerLight(text: seq<Line>, roles: seq<string>) returns (out: seq<Line>)
    ensures out == Profile(text, roles)
  {
    out := UpsertTomlSection(text, "fabric", FABRIC);
    out := UpsertTomlSection(out, "router", ROUTER);
    ghost var edited := out;
    for i := 0 to |roles|
      invariant out == EditRoles(edited, roles[..i])
    {
      assert roles[..i + 1][..i] == roles[..i];
      out := UpsertTomlSection(out, Section(roles[i]), MODEL);
      out := RemoveTomlKeys(out, Section(roles[i]), DROPPED);
    }
    assert roles[..|roles|] == roles;
  }
}
