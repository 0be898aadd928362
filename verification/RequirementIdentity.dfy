/** The canonical requirement identity: what reordering leaves it alone, and what
    equal identities force. */
module RequirementIdentity {
  import opened Orders
  import opened AtlasBinding

  const SCHEMA := "mncs.execution-requirement/0.3"

  /** A leg as the identity sees it: its needs sorted. */
  function Canon(leg: Leg): Leg {
    leg.(needs := Sort(StrLe, leg.needs))
  }

  predicate NameLe(a: Leg, b: Leg) {
    StrLe(a.name, b.name)
  }

  function Canons(legs: seq<Leg>): (r: seq<Leg>)
    ensures |r| == |legs| && forall i :: 0 <= i < |r| ==> r[i] == Canon(legs[i])
  {
    seq(|legs|, i requires 0 <= i < |legs| => Canon(legs[i]))
  }

  function CanonicalLegs(legs: seq<Leg>): seq<Leg> {
    Sort(NameLe, Canons(legs))
  }

  function StrArr(xs: seq<string>): (r: Json)
    ensures r.Arr? && |r.items| == |xs| && forall i :: 0 <= i < |xs| ==> r.items[i] == Str(xs[i])
  {
    Arr(seq(|xs|, i requires 0 <= i < |xs| => Str(xs[i])))
  }

  function LegJson(leg: Leg): Json {
    Obj(map[
      "backend" := Str(leg.backend),
      "evidence" := Obj(leg.evidence),
      "name" := Str(leg.name),
      "needs" := StrArr(leg.needs),
      "target" := Str(leg.target)])
  }

  function LegArr(legs: seq<Leg>): (r: Json)
    ensures r.Arr? && |r.items| == |legs| && forall i :: 0 <= i < |legs| ==> r.items[i] == LegJson(legs[i])
  {
    Arr(seq(|legs|, i requires 0 <= i < |legs| => LegJson(legs[i])))
  }

  /** The consequential fields a requirement identity binds. */
  datatype Subject = Subject(
    taskId: string,
    sourceId: string,
    artifactId: string,
    digests: seq<string>,
    legs: seq<Leg>,
    bounds: map<string, Json>,
    participant: string,
    scope: string)

  /** The identity object, from its eight encoded fields. */
  function Body(artifact: Json, bounds: Json, digests: Json, legs: Json, session: Json, source: Json, task: Json): Json
  {
    Obj(map[
      "artifact_identity" := artifact,
      "bounds" := bounds,
      "decision_digests" := digests,
      "legs" := legs,
      "schema_version" := Str(SCHEMA),
      "session" := session,
      "source_identity" := source,
      "task_id" := task])
  }

  function SessionJson(participant: string, scope: string): Json {
    Obj(map["participant" := Str(participant), "scope" := Str(scope)])
  }

  function IdentityBody(s: Subject): Json {
    Body(Str(s.artifactId), Obj(s.bounds), StrArr(Sort(StrLe, s.digests)), LegArr(CanonicalLegs(s.legs)),
         SessionJson(s.participant, s.scope), Str(s.sourceId), Str(s.taskId))
  }

  function Identity(sha: Json -> string, s: Subject): string {
    sha(IdentityBody(s))
  }

  /** Equal in everything but the order of digests, of legs, and of needs within a leg. */
  ghost predicate SameUpToOrder(s: Subject, t: Subject) {
    && s.taskId == t.taskId && s.sourceId == t.sourceId && s.artifactId == t.artifactId
    && s.bounds == t.bounds && s.participant == t.participant && s.scope == t.scope
    && multiset(s.digests) == multiset(t.digests)
    && multiset(Canons(s.legs)) == multiset(Canons(t.legs))
  }

  lemma NameOrder()
    ensures TotalPreorder(NameLe)
  {
    StrOrder();
  }

  lemma StrArrInjective(a: seq<string>, b: seq<string>)
    requires StrArr(a) == StrArr(b)
    ensures a == b
  {
    var x, y := StrArr(a), StrArr(b);
    forall i | 0 <= i < |a| ensures a[i] == b[i] {
      assert x.items[i] == y.items[i];
    }
  }

  lemma LegJsonInjective(a: Leg, b: Leg)
    requires LegJson(a) == LegJson(b)
    ensures a == b
  {
    var x, y := LegJson(a).fields, LegJson(b).fields;
    assert x["backend"] == y["backend"] && x["evidence"] == y["evidence"] && x["name"] == y["name"];
    assert x["target"] == y["target"] && x["needs"] == y["needs"];
    StrArrInjective(a.needs, b.needs);
  }

  lemma LegArrInjective(a: seq<Leg>, b: seq<Leg>)
    requires LegArr(a) == LegArr(b)
    ensures a == b
  {
    var x, y := LegArr(a), LegArr(b);
    forall i | 0 <= i < |a| ensures a[i] == b[i] {
      assert x.items[i] == y.items[i];
      LegJsonInjective(a[i], b[i]);
    }
  }

  lemma BodyInjective(a: Json, b: Json, d: Json, l: Json, e: Json, o: Json, t: Json,
                      a': Json, b': Json, d': Json, l': Json, e': Json, o': Json, t': Json)
    requires Body(a, b, d, l, e, o, t) == Body(a', b', d', l', e', o', t')
    ensures a == a' && b == b' && d == d' && l == l' && e == e' && o == o' && t == t'
  {
    var x, y := Body(a, b, d, l, e, o, t).fields, Body(a', b', d', l', e', o', t').fields;
    assert x["artifact_identity"] == y["artifact_identity"] && x["bounds"] == y["bounds"];
    assert x["decision_digests"] == y["decision_digests"] && x["legs"] == y["legs"];
    assert x["session"] == y["session"] && x["source_identity"] == y["source_identity"] && x["task_id"] == y["task_id"];
  }

  lemma SessionInjective(p: string, s: string, p': string, s': string)
    requires SessionJson(p, s) == SessionJson(p', s')
    ensures p == p' && s == s'
  {
    var x, y := SessionJson(p, s).fields, SessionJson(p', s').fields;
    assert x["participant"] == y["participant"] && x["scope"] == y["scope"];
  }

  /** The body determines every field, the digests and the canonical legs. */
  lemma BodyDetermines(s: Subject, t: Subject)
    requires IdentityBody(s) == IdentityBody(t)
    ensures s.taskId == t.taskId && s.sourceId == t.sourceId && s.artifactId == t.artifactId
    ensures s.bounds == t.bounds && s.participant == t.participant && s.scope == t.scope
    ensures Sort(StrLe, s.digests) == Sort(StrLe, t.digests)
    ensures CanonicalLegs(s.legs) == CanonicalLegs(t.legs)
  {
    var ds, dt := StrArr(Sort(StrLe, s.digests)), StrArr(Sort(StrLe, t.digests));
    var ls, lt := LegArr(CanonicalLegs(s.legs)), LegArr(CanonicalLegs(t.legs));
    var es, et := SessionJson(s.participant, s.scope), SessionJson(t.participant, t.scope);
    BodyInjective(Str(s.artifactId), Obj(s.bounds), ds, ls, es, Str(s.sourceId), Str(s.taskId),
                  Str(t.artifactId), Obj(t.bounds), dt, lt, et, Str(t.sourceId), Str(t.taskId));
    SessionInjective(s.participant, s.scope, t.participant, t.scope);
    StrArrInjective(Sort(StrLe, s.digests), Sort(StrLe, t.digests));
    LegArrInjective(CanonicalLegs(s.legs), CanonicalLegs(t.legs));
  }

  /** Equal bodies force equal material, up to order. */
  lemma EqualBodiesForceEqualMaterial(s: Subject, t: Subject)
    requires IdentityBody(s) == IdentityBody(t)
    ensures SameUpToOrder(s, t)
  {
    BodyDetermines(s, t);
    assert multiset(s.digests) == multiset(Sort(StrLe, s.digests)) == multiset(t.digests);
    assert multiset(Canons(s.legs)) == multiset(CanonicalLegs(s.legs)) == multiset(Canons(t.legs));
  }

  lemma DistinctNamesDistinguish(legs: seq<Leg>)
    requires forall i, j :: 0 <= i < j < |legs| ==> legs[i].name != legs[j].name
    ensures KeysDistinguish(NameLe, Canons(legs))
  {
    forall a, b | a in Canons(legs) && b in Canons(legs) && NameLe(a, b) && NameLe(b, a) ensures a == b {
      StrAntisymmetric(a.name, b.name);
      OneOfName(legs, Canons(legs), a, b);
    }
  }

  lemma OneOfName(legs: seq<Leg>, canons: seq<Leg>, a: Leg, b: Leg)
    requires forall i, j :: 0 <= i < j < |legs| ==> legs[i].name != legs[j].name
    requires |canons| == |legs| && forall i :: 0 <= i < |legs| ==> canons[i].name == legs[i].name
    requires a in canons && b in canons && a.name == b.name
    ensures a == b
  {
    var i :| 0 <= i < |canons| && canons[i] == a;
    var j :| 0 <= j < |canons| && canons[j] == b;
    assert legs[i].name == legs[j].name;
  }

  /** With distinct leg names the identity body forgets exactly the listing orders. */
  lemma IdentityForgetsExactlyOrder(s: Subject, t: Subject)
    requires forall i, j :: 0 <= i < j < |s.legs| ==> s.legs[i].name != s.legs[j].name
    ensures IdentityBody(s) == IdentityBody(t) <==> SameUpToOrder(s, t)
  {
    if IdentityBody(s) == IdentityBody(t) { EqualBodiesForceEqualMaterial(s, t); }
    if SameUpToOrder(s, t) {
      StrOrder();
      NameOrder();
      SortForgetsOrder(StrLe, s.digests, t.digests);
      DistinctNamesDistinguish(s.legs);
      SortForgetsOrder(NameLe, Canons(s.legs), Canons(t.legs));
    }
  }

  /** Under a collision-free digest, requirement ids agree exactly when the material does. */
  lemma RequirementIdsAgree(sha: Json -> string, s: Subject, t: Subject)
    requires forall a, b :: sha(a) == sha(b) ==> a == b
    requires forall i, j :: 0 <= i < j < |s.legs| ==> s.legs[i].name != s.legs[j].name
    ensures Identity(sha, s) == Identity(sha, t) <==> SameUpToOrder(s, t)
  {
    IdentityForgetsExactlyOrder(s, t);
  }

  /** A list of the strings, sorted. */
  ghost predicate SortedStrings(j: Json, xs: seq<string>) {
    j.Arr? && exists ys :: multiset(ys) == multiset(xs) && SortedBy(StrLe, ys) && |j.items| == |ys|
                        && forall i :: 0 <= i < |ys| ==> j.items[i] == Str(ys[i])
  }

  /** The object that stands for a leg, its needs sorted. */
  ghost predicate LegBody(j: Json, leg: Leg) {
    exists needs :: SortedStrings(needs, leg.needs) && j == Obj(map[
      "backend" := Str(leg.backend),
      "evidence" := Obj(leg.evidence),
      "name" := Str(leg.name),
      "needs" := needs,
      "target" := Str(leg.target)])
  }

  /** The identity body, field by field; the legs come in ascending order of their names. */
  lemma IdentityBodyExactly(s: Subject) returns (digests: Json, legs: Json)
    ensures SortedStrings(digests, s.digests) && LegsBody(legs, s.legs)
    ensures IdentityBody(s) == Obj(map[
      "artifact_identity" := Str(s.artifactId),
      "bounds" := Obj(s.bounds),
      "decision_digests" := digests,
      "legs" := legs,
      "schema_version" := Str("mncs.execution-requirement/0.3"),
      "session" := Obj(map["participant" := Str(s.participant), "scope" := Str(s.scope)]),
      "source_identity" := Str(s.sourceId),
      "task_id" := Str(s.taskId)])
  {
    digests, legs := StrArr(Sort(StrLe, s.digests)), LegArr(CanonicalLegs(s.legs));
    SortedArray(s.digests);
    LegsExactly(s.legs);
  }

  ghost predicate LegsBody(j: Json, legs: seq<Leg>) {
    j.Arr? && exists ls :: multiset(ls) == multiset(Canons(legs)) && SortedBy(NameLe, ls) && |j.items| == |ls|
                        && forall i :: 0 <= i < |ls| ==> LegBody(j.items[i], ls[i])
  }

  lemma SortedArray(xs: seq<string>)
    ensures SortedStrings(StrArr(Sort(StrLe, xs)), xs)
  {
    StrOrder();
    SortSorted(StrLe, xs);
  }

  lemma LegsExactly(legs: seq<Leg>)
    ensures LegsBody(LegArr(CanonicalLegs(legs)), legs)
  {
    NameOrder();
    SortSorted(NameLe, Canons(legs));
    var ls := CanonicalLegs(legs);
    SameMultisetSameElements(ls, Canons(legs));
    forall i | 0 <= i < |ls| ensures LegBody(LegJson(ls[i]), ls[i]) {
      assert ls[i] in Canons(legs);
      var k :| 0 <= k < |legs| && Canons(legs)[k] == ls[i];
      LegExactly(legs[k]);
    }
  }

  lemma LegExactly(leg: Leg)
    ensures LegBody(LegJson(Canon(leg)), Canon(leg))
  {
    StrOrder();
    SortSorted(StrLe, leg.needs);
    assert SortedStrings(StrArr(Sort(StrLe, leg.needs)), Canon(leg).needs);
  }

  /** Legs that share a name keep their order: swapping them is visible unless they are the same leg. */
  lemma SameNamedLegsKeepOrder(s: Subject, a: Leg, b: Leg)
    ensures IdentityBody(s.(legs := [a, b])) == IdentityBody(s.(legs := [b, a]))
       <==> a.name != b.name || Canon(a) == Canon(b)
  {
    CanonicalTwo(a, b);
    CanonicalTwo(b, a);
    SortEitherWay(Canon(a), Canon(b));
    BodyByLegs(s, [a, b], [b, a]);
  }

  lemma CanonicalTwo(a: Leg, b: Leg)
    ensures CanonicalLegs([a, b]) == Sort(NameLe, [Canon(a), Canon(b)])
  {
    assert Canons([a, b]) == [Canon(a), Canon(b)];
  }

  lemma BodyByLegs(s: Subject, one: seq<Leg>, other: seq<Leg>)
    ensures IdentityBody(s.(legs := one)) == IdentityBody(s.(legs := other)) <==>
        CanonicalLegs(one) == CanonicalLegs(other)
  {
    if IdentityBody(s.(legs := one)) == IdentityBody(s.(legs := other)) {
      BodyDetermines(s.(legs := one), s.(legs := other));
    }
  }

  lemma SortEitherWay(x: Leg, y: Leg)
    ensures Sort(NameLe, [x, y]) == Sort(NameLe, [y, x]) <==> x.name != y.name || x == y
  {
    SortTwo(x, y);
    SortTwo(y, x);
    StrTotal(x.name, y.name);
    if StrLe(x.name, y.name) && StrLe(y.name, x.name) { StrAntisymmetric(x.name, y.name); }
    assert [x, y] == [y, x] <==> x == y by {
      assert [x, y][0] == x && [y, x][0] == y;
    }
  }

  lemma SortTwo(x: Leg, y: Leg)
    ensures Sort(NameLe, [x, y]) == if NameLe(x, y) then [x, y] else [y, x]
  {
    assert [x, y][1..] == [y];
    assert [y][1..] == [];
    assert Sort(NameLe, [y]) == [y];
  }
}
