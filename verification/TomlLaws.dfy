/** What the TOML edits mean for a reader of the file. */
module TomlLaws {
  import opened Orders
  import opened TomlProfile

  // ---------------------------------------------------------------- taking a file apart

  /** The file around the first header of the section. */
  datatype Parts = Parts(before: seq<Line>, header: Line, body: seq<Line>, rest: seq<Line>) {
    function Whole(): seq<Line> { before + [header] + body + rest }
  }

  /** The parts around the first header of the section; `PartsOf` when it is the only one. */
  ghost predicate AroundFirst(p: Parts, lines: seq<Line>, section: string) {
    && lines == p.Whole()
    && NoHeader(p.before, section) && IsHeader(p.header, section)
    && (forall i :: 0 <= i < |p.body| ==> !p.body[i].Header?)
    && (|p.rest| > 0 ==> p.rest[0].Header?)
  }

  ghost predicate PartsOf(p: Parts, lines: seq<Line>, section: string) {
    AroundFirst(p, lines, section) && NoHeader(p.rest, section)
  }

  lemma WholePrefixed(line: Line, p: Parts)
    ensures p.(before := [line] + p.before).Whole() == [line] + p.Whole()
  {
    assert [line] + p.before + [p.header] == [line] + (p.before + [p.header]);
    assert [line] + (p.before + [p.header]) + p.body == [line] + (p.before + [p.header] + p.body);
  }

  lemma PartsPrefixed(line: Line, q: Parts, lines: seq<Line>, section: string)
    requires AroundFirst(q, lines, section) && !IsHeader(line, section)
    ensures AroundFirst(q.(before := [line] + q.before), [line] + lines, section)
  {
    WholePrefixed(line, q);
  }

  lemma HeaderBelow(lines: seq<Line>, section: string)
    requires HasHeader(lines, section) && !IsHeader(lines[0], section)
    ensures HasHeader(lines[1..], section)
  {
    var k :| 0 <= k < |lines| && IsHeader(lines[k], section);
    assert IsHeader(lines[1..][k - 1], section);
  }

  lemma {:induction false} SplitFirst(lines: seq<Line>, section: string) returns (p: Parts)
    requires HasHeader(lines, section)
    ensures AroundFirst(p, lines, section)
  {
    assert lines == [lines[0]] + lines[1..];
    if IsHeader(lines[0], section) {
      p := Parts([], lines[0], Body(lines[1..]), Rest(lines[1..]));
      assert p.Whole() == [p.header] + (p.body + p.rest);
      assert p.body + p.rest == lines[1..];
    } else {
      HeaderBelow(lines, section);
      var q := SplitFirst(lines[1..], section);
      PartsPrefixed(lines[0], q, lines[1..], section);
      p := q.(before := [lines[0]] + q.before);
    }
  }

  lemma Split(lines: seq<Line>, section: string) returns (p: Parts)
    requires UniqueHeaders(lines) && HasHeader(lines, section)
    ensures PartsOf(p, lines, section)
  {
    p := SplitFirst(lines, section);
    assert lines == p.before + [p.header] + (p.body + p.rest);
    UniqueParts(p.before, p.header, p.body + p.rest);
    forall i | 0 <= i < |p.rest| ensures !IsHeader(p.rest[i], section) {
      assert (p.body + p.rest)[|p.body| + i] == p.rest[i];
    }
  }

  lemma EditOfParts(p: Parts, lines: seq<Line>, section: string, values: seq<Entry>)
    requires PartsOf(p, lines, section)
    ensures PartsOf(p.(body := EditBody(p.body, values)), Edit(lines, section, values), section)
  {
    EditParts(p.before, p.header, p.body, p.rest, section, values);
    AdditionsAreKeys(values, p.body);
  }

  lemma {:induction false} AdditionsAreKeys(values: seq<Entry>, body: seq<Line>)
    ensures forall i :: 0 <= i < |Additions(values, body)| ==> Additions(values, body)[i].KeyLine?
  {
    if |values| > 0 { AdditionsAreKeys(values[..|values| - 1], body); }
  }

  // ---------------------------------------------------------------- reading an edited body

  /** A run of key lines opens no table. */
  lemma {:induction false} KeysKeepTable(lines: seq<Line>, current: Table)
    requires forall i :: 0 <= i < |lines| ==> lines[i].KeyLine?
    ensures Last(lines, current) == current
  {
    if |lines| > 0 { KeysKeepTable(lines[1..], current); }
  }

  lemma {:induction false} ReplacedReads(lines: seq<Line>, values: seq<Entry>, current: Table, table: Table,
      key: string)
    ensures Last(ReplaceAll(lines, values), current) == Last(lines, current)
    ensures Lookup(ReplaceAll(lines, values), current, table, key) ==
      if Lookup(lines, current, table, key).Some? && Find(values, key).Some? then Find(values, key)
      else Lookup(lines, current, table, key)
  {
    if |lines| > 0 {
      assert ReplaceAll(lines, values)[1..] == ReplaceAll(lines[1..], values);
      ReplacedReads(lines[1..], values, Enter(current, lines[0]), table, key);
    }
  }

  lemma {:induction false} FindAppend(values: seq<Entry>, e: Entry, key: string)
    ensures Find(values + [e], key) == if Find(values, key).Some? then Find(values, key) else if e.key == key
        then Some(e.value) else None
  {
    if |values| == 0 {
      assert values + [e] == [e];
      assert [e][1..] == [];
    } else {
      assert (values + [e])[1..] == values[1..] + [e];
      FindAppend(values[1..], e, key);
    }
  }

  lemma {:induction false} AdditionsRead(values: seq<Entry>, body: seq<Line>, current: Table, table: Table, key: string)
    ensures Lookup(Additions(values, body), current, table, key) ==
      if current == table && !HasKey(body, key) then Find(values, key) else None
  {
    if |values| > 0 {
      var init, last := values[..|values| - 1], values[|values| - 1];
      assert values == init + [last];
      AdditionsRead(init, body, current, table, key);
      FindAppend(init, last, key);
      AdditionsAreKeys(init, body);
      KeysKeepTable(Additions(init, body), current);
      var tail := if HasKey(body, last.key) then [] else [KeyLine("", last.key, last.value)];
      LookupConcat(Additions(init, body), tail, current, table, key);
      assert |tail| > 0 ==> tail[1..] == [];
    }
  }

  /** Reading a body: without array headers every line belongs to the open table. */
  lemma {:induction false} PlainBodyReads(body: seq<Line>, current: Table, table: Table, key: string)
    requires forall i :: 0 <= i < |body| ==> !body[i].Header? && !body[i].ArrayHeader?
    ensures Last(body, current) == current
    ensures Lookup(body, current, table, key).Some? <==> current == table && HasKey(body, key)
  {
    if |body| > 0 {
      PlainBodyReads(body[1..], current, table, key);
      if HasKey(body[1..], key) {
        var k :| 0 <= k < |body[1..]| && body[1..][k].KeyLine? && body[1..][k].key == key;
        assert body[k + 1].KeyLine? && body[k + 1].key == key;
      }
      if HasKey(body, key) && !(body[0].KeyLine? && body[0].key == key) {
        var k :| 0 <= k < |body| && body[k].KeyLine? && body[k].key == key;
        assert body[1..][k - 1] == body[k];
      }
    }
  }

  /** The reading of any edited body: what it set is replaced, what nothing set is added to the table left open. */
  lemma EditedReads(body: seq<Line>, values: seq<Entry>, current: Table, table: Table, key: string)
    ensures Last(EditBody(body, values), current) == Last(body, current)
    ensures Lookup(EditBody(body, values), current, table, key) ==
      if Lookup(body, current, table, key).Some? then
        if Find(values, key).Some? then Find(values, key) else Lookup(body, current, table, key)
      else if Last(body, current) == table && !HasKey(body, key) then Find(values, key)
      else None
  {
    ReplacedReads(body, values, current, table, key);
    AdditionsRead(values, body, Last(body, current), table, key);
    AdditionsAreKeys(values, body);
    KeysKeepTable(Additions(values, body), Last(body, current));
    LookupConcat(ReplaceAll(body, values), Additions(values, body), current, table, key);
    LastConcat(ReplaceAll(body, values), Additions(values, body), current);
  }

  /** An edited body sets the given keys of its table and nothing else. */
  lemma EditedBodyReads(body: seq<Line>, values: seq<Entry>, current: Table, table: Table, key: string)
    requires forall i :: 0 <= i < |body| ==> !body[i].Header? && !body[i].ArrayHeader?
    ensures Last(EditBody(body, values), current) == current
    ensures Lookup(EditBody(body, values), current, table, key) ==
      if current == table && Find(values, key).Some? then Find(values, key) else Lookup(body, current, table, key)
  {
    PlainBodyReads(body, current, table, key);
    EditedReads(body, values, current, table, key);
  }

  lemma {:induction false} LastConcat(a: seq<Line>, b: seq<Line>, current: Table)
    ensures Last(a + b, current) == Last(b, Last(a, current))
  {
    if |a| == 0 {
      assert a + b == b;
    } else {
      assert (a + b)[1..] == a[1..] + b;
      LastConcat(a[1..], b, Enter(current, a[0]));
    }
  }

  /** Reading a file taken apart. */
  lemma PartsRead(p: Parts, table: Table, key: string)
    requires p.header.Header?
    ensures var first := Lookup(p.before, Root, table, key);
      var inside := Lookup(p.body, Named(p.header.name), table, key);
      Lookup(p.Whole(), Root, table, key) ==
        if first.Some? then first
        else if inside.Some? then inside
        else Lookup(p.rest, Last(p.body, Named(p.header.name)), table, key)
  {
    LookupConcat(p.before + [p.header] + p.body, p.rest, Root, table, key);
    LookupConcat(p.before + [p.header], p.body, Root, table, key);
    LookupConcat(p.before, [p.header], Root, table, key);
    LastConcat(p.before + [p.header], p.body, Root);
    LastConcat(p.before, [p.header], Root);
    assert [p.header][1..] == [];
  }

  lemma {:induction false} UnopenedTable(lines: seq<Line>, current: Table, table: Table, key: string)
    requires !table.ArrayOf? && current != table && (table.Named? ==> NoHeader(lines, table.name))
    ensures Lookup(lines, current, table, key) == None && Last(lines, current) != table
  {
    if |lines| > 0 {
      if table.Named? {
        assert !IsHeader(lines[0], table.name);
        forall i | 0 <= i < |lines[1..]| ensures !IsHeader(lines[1..][i], table.name) {
          assert lines[1..][i] == lines[i + 1];
        }
      }
      UnopenedTable(lines[1..], Enter(current, lines[0]), table, key);
    }
  }

  // ---------------------------------------------------------------- upsert

  /** Lines of the section's table up to the next header; empty when the section is absent. */
  function SectionBody(lines: seq<Line>, section: string): seq<Line> {
    if |lines| == 0 then []
    else if IsHeader(lines[0], section) then Body(lines[1..])
    else SectionBody(lines[1..], section)
  }

  lemma {:induction false} SectionBodyOfParts(p: Parts, lines: seq<Line>, section: string)
    requires PartsOf(p, lines, section)
    ensures SectionBody(lines, section) == p.body
    decreases |p.before|
  {
    if |p.before| == 0 {
      assert lines[0] == p.header && lines[1..] == p.body + p.rest;
      BodyIs(p.body + p.rest, p.body);
    } else {
      var q := p.(before := p.before[1..]);
      assert lines[0] == p.before[0] && !IsHeader(p.before[0], section);
      assert lines[1..] == q.Whole();
      SectionBodyOfParts(q, lines[1..], section);
    }
  }

  ghost predicate NoArrayHeader(lines: seq<Line>) {
    forall i :: 0 <= i < |lines| ==> !lines[i].ArrayHeader?
  }

  /** The whole reading of an upserted file: the given keys of the section carry their rendered values and
      every other key of every table reads as before. */
  lemma UpsertReads(lines: seq<Line>, section: string, values: seq<Entry>, table: Table, key: string)
    requires UniqueHeaders(lines) && NoArrayHeader(SectionBody(lines, section))
    ensures Lookup(Upsert(lines, section, values), Root, table, key) ==
      if table == Named(section) && Find(values, key).Some? then Find(values, key) else Lookup(lines, Root, table, key)
  {
    if HasHeader(lines, section) {
      var p := Split(lines, section);
      SectionBodyOfParts(p, lines, section);
      EditOfParts(p, lines, section, values);
      var q := p.(body := EditBody(p.body, values));
      PartsRead(p, table, key);
      PartsRead(q, table, key);
      EditedBodyReads(p.body, values, Named(section), table, key);
      PlainBodyReads(p.body, Named(section), table, key);
      if table == Named(section) { UnopenedTable(p.before, Root, Named(section), key); }
    } else {
      AppendedReads(lines, section, values, table, key);
    }
  }

  lemma {:induction false} RenderedReads(values: seq<Entry>, current: Table, table: Table, key: string)
    ensures Lookup(Rendered(values), current, table, key) == if current == table then Find(values, key) else None
  {
    if |values| > 0 {
      assert Rendered(values)[1..] == Rendered(values[1..]);
      RenderedReads(values[1..], current, table, key);
    }
  }

  lemma AppendedReads(lines: seq<Line>, section: string, values: seq<Entry>, table: Table, key: string)
    requires !HasHeader(lines, section)
    ensures Lookup(Appended(lines, section, values), Root, table, key) ==
      if table == Named(section) && Find(values, key).Some? then Find(values, key) else Lookup(lines, Root, table, key)
  {
    var gap := if |lines| > 0 && !lines[|lines| - 1].Blank? then [Blank] else [];
    var header := [Header(section, false)];
    LookupConcat(lines + gap + header, Rendered(values), Root, table, key);
    LookupConcat(lines + gap, header, Root, table, key);
    LookupConcat(lines, gap, Root, table, key);
    LastConcat(lines + gap, header, Root);
    assert |gap| > 0 ==> gap[1..] == [];
    assert header[1..] == [];
    RenderedReads(values, Named(section), table, key);
    if table == Named(section) { UnopenedTable(lines, Root, Named(section), key); }
  }

  /** Even with an array of tables in the way, a key that is not given and a table that is no array keep their
      reading. */
  lemma UpsertKeepsTheRest(lines: seq<Line>, section: string, values: seq<Entry>, table: Table, key: string)
    requires UniqueHeaders(lines)
    requires Find(values, key).None? || (table != Named(section) && !table.ArrayOf?)
    ensures Lookup(Upsert(lines, section, values), Root, table, key) == Lookup(lines, Root, table, key)
  {
    if HasHeader(lines, section) {
      var p := Split(lines, section);
      EditOfParts(p, lines, section, values);
      var edited := EditBody(p.body, values);
      PartsRead(p, table, key);
      PartsRead(p.(body := edited), table, key);
      if Find(values, key).None? {
        EditedReads(p.body, values, Named(section), table, key);
      } else {
        AdditionsAreKeys(values, p.body);
        UnopenedTable(p.body, Named(section), table, key);
        UnopenedTable(edited, Named(section), table, key);
      }
    } else {
      AppendedReads(lines, section, values, table, key);
    }
  }

  /** Array-of-tables headers are invisible to the editor. Exactly then can a given key fail to read back:
      when one stands in the section's body and the key is not already set before it. */
  lemma ReadBackExactly(lines: seq<Line>, section: string, values: seq<Entry>, key: string)
    requires UniqueHeaders(lines) && HasHeader(lines, section) && Find(values, key).Some?
    ensures var body := SectionBody(lines, section);
      Lookup(Upsert(lines, section, values), Root, Named(section), key) == Find(values, key)
      <==> NoArrayHeader(body) || Lookup(body, Named(section), Named(section), key).Some?
  {
    var p := Split(lines, section);
    SectionBodyOfParts(p, lines, section);
    EditOfParts(p, lines, section, values);
    if NoArrayHeader(p.body) {
      EditedBodyReads(p.body, values, Named(section), Named(section), key);
    } else {
      ArrayBodyReads(p.body, values, section, key);
    }
    SectionReads(p, lines, Edit(lines, section, values), section, EditBody(p.body, values), key);
  }

  /** The section's own keys are read in its body alone. */
  lemma SectionReads(p: Parts, lines: seq<Line>, edited: seq<Line>, section: string, body: seq<Line>, key: string)
    requires PartsOf(p, lines, section) && PartsOf(p.(body := body), edited, section)
    requires Last(body, Named(section)) != Named(section) || Lookup(body, Named(section), Named(section), key).Some?
    ensures Lookup(edited, Root, Named(section), key) == Lookup(body, Named(section), Named(section), key)
  {
    PartsRead(p.(body := body), Named(section), key);
    UnopenedTable(p.before, Root, Named(section), key);
    if Last(body, Named(section)) != Named(section) {
      UnopenedTable(p.rest, Last(body, Named(section)), Named(section), key);
    }
  }

  lemma ArrayBodyReads(body: seq<Line>, values: seq<Entry>, section: string, key: string)
    requires forall i :: 0 <= i < |body| ==> !body[i].Header?
    requires !NoArrayHeader(body) && Find(values, key).Some?
    ensures Last(EditBody(body, values), Named(section)).ArrayOf?
    ensures Lookup(EditBody(body, values), Named(section), Named(section), key) ==
      if Lookup(body, Named(section), Named(section), key).Some? then Find(values, key) else None
  {
    ArrayStaysOpen(body, Named(section));
    EditedReads(body, values, Named(section), Named(section), key);
  }

  lemma {:induction false} ArrayStaysOpen(body: seq<Line>, current: Table)
    requires forall i :: 0 <= i < |body| ==> !body[i].Header?
    requires current.ArrayOf? || !NoArrayHeader(body)
    ensures Last(body, current).ArrayOf?
  {
    if |body| > 0 {
      if !NoArrayHeader(body) && !body[0].ArrayHeader? {
        var i :| 0 <= i < |body| && body[i].ArrayHeader?;
        assert body[1..][i - 1].ArrayHeader?;
      }
      ArrayStaysOpen(body[1..], Enter(current, body[0]));
    }
  }

  /** When an array of tables keeps a given key: it is set before the section, or already carries the given
      value inside it, or is not set inside and neither gains the value at the end of the section's lines nor
      goes without it in what follows. */
  ghost predicate ArrayUndisturbed(p: Parts, section: string, values: seq<Entry>, name: string, key: string) {
    var table, open := ArrayOf(name), Last(p.body, Named(section));
    var inside := Lookup(p.body, Named(section), table, key);
    || Lookup(p.before, Root, table, key).Some?
    || inside == Find(values, key)
    || (inside.None? && (open != table || HasKey(p.body, key) || Lookup(p.rest, open, table, key) == Find(values, key)))
  }

  /** A given key of an array of tables keeps its reading exactly when the array is undisturbed. */
  lemma ArrayKeepsKeyExactly(p: Parts, lines: seq<Line>, section: string, values: seq<Entry>, name: string, key: string)
    requires PartsOf(p, lines, section) && Find(values, key).Some?
    ensures Lookup(Edit(lines, section, values), Root, ArrayOf(name), key) == Lookup(lines, Root, ArrayOf(name), key)
      <==> ArrayUndisturbed(p, section, values, name, key)
  {
    EditOfParts(p, lines, section, values);
    PartsRead(p, ArrayOf(name), key);
    PartsRead(p.(body := EditBody(p.body, values)), ArrayOf(name), key);
    EditedReads(p.body, values, Named(section), ArrayOf(name), key);
  }

  /** What an upsert is for: the given keys of the section carry their values, everything else stays. */
  ghost function Intended(lines: seq<Line>, section: string, values: seq<Entry>, table: Table,
      key: string): Option<string>
  {
    if table == Named(section) && Find(values, key).Some? then Find(values, key) else Lookup(lines, Root, table, key)
  }

  /** The reading of every key of every table after an upsert of a present section: it is the intended one exactly
      where no array of tables stands in between. */
  lemma UpsertReadsExactly(p: Parts, lines: seq<Line>, section: string, values: seq<Entry>, table: Table, key: string)
    requires UniqueHeaders(lines) && PartsOf(p, lines, section)
    ensures var after := Lookup(Upsert(lines, section, values), Root, table, key);
      after == Intended(lines, section, values, table, key) <==>
      || Find(values, key).None?
      || table == Root
      || (table.Named? && table.name != section)
      || (table == Named(section) && (NoArrayHeader(p.body) || Lookup(p.body, table, table, key).Some?))
      || (table.ArrayOf? && ArrayUndisturbed(p, section, values, table.name, key))
  {
    PartsHaveHeader(p, lines, section);
    if Find(values, key).None? || table == Root || (table.Named? && table.name != section) {
      UpsertKeepsTheRest(lines, section, values, table, key);
    } else if table == Named(section) {
      SectionBodyOfParts(p, lines, section);
      ReadBackExactly(lines, section, values, key);
    } else {
      ArrayKeepsKeyExactly(p, lines, section, values, table.name, key);
    }
  }

  lemma PartsHaveHeader(p: Parts, lines: seq<Line>, section: string)
    requires PartsOf(p, lines, section)
    ensures HasHeader(lines, section)
  {
    assert lines[|p.before|] == p.header;
  }

  /** It happens: an upsert of one key into a section overwrites that key of the array of tables below it. */
  lemma ArrayLosesKey(section: string, name: string, key: string, was: string, given: string)
    requires was != given
    ensures var lines := [Header(section, false), ArrayHeader(name, false), KeyLine("", key, was)];
      && Lookup(lines, Root, ArrayOf(name), key) == Some(was)
      && Lookup(Upsert(lines, section, [Entry(key, given)]), Root, ArrayOf(name), key) == Some(given)
  {
    var header, below, line := Header(section, false), ArrayHeader(name, false), KeyLine("", key, was);
    var lines, values := [header, below, line], [Entry(key, given)];
    var p := Parts([], header, [below, line], []);
    assert lines == p.Whole();
    assert IsHeader(lines[0], section);
    EditOfParts(p, lines, section, values);
    PartsRead(p, ArrayOf(name), key);
    PartsRead(p.(body := EditBody(p.body, values)), ArrayOf(name), key);
    EditedReads(p.body, values, Named(section), ArrayOf(name), key);
    assert [below, line][1..] == [line];
  }

  // ---------------------------------------------------------------- idempotence and commutation

  lemma {:induction false} AddedKeys(values: seq<Entry>, body: seq<Line>, key: string)
    ensures HasKey(Additions(values, body), key) <==> Find(values, key).Some? && !HasKey(body, key)
  {
    AdditionsRead(values, body, Root, Root, key);
    var added := Additions(values, body);
    AdditionsAreKeys(values, body);
    PlainBodyReads(added, Root, Root, key);
  }

  lemma {:induction false} NothingMissing(values: seq<Entry>, body: seq<Line>)
    requires forall i :: 0 <= i < |values| ==> HasKey(body, values[i].key)
    ensures Additions(values, body) == []
  {
    if |values| > 0 { NothingMissing(values[..|values| - 1], body); }
  }

  lemma {:induction false} AdditionsHoldValues(values: seq<Entry>, body: seq<Line>)
    requires DistinctKeys(values)
    ensures forall line :: line in Additions(values, body) ==>
      line.KeyLine? && Find(values, line.key) == Some(line.value)
  {
    if |values| > 0 {
      var init, last := values[..|values| - 1], values[|values| - 1];
      assert values == init + [last];
      AdditionsHoldValues(init, body);
      forall i | 0 <= i < |init| ensures init[i].key != last.key { assert init[i] == values[i]; }
      forall line | line in Additions(values, body)
        ensures line.KeyLine? && Find(values, line.key) == Some(line.value)
      {
        FindAppend(init, last, line.key);
      }
    }
  }

  lemma EditBodyIdempotent(body: seq<Line>, values: seq<Entry>)
    requires DistinctKeys(values)
    ensures EditBody(EditBody(body, values), values) == EditBody(body, values)
  {
    var once := EditBody(body, values);
    AdditionsHoldValues(values, body);
    forall i | 0 <= i < |once| ensures Replaced(once[i], values) == once[i] {
      if i >= |body| {
        assert once[i] == Additions(values, body)[i - |body|];
        assert once[i] in Additions(values, body);
      }
    }
    assert ReplaceAll(once, values) == once;
    forall k | 0 <= k < |values| ensures HasKey(once, values[k].key) {
      EditedHasKey(body, values, k);
    }
    NothingMissing(values, once);
  }

  lemma EditedHasKey(body: seq<Line>, values: seq<Entry>, k: nat)
    requires k < |values|
    ensures HasKey(EditBody(body, values), values[k].key)
  {
    var once, key := EditBody(body, values), values[k].key;
    if HasKey(body, key) {
      var i :| 0 <= i < |body| && body[i].KeyLine? && body[i].key == key;
      assert once[i] == Replaced(body[i], values);
    } else {
      AddedKeys(values, body, key);
      var added := Additions(values, body);
      var i :| 0 <= i < |added| && added[i].KeyLine? && added[i].key == key;
      assert once[|body| + i] == added[i];
    }
  }

  /** An edit further down does not change whether a header is the one to edit at. */
  lemma ActiveStable(lines: seq<Line>, section: string, other: string, values: seq<Entry>)
    requires |lines| > 0
    ensures Active([lines[0]] + Edit(lines[1..], other, values), section) <==> Active(lines, section)
  {
    var body, rest := Body(lines[1..]), Rest(lines[1..]);
    var after := Edit(lines[1..], other, values);
    assert lines[1..] == body + rest;
    EditAfter(body, rest, other, values);
    EditKeepsHead(rest, other, values);
    BodyIs(after, body);
    assert ([lines[0]] + after)[1..] == after;
  }

  lemma {:induction false} EditIdempotent(lines: seq<Line>, section: string, values: seq<Entry>)
    requires DistinctKeys(values)
    ensures Edit(Edit(lines, section, values), section, values) == Edit(lines, section, values)
  {
    if |lines| > 0 {
      if Active(lines, section) {
        var body, rest := Body(lines[1..]), Rest(lines[1..]);
        assert lines == [lines[0]] + (body + rest);
        AdditionsAreKeys(values, body);
        EditAtHeader(lines[0], body, rest, section, values);
        EditAtHeader(lines[0], EditBody(body, values), rest, section, values);
        EditBodyIdempotent(body, values);
      } else {
        var after := Edit(lines[1..], section, values);
        EditIdempotent(lines[1..], section, values);
        ActiveStable(lines, section, section, values);
        assert ([lines[0]] + after)[1..] == after;
      }
    }
  }

  /** Applying the same edit twice is applying it once. */
  lemma UpsertIdempotent(lines: seq<Line>, section: string, values: seq<Entry>)
    requires DistinctKeys(values)
    ensures Upsert(Upsert(lines, section, values), section, values) == Upsert(lines, section, values)
  {
    if HasHeader(lines, section) {
      EditKeepsHeader(lines, section, values, section);
      EditIdempotent(lines, section, values);
    } else {
      AppendedIdempotent(lines, section, values);
    }
  }

  lemma AppendedIdempotent(lines: seq<Line>, section: string, values: seq<Entry>)
    requires DistinctKeys(values) && !HasHeader(lines, section)
    ensures Upsert(Appended(lines, section, values), section, values) == Appended(lines, section, values)
  {
    var gap := if |lines| > 0 && !lines[|lines| - 1].Blank? then [Blank] else [];
    var once, header := Appended(lines, section, values), Header(section, false);
    assert once == lines + gap + [header] + Rendered(values) + [];
    assert IsHeader(once[|lines + gap|], section);
    EditBodyOfRendered(values);
    EditParts(lines + gap, header, Rendered(values), [], section, values);
  }

  lemma EditBodyOfRendered(values: seq<Entry>)
    requires DistinctKeys(values)
    ensures EditBody(Rendered(values), values) == Rendered(values)
  {
    var body := Rendered(values);
    forall i | 0 <= i < |body| ensures Replaced(body[i], values) == body[i] {
      FindKey(values, i);
    }
    assert ReplaceAll(body, values) == body;
    forall k | 0 <= k < |values| ensures HasKey(body, values[k].key) {
      assert body[k].KeyLine? && body[k].key == values[k].key;
    }
    NothingMissing(values, body);
  }

  lemma FindKey(values: seq<Entry>, i: nat)
    requires DistinctKeys(values) && i < |values|
    ensures Find(values, values[i].key) == Some(values[i].value)
  {
    var r := Find(values, values[i].key);
    var j :| 0 <= j < |values| && values[j] == Entry(values[i].key, r.value);
    assert i == j;
  }

  lemma EditKeepsHead(lines: seq<Line>, section: string, values: seq<Entry>)
    ensures |Edit(lines, section, values)| > 0 <==> |lines| > 0
    ensures |lines| > 0 ==> Edit(lines, section, values)[0] == lines[0]
  {
  }

  /** Edits of two different sections commute, line for line. */
  lemma {:induction false} EditsCommute(lines: seq<Line>, s: string, vs: seq<Entry>, t: string, vt: seq<Entry>)
    requires s != t
    ensures Edit(Edit(lines, s, vs), t, vt) == Edit(Edit(lines, t, vt), s, vs)
  {
    if |lines| > 0 {
      if Active(lines, s) {
        EditsCommuteAt(lines, s, vs, t, vt);
      } else if Active(lines, t) {
        EditsCommuteAt(lines, t, vt, s, vs);
      } else {
        EditsCommute(lines[1..], s, vs, t, vt);
        ActiveStable(lines, s, t, vt);
        ActiveStable(lines, t, s, vs);
        var one, other := Edit(lines[1..], s, vs), Edit(lines[1..], t, vt);
        assert ([lines[0]] + one)[1..] == one && ([lines[0]] + other)[1..] == other;
      }
    }
  }

  lemma EditsCommuteAt(lines: seq<Line>, s: string, vs: seq<Entry>, t: string, vt: seq<Entry>)
    requires s != t && Active(lines, s)
    ensures Edit(Edit(lines, s, vs), t, vt) == Edit(Edit(lines, t, vt), s, vs)
  {
    var header, body, rest := lines[0], Body(lines[1..]), Rest(lines[1..]);
    var edited, other := EditBody(body, vs), Edit(rest, t, vt);
    assert lines == [header] + (body + rest);
    AdditionsAreKeys(vs, body);
    EditKeepsHead(rest, t, vt);
    calc {
      Edit(Edit(lines, s, vs), t, vt);
      { EditAtHeader(header, body, rest, s, vs); }
      Edit([header] + (edited + rest), t, vt);
      { EditBelow(header, edited, rest, t, vt); }
      [header] + (edited + other);
      { EditAtHeader(header, body, other, s, vs); }
      Edit([header] + (body + other), s, vs);
      { EditBelow(header, body, rest, t, vt); }
      Edit(Edit(lines, t, vt), s, vs);
    }
  }

  /** An edit passes over the table of another section. */
  lemma EditBelow(header: Line, body: seq<Line>, rest: seq<Line>, t: string, vt: seq<Entry>)
    requires !IsHeader(header, t) && forall i :: 0 <= i < |body| ==> !body[i].Header?
    ensures Edit([header] + (body + rest), t, vt) == [header] + (body + Edit(rest, t, vt))
  {
    EditAfter(body, rest, t, vt);
    assert ([header] + (body + rest))[1..] == body + rest;
  }

  /** The header lines of a file, in order. */
  function Skeleton(lines: seq<Line>): seq<Line> {
    if |lines| == 0 then []
    else if lines[0].Header? || lines[0].ArrayHeader? then [lines[0]] + Skeleton(lines[1..])
    else Skeleton(lines[1..])
  }

  lemma {:induction false} SkeletonConcat(a: seq<Line>, b: seq<Line>)
    ensures Skeleton(a + b) == Skeleton(a) + Skeleton(b)
  {
    if |a| == 0 {
      assert a + b == b;
    } else {
      assert (a + b)[1..] == a[1..] + b;
      SkeletonConcat(a[1..], b);
    }
  }

  lemma {:induction false} ReplacedSkeleton(body: seq<Line>, values: seq<Entry>)
    ensures Skeleton(ReplaceAll(body, values)) == Skeleton(body)
  {
    if |body| > 0 {
      assert ReplaceAll(body, values)[1..] == ReplaceAll(body[1..], values);
      ReplacedSkeleton(body[1..], values);
    }
  }

  lemma {:induction false} KeysHaveNoSkeleton(lines: seq<Line>)
    requires forall i :: 0 <= i < |lines| ==> lines[i].KeyLine? || lines[i].Blank?
    ensures Skeleton(lines) == []
  {
    if |lines| > 0 { KeysHaveNoSkeleton(lines[1..]); }
  }

  lemma HeaderNamesFirst(line: Line, rest: seq<Line>)
    ensures HeaderNames([line] + rest) == (if line.Header? then [line.name] else []) + HeaderNames(rest)
  {
    assert ([line] + rest)[1..] == rest;
  }

  lemma {:induction false} SkeletonNames(lines: seq<Line>)
    ensures HeaderNames(Skeleton(lines)) == HeaderNames(lines)
  {
    if |lines| > 0 {
      SkeletonNames(lines[1..]);
      HeaderNamesFirst(lines[0], lines[1..]);
      HeaderNamesFirst(lines[0], Skeleton(lines[1..]));
      assert lines == [lines[0]] + lines[1..];
    }
  }

  lemma EditedBodySkeleton(body: seq<Line>, values: seq<Entry>)
    ensures Skeleton(EditBody(body, values)) == Skeleton(body)
  {
    ReplacedSkeleton(body, values);
    AdditionsAreKeys(values, body);
    KeysHaveNoSkeleton(Additions(values, body));
    SkeletonConcat(ReplaceAll(body, values), Additions(values, body));
  }

  lemma EditedTailSkeleton(body: seq<Line>, rest: seq<Line>, values: seq<Entry>)
    ensures Skeleton(EditBody(body, values) + rest) == Skeleton(body + rest)
  {
    EditedBodySkeleton(body, values);
    SkeletonConcat(body, rest);
    SkeletonConcat(EditBody(body, values), rest);
  }

  lemma SkeletonBelow(line: Line, a: seq<Line>, b: seq<Line>)
    requires Skeleton(a) == Skeleton(b)
    ensures Skeleton([line] + a) == Skeleton([line] + b)
  {
    assert ([line] + a)[1..] == a && ([line] + b)[1..] == b;
  }

  /** An edit leaves every header line alone. */
  lemma {:induction false} EditKeepsSkeleton(lines: seq<Line>, section: string, values: seq<Entry>)
    ensures Skeleton(Edit(lines, section, values)) == Skeleton(lines)
  {
    if |lines| > 0 {
      assert lines == [lines[0]] + lines[1..];
      if Active(lines, section) {
        var body, rest := Body(lines[1..]), Rest(lines[1..]);
        assert lines[1..] == body + rest;
        EditedTailSkeleton(body, rest, values);
        SkeletonBelow(lines[0], EditBody(body, values) + rest, lines[1..]);
        Join(lines[0], EditBody(body, values), rest);
      } else {
        EditKeepsSkeleton(lines[1..], section, values);
        SkeletonBelow(lines[0], Edit(lines[1..], section, values), lines[1..]);
      }
    }
  }

  lemma EditKeepsHeader(lines: seq<Line>, section: string, values: seq<Entry>, other: string)
    ensures HasHeader(Edit(lines, section, values), other) <==> HasHeader(lines, other)
  {
    EditKeepsSkeleton(lines, section, values);
    SkeletonNames(lines);
    SkeletonNames(Edit(lines, section, values));
    HeaderNamesMeaning(lines, other);
    HeaderNamesMeaning(Edit(lines, section, values), other);
  }

  /** Upserts of two sections already present commute textually. */
  lemma UpsertsCommute(lines: seq<Line>, s: string, vs: seq<Entry>, t: string, vt: seq<Entry>)
    requires s != t && HasHeader(lines, s) && HasHeader(lines, t)
    ensures Upsert(Upsert(lines, s, vs), t, vt) == Upsert(Upsert(lines, t, vt), s, vs)
  {
    EditKeepsHeader(lines, s, vs, t);
    EditKeepsHeader(lines, t, vt, s);
    EditsCommute(lines, s, vs, t, vt);
  }

  // ---------------------------------------------------------------- removal

  /** What removal is for: the named keys of the section's table go, whichever line opens the table. */
  function Stripped(lines: seq<Line>, current: Table, section: string, keys: set<string>): seq<Line> {
    if |lines| == 0 then []
    else
      var rest := Stripped(lines[1..], Enter(current, lines[0]), section, keys);
      if current == Named(section) && lines[0].KeyLine? && lines[0].key in keys then rest else [lines[0]] + rest
  }

  /** The stripped file reads as before but for the named keys of the section. */
  lemma {:induction false} StrippedReads(lines: seq<Line>, current: Table, section: string, keys: set<string>,
      table: Table, key: string)
    ensures Lookup(Stripped(lines, current, section, keys), current, table, key) ==
      if table == Named(section) && key in keys then None else Lookup(lines, current, table, key)
  {
    if |lines| > 0 {
      StrippedReads(lines[1..], Enter(current, lines[0]), section, keys, table, key);
      var rest := Stripped(lines[1..], Enter(current, lines[0]), section, keys);
      assert ([lines[0]] + rest)[1..] == rest;
    }
  }

  /** The removal's own idea of being inside the section: a commented header of either kind does not change it. */
  function Step(line: Line, inSection: bool, section: string): bool {
    if (line.Header? || line.ArrayHeader?) && !line.commented then line.Header? && line.name == section else inSection
  }

  /** No key line stands where that idea is wrong. */
  predicate Tracks(lines: seq<Line>, inSection: bool, current: Table, section: string) {
    |lines| > 0 ==>
      && (lines[0].KeyLine? ==> inSection == (current == Named(section)))
      && Tracks(lines[1..], Step(lines[0], inSection, section), Enter(current, lines[0]), section)
  }

  lemma {:induction false} TrackedRemoval(lines: seq<Line>, inSection: bool, current: Table, section: string,
      keys: set<string>)
    requires Tracks(lines, inSection, current, section)
    ensures Removal(lines, inSection, section, keys) == Stripped(lines, current, section, keys)
  {
    if |lines| > 0 {
      TrackedRemoval(lines[1..], Step(lines[0], inSection, section), Enter(current, lines[0]), section, keys);
    }
  }

  /** Lines before the first header. */
  function Lead(lines: seq<Line>): nat {
    if |lines| == 0 || lines[0].Header? || lines[0].ArrayHeader? then 0 else 1 + Lead(lines[1..])
  }

  lemma {:induction false} MisledLead(lines: seq<Line>, inSection: bool, current: Table, section: string,
      keys: set<string>)
    requires inSection != (current == Named(section))
    ensures var removed, stripped :=
        Lead(Removal(lines, inSection, section, keys)), Lead(Stripped(lines, current, section, keys));
      if inSection then removed <= stripped else stripped <= removed
  {
    if |lines| > 0 && !lines[0].Header? && !lines[0].ArrayHeader? {
      var removed, stripped :=
          Removal(lines[1..], inSection, section, keys), Stripped(lines[1..], current, section, keys);
      MisledLead(lines[1..], inSection, current, section, keys);
      assert ([lines[0]] + removed)[1..] == removed && ([lines[0]] + stripped)[1..] == stripped;
    }
  }

  lemma {:induction false} MisledRemoval(lines: seq<Line>, inSection: bool, current: Table, section: string)
      returns (key: string)
    requires !Tracks(lines, inSection, current, section)
    ensures Removal(lines, inSection, section, {key}) != Stripped(lines, current, section, {key})
  {
    if lines[0].KeyLine? && inSection != (current == Named(section)) {
      key := lines[0].key;
      var removed, stripped :=
          Removal(lines[1..], inSection, section, {key}), Stripped(lines[1..], current, section, {key});
      MisledLead(lines[1..], inSection, current, section, {key});
      assert ([lines[0]] + removed)[1..] == removed && ([lines[0]] + stripped)[1..] == stripped;
    } else {
      var step, table := Step(lines[0], inSection, section), Enter(current, lines[0]);
      key := MisledRemoval(lines[1..], step, table, section);
      var removed, stripped := Removal(lines[1..], step, section, {key}), Stripped(lines[1..], table, section, {key});
      assert ([lines[0]] + removed)[1..] == removed && ([lines[0]] + stripped)[1..] == stripped;
    }
  }

  /** Removal strips the section, for every set of keys, exactly on the files whose key lines it tracks. */
  lemma RemovalStripsExactly(lines: seq<Line>, section: string)
    ensures Tracks(lines, false, Root, section) <==>
      forall keys :: Removal(lines, false, section, keys) == Stripped(lines, Root, section, keys)
  {
    if Tracks(lines, false, Root, section) {
      forall keys ensures Removal(lines, false, section, keys) == Stripped(lines, Root, section, keys) {
        TrackedRemoval(lines, false, Root, section, keys);
      }
    } else {
      var key := MisledRemoval(lines, false, Root, section);
    }
  }

  ghost predicate NoCommentedHeader(lines: seq<Line>) {
    forall i :: 0 <= i < |lines| && (lines[i].Header? || lines[i].ArrayHeader?) ==> !lines[i].commented
  }

  lemma {:induction false} UncommentedTracks(lines: seq<Line>, current: Table, section: string)
    requires NoCommentedHeader(lines)
    ensures Tracks(lines, current == Named(section), current, section)
  {
    if |lines| > 0 {
      assert lines[0].Header? || lines[0].ArrayHeader? ==> !lines[0].commented;
      UncommentedTracks(lines[1..], Enter(current, lines[0]), section);
    }
  }

  /** On files whose headers carry no comment, removal takes exactly the named keys of the section. */
  lemma RemovalReads(lines: seq<Line>, section: string, keys: set<string>, table: Table, key: string)
    requires NoCommentedHeader(lines)
    ensures Lookup(Removal(lines, false, section, keys), Root, table, key) ==
      if table == Named(section) && key in keys then None else Lookup(lines, Root, table, key)
  {
    UncommentedTracks(lines, Root, section);
    TrackedRemoval(lines, false, Root, section, keys);
    StrippedReads(lines, Root, section, keys, table, key);
  }

  /** A commented header is not recognised by removal: the key of the table it opens is taken as well. */
  lemma CommentedHeaderLosesKey(section: string, next: string, key: string, value: string)
    requires section != next
    ensures var lines := [Header(section, false), Header(next, true), KeyLine("", key, value)];
      && Lookup(lines, Root, Named(next), key) == Some(value)
      && Lookup(Removal(lines, false, section, {key}), Root, Named(next), key) == None
  {
    var first, second, line := Header(section, false), Header(next, true), KeyLine("", key, value);
    var lines := [first, second, line];
    assert lines[1..] == [second, line] && [second, line][1..] == [line] && [line][1..] == [];
    assert Lookup([line], Named(next), Named(next), key) == Some(value);
    assert Lookup([second, line], Named(section), Named(next), key) == Some(value);
    assert Removal([line], true, section, {key}) == [];
    assert Removal([second, line], true, section, {key}) == [second];
    assert Removal(lines, false, section, {key}) == [first, second];
    assert [first, second][1..] == [second] && [second][1..] == [];
    assert Lookup([second], Named(section), Named(next), key) == None;
  }

  /** A commented array-of-tables header is missed in the same way. */
  lemma CommentedArrayLosesKey(section: string, name: string, key: string, value: string)
    ensures var lines := [Header(section, false), ArrayHeader(name, true), KeyLine("", key, value)];
      && Lookup(lines, Root, ArrayOf(name), key) == Some(value)
      && Lookup(Removal(lines, false, section, {key}), Root, ArrayOf(name), key) == None
  {
    var first, second, line := Header(section, false), ArrayHeader(name, true), KeyLine("", key, value);
    var lines := [first, second, line];
    assert lines[1..] == [second, line] && [second, line][1..] == [line] && [line][1..] == [];
    assert Lookup([line], ArrayOf(name), ArrayOf(name), key) == Some(value);
    assert Lookup([second, line], Named(section), ArrayOf(name), key) == Some(value);
    assert Removal([line], true, section, {key}) == [];
    assert Removal([second, line], true, section, {key}) == [second];
    assert Removal(lines, false, section, {key}) == [first, second];
    assert [first, second][1..] == [second] && [second][1..] == [];
    assert Lookup([second], Named(section), ArrayOf(name), key) == None;
  }

  /** And the key of a section under a commented header stays. */
  lemma CommentedHeaderKeepsKey(section: string, key: string, value: string)
    ensures var lines := [Header(section, true), KeyLine("", key, value)];
      Lookup(Removal(lines, false, section, {key}), Root, Named(section), key) == Some(value)
  {
    var first, line := Header(section, true), KeyLine("", key, value);
    assert [first, line][1..] == [line] && [line][1..] == [];
    assert Removal([line], false, section, {key}) == [line];
    assert Removal([first, line], false, section, {key}) == [first, line];
    assert Lookup([line], Named(section), Named(section), key) == Some(value);
  }

  // ---------------------------------------------------------------- line by line

  /** The line after an upsert of the table it stands in: a given key takes its value and keeps its indentation. */
  ghost predicate BecomesLine(line: Line, values: seq<Entry>, after: Line) {
    if line.KeyLine? && exists i :: 0 <= i < |values| && values[i].key == line.key
    then exists i :: 0 <= i < |values| && values[i].key == line.key
                  && after == KeyLine(line.indent, line.key, values[i].value)
    else after == line
  }

  /** The given keys that no line of the body sets, as lines in the given order. */
  ghost function NewLines(values: seq<Entry>, body: seq<Line>): seq<Line> {
    if |values| == 0 then []
    else
      var last := values[|values| - 1];
      NewLines(values[..|values| - 1], body)
        + (if exists line :: line in body && line.KeyLine? && line.key == last.key then []
           else [KeyLine("", last.key, last.value)])
  }

  lemma {:induction false} AdditionsAreNew(values: seq<Entry>, body: seq<Line>)
    ensures Additions(values, body) == NewLines(values, body)
  {
    if |values| > 0 {
      var last := values[|values| - 1];
      AdditionsAreNew(values[..|values| - 1], body);
      if HasKey(body, last.key) {
        var i :| 0 <= i < |body| && body[i].KeyLine? && body[i].key == last.key;
        assert body[i] in body;
      }
      if line :| line in body && line.KeyLine? && line.key == last.key {
        var i :| 0 <= i < |body| && body[i] == line;
        assert HasKey(body, last.key);
      }
    }
  }

  /** An upsert of a present section, line by line: everything outside its table stays, each line of the table becomes
      what it should, and the missing keys follow the table's last line. */
  lemma UpsertLines(p: Parts, lines: seq<Line>, section: string, values: seq<Entry>)
    requires PartsOf(p, lines, section)
    ensures exists body ::
      && Upsert(lines, section, values) == p.before + [p.header] + (body + NewLines(values, p.body)) + p.rest
      && |body| == |p.body| && forall i :: 0 <= i < |body| ==> BecomesLine(p.body[i], values, body[i])
  {
    PartsHaveHeader(p, lines, section);
    EditOfParts(p, lines, section, values);
    AdditionsAreNew(values, p.body);
    var body := ReplaceAll(p.body, values);
    forall i | 0 <= i < |body| ensures BecomesLine(p.body[i], values, body[i]) {
      ReplacedBecomes(p.body[i], values);
    }
  }

  lemma ReplacedBecomes(line: Line, values: seq<Entry>)
    ensures BecomesLine(line, values, Replaced(line, values))
  {
    if line.KeyLine? {
      var r := Find(values, line.key);
      if r.Some? {
        var i :| 0 <= i < |values| && values[i] == Entry(line.key, r.value);
        assert values[i].key == line.key && values[i].value == r.value;
      }
    }
  }

  /** An upsert of an absent section: a blank line unless the file ends in one, the header, and every given key. */
  lemma UpsertAppends(lines: seq<Line>, section: string, values: seq<Entry>)
    requires forall i :: 0 <= i < |lines| ==> lines[i] != Header(section, false) && lines[i] != Header(section, true)
    ensures exists gap, keys ::
      && Upsert(lines, section, values) == lines + gap + [Header(section, false)] + keys
      && gap == (if lines == [] || lines[|lines| - 1] == Blank then [] else [Blank])
      && |keys| == |values| && forall i :: 0 <= i < |keys| ==> keys[i] == KeyLine("", values[i].key, values[i].value)
  {
    var gap := if |lines| > 0 && !lines[|lines| - 1].Blank? then [Blank] else [];
    assert !HasHeader(lines, section);
    assert Upsert(lines, section, values) == lines + gap + [Header(section, false)] + Rendered(values);
  }

  /** The line stands below a plain header of the section with no other uncommented header of either kind between. */
  ghost predicate Below(lines: seq<Line>, i: nat, section: string)
    requires i <= |lines|
  {
    exists h :: 0 <= h < i && lines[h] == Header(section, false)
             && forall k :: h < k < i ==> (lines[k].Header? || lines[k].ArrayHeader?) ==> lines[k].commented
  }

  /** The first `n` lines without those removal takes. */
  ghost function Spared(lines: seq<Line>, n: nat, section: string, keys: set<string>): seq<Line>
    requires n <= |lines|
  {
    if n == 0 then []
    else
      Spared(lines, n - 1, section, keys)
        + (if lines[n - 1].KeyLine? && lines[n - 1].key in keys && Below(lines, n - 1, section) then []
           else [lines[n - 1]])
  }

  /** Where removal stands after `n` lines. */
  lemma BelowStep(lines: seq<Line>, n: nat, section: string)
    requires n < |lines|
    ensures Below(lines, n + 1, section) <==> Step(lines[n], Below(lines, n, section), section)
  {
    if Below(lines, n, section) {
      var h :| 0 <= h < n && lines[h] == Header(section, false)
            && forall k :: h < k < n ==> (lines[k].Header? || lines[k].ArrayHeader?) ==> lines[k].commented;
      assert lines[h] == Header(section, false);
    }
    if Below(lines, n + 1, section) {
      var h :| 0 <= h < n + 1 && lines[h] == Header(section, false)
            && forall k :: h < k < n + 1 ==> (lines[k].Header? || lines[k].ArrayHeader?) ==> lines[k].commented;
    }
  }

  lemma {:induction false} RemovalFrom(lines: seq<Line>, n: nat, section: string, keys: set<string>)
    requires n <= |lines|
    ensures Spared(lines, n, section, keys) + Removal(lines[n..], Below(lines, n, section), section, keys)
         == Spared(lines, |lines|, section, keys)
    decreases |lines| - n
  {
    if n == |lines| {
      assert lines[n..] == [];
      assert Spared(lines, n, section, keys) + [] == Spared(lines, n, section, keys);
    } else {
      RemovalFrom(lines, n + 1, section, keys);
      BelowStep(lines, n, section);
      assert lines[n..][0] == lines[n] && lines[n..][1..] == lines[n + 1..];
      var spared, rest := Spared(lines, n, section, keys),
          Removal(lines[n + 1..], Below(lines, n + 1, section), section, keys);
      Shift(spared, lines[n], rest);
      assert spared + [] == spared;
    }
  }

  /** Removal takes exactly the key lines of the named keys that stand below the section's header. */
  lemma RemovalLines(lines: seq<Line>, section: string, keys: set<string>)
    ensures Removal(lines, false, section, keys) == Spared(lines, |lines|, section, keys)
  {
    RemovalFrom(lines, 0, section, keys);
    assert lines[0..] == lines && !Below(lines, 0, section);
    assert [] + Removal(lines, false, section, keys) == Removal(lines, false, section, keys);
  }
}
