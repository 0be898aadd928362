/** The section-aware TOML editor: upserting flat keys of one table and removing them again,
    against a reference reading of the file. */
module TomlProfile {
  import opened Orders

  /** A line as the editor's patterns see it. `commented` marks a header line that ends in a comment. */
  datatype Line =
    | Header(name: string, commented: bool)
    | ArrayHeader(name: string, commented: bool)
    | KeyLine(indent: string, key: string, value: string)
    | Blank
    | Other(text: string)

  datatype Entry = Entry(key: string, value: string)

  ghost predicate DistinctKeys(values: seq<Entry>) {
    forall i, j :: 0 <= i < j < |values| ==> values[i].key != values[j].key
  }

  function Find(values: seq<Entry>, key: string): (r: Option<string>)
    ensures r.Some? <==> exists i :: 0 <= i < |values| && values[i].key == key
    ensures r.Some? ==> exists i :: 0 <= i < |values| && values[i] == Entry(key, r.value)
  {
    if |values| == 0 then None
    else if values[0].key == key then
      assert values[0] == Entry(key, values[0].value);
      Some(values[0].value)
    else
      var r := Find(values[1..], key);
      assert forall i :: 0 <= i < |values[1..]| ==> values[1..][i] == values[i + 1];
      assert forall i :: 0 < i < |values| ==> values[i] == values[1..][i - 1];
      r
  }

  // ---------------------------------------------------------------- reading a file

  datatype Table = Root | Named(name: string) | ArrayOf(name: string)

  function Enter(current: Table, line: Line): Table {
    match line
    case Header(name, _) => Named(name)
    case ArrayHeader(name, _) => ArrayOf(name)
    case _ => current
  }

  /** The first value of the key in the table, reading from a point where `current` is open. */
  function Lookup(lines: seq<Line>, current: Table, table: Table, key: string): Option<string> {
    if |lines| == 0 then None
    else if lines[0].KeyLine? && current == table && lines[0].key == key then Some(lines[0].value)
    else Lookup(lines[1..], Enter(current, lines[0]), table, key)
  }

  function Last(lines: seq<Line>, current: Table): Table {
    if |lines| == 0 then current else Last(lines[1..], Enter(current, lines[0]))
  }

  lemma {:induction false} LookupConcat(a: seq<Line>, b: seq<Line>, current: Table, table: Table, key: string)
    ensures Lookup(a + b, current, table, key) ==
      if Lookup(a, current, table, key).Some? then Lookup(a, current, table, key)
      else Lookup(b, Last(a, current), table, key)
  {
    if |a| == 0 {
      assert a + b == b;
    } else {
      assert (a + b)[1..] == a[1..] + b;
      LookupConcat(a[1..], b, Enter(current, a[0]), table, key);
    }
  }

  // ---------------------------------------------------------------- editing one section

  predicate IsHeader(line: Line, section: string) { line.Header? && line.name == section }

  predicate HasHeader(lines: seq<Line>, section: string) {
    exists i :: 0 <= i < |lines| && IsHeader(lines[i], section)
  }

  /** Lines up to the next header of any name. */
  function Body(lines: seq<Line>): (r: seq<Line>)
    ensures |r| <= |lines| && r == lines[..|r|]
    ensures forall i :: 0 <= i < |r| ==> !r[i].Header?
    ensures |r| < |lines| ==> lines[|r|].Header?
  {
    if |lines| == 0 || lines[0].Header? then [] else [lines[0]] + Body(lines[1..])
  }

  function Rest(lines: seq<Line>): seq<Line> {
    lines[|Body(lines)|..]
  }

  function Replaced(line: Line, values: seq<Entry>): Line {
    if line.KeyLine? && Find(values, line.key).Some?
        then KeyLine(line.indent, line.key, Find(values, line.key).value) else line
  }

  function ReplaceAll(body: seq<Line>, values: seq<Entry>): (r: seq<Line>)
    ensures |r| == |body| && forall i :: 0 <= i < |r| ==> r[i] == Replaced(body[i], values)
  {
    seq(|body|, i requires 0 <= i < |body| => Replaced(body[i], values))
  }

  predicate HasKey(body: seq<Line>, key: string) {
    exists i :: 0 <= i < |body| && body[i].KeyLine? && body[i].key == key
  }

  /** The given keys no line of the body sets, rendered in the given order. */
  function Additions(values: seq<Entry>, body: seq<Line>): seq<Line> {
    if |values| == 0 then []
    else
      var last := values[|values| - 1];
      Additions(values[..|values| - 1], body)
        + (if HasKey(body, last.key) then [] else [KeyLine("", last.key, last.value)])
  }

  function EditBody(body: seq<Line>, values: seq<Entry>): seq<Line> {
    ReplaceAll(body, values) + Additions(values, body)
  }

  /** The section's header to edit at: one whose table is not followed by another table of the same name. */
  predicate Active(lines: seq<Line>, section: string) {
    |lines| > 0 && IsHeader(lines[0], section) &&
    var rest := Rest(lines[1..]);
    !(|rest| > 0 && IsHeader(rest[0], section))
  }

  /** The edit at the first active header. */
  function Edit(lines: seq<Line>, section: string, values: seq<Entry>): seq<Line> {
    if |lines| == 0 then []
    else if Active(lines, section) then [lines[0]] + EditBody(Body(lines[1..]), values) + Rest(lines[1..])
    else [lines[0]] + Edit(lines[1..], section, values)
  }

  function Rendered(values: seq<Entry>): (r: seq<Line>)
    ensures |r| == |values| && forall i :: 0 <= i < |r| ==> r[i] == KeyLine("", values[i].key, values[i].value)
  {
    seq(|values|, i requires 0 <= i < |values| => KeyLine("", values[i].key, values[i].value))
  }

  function Appended(lines: seq<Line>, section: string, values: seq<Entry>): seq<Line> {
    lines + (if |lines| > 0 && !lines[|lines| - 1].Blank? then [Blank] else []) + [Header(section, false)]
      + Rendered(values)
  }

  function Upsert(lines: seq<Line>, section: string, values: seq<Entry>): seq<Line> {
    if HasHeader(lines, section) then Edit(lines, section, values) else Appended(lines, section, values)
  }

  function HeaderNames(lines: seq<Line>): seq<string> {
    if |lines| == 0 then []
    else (if lines[0].Header? then [lines[0].name] else []) + HeaderNames(lines[1..])
  }

  /** Each table header occurs at most once, as TOML demands. */
  ghost predicate UniqueHeaders(lines: seq<Line>) {
    Distinct(HeaderNames(lines))
  }

  lemma {:induction false} HeaderNamesConcat(a: seq<Line>, b: seq<Line>)
    ensures HeaderNames(a + b) == HeaderNames(a) + HeaderNames(b)
  {
    if |a| == 0 {
      assert a + b == b;
    } else {
      assert (a + b)[0] == a[0] && (a + b)[1..] == a[1..] + b;
      HeaderNamesConcat(a[1..], b);
    }
  }

  lemma {:induction false} HeaderNamesMeaning(lines: seq<Line>, section: string)
    ensures section in HeaderNames(lines) <==> HasHeader(lines, section)
  {
    if |lines| > 0 {
      HeaderNamesMeaning(lines[1..], section);
      if HasHeader(lines, section) && !IsHeader(lines[0], section) {
        var k :| 0 <= k < |lines| && IsHeader(lines[k], section);
        assert IsHeader(lines[1..][k - 1], section);
      }
      if HasHeader(lines[1..], section) {
        var k :| 0 <= k < |lines[1..]| && IsHeader(lines[1..][k], section);
        assert IsHeader(lines[k + 1], section);
      }
    }
  }

  /** In a file taken apart at a header, no other header carries its name. */
  lemma UniqueParts(before: seq<Line>, header: Line, after: seq<Line>)
    requires header.Header? && UniqueHeaders(before + [header] + after)
    ensures NoHeader(before, header.name) && NoHeader(after, header.name)
  {
    HeaderNamesConcat(before + [header], after);
    HeaderNamesConcat(before, [header]);
    assert [header][1..] == [];
    var a, b := HeaderNames(before), HeaderNames(after);
    var all := a + [header.name] + b;
    assert HeaderNames(before + [header] + after) == all;
    assert all[|a|] == header.name;
    forall i | 0 <= i < |a| ensures a[i] != header.name { assert all[i] == a[i]; }
    forall i | 0 <= i < |b| ensures b[i] != header.name { assert all[|a| + 1 + i] == b[i]; }
    HeaderNamesMeaning(before, header.name);
    HeaderNamesMeaning(after, header.name);
  }

  predicate NoHeader(lines: seq<Line>, section: string) {
    forall i :: 0 <= i < |lines| ==> !IsHeader(lines[i], section)
  }

  lemma {:induction false} EditAfter(before: seq<Line>, lines: seq<Line>, section: string, values: seq<Entry>)
    requires NoHeader(before, section)
    ensures Edit(before + lines, section, values) == before + Edit(lines, section, values)
  {
    if |before| == 0 {
      assert before + lines == lines;
    } else {
      assert (before + lines)[0] == before[0] && (before + lines)[1..] == before[1..] + lines;
      EditAfter(before[1..], lines, section, values);
    }
  }

  lemma {:induction false} BodyIs(lines: seq<Line>, body: seq<Line>)
    requires |body| <= |lines| && body == lines[..|body|]
    requires forall i :: 0 <= i < |body| ==> !body[i].Header?
    requires |body| < |lines| ==> lines[|body|].Header?
    ensures Body(lines) == body
  {
    if |body| > 0 {
      assert lines[0] == body[0];
      assert lines[1..][..|body| - 1] == body[1..];
      BodyIs(lines[1..], body[1..]);
      assert body == [body[0]] + body[1..];
    }
  }

  lemma Join(line: Line, a: seq<Line>, b: seq<Line>)
    ensures [line] + a + b == [line] + (a + b)
  {
  }

  lemma Shift(a: seq<Line>, line: Line, b: seq<Line>)
    ensures a + ([line] + b) == a + [line] + b
  {
  }

  /** Nothing changes before the active header. */
  lemma {:induction false} EditSkips(lines: seq<Line>, n: nat, section: string, values: seq<Entry>)
    requires n <= |lines| && forall k :: 0 <= k < n ==> !Active(lines[k..], section)
    ensures Edit(lines, section, values) == lines[..n] + Edit(lines[n..], section, values)
  {
    if n == 0 {
      assert lines[0..] == lines;
    } else {
      assert lines[0..] == lines && !Active(lines[0..], section);
      forall k | 0 <= k < n - 1 ensures !Active(lines[1..][k..], section) {
        assert lines[1..][k..] == lines[k + 1..];
      }
      EditSkips(lines[1..], n - 1, section, values);
      assert lines[1..][n - 1..] == lines[n..];
      assert lines[..n] == [lines[0]] + lines[1..][..n - 1];
      Join(lines[0], lines[1..][..n - 1], Edit(lines[n..], section, values));
    }
  }

  lemma EditAtHeader(header: Line, body: seq<Line>, rest: seq<Line>, section: string, values: seq<Entry>)
    requires IsHeader(header, section)
    requires forall i :: 0 <= i < |body| ==> !body[i].Header?
    requires |rest| > 0 ==> rest[0].Header? && !IsHeader(rest[0], section)
    ensures Edit([header] + (body + rest), section, values) == [header] + (EditBody(body, values) + rest)
  {
    assert ([header] + (body + rest))[1..] == body + rest;
    BodyIs(body + rest, body);
    assert Rest(body + rest) == rest;
    var edited := EditBody(body, values);
    assert [header] + (edited + rest) == [header] + edited + rest;
  }

  /** The edit of a file taken apart at the section. */
  lemma EditParts(before: seq<Line>, header: Line, body: seq<Line>, rest: seq<Line>, section: string,
      values: seq<Entry>)
    requires NoHeader(before, section) && IsHeader(header, section)
    requires forall i :: 0 <= i < |body| ==> !body[i].Header?
    requires |rest| > 0 ==> rest[0].Header? && !IsHeader(rest[0], section)
    ensures Edit(before + [header] + body + rest, section, values) == before + [header] + EditBody(body, values) + rest
  {
    EditAtHeader(header, body, rest, section, values);
    EditAfter(before, [header] + (body + rest), section, values);
    Regroup(before, [header], body, rest);
    Regroup(before, [header], EditBody(body, values), rest);
  }

  lemma Regroup(a: seq<Line>, b: seq<Line>, c: seq<Line>, d: seq<Line>)
    ensures a + b + c + d == a + (b + (c + d)) == a + (b + c + d)
  {
    assert b + (c + d) == b + c + d;
    assert a + b + c + d == a + (b + c + d);
  }

  /** A header gives way to the next one when that carries the same name. */
  lemma GivesWay(lines: seq<Line>, p: nat, q: nat, section: string)
    requires p < q < |lines| && IsHeader(lines[q], section)
    requires forall k :: p < k < q ==> !lines[k].Header?
    ensures !Active(lines[p..], section)
  {
    var after := lines[p..][1..];
    assert after == lines[p + 1..];
    assert after[..q - p - 1] == lines[p + 1..q];
    BodyIs(after, lines[p + 1..q]);
  }

  /** The scan: where the section starts, and the line its table ends at. */
  method FindSection(lines: seq<Line>, section: string) returns (start: Option<nat>, end: nat)
    ensures start.None? <==> !HasHeader(lines, section)
    ensures start.Some? ==> start.value < end <= |lines| && IsHeader(lines[start.value], section)
    ensures start.Some? ==> forall k :: start.value < k < end ==> !lines[k].Header?
    ensures start.Some? && end < |lines| ==> lines[end].Header? && !IsHeader(lines[end], section)
    ensures start.Some? ==> forall k :: 0 <= k < start.value ==> !Active(lines[k..], section)
  {
    start := None;
    end := |lines|;
    var index := 0;
    while index < |lines|
      invariant index <= |lines| && end == |lines|
      invariant start.None? ==> forall k :: 0 <= k < index ==> !IsHeader(lines[k], section)
      invariant start.Some? ==> start.value < index && IsHeader(lines[start.value], section)
      invariant start.Some? ==> forall k :: start.value < k < index ==> !lines[k].Header?
      invariant start.Some? ==> forall k :: 0 <= k < start.value ==> !Active(lines[k..], section)
    {
      if lines[index].Header? {
        if lines[index].name == section {
          if start.Some? { GivesWay(lines, start.value, index, section); }
          start := Some(index);
        } else if start.Some? {
          end := index;
          return;
        }
      }
      index := index + 1;
    }
  }

  /** The overwrite: each line of the table that sets a given key gets its rendered value, in place. */
  method Overwrite(text: seq<Line>, from: nat, to: nat, values: seq<Entry>) returns (lines: seq<Line>)
    requires from <= to <= |text|
    ensures lines == text[..from] + ReplaceAll(text[from..to], values) + text[to..]
  {
    lines := text;
    for i := from to to
      invariant |lines| == |text|
      invariant forall k :: 0 <= k < |lines| ==>
        lines[k] == if from <= k < i then Replaced(text[k], values) else text[k]
    {
      lines := lines[i := Replaced(lines[i], values)];
    }
  }

  /** `upsert_toml_section`: scan for the section, overwrite its lines in place, splice the missing keys in. */
  method UpsertTomlSection(text: seq<Line>, section: string, values: seq<Entry>) returns (lines: seq<Line>)
    ensures lines == Upsert(text, section, values)
  {
    var start, end := FindSection(text, section);
    if start.None? {
      lines := text;
      if |lines| > 0 && !lines[|lines| - 1].Blank? { lines := lines + [Blank]; }
      lines := lines + [Header(section, false)];
      lines := lines + Rendered(values);
      return;
    }
    var from := start.value + 1;
    lines := Overwrite(text, from, end, values);
    var additions := MissingKeys(values, text[from..end]);
    lines := lines[..end] + additions + lines[end..];
    EditHere(text, start.value, end, section, values);
  }

  lemma Flatten<T>(a: seq<T>, b: seq<T>, c: seq<T>, d: seq<T>)
    ensures a + (b + c) + d == a + b + c + d
  {
  }

  /** The edit of a file at the header the scan found. */
  lemma EditHere(text: seq<Line>, start: nat, end: nat, section: string, values: seq<Entry>)
    requires start < end <= |text| && IsHeader(text[start], section)
    requires forall k :: start < k < end ==> !text[k].Header?
    requires end < |text| ==> text[end].Header? && !IsHeader(text[end], section)
    requires forall k :: 0 <= k < start ==> !Active(text[k..], section)
    ensures Edit(text, section, values) ==
      text[..start + 1] + ReplaceAll(text[start + 1..end], values) + Additions(values, text[start + 1..end])
        + text[end..]
  {
    var body, rest := text[start + 1..end], text[end..];
    assert text[start..] == [text[start]] + (body + rest);
    EditSkips(text, start, section, values);
    EditAtHeader(text[start], body, rest, section, values);
    Regroup(text[..start], [text[start]], EditBody(body, values), rest);
    assert text[..start + 1] == text[..start] + [text[start]];
    Flatten(text[..start + 1], ReplaceAll(body, values), Additions(values, body), rest);
  }

  method MissingKeys(values: seq<Entry>, body: seq<Line>) returns (additions: seq<Line>)
    ensures additions == Additions(values, body)
  {
    additions := [];
    for i := 0 to |values|
      invariant additions == Additions(values[..i], body)
    {
      assert values[..i + 1][..i] == values[..i];
      if !HasKey(body, values[i].key) { additions := additions + [KeyLine("", values[i].key, values[i].value)]; }
    }
    assert values[..|values|] == values;
  }

  // ---------------------------------------------------------------- removing keys

  /** The header lines the removal recognises: those that end in a bracket. */
  predicate Opens(line: Line) { (line.Header? || line.ArrayHeader?) && !line.commented }

  function Removal(lines: seq<Line>, inSection: bool, section: string, keys: set<string>): seq<Line> {
    if |lines| == 0 then []
    else
      var line := lines[0];
      if Opens(line) then
        [line] + Removal(lines[1..], line.Header? && line.name == section, section, keys)
      else if inSection && line.KeyLine? && line.key in keys then Removal(lines[1..], inSection, section, keys)
      else [line] + Removal(lines[1..], inSection, section, keys)
  }

  method RemoveTomlKeys(lines: seq<Line>, section: string, keys: set<string>) returns (output: seq<Line>)
    ensures output == Removal(lines, false, section, keys)
  {
    var inSection := false;
    output := [];
    for i := 0 to |lines|
      invariant output + Removal(lines[i..], inSection, section, keys) == Removal(lines, false, section, keys)
    {
      var line := lines[i];
      assert lines[i..][1..] == lines[i + 1..];
      ghost var next := if Opens(line) then line.Header? && line.name == section else inSection;
      Shift(output, line, Removal(lines[i + 1..], next, section, keys));
      if Opens(line) {
        inSection := line.Header? && line.name == section;
        output := output + [line];
        continue;
      }
      if inSection && line.KeyLine? {
        if line.key in keys { continue; }
      }
      output := output + [line];
    }
  }
}
