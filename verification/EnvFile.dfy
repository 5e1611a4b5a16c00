/**
 * The configurator's .env printer against the parser that reads the file back.
 * Models generateEnv (packages/sdp-env-config/src/generate.ts), validateValues
 * (packages/sdp-env-config/src/validate.ts) and loadLocalEnvFile
 * (apps/sdp-api/scripts/set-organization-tier-local.ts).
 */
module EnvFile {
  import opened Wrappers
  import opened Sequences
  import opened Text
  import opened TextLines

  type Values = map<string, string>

  datatype Kind = Plain | Select | Multiselect

  /** A field of the configurator's table; `options` resolves its (possibly dynamic) options. */
  datatype Field = Field(
    key: string,
    section: string,
    kind: Kind,
    required: bool,
    defaultValue: Option<string>,
    derive: Option<Values -> string>,
    alwaysEmit: bool,
    uiOnly: bool,
    visible: Values -> bool,
    pattern: Option<string -> bool>,
    options: Values -> Option<seq<string>>)

  datatype Section = Section(id: string, comment: string)

  /** The table the file is generated from; `header` is the fixed comment at its top. */
  datatype Table = Table(header: seq<string>, sections: seq<Section>, fields: seq<Field>)

  // ------------------------------------------------------------ printing

  predicate IsControl(c: char) {
    c == '\r' || c == '\n' || c == '\0'
  }

  /** Every CR, LF and NUL removed. */
  function Strip(s: string): string {
    if s == "" then "" else Strip(s[..|s| - 1]) + if IsControl(s[|s| - 1]) then "" else [s[|s| - 1]]
  }

  function Raw(f: Field, values: Values): string {
    match f.derive
    case Some(derive) => derive(values)
    case None =>
      if f.key in values then values[f.key]
      else match f.defaultValue
        case Some(text) => text
        case None => ""
  }

  function Clean(f: Field, values: Values): string {
    Strip(Trim(Raw(f, values)))
  }

  predicate InSection(f: Field, id: string, values: Values) {
    f.section == id && !f.uiOnly && (f.derive.Some? || f.alwaysEmit || f.visible(values))
  }

  function Assignment(key: string, value: string): string {
    key + "=" + value
  }

  function FieldLine(f: Field, id: string, values: Values): seq<string> {
    if InSection(f, id, values) && Clean(f, values) != "" then [Assignment(f.key, Clean(f, values))] else []
  }

  function SectionLines(fields: seq<Field>, id: string, values: Values): seq<string> {
    if fields == [] then []
    else SectionLines(fields[..|fields| - 1], id, values) + FieldLine(fields[|fields| - 1], id, values)
  }

  function SectionBlock(s: Section, fields: seq<Field>, values: Values): seq<string> {
    var lines := SectionLines(fields, s.id, values);
    if lines == [] then [] else ["# " + s.comment] + lines + [""]
  }

  function Body(sections: seq<Section>, fields: seq<Field>, values: Values): seq<string> {
    if sections == [] then []
    else Body(sections[..|sections| - 1], fields, values) + SectionBlock(sections[|sections| - 1], fields, values)
  }

  function Header(t: Table): string {
    Join(t.header + [""], '\n')
  }

  function Generated(t: Table, values: Values): string {
    TrimEnd(Join([Header(t)] + Body(t.sections, t.fields, values), '\n')) + "\n"
  }

  method CollectSectionLines(fields: seq<Field>, id: string, values: Values) returns (lines: seq<string>)
    ensures lines == SectionLines(fields, id, values)
  {
    lines := [];
    for i := 0 to |fields|
      invariant lines == SectionLines(fields[..i], id, values)
    {
      var f := fields[i];
      NextField(fields, id, values, i);
      if InSection(f, id, values) {
        var value := Strip(Trim(Raw(f, values)));
        if value != "" {
          lines := lines + [Assignment(f.key, value)];
        }
      }
    }
    assert fields[..|fields|] == fields;
  }

  lemma {:induction false} NextField(fields: seq<Field>, id: string, values: Values, i: nat)
    requires i < |fields|
    ensures SectionLines(fields[..i + 1], id, values)
            == SectionLines(fields[..i], id, values) + FieldLine(fields[i], id, values)
  {
    assert fields[..i + 1][..i] == fields[..i];
  }

  lemma {:induction false} NextSection(
    header: string, sections: seq<Section>, fields: seq<Field>, values: Values, i: nat)
    requires i < |sections|
    ensures [header] + Body(sections[..i + 1], fields, values)
            == [header] + Body(sections[..i], fields, values) + SectionBlock(sections[i], fields, values)
  {
    assert sections[..i + 1][..i] == sections[..i];
    Associate([header], Body(sections[..i], fields, values), SectionBlock(sections[i], fields, values));
  }

  method AppendSection(lines: seq<string>, s: Section, fields: seq<Field>, values: Values) returns (longer: seq<string>)
    ensures longer == lines + SectionBlock(s, fields, values)
  {
    var sectionLines := CollectSectionLines(fields, s.id, values);
    if |sectionLines| == 0 {
      return lines;
    }
    longer := lines + (["# " + s.comment] + sectionLines + [""]);
  }

  method CollectLines(
    header: string, sections: seq<Section>, fields: seq<Field>, values: Values) returns (lines: seq<string>)
    ensures lines == [header] + Body(sections, fields, values)
  {
    lines := [header];
    for i := 0 to |sections|
      invariant lines == [header] + Body(sections[..i], fields, values)
    {
      NextSection(header, sections, fields, values, i);
      lines := AppendSection(lines, sections[i], fields, values);
    }
    assert sections[..|sections|] == sections;
  }

  method GenerateEnv(t: Table, values: Values) returns (text: string)
    ensures text == Generated(t, values)
  {
    var lines := CollectLines(Header(t), t.sections, t.fields, values);
    text := TrimEnd(Join(lines, '\n')) + "\n";
  }

  // ------------------------------------------------------------- parsing

  /** The key and value a line assigns, if it is an assignment. */
  function Binding(line: string): Option<(string, string)> {
    var trimmed := Trim(line);
    if trimmed == "" || trimmed[0] == '#' then None
    else
      var parts := Split(trimmed, '=');
      if parts[0] == "" then None else Some((parts[0], Join(parts[1..], '=')))
  }

  function Put(m: Values, binding: Option<(string, string)>): Values {
    match binding
    case None => m
    case Some(b) => m[b.0 := b.1]
  }

  function ParsedLines(lines: seq<string>): Values {
    if lines == [] then map[] else Put(ParsedLines(lines[..|lines| - 1]), Binding(lines[|lines| - 1]))
  }

  function Parsed(content: string): Values {
    ParsedLines(Split(content, '\n'))
  }

  method LoadLocalEnvFile(content: string) returns (values: Values)
    ensures values == Parsed(content)
  {
    values := map[];
    var lines := Split(content, '\n');
    for i := 0 to |lines|
      invariant values == ParsedLines(lines[..i])
    {
      assert lines[..i + 1][..i] == lines[..i];
      var trimmed := Trim(lines[i]);
      if trimmed == "" || trimmed[0] == '#' {
        continue;
      }
      var parts := Split(trimmed, '=');
      if parts[0] == "" {
        continue;
      }
      values := values[parts[0] := Join(parts[1..], '=')];
    }
    assert lines[..|lines|] == lines;
  }

  // --------------------------------- what white space does to a parse

  lemma {:induction false} Snoc(lines: seq<string>, line: string)
    ensures ParsedLines(lines + [line]) == Put(ParsedLines(lines), Binding(line))
  {
    assert (lines + [line])[..|lines|] == lines;
  }

  lemma BlankBinds(line: string)
    requires line == ""
    ensures Binding(line) == None
  {
  }

  /** A white-space character at the end of a file changes nothing that is read from it. */
  lemma TrailingSpace(text: string, c: char)
    requires IsSpace(c)
    ensures Parsed(text + [c]) == Parsed(text)
  {
    var parts := Split(text, '\n');
    if c == '\n' {
      SplitAt(text, "", '\n');
      assert text + ['\n'] + "" == text + [c];
      BlankBinds("");
      Snoc(parts, "");
    } else {
      SplitExtended(text, c, '\n');
      var front, last := parts[..|parts| - 1], parts[|parts| - 1];
      assert parts == front + [last];
      Snoc(front, last);
      Snoc(front, last + [c]);
      TrimExtended(last, c);
    }
  }

  lemma {:induction false} TrailingSpaces(text: string)
    ensures Parsed(TrimEnd(text)) == Parsed(text)
  {
    if text != "" && IsSpace(text[|text| - 1]) {
      TrailingSpaces(text[..|text| - 1]);
      TrailingSpace(text[..|text| - 1], text[|text| - 1]);
      assert text == text[..|text| - 1] + [text[|text| - 1]];
    }
  }

  // ------------------------------------------- one line, one assignment

  ghost predicate PlainKey(key: string) {
    key != "" && key[0] != '#' && !IsSpace(key[0]) && '=' !in key && '\n' !in key
  }

  lemma {:induction false} TrimAssignment(key: string, value: string)
    requires PlainKey(key)
    ensures Trim(Assignment(key, value)) == Assignment(key, TrimEnd(value))
  {
    var line := Assignment(key, value);
    assert line[0] == key[0];
    TrimEndAfter(key + "=", value);
  }

  /** An emitted line is read back as its key and its value without trailing white space. */
  lemma {:induction false} AssignmentBinds(key: string, value: string)
    requires PlainKey(key)
    ensures Binding(Assignment(key, value)) == Some((key, TrimEnd(value)))
  {
    TrimAssignment(key, value);
    var trimmed := Assignment(key, TrimEnd(value));
    assert trimmed[0] == key[0];
    SplitAt(key, TrimEnd(value), '=');
    assert key + ['='] + TrimEnd(value) == trimmed;
    SplitWhole(key, '=');
    assert Split(trimmed, '=') == [key] + Split(TrimEnd(value), '=');
    assert Split(trimmed, '=')[1..] == Split(TrimEnd(value), '=');
    JoinOfSplit(TrimEnd(value), '=');
  }

  lemma CommentBinds(line: string)
    requires line != "" && line[0] == '#'
    ensures Binding(line) == None
  {
    assert !IsSpace('#');
    assert TrimStart(line) == line;
    assert line == [line[0]] + line[1..];
    TrimEndAfter([line[0]], line[1..]);
  }

  lemma {:induction false} StripMembers(s: string)
    ensures forall c :: c in Strip(s) ==> c in s && !IsControl(c)
  {
    if s != "" {
      StripMembers(s[..|s| - 1]);
    }
  }

  lemma {:induction false} StripShortens(s: string)
    ensures |Strip(s)| <= |s|
    ensures |Strip(s)| == |s| ==> Strip(s) == s
  {
    if s != "" {
      StripShortens(s[..|s| - 1]);
      assert s == s[..|s| - 1] + [s[|s| - 1]];
    }
  }

  lemma {:induction false} StripKeeps(s: string)
    requires forall c :: c in s ==> !IsControl(c)
    ensures Strip(s) == s
  {
    if s != "" {
      StripKeeps(s[..|s| - 1]);
      assert s == s[..|s| - 1] + [s[|s| - 1]];
    }
  }

  lemma {:induction false} StripIsClean(s: string)
    ensures forall c :: c in Strip(s) ==> c in s && !IsControl(c)
    ensures |Strip(s)| <= |s|
    ensures Strip(s) == s <==> forall c :: c in s ==> !IsControl(c)
    ensures |Strip(s)| == |s| ==> Strip(s) == s
  {
    StripMembers(s);
    StripShortens(s);
    if forall c :: c in s ==> !IsControl(c) {
      StripKeeps(s);
    }
  }

  // --------------------------------------- looking a key up in the file

  /** Whether some line assigns `v` to `k`. */
  ghost predicate Assigns(lines: seq<string>, k: string, v: string) {
    exists line :: line in lines && Binding(line) == Some((k, v))
  }

  /** The line assigns nothing else to `k`. */
  ghost predicate AssignsOnly(line: string, k: string, v: string) {
    Binding(line).Some? && Binding(line).value.0 == k ==> Binding(line).value.1 == v
  }

  lemma AssignsNext(front: seq<string>, last: string, k: string, v: string)
    ensures Assigns(front + [last], k, v) <==> Assigns(front, k, v) || Binding(last) == Some((k, v))
  {
    if Binding(last) == Some((k, v)) {
      assert last in front + [last];
    } else if line :| line in front && Binding(line) == Some((k, v)) {
      assert line in front + [last];
    }
  }

  lemma {:induction false} Lookup(lines: seq<string>, k: string, v: string)
    requires forall line :: line in lines ==> AssignsOnly(line, k, v)
    ensures k in ParsedLines(lines) <==> Assigns(lines, k, v)
    ensures k in ParsedLines(lines) ==> ParsedLines(lines)[k] == v
  {
    if lines != [] {
      var front, last := lines[..|lines| - 1], lines[|lines| - 1];
      assert lines == front + [last];
      assert last in lines;
      Lookup(front, k, v);
      AssignsNext(front, last, k, v);
    }
  }

  // --------------------------------------------- what the file contains

  ghost predicate Emitted(t: Table, f: Field, values: Values) {
    Clean(f, values) != "" && exists j :: 0 <= j < |t.sections| && InSection(f, t.sections[j].id, values)
  }

  /** The header is made of comments, comments are one line each, and keys are plain and distinct. */
  ghost predicate PlainTable(t: Table) {
    && (forall line :: line in t.header ==> line != "" && line[0] == '#' && '\n' !in line)
    && (forall j :: 0 <= j < |t.sections| ==> '\n' !in t.sections[j].comment)
    && (forall i :: 0 <= i < |t.fields| ==> PlainKey(t.fields[i].key))
    && (forall i, j :: 0 <= i < j < |t.fields| ==> t.fields[i].key != t.fields[j].key)
  }

  /** What an emitted field is read back as. */
  function Kept(f: Field, values: Values): string {
    TrimEnd(Clean(f, values))
  }

  ghost predicate IsFieldLine(line: string, f: Field, id: string, values: Values) {
    InSection(f, id, values) && Clean(f, values) != "" && line == Assignment(f.key, Clean(f, values))
  }

  ghost predicate HasFieldLine(fields: seq<Field>, id: string, values: Values, line: string) {
    exists i :: 0 <= i < |fields| && IsFieldLine(line, fields[i], id, values)
  }

  lemma HasFieldLineNext(front: seq<Field>, last: Field, id: string, values: Values, line: string)
    ensures HasFieldLine(front + [last], id, values, line)
            <==> HasFieldLine(front, id, values, line) || IsFieldLine(line, last, id, values)
  {
    var fields := front + [last];
    if i :| 0 <= i < |front| && IsFieldLine(line, front[i], id, values) {
      assert fields[i] == front[i];
    } else if IsFieldLine(line, last, id, values) {
      assert fields[|front|] == last;
    }
  }

  lemma {:induction false} SectionLine(fields: seq<Field>, id: string, values: Values, line: string)
    ensures line in SectionLines(fields, id, values) <==> HasFieldLine(fields, id, values, line)
  {
    if fields != [] {
      var front, last := fields[..|fields| - 1], fields[|fields| - 1];
      assert fields == front + [last];
      SectionLine(front, id, values, line);
      HasFieldLineNext(front, last, id, values, line);
      assert line in FieldLine(last, id, values) <==> IsFieldLine(line, last, id, values);
    }
  }

  ghost predicate InSomeBlock(sections: seq<Section>, fields: seq<Field>, values: Values, line: string) {
    exists j :: 0 <= j < |sections| && line in SectionBlock(sections[j], fields, values)
  }

  lemma InSomeBlockNext(front: seq<Section>, last: Section, fields: seq<Field>, values: Values, line: string)
    ensures InSomeBlock(front + [last], fields, values, line)
            <==> InSomeBlock(front, fields, values, line) || line in SectionBlock(last, fields, values)
  {
    var sections := front + [last];
    if j :| 0 <= j < |front| && line in SectionBlock(front[j], fields, values) {
      assert sections[j] == front[j];
    } else if line in SectionBlock(last, fields, values) {
      assert sections[|front|] == last;
    }
  }

  lemma {:induction false} BodyLine(sections: seq<Section>, fields: seq<Field>, values: Values, line: string)
    ensures line in Body(sections, fields, values) <==> InSomeBlock(sections, fields, values, line)
  {
    if sections != [] {
      var front, last := sections[..|sections| - 1], sections[|sections| - 1];
      assert sections == front + [last];
      BodyLine(front, fields, values, line);
      InSomeBlockNext(front, last, fields, values, line);
    }
  }

  lemma CleanHasNoControl(f: Field, values: Values)
    ensures forall c :: c in Clean(f, values) ==> !IsControl(c)
  {
    StripIsClean(Trim(Raw(f, values)));
  }

  lemma FieldLineIs(f: Field, id: string, values: Values, line: string)
    requires PlainKey(f.key) && IsFieldLine(line, f, id, values)
    ensures '\n' !in line && Binding(line) == Some((f.key, Kept(f, values)))
  {
    CleanHasNoControl(f, values);
    AssignmentBinds(f.key, Clean(f, values));
  }

  /** The line assigns the kept value of the emitted field `i`. */
  ghost predicate BindsField(t: Table, values: Values, line: string, i: int) {
    && 0 <= i < |t.fields|
    && Emitted(t, t.fields[i], values)
    && Binding(line) == Some((t.fields[i].key, Kept(t.fields[i], values)))
  }

  /** A line of a section is blank, a comment, or the assignment of an emitted field. */
  lemma BlockLineIs(t: Table, values: Values, j: nat, line: string)
    requires PlainTable(t) && j < |t.sections| && line in SectionBlock(t.sections[j], t.fields, values)
    ensures '\n' !in line
    ensures Binding(line) == None
            || exists i :: BindsField(t, values, line, i)
  {
    var s := t.sections[j];
    var lines := SectionLines(t.fields, s.id, values);
    assert line == "" || line == "# " + s.comment || line in lines;
    if line in lines {
      SectionLine(t.fields, s.id, values, line);
      var i :| 0 <= i < |t.fields| && IsFieldLine(line, t.fields[i], s.id, values);
      FieldLineIs(t.fields[i], s.id, values, line);
      assert InSection(t.fields[i], t.sections[j].id, values);
      assert BindsField(t, values, line, i);
    } else if line == "" {
      BlankBinds(line);
    } else {
      CommentBinds(line);
    }
  }

  lemma {:induction false} EmittedIsAssigned(t: Table, values: Values, i: nat)
    requires PlainTable(t) && i < |t.fields| && Emitted(t, t.fields[i], values)
    ensures Assigns(Body(t.sections, t.fields, values), t.fields[i].key, Kept(t.fields[i], values))
  {
    var f := t.fields[i];
    var j :| 0 <= j < |t.sections| && InSection(f, t.sections[j].id, values);
    var line := Assignment(f.key, Clean(f, values));
    assert IsFieldLine(line, t.fields[i], t.sections[j].id, values);
    SectionLine(t.fields, t.sections[j].id, values, line);
    assert line in SectionBlock(t.sections[j], t.fields, values);
    BodyLine(t.sections, t.fields, values, line);
    FieldLineIs(f, t.sections[j].id, values, line);
  }

  function AllLines(t: Table, values: Values): seq<string> {
    t.header + [""] + Body(t.sections, t.fields, values)
  }

  lemma LineIs(t: Table, values: Values, line: string)
    requires PlainTable(t) && line in AllLines(t, values)
    ensures '\n' !in line
    ensures Binding(line) == None
            || exists i :: BindsField(t, values, line, i)
  {
    if line in t.header {
      CommentBinds(line);
    } else if line == "" {
      BlankBinds(line);
    } else {
      BodyLine(t.sections, t.fields, values, line);
      var j: nat :| j < |t.sections| && line in SectionBlock(t.sections[j], t.fields, values);
      BlockLineIs(t, values, j, line);
    }
  }

  lemma {:induction false} JoinFlat(a: seq<string>, b: seq<string>, separator: char)
    requires a != []
    ensures Join([Join(a, separator)] + b, separator) == Join(a + b, separator)
  {
    if b == [] {
      assert a + b == a && [Join(a, separator)] + b == [Join(a, separator)];
    } else if |a| == 1 {
      assert [Join(a, separator)] + b == a + b;
    } else {
      var tail := Join(a[1..], separator);
      JoinFlat(a[1..], b, separator);
      assert (a + b)[1..] == a[1..] + b;
      assert ([tail] + b)[1..] == b;
      assert ([Join(a, separator)] + b)[1..] == b;
    }
  }

  /** Reading the generated file is reading its lines. */
  lemma FileIsItsLines(t: Table, values: Values)
    requires PlainTable(t)
    ensures Parsed(Generated(t, values)) == ParsedLines(AllLines(t, values))
  {
    var lines := AllLines(t, values);
    var text := Join([Header(t)] + Body(t.sections, t.fields, values), '\n');
    JoinFlat(t.header + [""], Body(t.sections, t.fields, values), '\n');
    forall i | 0 <= i < |lines| ensures '\n' !in lines[i] {
      LineIs(t, values, lines[i]);
    }
    SplitOfJoin(lines, '\n');
    TrailingSpaces(text);
    TrailingSpace(TrimEnd(text), '\n');
  }

  // -------------------------------------------------------- the theorems

  lemma LineKeeps(t: Table, values: Values, i: nat, line: string)
    requires PlainTable(t) && i < |t.fields| && line in AllLines(t, values)
    ensures AssignsOnly(line, t.fields[i].key, Kept(t.fields[i], values))
    ensures Binding(line) == Some((t.fields[i].key, Kept(t.fields[i], values))) ==> Emitted(t, t.fields[i], values)
  {
    LineIs(t, values, line);
    if j :| BindsField(t, values, line, j) {
      assert t.fields[j].key == t.fields[i].key ==> j == i;
    }
  }

  lemma AssignedExactlyWhenEmitted(t: Table, values: Values, i: nat)
    requires PlainTable(t) && i < |t.fields|
    ensures Assigns(AllLines(t, values), t.fields[i].key, Kept(t.fields[i], values)) <==>
            Emitted(t, t.fields[i], values)
  {
    var lines, k, v := AllLines(t, values), t.fields[i].key, Kept(t.fields[i], values);
    if Emitted(t, t.fields[i], values) {
      EmittedIsAssigned(t, values, i);
      var line :| line in Body(t.sections, t.fields, values) && Binding(line) == Some((k, v));
      assert line in lines;
    } else if line :| line in lines && Binding(line) == Some((k, v)) {
      LineKeeps(t, values, i, line);
    }
  }

  lemma ReadsBackField(t: Table, values: Values, i: nat)
    requires PlainTable(t) && i < |t.fields|
    ensures var read := Parsed(Generated(t, values));
            && (t.fields[i].key in read <==> Emitted(t, t.fields[i], values))
            && (t.fields[i].key in read ==> read[t.fields[i].key] == Kept(t.fields[i], values))
  {
    FileIsItsLines(t, values);
    forall line | line in AllLines(t, values) ensures AssignsOnly(line, t.fields[i].key, Kept(t.fields[i], values)) {
      LineKeeps(t, values, i, line);
    }
    Lookup(AllLines(t, values), t.fields[i].key, Kept(t.fields[i], values));
    AssignedExactlyWhenEmitted(t, values, i);
  }

  lemma ReadsBackNothingElse(t: Table, values: Values, k: string)
    requires PlainTable(t) && forall i :: 0 <= i < |t.fields| ==> t.fields[i].key != k
    ensures k !in Parsed(Generated(t, values))
  {
    var lines := AllLines(t, values);
    FileIsItsLines(t, values);
    forall line | line in lines ensures AssignsOnly(line, k, "") && Binding(line) != Some((k, "")) {
      LineIs(t, values, line);
    }
    Lookup(lines, k, "");
  }

  /**
   * Whatever the values, the file reads back exactly the emitted fields, each with its trimmed and
   * stripped value, and no other key: no value can add a line of its own.
   */
  lemma ReadsBack(t: Table, values: Values)
    requires PlainTable(t)
    ensures forall k :: k in Parsed(Generated(t, values))
                        <==> exists i :: 0 <= i < |t.fields| && t.fields[i].key == k && Emitted(t, t.fields[i], values)
    ensures forall i :: 0 <= i < |t.fields| && t.fields[i].key in Parsed(Generated(t, values))
              ==> Parsed(Generated(t, values))[t.fields[i].key] == Kept(t.fields[i], values)
  {
    forall i | 0 <= i < |t.fields|
      ensures t.fields[i].key in Parsed(Generated(t, values)) <==> Emitted(t, t.fields[i], values)
      ensures t.fields[i].key in Parsed(Generated(t, values)) ==>
                Parsed(Generated(t, values))[t.fields[i].key] == Kept(t.fields[i], values)
    {
      ReadsBackField(t, values, i);
    }
    forall k ensures k in Parsed(Generated(t, values))
                     <==> exists i :: 0 <= i < |t.fields| && t.fields[i].key == k && Emitted(t, t.fields[i], values) {
      if forall i :: 0 <= i < |t.fields| ==> t.fields[i].key != k {
        ReadsBackNothingElse(t, values, k);
      }
    }
  }

  ghost predicate SingleLine(s: string) {
    forall c :: c in s ==> !IsControl(c)
  }

  lemma {:induction false} TrimEndShortens(s: string)
    ensures |TrimEnd(s)| <= |s|
  {
    if s != "" && IsSpace(s[|s| - 1]) {
      TrimEndShortens(s[..|s| - 1]);
    }
  }

  /** A field's trimmed value survives the file exactly when it has no CR, LF or NUL in it. */
  lemma KeptExactlyWhen(f: Field, values: Values)
    ensures Kept(f, values) == Trim(Raw(f, values)) <==> SingleLine(Trim(Raw(f, values)))
  {
    var trimmed := Trim(Raw(f, values));
    StripIsClean(trimmed);
    TrimEndIdle(TrimStart(Raw(f, values)));
    TrimEndShortens(Strip(trimmed));
  }

  // ---------------------------------------------------------- validation

  datatype Problem = IsRequired | MustBeSingleLine | InvalidFormat | NotAnOption

  function NonEmpty(parts: seq<string>): seq<string> {
    if parts == [] then []
    else (if Trim(parts[0]) != "" then [Trim(parts[0])] else []) + NonEmpty(parts[1..])
  }

  function ParseList(value: string): seq<string> {
    if value == "" then [] else NonEmpty(Split(value, ','))
  }

  predicate IsMember(f: Field, values: Values, selected: seq<string>) {
    f.kind == Plain
    || match f.options(values)
       case None => true
       case Some(allowed) => allowed == [] || forall x :: x in selected ==> x in allowed
  }

  function ValidateField(f: Field, values: Values): Option<Problem> {
    var value := Trim(if f.key in values then values[f.key] else "");
    var selected := if f.kind == Multiselect then ParseList(value) else if value == "" then [] else [value];
    if f.required && (if f.kind == Multiselect then selected == [] else value == "") then Some(IsRequired)
    else if value == "" then None
    else if exists c :: c in value && IsControl(c) then Some(MustBeSingleLine)
    else if f.pattern.Some? && !f.pattern.value(value) then Some(InvalidFormat)
    else if !IsMember(f, values, selected) then Some(NotAnOption)
    else None
  }

  predicate Checked(f: Field, values: Values) {
    f.derive.None? && (f.visible(values) || f.alwaysEmit)
  }

  function Errors(fields: seq<Field>, values: Values): map<string, Problem> {
    if fields == [] then map[]
    else
      var errors, f := Errors(fields[..|fields| - 1], values), fields[|fields| - 1];
      if Checked(f, values) && ValidateField(f, values).Some?
      then errors[f.key := ValidateField(f, values).value]
      else errors
  }

  method ValidateValues(fields: seq<Field>, values: Values) returns (errors: map<string, Problem>)
    ensures errors == Errors(fields, values)
  {
    errors := map[];
    for i := 0 to |fields|
      invariant errors == Errors(fields[..i], values)
    {
      var f := fields[i];
      assert fields[..i + 1][..i] == fields[..i];
      if f.derive.Some? {
        continue;
      }
      if !f.visible(values) && !f.alwaysEmit {
        continue;
      }
      var error := ValidateField(f, values);
      if error.Some? {
        errors := errors[f.key := error.value];
      }
    }
    assert fields[..|fields|] == fields;
  }

  lemma {:induction false} NoErrors(fields: seq<Field>, values: Values)
    ensures Errors(fields, values) == map[]
            <==> forall i :: 0 <= i < |fields| && Checked(fields[i], values) ==>
                   ValidateField(fields[i], values) == None
  {
    if fields != [] {
      var front, last := fields[..|fields| - 1], fields[|fields| - 1];
      NoErrors(front, values);
      if Checked(last, values) && ValidateField(last, values).Some? {
        assert last.key in Errors(fields, values);
        assert fields[|fields| - 1] == last;
      } else if Errors(fields, values) == map[] {
        forall i | 0 <= i < |fields| && Checked(fields[i], values) ensures ValidateField(fields[i], values) == None {
          assert i < |front| ==> fields[i] == front[i];
        }
      } else {
        var i :| 0 <= i < |front| && Checked(front[i], values) && ValidateField(front[i], values).Some?;
        assert fields[i] == front[i];
      }
    }
  }

  /**
   * After validation every emitted field that was filled in reads back as exactly its trimmed value,
   * and every required field of a known section is in the file.
   */
  lemma {:induction false} ValidatedReadsBack(t: Table, values: Values, i: nat)
    requires PlainTable(t) && i < |t.fields| && Errors(t.fields, values) == map[]
    requires t.fields[i].derive.None? && t.fields[i].key in values
    requires exists j :: 0 <= j < |t.sections| && InSection(t.fields[i], t.sections[j].id, values)
    ensures var f, read := t.fields[i], Parsed(Generated(t, values));
            && (f.key in read <==> Trim(values[f.key]) != "")
            && (f.key in read ==> read[f.key] == Trim(values[f.key]))
            && (f.required ==> f.key in read)
  {
    var f := t.fields[i];
    NoErrors(t.fields, values);
    assert Checked(f, values) && ValidateField(f, values) == None;
    assert SingleLine(Trim(values[f.key]));
    StripIsClean(Trim(values[f.key]));
    ReadsBackField(t, values, i);
    KeptExactlyWhen(f, values);
  }

  /** A field that need not be filled in, with a default or a derived text. */
  function OptionalField(key: string, text: string, derived: bool): Field {
    Field(key, "", Plain, false, if derived then None else Some(text), if derived then Some(_ => text) else None,
          false, false, _ => true, None, _ => None)
  }

  /**
   * Validation never sees a default or derived text: whenever one has a CR, LF or NUL inside, a table
   * and values exist that pass validation and whose file does not read back that text.
   */
  lemma UncheckedTextIsCut(key: string, text: string, derived: bool)
    requires PlainKey(key) && !SingleLine(Trim(text))
    ensures var t := Table([], [Section("", "")], [OptionalField(key, text, derived)]);
            var read := Parsed(Generated(t, map[]));
            && PlainTable(t) && Errors(t.fields, map[]) == map[]
            && !(key in read && read[key] == Trim(text))
  {
    var f := OptionalField(key, text, derived);
    var t := Table([], [Section("", "")], [f]);
    assert Raw(f, map[]) == text;
    assert t.fields[0] == f;
    ReadsBackField(t, map[], 0);
    KeptExactlyWhen(f, map[]);
    UncheckedPasses(f);
  }

  lemma UncheckedPasses(f: Field)
    requires !f.required && f.kind == Plain
    ensures Errors([f], map[]) == map[]
  {
    assert Trim("") == "";
    assert [f][..0] == [];
  }
}
