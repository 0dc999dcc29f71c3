/** The resolution step of the copy engine (`setup` in copy.rs): descend the
    source tree to its first readable file, read that file's
    `Customer ID:` and `EOT UNIT ID:` lines, and build the destination
    `dest/<schema>/"<schema> <unit_id>"` from them. */
module Descriptor {

  import opened Wrappers
  import opened Sequences
  import opened Text
  import opened FileSystem

  const UnitKey := "EOT UNIT ID:"
  const SchemaKey := "Customer ID:"

  /** The error `setup` returns when the descent reaches no file. */
  const NotFoundError := IoError(NotFound, "File not found")

  /** The value of a descriptor line, `line.split(':').nth(1).unwrap_or("").trim()`:
      the trimmed text between the first and the second colon, or "" when the
      line has no colon. */
  function FieldText(line: string): string {
    var parts := Split(line, ':');
    if |parts| > 1 then Trim(parts[1]) else ""
  }

  /** A field is the trimmed text between the line's first colon and the next
      colon or the end of the line; whatever follows a second colon is dropped. */
  lemma FieldTextBetweenColons(head: string, value: string, tail: string)
    requires ':' !in head && ':' !in value
    requires tail == [] || tail[0] == ':'
    ensures FieldText(head + ":" + value + tail) == Trim(value)
  {
    var line := head + ":" + value + tail;
    var vt := value + tail;
    assert line[..|head|] == head && line[|head|] == ':';
    IndexOfAt(line, ':', |head|);
    assert line[|head| + 1..] == vt;
    if tail != [] {
      assert vt[..|value|] == value && vt[|value|] == ':';
      IndexOfAt(vt, ':', |value|);
    }
    assert Split(vt, ':')[0] == value;
  }

  /** A line without a colon has no field (`nth(1)` is `None`). */
  lemma FieldTextWithoutColon(line: string)
    requires ':' !in line
    ensures FieldText(line) == ""
  {
  }

  /** The two fields a descriptor line can set. */
  datatype Key = UnitId | CustomerId

  /** The line sets `key`. The scan tests `EOT UNIT ID:` first and
      `Customer ID:` only otherwise (`if` / `else if`). */
  predicate Selects(key: Key, line: string) {
    match key
    case UnitId => StartsWith(line, UnitKey)
    case CustomerId => !StartsWith(line, UnitKey) && StartsWith(line, SchemaKey)
  }

  /** The `else` in the scan never matters: no line starts with both keys. */
  lemma KeysExclusive(line: string)
    ensures Selects(CustomerId, line) <==> StartsWith(line, SchemaKey)
  {
  }

  /** Index of the last line that sets `key`, if any. */
  function LastSelected(lines: seq<string>, key: Key): (r: Option<nat>)
    ensures r.Some? ==> r.value < |lines|
    decreases |lines|
  {
    if lines == [] then None
    else if Selects(key, lines[|lines| - 1]) then Some(|lines| - 1)
    else LastSelected(lines[..|lines| - 1], key)
  }

  /** The last match wins: the line found sets `key` and no later line does;
      there is none exactly when no line sets `key`. */
  lemma {:induction false} LastSelectedSpec(lines: seq<string>, key: Key)
    ensures var r := LastSelected(lines, key);
      (r.Some? ==>
        (r.value < |lines| && Selects(key, lines[r.value])
         && forall j :: r.value < j < |lines| ==> !Selects(key, lines[j])))
      && (r.None? <==> forall j :: 0 <= j < |lines| ==> !Selects(key, lines[j]))
    decreases |lines|
  {
    if lines != [] && !Selects(key, lines[|lines| - 1]) {
      var init := lines[..|lines| - 1];
      LastSelectedSpec(init, key);
      assert forall j :: 0 <= j < |lines| - 1 ==> init[j] == lines[j];
    }
  }

  /** The value a scan of `lines` leaves in the variable for `key`: the field of
      the last line that sets it, or "" when none does. */
  function FieldValue(lines: seq<string>, key: Key): string {
    match LastSelected(lines, key)
    case None => ""
    case Some(j) => FieldText(lines[j])
  }

  datatype Fields = Fields(schema: string, unitId: string)

  function Scan(lines: seq<string>): Fields {
    Fields(FieldValue(lines, CustomerId), FieldValue(lines, UnitId))
  }

  /** A line that sets neither field changes nothing. */
  lemma {:induction false} ScanIgnores(lines: seq<string>, line: string)
    requires !Selects(UnitId, line) && !Selects(CustomerId, line)
    ensures Scan(lines + [line]) == Scan(lines)
  {
    assert (lines + [line])[..|lines|] == lines;
  }

  /** A line that sets a field replaces whatever earlier lines set it to, and
      leaves the other field alone. */
  lemma {:induction false} ScanOverrides(lines: seq<string>, line: string)
    ensures Selects(UnitId, line) ==>
      Scan(lines + [line]) == Scan(lines).(unitId := FieldText(line))
    ensures Selects(CustomerId, line) ==>
      Scan(lines + [line]) == Scan(lines).(schema := FieldText(line))
  {
    assert (lines + [line])[..|lines|] == lines;
  }

  /** One turn of the scan loop, as the loop body tests it. */
  lemma ScanLine(lines: seq<string>, line: string)
    ensures Scan(lines + [line])
      == if StartsWith(line, UnitKey) then Scan(lines).(unitId := FieldText(line))
         else if StartsWith(line, SchemaKey) then Scan(lines).(schema := FieldText(line))
         else Scan(lines)
  {
    ScanOverrides(lines, line);
    if !StartsWith(line, UnitKey) && !StartsWith(line, SchemaKey) {
      ScanIgnores(lines, line);
    }
  }

  /** The lines `BufRead::lines` yields before its first error, and that error. */
  datatype LineStream = LineStream(lines: seq<string>, error: Option<IoError>)

  /** How a file's bytes read as lines; the model does not fix the decoding. */
  type Decoder = seq<byte> -> LineStream

  /** The outcome of reading a descriptor: an error from the reader aborts the
      read (`line?`), otherwise every line is scanned. */
  function ReadDescriptor(stream: LineStream): Result<Fields, IoError> {
    if stream.error.Some? then Failure(stream.error.value) else Success(Scan(stream.lines))
  }

  /** The line loop of `setup`: every line is visited, with no early exit. */
  method ScanDescriptor(stream: LineStream) returns (r: Result<Fields, IoError>)
    ensures r == ReadDescriptor(stream)
  {
    var unitId, schema := "", "";
    var lines := stream.lines;
    for i := 0 to |lines|
      invariant Fields(schema, unitId) == Scan(lines[..i])
    {
      var line := lines[i];
      assert lines[..i + 1] == lines[..i] + [line];
      ScanLine(lines[..i], line);
      if StartsWith(line, UnitKey) {
        unitId := FieldText(line);
      } else if StartsWith(line, SchemaKey) {
        schema := FieldText(line);
      }
    }
    assert lines[..|lines|] == lines;
    if stream.error.Some? {
      return Failure(stream.error.value);
    }
    return Success(Fields(schema, unitId));
  }

  /** `path.join(name)`: one more component, except that joining "" only adds a
      trailing separator and names the same directory. */
  function Child(p: Path, name: string): Path {
    if name == "" then p else p + [Utf(name)]
  }

  /** `dest.join(schema).join(format!("{} {}", schema, unit_id))`. */
  function DestinationFor(dest: Path, f: Fields): (r: Path)
    ensures IsPrefix(dest, r)
    ensures |r| == |dest| + (if f.schema == "" then 1 else 2)
    ensures f.schema != "" ==> r[|dest|] == Utf(f.schema)
    ensures r[|r| - 1] == Utf(f.schema + " " + f.unitId)
  {
    Child(Child(dest, f.schema), f.schema + " " + f.unitId)
  }

  /** Where the descent of `setup` ends. */
  datatype Descent =
    | ReachedFile(data: seq<byte>, fault: Option<IoError>)
    | NoFile
    | ListFailed(error: IoError)

  /** The descent: a directory hands over to its first readable entry, file or
      directory, skipping unreadable ones; it never comes back to try a
      sibling. */
  function Descend(n: Node): Descent
    decreases n, 1
  {
    match n
    case File(data, fault) => ReachedFile(data, fault)
    case LockedDir(e) => ListFailed(e)
    case Dir(_) => DescendEntries(n, 0)
  }

  function DescendEntries(dir: Node, i: nat): Descent
    requires dir.Dir? && i <= |dir.entries|
    decreases dir, 0, |dir.entries| - i
  {
    if i == |dir.entries| then NoFile
    else
      match dir.entries[i]
      case Unreadable(_) => DescendEntries(dir, i + 1)
      case Entry(_, child) => Descend(child)
  }

  /** What `setup(src, dest)` returns. */
  function Resolve(src: Node, dest: Path, decode: Decoder): Result<Path, IoError> {
    match Descend(src)
    case NoFile => Failure(NotFoundError)
    case ListFailed(e) => Failure(e)
    case ReachedFile(data, fault) =>
      if fault.Some? then Failure(fault.value)
      else
        match ReadDescriptor(decode(data))
        case Failure(e) => Failure(e)
        case Success(f) => Success(DestinationFor(dest, f))
  }

  /** No backtracking: the first readable entry of a directory decides the
      descent, whatever its siblings hold. */
  lemma {:induction false} FirstReadableDecides(dir: Node, i: nat)
    requires dir.Dir? && i < |dir.entries| && dir.entries[i].Entry?
    requires forall j :: 0 <= j < i ==> dir.entries[j].Unreadable?
    ensures Descend(dir) == Descend(dir.entries[i].node)
  {
    var k := i;
    while k > 0
      invariant 0 <= k <= i
      invariant DescendEntries(dir, k) == Descend(dir.entries[i].node)
    {
      k := k - 1;
    }
  }

  /** In particular, an empty first subdirectory ends the search with
      NotFound even when a later sibling holds files. */
  lemma EmptyFirstDirNotFound(dir: Node, i: nat, dest: Path, decode: Decoder)
    requires dir.Dir? && i < |dir.entries| && dir.entries[i].Entry?
    requires forall j :: 0 <= j < i ==> dir.entries[j].Unreadable?
    requires dir.entries[i].node == Dir([])
    ensures Resolve(dir, dest, decode) == Failure(NotFoundError)
  {
    FirstReadableDecides(dir, i);
    assert DescendEntries(Dir([]), 0) == NoFile;
  }

  /** A directory whose every entry is unreadable yields NotFound. */
  lemma {:induction false} NoReadableEntryNotFound(dir: Node, dest: Path, decode: Decoder)
    requires dir.Dir?
    requires forall j :: 0 <= j < |dir.entries| ==> dir.entries[j].Unreadable?
    ensures Resolve(dir, dest, decode) == Failure(NotFoundError)
  {
    var k := |dir.entries|;
    while k > 0
      invariant 0 <= k <= |dir.entries|
      invariant DescendEntries(dir, k) == NoFile
    {
      k := k - 1;
    }
  }

  /** The tree holds only directories, none of them locked. */
  predicate Barren(n: Node)
    decreases n
  {
    match n
    case File(_, _) => false
    case LockedDir(_) => false
    case Dir(es) => forall j :: 0 <= j < |es| && es[j].Entry? ==> Barren(es[j].node)
  }

  /** A tree with no file and no unlistable directory resolves to NotFound. */
  lemma {:induction false} BarrenNotFound(n: Node)
    requires Barren(n)
    ensures Descend(n) == NoFile
    decreases n, 1
  {
    if n.Dir? {
      BarrenEntriesNotFound(n, 0);
    }
  }

  lemma {:induction false} BarrenEntriesNotFound(dir: Node, i: nat)
    requires dir.Dir? && i <= |dir.entries| && Barren(dir)
    ensures DescendEntries(dir, i) == NoFile
    decreases dir, 0, |dir.entries| - i
  {
    if i < |dir.entries| {
      match dir.entries[i]
      case Unreadable(_) => BarrenEntriesNotFound(dir, i + 1);
      case Entry(_, child) => BarrenNotFound(child);
    }
  }

  /** A successful resolution names a directory below `dest` whose last
      component is the schema and the unit id joined by one space, under a
      component for the schema when the schema is not empty. */
  lemma ResolvedShape(src: Node, dest: Path, decode: Decoder)
    requires Resolve(src, dest, decode).Success?
    ensures var r := Resolve(src, dest, decode).value;
      exists f: Fields :: r == DestinationFor(dest, f)
        && IsPrefix(dest, r) && r[|r| - 1] == Utf(f.schema + " " + f.unitId)
  {
    var d := Descend(src);
    var f := ReadDescriptor(decode(d.data)).value;
    assert Resolve(src, dest, decode).value == DestinationFor(dest, f);
  }

  /** With neither field found the last component is a single space, directly
      below `dest`. */
  lemma BothFieldsEmpty(dest: Path)
    ensures DestinationFor(dest, Fields("", "")) == dest + [Utf(" ")]
  {
    assert "" + " " + "" == " ";
  }

  /** A value that `trim` leaves alone and that holds no colon. */
  predicate PlainValue(v: string) {
    ':' !in v && (v != [] ==> !IsWhitespace(v[0]) && !IsWhitespace(v[|v| - 1]))
  }

  /** A descriptor with one line per key, each written `<key> <value>`, gives
      exactly those values, whichever order the lines come in. */
  lemma TwoLineDescriptor(schema: string, unitId: string)
    requires PlainValue(schema) && PlainValue(unitId)
    ensures Scan([SchemaKey + " " + schema, UnitKey + " " + unitId]) == Fields(schema, unitId)
    ensures Scan([UnitKey + " " + unitId, SchemaKey + " " + schema]) == Fields(schema, unitId)
  {
    var s, u := SchemaKey + " " + schema, UnitKey + " " + unitId;
    SchemaLine(schema);
    UnitLine(unitId);
    ScanPair(s, u, schema, unitId);
  }

  /** A scan of one line that sets the schema and one that sets the unit
      id, in either order. */
  lemma ScanPair(s: string, u: string, schema: string, unitId: string)
    requires Selects(CustomerId, s) && FieldText(s) == schema
    requires Selects(UnitId, u) && FieldText(u) == unitId
    ensures Scan([s, u]) == Fields(schema, unitId)
    ensures Scan([u, s]) == Fields(schema, unitId)
  {
    ScanThenOverride(s, u);
    ScanThenOverride(u, s);
  }

  lemma ScanThenOverride(a: string, b: string)
    ensures Scan([a, b]) == (if Selects(UnitId, b) then Scan([a]).(unitId := FieldText(b))
                             else if Selects(CustomerId, b) then Scan([a]).(schema := FieldText(b))
                             else Scan([a]))
  {
    ScanOne(a);
    ScanOverrides([a], b);
    if !Selects(UnitId, b) && !Selects(CustomerId, b) {
      ScanIgnores([a], b);
    }
    assert [a] + [b] == [a, b];
  }

  lemma ScanOne(line: string)
    ensures Scan([line]) == Scan([]).(unitId := if Selects(UnitId, line) then FieldText(line) else "")
                                     .(schema := if Selects(CustomerId, line) then FieldText(line) else "")
  {
    ScanOverrides([], line);
    assert [] + [line] == [line];
    if !Selects(UnitId, line) && !Selects(CustomerId, line) {
      ScanIgnores([], line);
    }
  }

  lemma SchemaLine(schema: string)
    requires PlainValue(schema)
    ensures var s := SchemaKey + " " + schema;
      Selects(CustomerId, s) && !Selects(UnitId, s) && FieldText(s) == schema
  {
    var s := SchemaKey + " " + schema;
    KeyLine(SchemaKey, "Customer ID", schema);
    assert s[..|SchemaKey|] == SchemaKey;
    assert s[0] == 'C';
  }

  lemma UnitLine(unitId: string)
    requires PlainValue(unitId)
    ensures var u := UnitKey + " " + unitId;
      Selects(UnitId, u) && !Selects(CustomerId, u) && FieldText(u) == unitId
  {
    var u := UnitKey + " " + unitId;
    KeyLine(UnitKey, "EOT UNIT ID", unitId);
    assert u[..|UnitKey|] == UnitKey;
  }

  lemma KeyLine(key: string, name: string, v: string)
    requires key == name + ":" && ':' !in name && PlainValue(v)
    ensures FieldText(key + " " + v) == v
  {
    KeyLineSplits(key, name, v);
    TrimAfterSpace(v);
  }

  lemma KeyLineSplits(key: string, name: string, v: string)
    requires key == name + ":" && ':' !in name && ':' !in v
    ensures FieldText(key + " " + v) == Trim(" " + v)
  {
    assert key + " " + v == name + ":" + (" " + v) + "";
    FieldTextBetweenColons(name, " " + v, "");
  }

  lemma TrimAfterSpace(v: string)
    requires PlainValue(v)
    ensures Trim(" " + v) == v
  {
    assert " " + v == " " + v + "";
    TrimExact(" ", v, "");
  }

  /** The worked example: a descriptor file whose lines are
      `Customer ID: Acme` and `EOT UNIT ID: 42`, found under `D:/out`, resolves
      to `D:/out/Acme/Acme 42`. */
  lemma AcmeExample(data: seq<byte>, decode: Decoder)
    requires decode(data) == LineStream(["Customer ID: Acme", "EOT UNIT ID: 42"], None)
    ensures Resolve(File(data, None), [Utf("D:"), Utf("out")], decode)
         == Success([Utf("D:"), Utf("out"), Utf("Acme"), Utf("Acme 42")])
  {
    var dest := [Utf("D:"), Utf("out")];
    var f := Fields("Acme", "42");
    AcmeLines();
    assert ReadDescriptor(decode(data)) == Success(f);
    assert Descend(File(data, None)) == ReachedFile(data, None);
    assert Resolve(File(data, None), dest, decode) == Success(DestinationFor(dest, f));
    AcmeDestination();
  }

  /** The fields of the worked example under `D:/out`. */
  lemma AcmeDestination()
    ensures DestinationFor([Utf("D:"), Utf("out")], Fields("Acme", "42"))
         == [Utf("D:"), Utf("out"), Utf("Acme"), Utf("Acme 42")]
  {
    assert "Acme" + " " + "42" == "Acme 42";
  }

  /** The two lines of the worked example scan to `Acme` and `42`. */
  lemma AcmeLines()
    ensures Scan(["Customer ID: Acme", "EOT UNIT ID: 42"]) == Fields("Acme", "42")
  {
    assert "Customer ID: Acme" == SchemaKey + " " + "Acme";
    assert "EOT UNIT ID: 42" == UnitKey + " " + "42";
    TwoLineDescriptor("Acme", "42");
  }
}
