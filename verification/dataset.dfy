/** `commands/dataset.py`: registering a data set, with a schema read off the file when
    it is local, small and of a known format. */
module Dataset {
  import opened Text
  import opened PosixPath
  import opened Journal
  import opened Values
  import opened Util
  import Author

  const AutoParseExts: seq<string> := [".csv", ".tsv", ".json", ".xls", ".xlsx", ".parquet"]

  /** `AUTO_PARSE_THRESHOLD = 100e6` bytes; a file of exactly this size is still read. */
  const AutoParseThreshold: int := 100_000_000

  /** The pandas reader used for an extension. */
  datatype Reader = ReadCsv | ReadTsv | ReadJson | ReadParquet | ReadExcel

  function ReaderFor(ext: string): (r: Option<Reader>)
    ensures r.Some? <==> ext in AutoParseExts
    ensures r == Some(ReadCsv) <==> ext == ".csv"
    ensures r == Some(ReadTsv) <==> ext == ".tsv"
    ensures r == Some(ReadJson) <==> ext == ".json"
    ensures r == Some(ReadParquet) <==> ext == ".parquet"
    ensures r == Some(ReadExcel) <==> ext == ".xls" || ext == ".xlsx"
  {
    if ext == ".csv" then Some(ReadCsv)
    else if ext == ".tsv" then Some(ReadTsv)
    else if ext == ".json" then Some(ReadJson)
    else if ext == ".parquet" then Some(ReadParquet)
    else if ext == ".xls" || ext == ".xlsx" then Some(ReadExcel)
    else None
  }

  /** What the machine says about a data set's location: whether the path exists, its
      size in bytes, whether pandas is installed, and what a reader makes of the file (the
      column names with their dtype names, in column order, or an exception). */
  datatype Source = Source(
    present: bool,
    size: int,
    pandasInstalled: bool,
    read: (Reader, string) -> Result<seq<(string, string)>>)

  /** One schema entry, `- {field}: {kind} [No description]`. */
  function SchemaLine(field: (string, string)): (line: string)
    ensures StartsWith(line, "- ") && EndsWith(line, " [No description]")
    ensures '\n' !in field.0 && '\n' !in field.1 ==> '\n' !in line
  {
    var line := "- " + field.0 + ": " + field.1 + " [No description]";
    assert line[..2] == "- ";
    assert line[|line| - 17..] == " [No description]";
    line
  }

  /** The position of the first `:` in `s`, or `|s|` when there is none. */
  function ColonIndex(s: string): nat {
    if s == [] || s[0] == ':' then 0 else 1 + ColonIndex(s[1..])
  }

  /** In a field followed by its `:`, the first colon is the one after the field. */
  lemma {:induction false} ColonIndexAfterField(f: string, rest: string)
    requires ':' !in f && rest != [] && rest[0] == ':'
    ensures ColonIndex(f + rest) == |f|
  {
    if f != [] {
      assert f[0] in f;
      assert (f + rest)[1..] == f[1..] + rest;
      ColonIndexAfterField(f[1..], rest);
    }
  }

  /** A field and what follows it split apart again at the first `:`. */
  lemma FieldSplit(x: string, rx: string, y: string, ry: string)
    requires ':' !in x && ':' !in y
    requires rx != [] && rx[0] == ':' && ry != [] && ry[0] == ':'
    requires x + rx == y + ry
    ensures x == y && rx == ry
  {
    ColonIndexAfterField(x, rx);
    ColonIndexAfterField(y, ry);
    var t := x + rx;
    assert x == t[..|x|] && y == t[..|y|];
    assert rx == t[|x|..] && ry == t[|y|..];
  }

  /** Equal sequences with equal prefixes of the same length have equal remainders. */
  lemma CancelPrefix(p: string, x: string, y: string)
    requires p + x == p + y
    ensures x == y
  {
    assert x == (p + x)[|p|..];
    assert y == (p + y)[|p|..];
  }

  /** Equal sequences with equal suffixes of the same length have equal beginnings. */
  lemma CancelSuffix(x: string, y: string, q: string)
    requires x + q == y + q
    ensures x == y
  {
    assert x == (x + q)[..|x|];
    assert y == (y + q)[..|y|];
  }

  /** A schema entry, grouped as the prefix, the field, and the rest from the `:` on. */
  lemma SchemaLineParts(f: (string, string))
    ensures SchemaLine(f) == "- " + (f.0 + (": " + (f.1 + " [No description]")))
  {
  }

  /** A schema entry gives back its column: for column names without `:`, different
      columns give different entries. */
  lemma SchemaLineInjective(a: (string, string), b: (string, string))
    requires ':' !in a.0 && ':' !in b.0
    requires SchemaLine(a) == SchemaLine(b)
    ensures a == b
  {
    var ta := a.1 + " [No description]";
    var tb := b.1 + " [No description]";
    SchemaLineParts(a);
    SchemaLineParts(b);
    CancelPrefix("- ", a.0 + (": " + ta), b.0 + (": " + tb));
    FieldSplit(a.0, ": " + ta, b.0, ": " + tb);
    CancelPrefix(": ", ta, tb);
    CancelSuffix(a.1, b.1, " [No description]");
  }

  function SchemaLines(fields: seq<(string, string)>): (lines: seq<string>)
    ensures |lines| == |fields|
    ensures forall i :: 0 <= i < |fields| ==> lines[i] == SchemaLine(fields[i])
  {
    seq(|fields|, i requires 0 <= i < |fields| => SchemaLine(fields[i]))
  }

  /** The schema text: the schema entries joined by newlines. */
  function SchemaText(fields: seq<(string, string)>): string {
    JoinWith(SchemaLines(fields), "\n")
  }

  /** Splitting the schema text at newlines gives back one entry per column, in order,
      when no column name or dtype name holds a newline. */
  lemma SchemaTextLines(fields: seq<(string, string)>)
    requires |fields| >= 1
    requires forall i :: 0 <= i < |fields| ==> '\n' !in fields[i].0 && '\n' !in fields[i].1
    ensures SplitOn(SchemaText(fields), '\n') == SchemaLines(fields)
  {
    var lines := SchemaLines(fields);
    forall i | 0 <= i < |lines| ensures '\n' !in lines[i] {
      assert lines[i] == SchemaLine(fields[i]);
    }
    SplitJoinRoundTrip(lines, '\n');
  }

  /** `auto_parse_schema(location)`. An unrecognised extension only prints a warning, but
      no reader then runs and the name error that follows is swallowed, so no schema
      comes back either way. */
  function AutoParseSchema(location: string, src: Source): (r: Option<string>)
    ensures r.Some? <==>
      && src.present && src.pandasInstalled && src.size <= AutoParseThreshold
      && Splitext(Lower(location)).1 in AutoParseExts
      && src.read(ReaderFor(Splitext(Lower(location)).1).value, location).Ok?
    ensures r.Some? ==>
      r.value == SchemaText(src.read(ReaderFor(Splitext(Lower(location)).1).value, location).value)
  {
    if !src.present || !src.pandasInstalled then None
    else
      var ext := Splitext(Lower(location)).1;
      if src.size > AutoParseThreshold then None
      else
        match ReaderFor(ext)
        case None => None
        case Some(reader) =>
          match src.read(reader, location)
          case Error(_) => None
          case Ok(fields) => Some(SchemaText(fields))
  }

  /** The file name of the location, lower-cased. */
  function LowerBasename(location: string): (b: string)
    ensures '/' !in b
  {
    Lower(Basename(location))
  }

  /** The data set's name: the one given, or else the lower-cased file name without its
      extension. */
  function DatasetName(location: string, name: string): string {
    if name == "" then Splitext(LowerBasename(location)).0 else name
  }

  /** The data set's format: the lower-cased extension without its dot. */
  function DatasetFormat(location: string): string {
    DropFirst(Splitext(LowerBasename(location)).1)
  }

  lemma BasenameWithoutSlash(p: string)
    requires '/' !in p
    ensures Basename(p) == p
  {
    RFindUnique(p, '/', -1);
  }

  lemma ExtensionOfFileName(b: string)
    requires '/' !in b
    ensures Splitext(b).1 != [] <==> HasExtension(b)
  {
    BasenameWithoutSlash(b);
    SplitextHasExtension(b);
  }

  /** A file name is its root, then a dot and its extension without the dot when it has
      one; the part after the dot holds no dot and no slash. */
  lemma RootAndFormat(b: string)
    requires '/' !in b
    ensures var parts := Splitext(b);
      && (HasExtension(b) ==> parts.0 + "." + DropFirst(parts.1) == b)
      && (!HasExtension(b) ==> parts.0 == b && DropFirst(parts.1) == "")
      && '.' !in DropFirst(parts.1) && '/' !in DropFirst(parts.1)
  {
    var parts := Splitext(b);
    ExtensionOfFileName(b);
    SplitextExtensionShape(b);
    if parts.1 != [] {
      assert parts.1 == "." + parts.1[1..];
    }
  }

  /** Without a given name, the name, a dot and the format spell the lower-cased file name
      when it has an extension; without one, the name is the whole file name and the format
      is empty. The format holds no dot and no slash. */
  lemma NameAndFormatSpellFileName(location: string)
    ensures var b := LowerBasename(location);
      && (HasExtension(b) ==> DatasetName(location, "") + "." + DatasetFormat(location) == b)
      && (!HasExtension(b) ==> DatasetName(location, "") == b && DatasetFormat(location) == "")
      && '.' !in DatasetFormat(location) && '/' !in DatasetFormat(location)
  {
    var b := LowerBasename(location);
    RootAndFormat(b);
    assert DatasetName(location, "") == Splitext(b).0;
    assert DatasetFormat(location) == DropFirst(Splitext(b).1);
  }

  /** `generate_dataset_path(name)`. */
  function GenerateDatasetPath(cfg: Config, name: string): (r: string)
    ensures !IsAbs(name) ==> r == ContentRoot(cfg) + "/datasets/" + name
  {
    Join(Join(ContentRoot(cfg), "datasets"), name)
  }

  function DatasetIndexPath(cfg: Config, name: string): string {
    Join(GenerateDatasetPath(cfg, name), "_index.md")
  }

  /** A relative name without slashes at its end gives `{root}/content/datasets/{name}/_index.md`. */
  lemma DatasetIndexLayout(cfg: Config, name: string)
    requires name != [] && !IsAbs(name) && name[|name| - 1] != '/'
    ensures DatasetIndexPath(cfg, name) == ContentRoot(cfg) + "/datasets/" + name + "/_index.md"
  {
    var d := GenerateDatasetPath(cfg, name);
    assert d[|d| - 1] == name[|name| - 1];
  }

  function DatasetTemplatePath(cfg: Config): string {
    Join(Author.TemplatesDirectory(cfg), "dataset_template.md")
  }

  datatype DatasetStatus =
    | AlreadyExists(datasetPath: string)
    | TemplateMissing(templatePath: string)
    | Created(indexPath: string)

  /** The template context; `now` is the clock function itself. */
  function Context(cfg: Config, location: string, name: string, schema: Option<string>,
                   md5: string): map<string, Value> {
    map["now" := Other("builtin_function_or_method", true),
        "location" := Str(location),
        "format" := Str(DatasetFormat(location)),
        "name" := Str(name),
        "username" := Str(cfg.username),
        "schema" := (if schema.Some? then Str(schema.value) else Null),
        "md5_hash" := Str(md5)]
  }

  /** `dataset(location, name)`, with an empty name when none was given, what the machine
      says about the location, its MD5 digest as `compute_md5` gives it (empty when the file
      cannot be read), whether the editor is enabled, the set of existing paths, and the
      template renderer. With the editor enabled the process exits with status 0 once the
      page is written. */
  function AddDataset(cfg: Config, location: string, name: string, src: Source, md5: string,
                      editorEnabled: bool, existing: set<string>, render: Renderer)
    : (r: Run<DatasetStatus>)
    ensures r.outcome.Returned? && r.outcome.value.AlreadyExists? ==>
      r.effects == [] && Join(r.outcome.value.datasetPath, "_index.md") in existing
    ensures r.outcome.Returned? && r.outcome.value.TemplateMissing? ==>
      r.effects == [] && r.outcome.value.templatePath !in existing
    ensures r.outcome.Raised? ==> r.effects == []
    ensures r.outcome.Exited? ==> r.outcome.status == 0 && editorEnabled
    ensures r.effects != [] <==> (r.outcome.Exited? || (r.outcome.Returned? && r.outcome.value.Created?))
    ensures var datasetPath := GenerateDatasetPath(cfg, DatasetName(location, name));
      && (Join(datasetPath, "_index.md") in existing ==>
            r == Run([], Returned(AlreadyExists(datasetPath))))
      && (Join(datasetPath, "_index.md") !in existing && DatasetTemplatePath(cfg) !in existing ==>
            r == Run([], Returned(TemplateMissing(DatasetTemplatePath(cfg)))))
    ensures r.outcome.Raised? ==>
      render(DatasetTemplatePath(cfg), Context(cfg, location, DatasetName(location, name),
                                               AutoParseSchema(location, src), md5))
        == Error(r.outcome.error)
    ensures r.effects != [] ==>
      && DatasetTemplatePath(cfg) in existing
      && |r.effects| == 2 && r.effects[1].WriteText?
      && render(DatasetTemplatePath(cfg), Context(cfg, location, DatasetName(location, name),
                                                  AutoParseSchema(location, src), md5))
           == Ok(r.effects[1].text)
    ensures r.effects != [] ==>
      var dir := GenerateDatasetPath(cfg, DatasetName(location, name));
      && |r.effects| == 2
      && r.effects[0] == MakeDirs(dir)
      && r.effects[1].WriteText? && r.effects[1].path == Join(dir, "_index.md")
      && r.effects[1].path !in existing
      && (r.outcome.Returned? ==> r.outcome.value == Created(r.effects[1].path))
    ensures r.outcome.Returned? && r.outcome.value.AlreadyExists? ==>
      r.outcome.value.datasetPath == GenerateDatasetPath(cfg, DatasetName(location, name))
    ensures r.outcome.Returned? && r.outcome.value.TemplateMissing? ==>
      r.outcome.value.templatePath == DatasetTemplatePath(cfg)
    ensures
      var dir := GenerateDatasetPath(cfg, DatasetName(location, name));
      var page := render(DatasetTemplatePath(cfg),
                         Context(cfg, location, DatasetName(location, name),
                                 AutoParseSchema(location, src), md5));
      Join(dir, "_index.md") !in existing && DatasetTemplatePath(cfg) in existing && page.Ok? ==>
        r == Run([MakeDirs(dir), WriteText(Join(dir, "_index.md"), page.value)],
                 if editorEnabled then Exited(0) else Returned(Created(Join(dir, "_index.md"))))
  {
    var n := DatasetName(location, name);
    var datasetPath := GenerateDatasetPath(cfg, n);
    var indexPath := Join(datasetPath, "_index.md");
    if indexPath in existing then Run([], Returned(AlreadyExists(datasetPath)))
    else
      var templatePath := DatasetTemplatePath(cfg);
      if templatePath !in existing then Run([], Returned(TemplateMissing(templatePath)))
      else
        var context := Context(cfg, location, n, AutoParseSchema(location, src), md5);
        match render(templatePath, context)
        case Error(e) => Run([], Raised(e))
        case Ok(output) =>
          var effects := [MakeDirs(datasetPath), WriteText(indexPath, output)];
          if editorEnabled then Run(effects, Exited(0))
          else Run(effects, Returned(Created(indexPath)))
  }

  /** The schema handed to the template is present exactly when the location could be read. */
  lemma SchemaInContext(cfg: Config, location: string, name: string, src: Source, md5: string)
    ensures var c := Context(cfg, location, DatasetName(location, name),
                             AutoParseSchema(location, src), md5);
      c["schema"].Str? <==>
        && src.present && src.pandasInstalled && src.size <= AutoParseThreshold
        && Splitext(Lower(location)).1 in AutoParseExts
        && src.read(ReaderFor(Splitext(Lower(location)).1).value, location).Ok?
  {
  }
}
