/** `converters/rmd.py`: turning an R Markdown report, already knitted by blogdown into
    `{stem}_blogdown.html`, into a post with the report's front matter and its figures. */
module Rmd {
  import opened Text
  import opened PosixPath
  import opened Journal
  import opened Values
  import opened Util

  /** The front-matter keys a post keeps. */
  const YamlWhitelist: set<string> := {"authors", "author", "title", "tags", "date", "draft"}

  /** The line that opens and closes the front matter, once stripped. */
  const YamlBoundary: string := "---"

  // ---------------------------------------------------------------------------
  // Companion files

  /** What the converter derives from the report's path: the directory it lives in (made
      absolute), the file name without its extension, and the two companion files. */
  datatype Paths = Paths(sourceFolder: string, stem: string, rmdFile: string, blogdownFile: string)

  /** `RmdConverter(filepath)`, with the working directory that `abspath` resolves
      against. */
  function ConverterPaths(cwd: string, filepath: string): (p: Paths)
    ensures p.sourceFolder == AbsPath(cwd, Dirname(filepath))
    ensures IsAbs(cwd) ==> IsAbs(p.sourceFolder)
    ensures '/' !in p.stem
    ensures p.stem == Splitext(Basename(filepath)).0
    ensures p.rmdFile == Join(p.sourceFolder, p.stem + ".Rmd")
    ensures p.blogdownFile == Join(p.sourceFolder, p.stem + "_blogdown.html")
  {
    var sourceFolder := AbsPath(cwd, Dirname(filepath));
    var stem := Splitext(Basename(filepath)).0;
    assert stem == Basename(filepath)[..|stem|];
    Paths(sourceFolder, stem, Join(sourceFolder, stem + ".Rmd"),
          Join(sourceFolder, stem + "_blogdown.html"))
  }

  /** A file named after the stem keeps its name as its base name. */
  lemma NamedAfterStem(folder: string, stem: string, suffix: string)
    requires '/' !in stem && '/' !in suffix
    ensures Basename(Join(folder, stem + suffix)) == stem + suffix
  {
    assert forall i :: 0 <= i < |stem + suffix| ==> (stem + suffix)[i] != '/' by {
      forall i | 0 <= i < |stem + suffix| ensures (stem + suffix)[i] != '/' {
        if i < |stem| { assert (stem + suffix)[i] == stem[i]; }
        else { assert (stem + suffix)[i] == suffix[i - |stem|]; }
      }
    }
    BasenameOfJoin(folder, stem + suffix);
  }

  /** The companion files sit in the report's folder and are named after its stem; the
      report itself is always looked for as `{stem}.Rmd`, with a capital `R`, whatever the
      case of the path given. */
  lemma CompanionFileNames(cwd: string, filepath: string)
    ensures var p := ConverterPaths(cwd, filepath);
      && Basename(p.rmdFile) == Splitext(Basename(filepath)).0 + ".Rmd"
      && Basename(p.blogdownFile) == Splitext(Basename(filepath)).0 + "_blogdown.html"
  {
    var p := ConverterPaths(cwd, filepath);
    var stem := Splitext(Basename(filepath)).0;
    assert p.stem == stem && '/' !in stem;
    assert '/' !in ".Rmd" && '/' !in "_blogdown.html";
    NamedAfterStem(p.sourceFolder, stem, ".Rmd");
    NamedAfterStem(p.sourceFolder, stem, "_blogdown.html");
  }

  /** `validate()`: the first companion file that is missing, if any. Each is looked
      up as `join(source_folder, file)`. */
  function Validate(p: Paths, existing: set<string>): (missing: Option<string>)
    ensures missing.None? <==>
      Join(p.sourceFolder, p.rmdFile) in existing && Join(p.sourceFolder, p.blogdownFile) in existing
    ensures missing.Some? ==> missing.value == p.rmdFile || missing.value == p.blogdownFile
    ensures missing == Some(p.rmdFile) <==> Join(p.sourceFolder, p.rmdFile) !in existing
  {
    if Join(p.sourceFolder, p.rmdFile) !in existing then Some(p.rmdFile)
    else if Join(p.sourceFolder, p.blogdownFile) !in existing then Some(p.blogdownFile)
    else None
  }

  // ---------------------------------------------------------------------------
  // Front matter

  /** `''.join(lines)`. */
  function Concat(lines: seq<string>): string
    decreases |lines|
  {
    if lines == [] then "" else lines[0] + Concat(lines[1..])
  }

  predicate IsBoundary(line: string) { Strip(line) == YamlBoundary }

  /** The loop of `load_front_matter`: lines are added to `raw` until a boundary line
      comes once `raw` is non-empty. The boundary test is a parameter, so the facts proved
      about the loop hold for any test. */
  function Scan(lines: seq<string>, raw: string, boundary: string -> bool): string
    decreases |lines|
  {
    if lines == [] then raw
    else if boundary(lines[0]) && raw != "" then raw
    else Scan(lines[1..], raw + lines[0], boundary)
  }

  /** The raw front matter of a report, given as the lines `readlines()` returns. */
  function FrontMatterText(lines: seq<string>): string {
    Scan(lines, "", IsBoundary)
  }

  /** The scan, started with `raw` already read, stops before line `n`: no earlier line
      is a boundary met after something was read, and line `n`, if there is one, is. */
  ghost predicate StopsAt(lines: seq<string>, raw: string, boundary: string -> bool, n: int) {
    && 0 <= n <= |lines|
    && (forall i :: 0 <= i < n ==> !(boundary(lines[i]) && (raw != "" || Concat(lines[..i]) != "")))
    && (n < |lines| ==> boundary(lines[n]) && (raw != "" || Concat(lines[..n]) != ""))
  }

  lemma ConcatPrefix(lines: seq<string>, i: int)
    requires 1 <= i <= |lines|
    ensures Concat(lines[..i]) == lines[0] + Concat(lines[1..][..i - 1])
  {
    assert lines[..i][1..] == lines[1..][..i - 1];
  }

  /** Something has been read before line `i` exactly when something was read after
      the first line, counting that line. */
  lemma ReadBefore(lines: seq<string>, raw: string, i: int)
    requires 1 <= i <= |lines|
    ensures (raw != "" || Concat(lines[..i]) != "")
      <==> (raw + lines[0] != "" || Concat(lines[1..][..i - 1]) != "")
  {
    ConcatPrefix(lines, i);
  }

  lemma StopsAtStart(lines: seq<string>, raw: string, boundary: string -> bool)
    requires lines == [] || (boundary(lines[0]) && raw != "")
    ensures StopsAt(lines, raw, boundary, 0)
    ensures Scan(lines, raw, boundary) == raw + Concat(lines[..0])
  {
    assert lines[..0] == [];
  }

  /** Reading one line that does not stop the scan moves the stopping point one line on. */
  lemma StopsAtStep(lines: seq<string>, raw: string, boundary: string -> bool, m: int)
    requires lines != []
    requires !(boundary(lines[0]) && raw != "")
    requires StopsAt(lines[1..], raw + lines[0], boundary, m)
    ensures StopsAt(lines, raw, boundary, m + 1)
  {
    var rest := lines[1..];
    forall i | 0 <= i < m + 1
      ensures !(boundary(lines[i]) && (raw != "" || Concat(lines[..i]) != ""))
    {
      if i == 0 {
        assert lines[..0] == [];
      } else {
        ReadBefore(lines, raw, i);
        assert lines[i] == rest[i - 1];
      }
    }
    if m + 1 < |lines| {
      ReadBefore(lines, raw, m + 1);
      assert lines[m + 1] == rest[m];
    }
  }

  /** Where the scan stops, found line by line. */
  ghost function StopIndex(lines: seq<string>, raw: string, boundary: string -> bool): nat
    decreases |lines|
  {
    if lines == [] || (boundary(lines[0]) && raw != "") then 0
    else StopIndex(lines[1..], raw + lines[0], boundary) + 1
  }

  lemma {:induction false} StopIndexStops(lines: seq<string>, raw: string, boundary: string -> bool)
    ensures StopsAt(lines, raw, boundary, StopIndex(lines, raw, boundary))
    decreases |lines|
  {
    if lines == [] || (boundary(lines[0]) && raw != "") {
      StopsAtStart(lines, raw, boundary);
    } else {
      StopIndexStops(lines[1..], raw + lines[0], boundary);
      StopsAtStep(lines, raw, boundary, StopIndex(lines[1..], raw + lines[0], boundary));
    }
  }

  lemma {:induction false} ScanReadsUpToStop(lines: seq<string>, raw: string, boundary: string -> bool)
    ensures StopIndex(lines, raw, boundary) <= |lines|
    ensures Scan(lines, raw, boundary) == raw + Concat(lines[..StopIndex(lines, raw, boundary)])
    decreases |lines|
  {
    if lines == [] || (boundary(lines[0]) && raw != "") {
      StopsAtStart(lines, raw, boundary);
    } else {
      var rest := lines[1..];
      var m := StopIndex(rest, raw + lines[0], boundary);
      ScanReadsUpToStop(rest, raw + lines[0], boundary);
      ConcatPrefix(lines, m + 1);
      assert (raw + lines[0]) + Concat(rest[..m]) == raw + (lines[0] + Concat(rest[..m]));
    }
  }

  /** There is only one place the scan can stop. */
  lemma StopsAtUnique(lines: seq<string>, raw: string, boundary: string -> bool, n1: int, n2: int)
    requires StopsAt(lines, raw, boundary, n1) && StopsAt(lines, raw, boundary, n2)
    ensures n1 == n2
  {
  }

  /** The raw front matter is the run of leading lines before the first boundary line met
      once something has been read; a boundary first line is part of it, and without a
      closing boundary the whole file is. */
  lemma FrontMatterIsLeadingLines(lines: seq<string>, n: int)
    requires StopsAt(lines, "", IsBoundary, n)
    ensures FrontMatterText(lines) == Concat(lines[..n])
  {
    StopIndexStops(lines, "", IsBoundary);
    StopsAtUnique(lines, "", IsBoundary, n, StopIndex(lines, "", IsBoundary));
    ScanReadsUpToStop(lines, "", IsBoundary);
    assert "" + Concat(lines[..n]) == Concat(lines[..n]);
  }

  /** The scan always stops somewhere. */
  lemma ScanStopsSomewhere(lines: seq<string>)
    ensures exists n :: StopsAt(lines, "", IsBoundary, n)
  {
    StopIndexStops(lines, "", IsBoundary);
  }

  lemma BoundaryLine()
    ensures IsBoundary("---\n")
  {
    assert StripLeft("---\n") == "---\n";
    assert StripRight("---\n") == StripRight("---");
  }

  /** The scan of a report that opens with a boundary, a line that is not one, and a
      boundary, for any boundary test. */
  lemma ScanOfUsualReport(title: string, body: seq<string>, boundary: string -> bool)
    requires boundary("---\n") && !boundary(title)
    ensures Scan(["---\n", title, "---\n"] + body, "", boundary) == "---\n" + title
  {
    var lines := ["---\n", title, "---\n"] + body;
    assert lines[1..] == [title, "---\n"] + body;
    assert lines[1..][1..] == ["---\n"] + body;
    assert "" + lines[0] == "---\n";
    assert Scan(lines, "", boundary) == Scan(lines[1..], "---\n", boundary);
    assert Scan(lines[1..], "---\n", boundary) == Scan(lines[1..][1..], "---\n" + title, boundary);
  }

  /** A report that opens with `---`, a title line and `---` has that opening marker and
      the title line as its raw front matter; what follows the closing marker is not read. */
  lemma FrontMatterOfUsualReport(title: string, body: seq<string>)
    requires !IsBoundary(title)
    ensures FrontMatterText(["---\n", title, "---\n"] + body) == "---\n" + title
  {
    BoundaryLine();
    ScanOfUsualReport(title, body, IsBoundary);
  }

  /** Keeps the whitelisted keys with their values. */
  function FilterWhitelist(entries: map<string, Value>): (r: map<string, Value>)
    ensures forall k :: k in r <==> k in entries && k in YamlWhitelist
    ensures forall k :: k in r ==> r[k] == entries[k]
  {
    map k | k in entries && k in YamlWhitelist :: entries[k]
  }

  /** `authors` is missing or falsy while `author` is truthy. */
  predicate NeedsPromotion(fm: map<string, Value>) {
    !("authors" in fm && Truthy(fm["authors"])) && "author" in fm && Truthy(fm["author"])
  }

  /** Moves a lone `author` into a one-element `authors` list. */
  function PromoteAuthor(fm: map<string, Value>): (r: map<string, Value>)
    ensures NeedsPromotion(fm) ==>
      && "author" !in r && "authors" in r && r["authors"] == List([fm["author"]])
      && (forall k :: k in r && k != "authors" ==> k in fm && r[k] == fm[k])
      && (forall k :: k in fm && k != "author" ==> k in r)
    ensures !NeedsPromotion(fm) ==> r == fm
  {
    if NeedsPromotion(fm) then (fm - {"author"})["authors" := List([fm["author"]])] else fm
  }

  /** Promoting twice is promoting once. */
  lemma PromoteAuthorIdempotent(fm: map<string, Value>)
    ensures PromoteAuthor(PromoteAuthor(fm)) == PromoteAuthor(fm)
    ensures !NeedsPromotion(PromoteAuthor(fm))
  {
  }

  /** Both keys survive when `authors` is already set: the promotion only fires when
      `authors` is missing or falsy. */
  lemma AuthorAndAuthorsCoexist()
    ensures var fm := map["author" := Str("ann"), "authors" := List([Str("bob")])];
      PromoteAuthor(fm) == fm && "author" in PromoteAuthor(fm) && "authors" in PromoteAuthor(fm)
  {
  }

  /** `AttributeError` for calling method `name` on a value of the wrong type. */
  function NoAttribute(v: Value, name: string): Exc {
    Exc("AttributeError", "'" + TypeName(v) + "' object has no attribute '" + name + "'")
  }

  /** `fm` is what `load_front_matter` makes of the loaded mapping `d`: the whitelisted
      keys with their values, except that a truthy `author` without a truthy `authors`
      is moved into a one-element `authors` list. */
  ghost predicate FrontMatterOf(d: map<string, Value>, fm: map<string, Value>) {
    && (forall k :: k in fm ==> k in YamlWhitelist)
    && (forall k :: k in d && k in YamlWhitelist && k != "author" && k != "authors" ==>
          k in fm && fm[k] == d[k])
    && (forall k :: k in fm && k != "authors" ==> k in d && fm[k] == d[k])
    && (NeedsPromotion(d) ==>
          "author" !in fm && "authors" in fm && fm["authors"] == List([d["author"]]))
    && (!NeedsPromotion(d) ==>
          && ("author" in d ==> "author" in fm)
          && ("authors" in fm <==> "authors" in d)
          && ("authors" in d ==> fm["authors"] == d["authors"]))
  }

  /** Only one front matter fits a loaded mapping. */
  lemma FrontMatterOfUnique(d: map<string, Value>, a: map<string, Value>, b: map<string, Value>)
    requires FrontMatterOf(d, a) && FrontMatterOf(d, b)
    ensures a == b
  {
    forall k | k in a ensures k in b && a[k] == b[k] {
      if k != "authors" && k != "author" {
        assert k in YamlWhitelist;
      }
    }
    forall k | k in b ensures k in a {
      if k != "authors" && k != "author" {
        assert k in YamlWhitelist;
      }
    }
    assert a.Keys == b.Keys;
  }

  /** Filtering then promoting gives the front matter of the loaded mapping. */
  lemma FilterThenPromote(d: map<string, Value>)
    ensures FrontMatterOf(d, PromoteAuthor(FilterWhitelist(d)))
  {
    var f := FilterWhitelist(d);
    assert NeedsPromotion(f) <==> NeedsPromotion(d);
  }

  /** The whitelist keeps both `author` and `authors`, so promoting before or after
      filtering makes no difference. */
  lemma FilterPromoteCommute(d: map<string, Value>)
    ensures FilterWhitelist(PromoteAuthor(d)) == PromoteAuthor(FilterWhitelist(d))
  {
    var f := FilterWhitelist(d);
    assert NeedsPromotion(f) <==> NeedsPromotion(d);
    var x := FilterWhitelist(PromoteAuthor(d));
    var y := PromoteAuthor(f);
    assert x.Keys == y.Keys;
  }

  /** `load_front_matter()`, with the report's lines and the YAML loader. The loaded
      value must be a mapping: anything else, an empty document's `None` included, fails
      at `.items()`. */
  function LoadFrontMatter(lines: seq<string>, loadYaml: string -> Result<Value>)
    : (r: Result<map<string, Value>>)
    ensures r.Ok? <==> loadYaml(FrontMatterText(lines)).Ok? && loadYaml(FrontMatterText(lines)).value.Dict?
    ensures r.Ok? ==> FrontMatterOf(loadYaml(FrontMatterText(lines)).value.entries, r.value)
    ensures r.Ok? ==> !NeedsPromotion(r.value)
    ensures r.Error? && loadYaml(FrontMatterText(lines)).Error? ==>
      r.error == loadYaml(FrontMatterText(lines)).error
    ensures r.Error? && loadYaml(FrontMatterText(lines)).Ok? ==>
      r.error == NoAttribute(loadYaml(FrontMatterText(lines)).value, "items")
  {
    match loadYaml(FrontMatterText(lines))
    case Error(e) => Error(e)
    case Ok(v) =>
      if v.Dict? then
        var r := PromoteAuthor(FilterWhitelist(v.entries));
        PromoteAuthorIdempotent(FilterWhitelist(v.entries));
        FilterThenPromote(v.entries);
        Ok(r)
      else Error(NoAttribute(v, "items"))
  }

  // ---------------------------------------------------------------------------
  // Figures

  /** An HTML document as its start tags and text runs in document order, the order in
      which `find_all` visits elements. */
  datatype Node = Tag(name: string, attrs: map<string, string>) | TextRun(content: string)

  predicate IsImg(n: Node) { n.Tag? && n.name == "img" }

  /** `{stem}_files`, the folder blogdown keeps a report's figures in. */
  function FilesDir(stem: string): string { stem + "_files" }

  /** `{stem}_files/figure-html/`, the part of a figure link that is dropped. */
  function FigurePrefix(stem: string): (p: string)
    ensures StartsWith(p, FilesDir(stem)) && '/' in p
  {
    var p := FilesDir(stem) + "/figure-html/";
    assert p[..|FilesDir(stem)|] == FilesDir(stem);
    assert p[|FilesDir(stem)|] == '/';
    p
  }

  /** The new `src` of an image: a link into the figures folder loses every occurrence of
      the figure prefix and is joined under `imgDir`; any other link is kept. */
  function RewriteSrc(stem: string, imgDir: string, src: string): (r: string)
    ensures !StartsWith(src, FilesDir(stem)) ==> r == src
  {
    if !StartsWith(src, FilesDir(stem)) then src
    else Join(imgDir, ReplaceAll(src, FigurePrefix(stem), ""))
  }

  /** A link to a figure `name` directly in the figures folder points to `name` under
      `imgDir`. */
  lemma FigureLinkRewritten(stem: string, imgDir: string, name: string)
    requires '/' !in name
    ensures RewriteSrc(stem, imgDir, FigurePrefix(stem) + name) == Join(imgDir, name)
  {
    var p := FigurePrefix(stem);
    var src := p + name;
    assert StartsWith(src, FilesDir(stem)) by {
      assert src[..|FilesDir(stem)|] == p[..|FilesDir(stem)|];
    }
    RemoveLeadingPattern(p, name, '/');
  }

  /** The `src` that `generate_blogdown_html` gives an image. */
  function RewriteNode(n: Node, stem: string, imgDir: string): Node
    requires IsImg(n) ==> "src" in n.attrs
  {
    if IsImg(n) then Tag(n.name, n.attrs["src" := RewriteSrc(stem, imgDir, n.attrs["src"])]) else n
  }

  const MissingSrc: Exc := Exc("KeyError", "'src'")

  /** The image rewrite of `generate_blogdown_html`: every image's `src` is rewritten, and
      an image without one raises before anything is returned. */
  function RewriteImages(nodes: seq<Node>, stem: string, imgDir: string): (r: Result<seq<Node>>)
    ensures r.Ok? <==> forall i :: 0 <= i < |nodes| && IsImg(nodes[i]) ==> "src" in nodes[i].attrs
    ensures r.Error? ==> r.error == MissingSrc
    ensures r.Ok? ==> |r.value| == |nodes|
    ensures r.Ok? ==> forall i :: 0 <= i < |nodes| && !IsImg(nodes[i]) ==> r.value[i] == nodes[i]
    ensures r.Ok? ==> forall i :: 0 <= i < |nodes| && IsImg(nodes[i]) ==>
      && IsImg(r.value[i])
      && r.value[i].attrs.Keys == nodes[i].attrs.Keys
      && (forall k :: k in nodes[i].attrs && k != "src" ==> r.value[i].attrs[k] == nodes[i].attrs[k])
      && r.value[i].attrs["src"] == RewriteSrc(stem, imgDir, nodes[i].attrs["src"])
  {
    if exists i :: 0 <= i < |nodes| && IsImg(nodes[i]) && "src" !in nodes[i].attrs then
      Error(MissingSrc)
    else
      Ok(seq(|nodes|, i requires 0 <= i < |nodes| => RewriteNode(nodes[i], stem, imgDir)))
  }

  /** The files the walk of the figures folder lists, as `(dirpath, file name)`, in the
      order the walk gives them. */
  function WalkFiles(walk: seq<WalkEntry>): seq<(string, string)>
    decreases |walk|
  {
    if walk == [] then [] else EntryFiles(walk[0]) + WalkFiles(walk[1..])
  }

  /** The listed files are exactly the files of the walk, each with its directory. */
  lemma {:induction false} WalkFilesListsTheWalk(walk: seq<WalkEntry>)
    ensures forall k :: 0 <= k < |WalkFiles(walk)| ==>
      exists e :: 0 <= e < |walk| && WalkFiles(walk)[k].0 == walk[e].0 && WalkFiles(walk)[k].1 in walk[e].1
    ensures forall e, i :: 0 <= e < |walk| && 0 <= i < |walk[e].1| ==>
      (walk[e].0, walk[e].1[i]) in WalkFiles(walk)
    decreases |walk|
  {
    if walk != [] {
      var here: seq<(string, string)> := EntryFiles(walk[0]);
      var rest: seq<(string, string)> := WalkFiles(walk[1..]);
      var all := WalkFiles(walk);
      WalkFilesListsTheWalk(walk[1..]);
      assert all == here + rest;
      forall k | 0 <= k < |all|
        ensures exists e :: 0 <= e < |walk| && all[k].0 == walk[e].0 && all[k].1 in walk[e].1
      {
        if k < |here| {
          assert all[k] == (walk[0].0, walk[0].1[k]);
          assert walk[0].1[k] in walk[0].1;
        } else {
          assert all[k] == rest[k - |here|];
          var e :| 0 <= e < |walk[1..]| && rest[k - |here|].0 == walk[1..][e].0 && rest[k - |here|].1 in walk[1..][e].1;
          assert walk[1..][e] == walk[e + 1];
        }
      }
      forall e, i | 0 <= e < |walk| && 0 <= i < |walk[e].1| ensures (walk[e].0, walk[e].1[i]) in all {
        if e == 0 {
          assert here[i] == (walk[0].0, walk[0].1[i]);
          assert all[i] == here[i];
        } else {
          assert walk[1..][e - 1] == walk[e];
          assert (walk[e].0, walk[e].1[i]) in rest;
        }
      }
    } else {
      assert WalkFiles(walk) == [];
    }
  }

  /** The files of one walk entry, in the order the entry lists them. */
  function EntryFiles(entry: WalkEntry): (r: seq<(string, string)>)
    ensures |r| == |entry.1|
    ensures forall i :: 0 <= i < |r| ==> r[i] == (entry.0, entry.1[i])
  {
    seq(|entry.1|, i requires 0 <= i < |entry.1| => (entry.0, entry.1[i]))
  }

  /** The walk lists a directory's files before those of the directories after it: the
      list of a concatenated walk is the concatenation of the lists. */
  lemma {:induction false} WalkFilesConcat(a: seq<WalkEntry>, b: seq<WalkEntry>)
    ensures WalkFiles(a + b) == WalkFiles(a) + WalkFiles(b)
    decreases |a|
  {
    if a == [] {
      assert a + b == b;
    } else {
      var ab := a + b;
      assert ab[0] == a[0] && ab[1..] == a[1..] + b;
      WalkFilesConcat(a[1..], b);
      calc {
        WalkFiles(ab);
        EntryFiles(a[0]) + WalkFiles(a[1..] + b);
        EntryFiles(a[0]) + (WalkFiles(a[1..]) + WalkFiles(b));
        (EntryFiles(a[0]) + WalkFiles(a[1..])) + WalkFiles(b);
        WalkFiles(a) + WalkFiles(b);
      }
    }
  }

  /** A walk of one directory lists that directory's files in order. */
  lemma WalkFilesOne(entry: WalkEntry)
    ensures WalkFiles([entry]) == EntryFiles(entry)
  {
    assert [entry][1..] == [];
    assert EntryFiles(entry) + [] == EntryFiles(entry);
  }

  /** The copies `copy_images` makes: for each file, its destination directory is
      created and the file is copied to `generate_image_path(slug, name)`, dropping any
      sub-folder it was found in. */
  function CopyEffects(cfg: Config, slug: string, cwd: string, files: seq<(string, string)>)
    : (r: seq<Effect>)
    ensures |r| == 2 * |files|
    ensures forall k :: 0 <= k < |files| ==>
      && r[2 * k] == MakeDirs(Dirname(GenerateImagePath(cfg, slug, files[k].1)))
      && r[2 * k + 1] == CopyFile(AbsPath(cwd, Join(files[k].0, files[k].1)),
                                  GenerateImagePath(cfg, slug, files[k].1))
  {
    Pairs(seq(|files|, k requires 0 <= k < |files| => CopySteps(cfg, slug, cwd, files[k])))
  }

  /** Copying one file: making its destination folder, then the copy itself. */
  function CopySteps(cfg: Config, slug: string, cwd: string, f: (string, string)): (Effect, Effect) {
    var dest := GenerateImagePath(cfg, slug, f.1);
    (MakeDirs(Dirname(dest)), CopyFile(AbsPath(cwd, Join(f.0, f.1)), dest))
  }

  /** Every file the walk of the figures folder finds is copied to
      `generate_image_path(slug, name)`. */
  lemma EveryFigureIsCopied(cfg: Config, slug: string, cwd: string, walk: seq<WalkEntry>, e: int, i: int)
    requires 0 <= e < |walk| && 0 <= i < |walk[e].1|
    ensures CopyFile(AbsPath(cwd, Join(walk[e].0, walk[e].1[i])), GenerateImagePath(cfg, slug, walk[e].1[i]))
      in CopyEffects(cfg, slug, cwd, WalkFiles(walk))
  {
    var files := WalkFiles(walk);
    WalkFilesListsTheWalk(walk);
    assert (walk[e].0, walk[e].1[i]) in files;
    var k :| 0 <= k < |files| && files[k] == (walk[e].0, walk[e].1[i]);
    assert CopyEffects(cfg, slug, cwd, files)[2 * k + 1]
      == CopyFile(AbsPath(cwd, Join(walk[e].0, walk[e].1[i])), GenerateImagePath(cfg, slug, walk[e].1[i]));
  }

  /** The folder whose files are copied, `{source}/{stem}_files/figure-html`. */
  function FigureDirectory(p: Paths): string {
    Join(p.sourceFolder, Join(FilesDir(p.stem), "figure-html"))
  }

  /** A figure stored directly in the figures folder is copied to the file its rewritten
      link names, under the `static` directory. */
  lemma CopiedFigureMatchesLink(cfg: Config, stem: string, slug: string, name: string)
    requires !IsAbs(cfg.username) && !IsAbs(slug)
    requires '/' !in name
    ensures GenerateImagePath(cfg, slug, name)
      == Join(cfg.journalPath, "static")
         + RewriteSrc(stem, ImageUrlDirectory(cfg, slug), FigurePrefix(stem) + name)
  {
    FigureLinkRewritten(stem, ImageUrlDirectory(cfg, slug), name);
    assert !IsAbs(name) by {
      if name != [] { assert name[0] in name; }
    }
    ImagePathIsStaticPlusUrl(cfg, slug, name);
  }

  // ---------------------------------------------------------------------------
  // Conversion

  /** What the converter reads and the libraries it calls: the working directory, the
      existing paths, the report's lines, the knitted page, the walk of a folder (empty
      when the folder does not exist), the current time as `%Y-%m-%dT%H:%M:%S`, the YAML
      loader and dumper, and the HTML serialiser. */
  datatype RmdEnv = RmdEnv(
    cwd: string,
    existing: set<string>,
    rmdLines: seq<string>,
    blogdown: seq<Node>,
    walk: string -> seq<WalkEntry>,
    now: string,
    loadYaml: string -> Result<Value>,
    dumpYaml: map<string, Value> -> string,
    renderHtml: seq<Node> -> string)

  /** The front matter as written to the post: loaded, filtered, promoted, and with
      `date` set to the current time whatever the report said. */
  function PostFrontMatter(env: RmdEnv): (r: Result<map<string, Value>>)
    ensures r.Ok? <==> LoadFrontMatter(env.rmdLines, env.loadYaml).Ok?
    ensures r.Ok? ==> "date" in r.value && r.value["date"] == Str(env.now)
    ensures r.Ok? ==> forall k :: k in r.value ==> k in YamlWhitelist
    ensures r.Ok? ==> forall k :: k in r.value && k != "date" ==>
      k in LoadFrontMatter(env.rmdLines, env.loadYaml).value
      && r.value[k] == LoadFrontMatter(env.rmdLines, env.loadYaml).value[k]
    ensures r.Ok? ==> forall k :: k in LoadFrontMatter(env.rmdLines, env.loadYaml).value ==> k in r.value
    ensures r.Error? ==> r.error == LoadFrontMatter(env.rmdLines, env.loadYaml).error
  {
    match LoadFrontMatter(env.rmdLines, env.loadYaml)
    case Error(e) => Error(e)
    case Ok(fm) => Ok(fm["date" := Str(env.now)])
  }

  /** The front matter has a title `if front_matter.get('title')` accepts. */
  predicate HasTitle(fm: map<string, Value>) { "title" in fm && Truthy(fm["title"]) }

  /** The post of a report with a string title: the figures are copied, the header with
      the dumped front matter is written, and the page is appended once its images are
      rewritten. An image without `src` raises after the header was written. */
  function Publish(cfg: Config, env: RmdEnv, paths: Paths, fm: map<string, Value>, title: string)
    : (r: Run<string>)
    ensures var slug := GenerateSlug(title);
      var postPath := GeneratePostPath(cfg, slug + ".html");
      var copies := CopyEffects(cfg, slug, env.cwd, WalkFiles(env.walk(FigureDirectory(paths))));
      && |r.effects| >= |copies| + 1
      && r.effects[..|copies|] == copies
      && r.effects[|copies|] == WriteText(postPath, "---\n" + env.dumpYaml(fm) + "---")
      && (r.outcome.Returned? <==> RewriteImages(env.blogdown, paths.stem, ImageUrlDirectory(cfg, slug)).Ok?)
      && (r.outcome.Returned? ==>
            && r.outcome.value == postPath
            && |r.effects| == |copies| + 2
            && r.effects[|copies| + 1] == AppendText(postPath, env.renderHtml(
                 RewriteImages(env.blogdown, paths.stem, ImageUrlDirectory(cfg, slug)).value)))
      && (!r.outcome.Returned? ==> r.outcome == Raised(MissingSrc) && |r.effects| == |copies| + 1)
  {
    var slug := GenerateSlug(title);
    var postPath := GeneratePostPath(cfg, slug + ".html");
    var copies := CopyEffects(cfg, slug, env.cwd, WalkFiles(env.walk(FigureDirectory(paths))));
    var header := WriteText(postPath, "---\n" + env.dumpYaml(fm) + "---");
    match RewriteImages(env.blogdown, paths.stem, ImageUrlDirectory(cfg, slug))
    case Error(e) => Run(copies + [header], Raised(e))
    case Ok(nodes) => Run(copies + [header, AppendText(postPath, env.renderHtml(nodes))], Returned(postPath))
  }

  /** `RmdConverter(filepath).convert()`. A missing companion file or a missing or
      falsy title ends the process with status 1 before anything is copied or written; a
      title that is not a string fails when it is lower-cased. The post header is written
      before the page is rewritten, so an image without `src` leaves a post holding only
      its header. */
  function Convert(cfg: Config, env: RmdEnv, filepath: string): (r: Run<string>)
    ensures r.outcome.Exited? ==> r.outcome.status == 1 && r.effects == []
    ensures r.outcome.Exited? <==>
      || Validate(ConverterPaths(env.cwd, filepath), env.existing).Some?
      || (PostFrontMatter(env).Ok? && !HasTitle(PostFrontMatter(env).value))
    ensures r.outcome.Returned? ==>
      && Validate(ConverterPaths(env.cwd, filepath), env.existing).None?
      && PostFrontMatter(env).Ok?
      && HasTitle(PostFrontMatter(env).value) && PostFrontMatter(env).value["title"].Str?
    ensures Validate(ConverterPaths(env.cwd, filepath), env.existing).None? ==>
      var fm := PostFrontMatter(env);
      && (fm.Error? ==> r == Run([], Raised(fm.error)))
      && (fm.Ok? && HasTitle(fm.value) && !fm.value["title"].Str? ==>
            r == Run([], Raised(NoAttribute(fm.value["title"], "lower"))))
      && (fm.Ok? && HasTitle(fm.value) && fm.value["title"].Str? ==>
            r == Publish(cfg, env, ConverterPaths(env.cwd, filepath), fm.value, fm.value["title"].s))
    ensures r.effects != [] ==>
      && PostFrontMatter(env).Ok? && PostFrontMatter(env).value["title"].Str?
      && r == Publish(cfg, env, ConverterPaths(env.cwd, filepath), PostFrontMatter(env).value,
                      PostFrontMatter(env).value["title"].s)
  {
    var paths := ConverterPaths(env.cwd, filepath);
    if Validate(paths, env.existing).Some? then Run([], Exited(1))
    else
      match PostFrontMatter(env)
      case Error(e) => Run([], Raised(e))
      case Ok(fm) =>
        if !HasTitle(fm) then Run([], Exited(1))
        else if !fm["title"].Str? then Run([], Raised(NoAttribute(fm["title"], "lower")))
        else Publish(cfg, env, paths, fm, fm["title"].s)
  }
}
