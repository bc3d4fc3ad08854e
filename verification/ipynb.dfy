/** `converters/ipynb.py`: turning a Jupyter notebook into a Markdown post, saving every
    image output under the post's image folder with the name the post links to. */
module Ipynb {
  import opened Text
  import opened PosixPath
  import opened Journal
  import opened Util

  /** `post_slug`: the notebook's file name without its extension; it is not passed
      through `generate_slug`. */
  function PostSlug(filepath: string): (slug: string)
    ensures '/' !in slug
    ensures StartsWith(Basename(filepath), slug)
    ensures slug + Splitext(Basename(filepath)).1 == Basename(filepath)
  {
    var b := Basename(filepath);
    var slug := Splitext(b).0;
    assert b == slug + Splitext(b).1;
    assert b[..|slug|] == slug;
    slug
  }

  /** The output file name template handed to the exporter, before the exporter fills in
      its fields. */
  function OutputFilenameTemplate(cfg: Config, slug: string): string {
    Join(ImageUrlDirectory(cfg, slug), "{unique_key}_{cell_index}_{index}{extension}")
  }

  /** The filled-in last part of an output's name: `{unique_key}_{cell_index}_{index}{extension}`. */
  function Leaf(key: string, cell: nat, index: nat, ext: string): string {
    key + "_" + NatToString(cell) + "_" + NatToString(index) + ext
  }

  /** The name an output is extracted under. The template starts with a field, so it is
      relative and was appended to the folder; filling in the fields only changes that
      appended part. */
  function OutputName(cfg: Config, slug: string, key: string, cell: nat, index: nat, ext: string)
    : (name: string)
    ensures !IsAbs(Leaf(key, cell, index, ext)) ==>
      name == Join(ImageUrlDirectory(cfg, slug), Leaf(key, cell, index, ext))
  {
    Join(ImageUrlDirectory(cfg, slug), "") + Leaf(key, cell, index, ext)
  }

  /** The number of decimal digits `s` starts with. */
  function LeadingDigits(s: string): (n: nat)
    ensures n <= |s|
    decreases |s|
  {
    if s == [] || !IsDigit(s[0]) then 0 else 1 + LeadingDigits(s[1..])
  }

  predicate AllDigits(s: string) { forall i :: 0 <= i < |s| ==> IsDigit(s[i]) }

  /** A run of digits followed by something that does not start with a digit is read
      back as exactly that run. */
  lemma {:induction false} LeadingDigitsOf(d: string, rest: string)
    requires AllDigits(d)
    requires rest == [] || !IsDigit(rest[0])
    ensures LeadingDigits(d + rest) == |d|
    decreases |d|
  {
    if d != [] {
      assert (d + rest)[1..] == d[1..] + rest;
      LeadingDigitsOf(d[1..], rest);
    } else {
      assert d + rest == rest;
    }
  }

  lemma DigitsSplit(d1: string, r1: string, d2: string, r2: string)
    requires AllDigits(d1) && AllDigits(d2)
    requires r1 == [] || !IsDigit(r1[0])
    requires r2 == [] || !IsDigit(r2[0])
    requires d1 + r1 == d2 + r2
    ensures d1 == d2 && r1 == r2
  {
    LeadingDigitsOf(d1, r1);
    LeadingDigitsOf(d2, r2);
    assert d1 == (d1 + r1)[..|d1|];
    assert d2 == (d2 + r2)[..|d2|];
    assert r1 == (d1 + r1)[|d1|..];
    assert r2 == (d2 + r2)[|d2|..];
  }

  /** For one key, the filled-in name tells the cell, the output index and the extension
      apart, as long as the extension starts with a dot. */
  lemma LeafInjective(key: string, c1: nat, i1: nat, e1: string, c2: nat, i2: nat, e2: string)
    requires |e1| >= 1 && e1[0] == '.' && |e2| >= 1 && e2[0] == '.'
    requires Leaf(key, c1, i1, e1) == Leaf(key, c2, i2, e2)
    ensures c1 == c2 && i1 == i2 && e1 == e2
  {
    var s1 := NatToString(c1);
    var s2 := NatToString(c2);
    var t1 := NatToString(i1);
    var t2 := NatToString(i2);
    var l1 := Leaf(key, c1, i1, e1);
    var l2 := Leaf(key, c2, i2, e2);
    var n := |key| + 1;
    assert l1[n..] == s1 + ("_" + t1 + e1);
    assert l2[n..] == s2 + ("_" + t2 + e2);
    DigitsSplit(s1, "_" + t1 + e1, s2, "_" + t2 + e2);
    NatToStringInjective(c1, c2);
    assert ("_" + t1 + e1)[1..] == t1 + e1;
    assert ("_" + t2 + e2)[1..] == t2 + e2;
    DigitsSplit(t1, e1, t2, e2);
    NatToStringInjective(i1, i2);
  }

  // ---------------------------------------------------------------------------
  // Extraction

  /** A code cell output: for each image representation the exporter extracts, its file
      extension and its decoded bytes. */
  datatype Output = Output(data: seq<(string, seq<bv8>)>)

  /** The outputs of a cell; a Markdown cell has none. */
  type Cell = seq<Output>

  /** One extracted image: where it came from and its bytes. */
  datatype Extracted = Extracted(cell: nat, index: nat, ext: string, content: seq<bv8>)

  /** The images of output `index` of cell `cell`, in representation order. */
  function OutputItems(cell: nat, index: nat, out: Output): (r: seq<Extracted>)
    ensures |r| == |out.data|
    ensures forall k :: 0 <= k < |r| ==>
      r[k] == Extracted(cell, index, out.data[k].0, out.data[k].1)
  {
    seq(|out.data|, k requires 0 <= k < |out.data| =>
      Extracted(cell, index, out.data[k].0, out.data[k].1))
  }

  /** The images of a cell's outputs from output `index` on; the output index counts every
      output, whether it holds an image or not. */
  function CellItems(cell: nat, outputs: seq<Output>, index: nat): (r: seq<Extracted>)
    ensures forall k :: 0 <= k < |r| ==>
      r[k].cell == cell && index <= r[k].index < index + |outputs|
    decreases |outputs|
  {
    if outputs == [] then []
    else OutputItems(cell, index, outputs[0]) + CellItems(cell, outputs[1..], index + 1)
  }

  /** Every image output of the notebook from cell `cell` on, in notebook order. */
  function NotebookItems(cells: seq<Cell>, cell: nat): (r: seq<Extracted>)
    ensures forall k :: 0 <= k < |r| ==> cell <= r[k].cell < cell + |cells|
    decreases |cells|
  {
    if cells == [] then []
    else CellItems(cell, cells[0], 0) + NotebookItems(cells[1..], cell + 1)
  }

  /** No two images come from the same representation of the same output. */
  predicate DistinctSources(items: seq<Extracted>) {
    forall j, k :: 0 <= j < k < |items| ==>
      (items[j].cell, items[j].index, items[j].ext) != (items[k].cell, items[k].index, items[k].ext)
  }

  /** A file extension as the exporter derives one from a MIME type: a dot, then no slash. */
  predicate IsExtension(e: string) { |e| >= 1 && e[0] == '.' && '/' !in e }

  /** Within one output every representation has its own extension, and each is a file
      extension. */
  predicate WellFormedOutput(out: Output) {
    && (forall j, k :: 0 <= j < k < |out.data| ==> out.data[j].0 != out.data[k].0)
    && (forall d :: 0 <= d < |out.data| ==> IsExtension(out.data[d].0))
  }

  predicate WellFormedCells(cells: seq<Cell>) {
    forall c, o :: 0 <= c < |cells| && 0 <= o < |cells[c]| ==> WellFormedOutput(cells[c][o])
  }

  lemma DistinctAppend(a: seq<Extracted>, b: seq<Extracted>)
    requires DistinctSources(a) && DistinctSources(b)
    requires forall j, k :: 0 <= j < |a| && 0 <= k < |b| ==>
      (a[j].cell, a[j].index) != (b[k].cell, b[k].index)
    ensures DistinctSources(a + b)
  {
    forall j, k | 0 <= j < k < |a + b|
      ensures ((a + b)[j].cell, (a + b)[j].index, (a + b)[j].ext)
           != ((a + b)[k].cell, (a + b)[k].index, (a + b)[k].ext)
    {
      if k < |a| {
      } else if j >= |a| {
        assert (a + b)[j] == b[j - |a|] && (a + b)[k] == b[k - |a|];
      } else {
        assert (a + b)[j] == a[j] && (a + b)[k] == b[k - |a|];
      }
    }
  }

  /** Every extracted image of well-formed outputs has its own source and a file
      extension. */
  lemma {:induction false} CellItemsDistinct(cell: nat, outputs: seq<Output>, index: nat)
    requires forall o :: 0 <= o < |outputs| ==> WellFormedOutput(outputs[o])
    ensures DistinctSources(CellItems(cell, outputs, index))
    ensures forall k :: 0 <= k < |CellItems(cell, outputs, index)| ==>
      IsExtension(CellItems(cell, outputs, index)[k].ext)
    decreases |outputs|
  {
    if outputs != [] {
      var a := OutputItems(cell, index, outputs[0]);
      var b := CellItems(cell, outputs[1..], index + 1);
      CellItemsDistinct(cell, outputs[1..], index + 1);
      assert WellFormedOutput(outputs[0]);
      DistinctAppend(a, b);
      forall k | 0 <= k < |a + b| ensures IsExtension((a + b)[k].ext) {
        if k >= |a| {
          assert (a + b)[k] == b[k - |a|];
        }
      }
    }
  }

  /** No two images of a notebook with well-formed outputs come from the same
      representation of the same output, and each has a file extension. */
  lemma {:induction false} NotebookItemsDistinct(cells: seq<Cell>, cell: nat)
    requires WellFormedCells(cells)
    ensures DistinctSources(NotebookItems(cells, cell))
    ensures forall k :: 0 <= k < |NotebookItems(cells, cell)| ==>
      IsExtension(NotebookItems(cells, cell)[k].ext)
    decreases |cells|
  {
    if cells != [] {
      assert forall c, o :: 0 <= c < |cells[1..]| && 0 <= o < |cells[1..][c]| ==>
        cells[1..][c][o] == cells[c + 1][o];
      NotebookItemsDistinct(cells[1..], cell + 1);
      assert forall o :: 0 <= o < |cells[0]| ==> WellFormedOutput(cells[0][o]);
      CellItemsDistinct(cell, cells[0], 0);
      var a := CellItems(cell, cells[0], 0);
      var b := NotebookItems(cells[1..], cell + 1);
      DistinctAppend(a, b);
      forall k | 0 <= k < |a + b| ensures IsExtension((a + b)[k].ext) {
        if k >= |a| {
          assert (a + b)[k] == b[k - |a|];
        }
      }
    }
  }

  // ---------------------------------------------------------------------------
  // Conversion

  /** The notebook reader, the Markdown exporter (its text output only; the images it
      extracts are modelled above), and the key the exporter puts first in output names. */
  datatype IpynbEnv = IpynbEnv(
    read: string -> Result<seq<Cell>>,
    exportMarkdown: seq<Cell> -> Result<string>,
    uniqueKey: string)

  /** Where `save_image` stores an extracted image: under its base name in the post's
      image folder. */
  function SavePath(cfg: Config, slug: string, name: string): string {
    GenerateImagePath(cfg, slug, Basename(name))
  }

  /** `images['outputs']`: each extracted image under its output name, in extraction
      order. */
  function Images(cfg: Config, slug: string, key: string, items: seq<Extracted>)
    : (r: seq<(string, seq<bv8>)>)
    ensures |r| == |items|
    ensures forall k :: 0 <= k < |items| ==>
      r[k] == (OutputName(cfg, slug, key, items[k].cell, items[k].index, items[k].ext), items[k].content)
  {
    seq(|items|, k requires 0 <= k < |items| =>
      (OutputName(cfg, slug, key, items[k].cell, items[k].index, items[k].ext), items[k].content))
  }

  /** Each image's destination, from `save_image`, with its bytes. */
  function Destinations(cfg: Config, slug: string, images: seq<(string, seq<bv8>)>)
    : (r: seq<(string, seq<bv8>)>)
    ensures |r| == |images|
    ensures forall k :: 0 <= k < |images| ==> r[k] == (SavePath(cfg, slug, images[k].0), images[k].1)
  {
    seq(|images|, k requires 0 <= k < |images| => (SavePath(cfg, slug, images[k].0), images[k].1))
  }

  /** Saving files in order: for each, its folder is made, then its bytes are written. */
  function SaveEffects(files: seq<(string, seq<bv8>)>): (r: seq<Effect>)
    ensures |r| == 2 * |files|
    ensures forall k :: 0 <= k < |files| ==>
      r[2 * k] == MakeDirs(Dirname(files[k].0)) && r[2 * k + 1] == WriteBytes(files[k].0, files[k].1)
    ensures forall i :: 0 <= i < |r| ==> r[i].MakeDirs? || r[i].WriteBytes?
  {
    var items := seq(|files|, k requires 0 <= k < |files| =>
      (MakeDirs(Dirname(files[k].0)), WriteBytes(files[k].0, files[k].1)));
    PairsKeep(items, (e: Effect) => e.MakeDirs? || e.WriteBytes?);
    Pairs(items)
  }

  /** Where an extracted image is saved: the base name of its output name, in the
      post's image folder. */
  function ImageDestination(cfg: Config, slug: string, key: string, x: Extracted): string {
    SavePath(cfg, slug, OutputName(cfg, slug, key, x.cell, x.index, x.ext))
  }

  /** `IpynbConverter(filepath).convert()`: it returns exactly when the notebook is read
      and exported; then every extracted image, in extraction order, has its folder made
      and its bytes written, and the exported Markdown is written last, at the post path,
      which is returned. A failing read or export raises before anything is written. */
  function Convert(cfg: Config, env: IpynbEnv, filepath: string): (r: Run<string>)
    ensures !r.outcome.Exited?
    ensures r.outcome.Returned? <==>
      env.read(filepath).Ok? && env.exportMarkdown(env.read(filepath).value).Ok?
    ensures r.outcome.Raised? ==> r.effects == []
    ensures r.outcome.Raised? && env.read(filepath).Error? ==> r.outcome.error == env.read(filepath).error
    ensures r.outcome.Raised? && env.read(filepath).Ok? ==>
      r.outcome.error == env.exportMarkdown(env.read(filepath).value).error
    ensures r.outcome.Returned? ==>
      var slug := PostSlug(filepath);
      var cells := env.read(filepath).value;
      var items := NotebookItems(cells, 0);
      && r.outcome.value == GeneratePostPath(cfg, slug + ".md")
      && |r.effects| == 2 * |items| + 1
      && (forall k :: 0 <= k < |items| ==>
            && r.effects[2 * k] == MakeDirs(Dirname(ImageDestination(cfg, slug, env.uniqueKey, items[k])))
            && r.effects[2 * k + 1] == WriteBytes(ImageDestination(cfg, slug, env.uniqueKey, items[k]), items[k].content))
      && r.effects[2 * |items|] == WriteText(r.outcome.value, env.exportMarkdown(cells).value)
  {
    match env.read(filepath)
    case Error(e) => Run([], Raised(e))
    case Ok(cells) =>
      match env.exportMarkdown(cells)
      case Error(e) => Run([], Raised(e))
      case Ok(post) =>
        var slug := PostSlug(filepath);
        var postPath := GeneratePostPath(cfg, slug + ".md");
        Run(SaveThenWrite(cfg, slug, env.uniqueKey, NotebookItems(cells, 0), postPath, post), Returned(postPath))
  }

  /** The effects of a successful conversion: each image saved in order, then the post. */
  function SaveThenWrite(cfg: Config, slug: string, key: string, items: seq<Extracted>,
                         postPath: string, post: string): (r: seq<Effect>)
    ensures |r| == 2 * |items| + 1
    ensures forall k :: 0 <= k < |items| ==>
      && r[2 * k] == MakeDirs(Dirname(ImageDestination(cfg, slug, key, items[k])))
      && r[2 * k + 1] == WriteBytes(ImageDestination(cfg, slug, key, items[k]), items[k].content)
    ensures r[2 * |items|] == WriteText(postPath, post)
  {
    var dests := Destinations(cfg, slug, Images(cfg, slug, key, items));
    assert forall k :: 0 <= k < |items| ==> dests[k] == (ImageDestination(cfg, slug, key, items[k]), items[k].content);
    SaveEffects(dests) + [WriteText(postPath, post)]
  }

  // ---------------------------------------------------------------------------
  // Links and files agree

  lemma DigitsHaveNoSlash(n: nat)
    ensures '/' !in NatToString(n)
  {
  }

  /** A key and an extension without slashes give a last part without one. */
  lemma LeafHasNoSlash(key: string, cell: nat, index: nat, ext: string)
    requires '/' !in key && '/' !in ext
    ensures '/' !in Leaf(key, cell, index, ext)
  {
    DigitsHaveNoSlash(cell);
    DigitsHaveNoSlash(index);
  }

  lemma NoSlashIsRelative(s: string)
    requires '/' !in s
    ensures !IsAbs(s)
  {
    if s != [] {
      assert s[0] in s;
    }
  }

  /** The file an image is saved to is the `static` directory followed by the name the
      post links to, so the post's links find the saved files. */
  lemma SavedImageMatchesLink(cfg: Config, filepath: string, key: string, cell: nat, index: nat, ext: string)
    requires !IsAbs(cfg.username)
    requires '/' !in key && '/' !in ext
    ensures var slug := PostSlug(filepath);
      var name := OutputName(cfg, slug, key, cell, index, ext);
      SavePath(cfg, slug, name) == Join(cfg.journalPath, "static") + name
  {
    var slug := PostSlug(filepath);
    var leaf := Leaf(key, cell, index, ext);
    LeafHasNoSlash(key, cell, index, ext);
    NoSlashIsRelative(leaf);
    NoSlashIsRelative(slug);
    BasenameOfJoin(ImageUrlDirectory(cfg, slug), leaf);
    ImagePathIsStaticPlusUrl(cfg, slug, leaf);
  }

  /** `generate_image_path` sends different relative names to different files. */
  lemma ImagePathInjective(cfg: Config, slug: string, a: string, b: string)
    requires !IsAbs(a) && !IsAbs(b)
    requires GenerateImagePath(cfg, slug, a) == GenerateImagePath(cfg, slug, b)
    ensures a == b
  {
    var dir := Join(Join(Join(Join(Join(cfg.journalPath, "static"), "images"), "team"), cfg.username), slug);
    JoinRelative(dir, a);
    JoinRelative(dir, b);
  }

  /** Two different extracted images of a notebook with well-formed outputs are saved to
      two different files, so no image that `Convert` writes overwrites another. */
  lemma SavedImagesDistinct(cfg: Config, filepath: string, key: string, cells: seq<Cell>)
    requires '/' !in key
    requires WellFormedCells(cells)
    ensures var slug := PostSlug(filepath);
      var items := NotebookItems(cells, 0);
      forall j, k :: 0 <= j < k < |items| ==>
        ImageDestination(cfg, slug, key, items[j]) != ImageDestination(cfg, slug, key, items[k])
  {
    var slug := PostSlug(filepath);
    var items := NotebookItems(cells, 0);
    NotebookItemsDistinct(cells, 0);
    forall j, k | 0 <= j < k < |items|
      ensures ImageDestination(cfg, slug, key, items[j]) != ImageDestination(cfg, slug, key, items[k])
    {
      var x := items[j];
      var y := items[k];
      var lx := Leaf(key, x.cell, x.index, x.ext);
      var ly := Leaf(key, y.cell, y.index, y.ext);
      var dir := ImageUrlDirectory(cfg, slug);
      LeafHasNoSlash(key, x.cell, x.index, x.ext);
      LeafHasNoSlash(key, y.cell, y.index, y.ext);
      NoSlashIsRelative(lx);
      NoSlashIsRelative(ly);
      BasenameOfJoin(dir, lx);
      BasenameOfJoin(dir, ly);
      if ImageDestination(cfg, slug, key, x) == ImageDestination(cfg, slug, key, y) {
        ImagePathInjective(cfg, slug, lx, ly);
        LeafInjective(key, x.cell, x.index, x.ext, y.cell, y.index, y.ext);
      }
    }
  }

  /** The slug keeps the notebook's own spelling: no lower-casing, spaces kept. */
  lemma PostSlugIsNotSlugified()
    ensures PostSlug("/work/My Notebook.ipynb") == "My Notebook"
  {
    var p := "/work/My Notebook.ipynb";
    RFindUnique(p, '/', 5);
    var b := "My Notebook.ipynb";
    assert Basename(p) == b;
    RFindUnique(b, '/', -1);
    RFindUnique(b, '.', 11);
    assert NonDotBetween(b, 0, 11) by { assert b[0] != '.'; }
  }
}
