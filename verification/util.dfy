/** The shared helpers of `commands/util.py`: the title slug, the post and image
    locations in the publishing tree, and the search for the newest post file. */
module Util {
  import opened Text
  import opened PosixPath
  import opened Journal

  // ---------------------------------------------------------------------------
  // Slugs

  /** The class `[a-zA-Z0-9\-_\.]` a slug keeps. */
  predicate KeptInSlug(c: char) { IsAlnum(c) || c == '-' || c == '_' || c == '.' }

  /** The characters a slug can hold: lower-case letters, digits, `-`, `_` and `.`. */
  predicate IsSlugChar(c: char) { 'a' <= c <= 'z' || IsDigit(c) || c == '-' || c == '_' || c == '.' }

  /** `re.sub('[^a-zA-Z0-9\-_\.]', '-', s)`: every character outside the class becomes
      one `-`; a run of them becomes a run of `-`. */
  function SubstituteSpecial(s: string): (r: string)
    ensures |r| == |s|
    ensures forall i :: 0 <= i < |s| ==> r[i] == (if KeptInSlug(s[i]) then s[i] else '-')
  {
    seq(|s|, i requires 0 <= i < |s| => if KeptInSlug(s[i]) then s[i] else '-')
  }

  /** Substitution leaves only kept characters, so a second pass changes nothing, and a
      string is left as it is exactly when every character in it is kept. */
  lemma SubstituteSpecialSettles(s: string)
    ensures forall i :: 0 <= i < |s| ==> KeptInSlug(SubstituteSpecial(s)[i])
    ensures SubstituteSpecial(SubstituteSpecial(s)) == SubstituteSpecial(s)
    ensures SubstituteSpecial(s) == s <==> forall i :: 0 <= i < |s| ==> KeptInSlug(s[i])
  {
    if SubstituteSpecial(s) == s {
      forall i | 0 <= i < |s| ensures KeptInSlug(s[i]) {
        assert SubstituteSpecial(s)[i] == s[i];
      }
    }
  }

  /** `re.sub('[^a-zA-Z0-9]+$', '', s)`: removes the longest run of characters other
      than letters and digits at the end of `s`. (`$` could also match before a final
      newline, but the substitution above leaves no newline.) */
  function TrimTrailing(s: string): (r: string)
    ensures |r| <= |s| && r == s[..|r|]
    ensures r == [] || IsAlnum(r[|r| - 1])
    ensures forall i :: |r| <= i < |s| ==> !IsAlnum(s[i])
    decreases |s|
  {
    if s == [] || IsAlnum(s[|s| - 1]) then s else TrimTrailing(s[..|s| - 1])
  }

  /** What the slug of `title` is, stated on the title's own characters: the slug is as
      long as the title up to and including its last letter or digit, and each of its
      characters is the lower-cased title character when that one is in the kept class
      and `-` otherwise. */
  ghost predicate SlugOf(title: string, s: string) {
    && |s| <= |title|
    && (forall i :: 0 <= i < |s| ==>
          s[i] == (if KeptInSlug(title[i]) then LowerChar(title[i]) else '-'))
    && (s == [] || IsAlnum(title[|s| - 1]))
    && (forall i :: |s| <= i < |title| ==> !IsAlnum(title[i]))
  }

  /** Lower-casing keeps a character's class: kept or replaced, alphanumeric or not. */
  lemma LowerKeepsClass(c: char)
    ensures KeptInSlug(LowerChar(c)) <==> KeptInSlug(c)
    ensures IsAlnum(LowerChar(c)) <==> IsAlnum(c)
    ensures KeptInSlug(c) ==> IsSlugChar(LowerChar(c))
  {
  }

  /** `generate_slug`: lower-case, substitute, trim the end. */
  function GenerateSlug(title: string): (slug: string)
    ensures forall i :: 0 <= i < |slug| ==> IsSlugChar(slug[i])
    ensures slug == [] || IsAlnum(slug[|slug| - 1])
    ensures SlugOf(title, slug)
  {
    var lowered := Lower(title);
    var substituted := SubstituteSpecial(lowered);
    var slug := TrimTrailing(substituted);
    forall i | 0 <= i < |title|
      ensures substituted[i] == (if KeptInSlug(title[i]) then LowerChar(title[i]) else '-')
      ensures IsSlugChar(substituted[i])
      ensures IsAlnum(substituted[i]) <==> IsAlnum(title[i])
    {
      LowerKeepsClass(title[i]);
    }
    slug
  }

  /** The slug is the only string that fits `SlugOf`: the characterisation and the
      function agree in both directions. */
  lemma SlugOfDeterminesSlug(title: string, s: string)
    ensures SlugOf(title, s) <==> s == GenerateSlug(title)
  {
    var g := GenerateSlug(title);
    if SlugOf(title, s) {
      assert g != [] ==> IsAlnum(title[|g| - 1]);
      assert s != [] ==> IsAlnum(title[|s| - 1]);
      assert |s| == |g|;
      assert forall i :: 0 <= i < |s| ==> s[i] == g[i];
    }
  }

  /** Slugging a slug changes nothing. */
  lemma GenerateSlugIdempotent(title: string)
    ensures GenerateSlug(GenerateSlug(title)) == GenerateSlug(title)
  {
    var s := GenerateSlug(title);
    assert SlugOf(s, s) by {
      forall i | 0 <= i < |s|
        ensures s[i] == (if KeptInSlug(s[i]) then LowerChar(s[i]) else '-')
      {
        assert IsSlugChar(s[i]);
      }
    }
    SlugOfDeterminesSlug(s, s);
  }

  /** Substitution is per character, not per run: the comma and the space each become a
      `-`, and only the final `!` is trimmed. */
  lemma SlugOfHelloWorld()
    ensures GenerateSlug("Hello, World!") == "hello--world"
  {
    var t := "Hello, World!";
    var s := "hello--world";
    assert SlugOf(t, s) by {
      assert |s| <= |t|;
      forall i | 0 <= i < |s|
        ensures s[i] == (if KeptInSlug(t[i]) then LowerChar(t[i]) else '-')
      {
      }
      assert IsAlnum(t[|s| - 1]);
      forall i | |s| <= i < |t| ensures !IsAlnum(t[i]) {
        assert i == 12;
      }
    }
    SlugOfDeterminesSlug(t, s);
  }

  // ---------------------------------------------------------------------------
  // Publishing-tree locations

  const DailyPrefix: string := "daily-log"

  /** `{journal_path}/content`, joined the way `os.path.join` does. */
  function ContentRoot(cfg: Config): string {
    Join(cfg.journalPath, "content")
  }

  /** The directory a post file lands in: the author's team directory, and its `daily/`
      sub-directory for daily logs. It always ends in `/`. */
  function PostDirectory(cfg: Config, daily: bool): (d: string)
    ensures d != [] && d[|d| - 1] == '/'
  {
    ContentRoot(cfg) + "/post/team/" + cfg.username + "/" + (if daily then "daily/" else "")
  }

  /** `generate_post_path(filename)`. */
  function GeneratePostPath(cfg: Config, filename: string): (r: string)
    ensures IsAbs(filename) ==> r == filename
    ensures !IsAbs(filename) ==>
      r == PostDirectory(cfg, StartsWith(filename, DailyPrefix)) + filename
  {
    var c := ContentRoot(cfg);
    assert c != [] && c[|c| - 1] == 't';
    var projectPath := Join(Join(c, "post"), "team/" + cfg.username + "/");
    assert projectPath == c + "/post/team/" + cfg.username + "/";
    var dir := if StartsWith(filename, DailyPrefix) then Join(projectPath, "daily") else projectPath;
    assert dir == PostDirectory(cfg, StartsWith(filename, DailyPrefix))[..|dir|];
    Join(dir, filename)
  }

  /** For a configured root without a trailing slash, a post lands at
      `{root}/content/post/team/{user}/[daily/]{filename}`. */
  lemma PostPathLayout(cfg: Config, filename: string)
    requires cfg.journalPath != [] && cfg.journalPath[|cfg.journalPath| - 1] != '/'
    requires !IsAbs(filename)
    ensures StartsWith(filename, DailyPrefix) ==>
      GeneratePostPath(cfg, filename)
        == cfg.journalPath + "/content/post/team/" + cfg.username + "/daily/" + filename
    ensures !StartsWith(filename, DailyPrefix) ==>
      GeneratePostPath(cfg, filename)
        == cfg.journalPath + "/content/post/team/" + cfg.username + "/" + filename
  {
    var c := ContentRoot(cfg);
    assert c == cfg.journalPath + "/content";
    if StartsWith(filename, DailyPrefix) {
      assert PostDirectory(cfg, true)
        == cfg.journalPath + "/content/post/team/" + cfg.username + "/daily/";
    } else {
      assert PostDirectory(cfg, false)
        == cfg.journalPath + "/content/post/team/" + cfg.username + "/";
    }
  }

  /** The public URL directory of a post's images, `/images/team/{user}/{slug}`; the
      literate-document converter links to it and the notebook converter names its
      outputs under it. */
  function ImageUrlDirectory(cfg: Config, slug: string): string {
    Join(Join(Join("/images", "team"), cfg.username), slug)
  }

  /** `generate_image_path(post_slug, filename)`. */
  function GenerateImagePath(cfg: Config, slug: string, filename: string): (r: string)
    ensures IsAbs(filename) ==> r == filename
    ensures !IsAbs(filename) ==> EndsWith(r, filename)
  {
    Join(Join(Join(Join(Join(Join(cfg.journalPath, "static"), "images"), "team"),
      cfg.username), slug), filename)
  }

  /** The file an image is stored in is the `static` directory followed by the image's
      public URL, so a link `/images/team/{user}/{slug}/{f}` finds the stored file. */
  lemma ImagePathIsStaticPlusUrl(cfg: Config, slug: string, filename: string)
    requires !IsAbs(cfg.username) && !IsAbs(slug) && !IsAbs(filename)
    ensures GenerateImagePath(cfg, slug, filename)
      == Join(cfg.journalPath, "static") + Join(ImageUrlDirectory(cfg, slug), filename)
  {
    var s := Join(cfg.journalPath, "static");
    assert Join(s, "images") == s + "/images";
    JoinExtendLeft(s, "/images", "team");
    var t := Join("/images", "team");
    JoinExtendLeft(s, t, cfg.username);
    var u := Join(t, cfg.username);
    JoinExtendLeft(s, u, slug);
    var v := Join(u, slug);
    JoinExtendLeft(s, v, filename);
  }

  /** For a root without a trailing slash and non-empty user and slug without slashes at
      their ends, an image lands at `{root}/static/images/team/{user}/{slug}/{filename}`. */
  lemma ImagePathLayout(cfg: Config, slug: string, filename: string)
    requires cfg.journalPath != [] && cfg.journalPath[|cfg.journalPath| - 1] != '/'
    requires cfg.username != [] && !IsAbs(cfg.username) && cfg.username[|cfg.username| - 1] != '/'
    requires slug != [] && !IsAbs(slug) && slug[|slug| - 1] != '/'
    requires !IsAbs(filename)
    ensures GenerateImagePath(cfg, slug, filename)
      == cfg.journalPath + "/static/images/team/" + cfg.username + "/" + slug + "/" + filename
  {
    var t := cfg.journalPath + "/static/images/team";
    assert Join(Join(Join(cfg.journalPath, "static"), "images"), "team") == t;
    var u := t + "/" + cfg.username;
    assert Join(t, cfg.username) == u;
    assert u[|u| - 1] == cfg.username[|cfg.username| - 1];
    var v := u + "/" + slug;
    assert Join(u, slug) == v;
    assert v[|v| - 1] == slug[|slug| - 1];
    assert Join(v, filename) == v + "/" + filename;
  }

  // ---------------------------------------------------------------------------
  // The newest post file

  /** One `(dirpath, filenames)` pair of `os.walk`. */
  type WalkEntry = (string, seq<string>)

  /** The key under which the daily-log template is configured; it names no extension. */
  const DailyLogKey: string := "daily_log"

  /** `p` ends with a key of `keys` other than the daily-log key; this is what the
      `fnmatch` pattern `*{extension}` tests, so `md` also matches `.rmd`. */
  ghost predicate KeyMatches(keys: seq<(string, string)>, p: string) {
    exists j :: 0 <= j < |keys| && keys[j].0 != DailyLogKey && EndsWith(p, keys[j].0)
  }

  /** `p` ends with a configured extension other than the daily-log key. */
  ghost predicate EndsWithTemplateKey(cfg: Config, p: string) {
    KeyMatches(cfg.templates, p)
  }

  /** A key matches when the first one does or one of the others does. */
  lemma KeyMatchesUnfold(keys: seq<(string, string)>, p: string)
    requires keys != []
    ensures KeyMatches(keys, p) <==>
      (keys[0].0 != DailyLogKey && EndsWith(p, keys[0].0)) || KeyMatches(keys[1..], p)
  {
    if KeyMatches(keys, p) && !(keys[0].0 != DailyLogKey && EndsWith(p, keys[0].0)) {
      var j :| 0 <= j < |keys| && keys[j].0 != DailyLogKey && EndsWith(p, keys[j].0);
      assert keys[1..][j - 1] == keys[j];
    }
    if KeyMatches(keys[1..], p) {
      var j :| 0 <= j < |keys[1..]| && keys[1..][j].0 != DailyLogKey && EndsWith(p, keys[1..][j].0);
      assert keys[j + 1] == keys[1..][j];
    }
  }

  /** `fnmatch.filter([join(root, f) for f in files], '*' + ext)`. */
  function Matching(root: string, files: seq<string>, ext: string): (r: seq<string>)
    ensures forall i :: 0 <= i < |r| ==> EndsWith(r[i], ext) && r[i] in Paths(root, files)
    ensures forall f :: f in files && EndsWith(Join(root, f), ext) ==> Join(root, f) in r
    decreases |files|
  {
    if files == [] then []
    else
      var p := Join(root, files[0]);
      (if EndsWith(p, ext) then [p] else []) + Matching(root, files[1..], ext)
  }

  /** The joined paths of the files of one walk entry. */
  function Paths(root: string, files: seq<string>): set<string> {
    set f | f in files :: Join(root, f)
  }

  /** The matches of one walk entry, extension by extension in table order. */
  function EntryCandidates(root: string, files: seq<string>, keys: seq<(string, string)>)
    : (r: seq<string>)
    ensures forall i :: 0 <= i < |r| ==> r[i] in Paths(root, files) && KeyMatches(keys, r[i])
    ensures forall f :: f in files && KeyMatches(keys, Join(root, f)) ==> Join(root, f) in r
    decreases |keys|
  {
    if keys == [] then []
    else
      var here := if keys[0].0 == DailyLogKey then [] else Matching(root, files, keys[0].0);
      var rest := EntryCandidates(root, files, keys[1..]);
      forall p ensures KeyMatches(keys, p) <==>
        (keys[0].0 != DailyLogKey && EndsWith(p, keys[0].0)) || KeyMatches(keys[1..], p)
      {
        KeyMatchesUnfold(keys, p);
      }
      here + rest
  }

  function Candidates(cfg: Config, walk: seq<WalkEntry>): (r: seq<string>)
    ensures forall i :: 0 <= i < |r| ==> EndsWithTemplateKey(cfg, r[i])
    decreases |walk|
  {
    if walk == [] then []
    else EntryCandidates(walk[0].0, walk[0].1, cfg.templates) + Candidates(cfg, walk[1..])
  }

  /** `p` is the joined path of a file some walk entry lists. */
  ghost predicate InWalk(walk: seq<WalkEntry>, p: string) {
    exists e :: 0 <= e < |walk| && p in Paths(walk[e].0, walk[e].1)
  }

  /** The candidates are exactly the walked files whose path ends with a configured
      extension other than the daily-log key. */
  lemma {:induction false} CandidatesAreMatchingFiles(cfg: Config, walk: seq<WalkEntry>)
    ensures forall i :: 0 <= i < |Candidates(cfg, walk)| ==> InWalk(walk, Candidates(cfg, walk)[i])
    ensures forall e, f ::
      (0 <= e < |walk| && f in walk[e].1 && EndsWithTemplateKey(cfg, Join(walk[e].0, f)))
      ==> Join(walk[e].0, f) in Candidates(cfg, walk)
    decreases |walk|
  {
    if walk != [] {
      CandidatesAreMatchingFiles(cfg, walk[1..]);
      var here := EntryCandidates(walk[0].0, walk[0].1, cfg.templates);
      var rest := Candidates(cfg, walk[1..]);
      assert Candidates(cfg, walk) == here + rest;
      forall i | 0 <= i < |here + rest| ensures InWalk(walk, (here + rest)[i]) {
        if i < |here| {
          assert (here + rest)[i] in Paths(walk[0].0, walk[0].1);
        } else {
          assert InWalk(walk[1..], rest[i - |here|]);
          var e :| 0 <= e < |walk[1..]| && rest[i - |here|] in Paths(walk[1..][e].0, walk[1..][e].1);
          assert walk[1..][e] == walk[e + 1];
        }
      }
      forall e, f | 0 <= e < |walk| && f in walk[e].1 && EndsWithTemplateKey(cfg, Join(walk[e].0, f))
        ensures Join(walk[e].0, f) in here + rest
      {
        if e == 0 {
          var j :| 0 <= j < |cfg.templates| && cfg.templates[j].0 != DailyLogKey
            && EndsWith(Join(walk[e].0, f), cfg.templates[j].0);
          assert Join(walk[e].0, f) in here;
        } else {
          assert walk[e] == walk[1..][e - 1];
          assert Join(walk[e].0, f) in rest;
        }
      }
    }
  }

  /** `p` is what Python's `max(candidates, key=mtime)` returns: a candidate no other
      is newer than, and the first such one. */
  ghost predicate IsFirstNewest(candidates: seq<string>, mtime: string -> int, p: string) {
    exists k :: 0 <= k < |candidates| && candidates[k] == p
      && (forall j :: 0 <= j < |candidates| ==> mtime(candidates[j]) <= mtime(p))
      && (forall j :: 0 <= j < k ==> mtime(candidates[j]) < mtime(p))
  }

  /** The index `max(items, key=mtime)` picks: scanning from the left, a later item
      replaces the best so far only when it is strictly newer. */
  method Newest(items: seq<string>, mtime: string -> int) returns (best: nat)
    requires items != []
    ensures best < |items|
    ensures IsFirstNewest(items, mtime, items[best])
  {
    best := 0;
    var i := 1;
    while i < |items|
      invariant 1 <= i <= |items|
      invariant 0 <= best < i
      invariant forall j :: 0 <= j < i ==> mtime(items[j]) <= mtime(items[best])
      invariant forall j :: 0 <= j < best ==> mtime(items[j]) < mtime(items[best])
    {
      if mtime(items[i]) > mtime(items[best]) {
        best := i;
      }
      i := i + 1;
    }
  }

  /** `get_last_modified(directory)`, with the walk of the directory and the modification
      times given. No candidate makes `max` raise. */
  method GetLastModified(cfg: Config, walk: seq<WalkEntry>, mtime: string -> int)
    returns (r: Outcome<string>)
    ensures r.Raised? <==> Candidates(cfg, walk) == []
    ensures !r.Exited?
    ensures r.Returned? ==> IsFirstNewest(Candidates(cfg, walk), mtime, r.value)
  {
    var candidates := Candidates(cfg, walk);
    if |candidates| == 0 {
      return Raised(Exc("ValueError", "max() arg is an empty sequence"));
    }
    var best := Newest(candidates, mtime);
    return Returned(candidates[best]);
  }

  /** The file `get_last_modified` picks has a configured post extension. */
  lemma LastModifiedHasTemplateExtension(cfg: Config, walk: seq<WalkEntry>, mtime: string -> int, p: string)
    requires IsFirstNewest(Candidates(cfg, walk), mtime, p)
    ensures EndsWithTemplateKey(cfg, p)
  {
    var k :| 0 <= k < |Candidates(cfg, walk)| && Candidates(cfg, walk)[k] == p;
  }
}
