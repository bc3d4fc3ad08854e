/** The parts of Python's `posixpath` the tool calls: `join`, `splitext`, `basename`,
    `dirname`, `isabs` and (without normalisation) `abspath`. A path is a plain string. */
module PosixPath {
  import opened Text

  predicate IsAbs(p: string) { |p| > 0 && p[0] == '/' }

  /** `os.path.join(a, b)`. An absolute `b` replaces `a`; otherwise `b` is appended,
      with one `/` inserted only when `a` is non-empty and does not already end in `/`.
      `os.path.join(a, b, c)` is `Join(Join(a, b), c)`. */
  function Join(a: string, b: string): string
  {
    if IsAbs(b) then b
    else if a == [] || a[|a| - 1] == '/' then a + b
    else a + "/" + b
  }

  /** Index of the last occurrence of `c` in `s`, or -1 (`str.rfind`). */
  function RFind(s: string, c: char): (i: int)
    ensures -1 <= i < |s|
    ensures i >= 0 ==> s[i] == c
    ensures forall j :: i < j < |s| ==> s[j] != c
    decreases |s|
  {
    if s == [] then -1
    else if s[|s| - 1] == c then |s| - 1
    else RFind(s[..|s| - 1], c)
  }

  lemma RFindUnique(s: string, c: char, i: int)
    requires -1 <= i < |s|
    requires i >= 0 ==> s[i] == c
    requires forall j :: i < j < |s| ==> s[j] != c
    ensures RFind(s, c) == i
  {
    if s != [] && s[|s| - 1] != c {
      RFindUnique(s[..|s| - 1], c, i);
    }
  }

  /** `os.path.basename`: everything after the last `/`. */
  function Basename(p: string): (r: string)
    ensures '/' !in r
    ensures EndsWith(p, r)
  {
    p[RFind(p, '/') + 1..]
  }

  predicate AllSlashes(s: string) { forall i :: 0 <= i < |s| ==> s[i] == '/' }

  function StripTrailingSlashes(s: string): (r: string)
    ensures |r| <= |s| && r == s[..|r|]
    ensures r == [] || r[|r| - 1] != '/'
    decreases |s|
  {
    if s != [] && s[|s| - 1] == '/' then StripTrailingSlashes(s[..|s| - 1]) else s
  }

  /** `os.path.dirname`: everything up to the last `/`, with trailing slashes removed
      unless the head consists only of slashes. */
  function Dirname(p: string): string {
    var head := p[..RFind(p, '/') + 1];
    if head != [] && !AllSlashes(head) then StripTrailingSlashes(head) else head
  }

  /** A file name has an extension when some dot in it comes after a character that
      is not a dot; leading dots alone (`.bashrc`, `..md`) do not make one. */
  predicate HasExtension(name: string) {
    exists i, j :: 0 <= i < j < |name| && name[i] != '.' && name[j] == '.'
  }

  /** Some character of `p[lo..hi]` is not a dot. */
  predicate NonDotBetween(p: string, lo: int, hi: int)
    requires 0 <= lo && hi <= |p|
  {
    exists k :: lo <= k < hi && p[k] != '.'
  }

  /** `os.path.splitext`: `(root, ext)` where `ext` runs from the last dot to the end when
      that dot lies in the base name after a character other than a dot, and is empty
      otherwise. */
  function Splitext(p: string): (parts: (string, string))
    ensures parts.0 + parts.1 == p
    ensures parts.1 == [] || parts.1[0] == '.'
  {
    var sepIndex := RFind(p, '/');
    var dotIndex := RFind(p, '.');
    if dotIndex > sepIndex && NonDotBetween(p, sepIndex + 1, dotIndex) then
      (p[..dotIndex], p[dotIndex..])
    else
      (p, "")
  }

  /** The extension holds exactly one dot, its first character, and no slash. */
  lemma SplitextExtensionShape(p: string)
    ensures var ext := Splitext(p).1;
      ext != [] ==> '.' !in ext[1..] && '/' !in ext
  {
    var sepIndex := RFind(p, '/');
    var dotIndex := RFind(p, '.');
    var ext := Splitext(p).1;
    if ext != [] {
      assert ext == p[dotIndex..];
      forall j | 1 <= j < |ext| ensures ext[j] != '.' && ext[j] != '/' {
        assert ext[j] == p[dotIndex + j];
      }
      assert ext[0] == '.';
      assert '.' !in ext[1..] by {
        forall j | 0 <= j < |ext[1..]| ensures ext[1..][j] != '.' {
          assert ext[1..][j] == ext[j + 1];
        }
      }
    }
  }

  /** A non-empty extension comes from a dot in the base name after a character that is
      not a dot. */
  lemma ExtensionFromBasename(p: string)
    requires Splitext(p).1 != []
    ensures HasExtension(Basename(p))
  {
    var sepIndex := RFind(p, '/');
    var dotIndex := RFind(p, '.');
    // Otherwise `Splitext` returns an empty extension.
    assert dotIndex > sepIndex && NonDotBetween(p, sepIndex + 1, dotIndex) by {
      if !(dotIndex > sepIndex && NonDotBetween(p, sepIndex + 1, dotIndex)) {
        assert false;
      }
    }
    var name := p[sepIndex + 1..];
    assert name == Basename(p);
    var k :| sepIndex + 1 <= k < dotIndex && p[k] != '.';
    var i, j := k - sepIndex - 1, dotIndex - sepIndex - 1;
    assert 0 <= i < j < |name| && name[i] == p[k] && name[j] == p[dotIndex];
  }

  /** A base name with an extension gives a non-empty extension. */
  lemma BasenameGivesExtension(p: string)
    requires HasExtension(Basename(p))
    ensures Splitext(p).1 != []
  {
    var sepIndex := RFind(p, '/');
    var dotIndex := RFind(p, '.');
    var name := Basename(p);
    assert name == p[sepIndex + 1..];
    var i, j :| 0 <= i < j < |name| && name[i] != '.' && name[j] == '.';
    assert p[sepIndex + 1 + j] == name[j];
    assert p[sepIndex + 1 + i] == name[i];
    assert sepIndex + 1 + j <= dotIndex;
    assert NonDotBetween(p, sepIndex + 1, dotIndex);
  }

  /** The extension is non-empty exactly when the base name has an extension. */
  lemma SplitextHasExtension(p: string)
    ensures Splitext(p).1 != [] <==> HasExtension(Basename(p))
  {
    if Splitext(p).1 != [] {
      ExtensionFromBasename(p);
    }
    if HasExtension(Basename(p)) {
      BasenameGivesExtension(p);
    }
  }

  /** A path whose base name holds no dot has no extension. */
  lemma NoDotNoExtension(p: string)
    requires '.' !in Basename(p)
    ensures Splitext(p).1 == ""
  {
    var s := RFind(p, '/');
    var name := Basename(p);
    assert name == p[s + 1..];
    forall j | s < j < |p| ensures p[j] != '.' {
      assert p[j] == name[j - s - 1];
    }
    assert RFind(p, '.') <= s;
  }

  /** `os.path.abspath` for a path that is already normalised: a relative path is
      resolved against the working directory `cwd`. */
  function AbsPath(cwd: string, p: string): (r: string)
    ensures IsAbs(cwd) ==> IsAbs(r)
  {
    if IsAbs(p) then p else if p == [] then cwd else Join(cwd, p)
  }

  /** `basename` undoes `join` for a last component without a slash. */
  lemma BasenameOfJoin(a: string, b: string)
    requires '/' !in b
    ensures Basename(Join(a, b)) == b
  {
    var r := Join(a, b);
    var n := |r| - |b|;
    assert n == 0 || r[n - 1] == '/';
    RFindUnique(r, '/', n - 1);
  }

  /** `dirname` undoes `join` when the directory is non-empty and has no trailing slash. */
  lemma DirnameOfJoin(a: string, b: string)
    requires a != [] && a[|a| - 1] != '/'
    requires '/' !in b
    ensures Dirname(Join(a, b)) == a
  {
    var r := Join(a, b);
    assert r == a + "/" + b;
    RFindUnique(r, '/', |a|);
    var head := r[..|a| + 1];
    assert head == a + "/";
    assert head[|a| - 1] != '/';
    assert StripTrailingSlashes(head) == StripTrailingSlashes(a);
  }

  /** Joining onto a longer directory only extends the result on the left. */
  lemma JoinExtendLeft(prefix: string, dir: string, b: string)
    requires dir != []
    requires !IsAbs(b)
    ensures Join(prefix + dir, b) == prefix + Join(dir, b)
  {
    assert (prefix + dir)[|prefix + dir| - 1] == dir[|dir| - 1];
  }

  /** A relative component is appended after `Join(dir, "")`, which is `dir` with at most
      one slash added. */
  lemma JoinRelative(dir: string, b: string)
    requires !IsAbs(b)
    ensures Join(dir, b) == Join(dir, "") + b
  {
  }

  /** `splitext` undoes appending an extension to a root whose base name is not only dots. */
  lemma SplitextOfRootAndExtension(root: string, ext: string)
    requires |ext| >= 1 && ext[0] == '.' && '.' !in ext[1..] && '/' !in ext
    requires exists k :: RFind(root, '/') < k < |root| && root[k] != '.'
    ensures Splitext(root + ext) == (root, ext)
  {
    var p := root + ext;
    var s := RFind(root, '/');
    RFindUnique(p, '/', s);
    RFindUnique(p, '.', |root|);
    var k :| s < k < |root| && root[k] != '.';
    assert p[k] != '.';
    assert p[..|root|] == root;
  }

  lemma RFindLower(s: string, c: char)
    requires c == '/' || c == '.'
    ensures RFind(Lower(s), c) == RFind(s, c)
  {
    var i := RFind(s, c);
    RFindUnique(Lower(s), c, i);
  }

  /** Lower-casing a path before splitting it lower-cases the root and the extension. */
  lemma SplitextOfLower(p: string)
    ensures Splitext(Lower(p)) == (Lower(Splitext(p).0), Lower(Splitext(p).1))
  {
    var q := Lower(p);
    RFindLower(p, '/');
    RFindLower(p, '.');
    var sepIndex := RFind(p, '/');
    var dotIndex := RFind(p, '.');
    if dotIndex > sepIndex {
      assert NonDotBetween(q, sepIndex + 1, dotIndex) <==> NonDotBetween(p, sepIndex + 1, dotIndex) by {
        forall k | sepIndex + 1 <= k < dotIndex ensures (q[k] != '.' <==> p[k] != '.') {
        }
      }
      assert q[..dotIndex] == Lower(p[..dotIndex]);
      assert q[dotIndex..] == Lower(p[dotIndex..]);
    }
    assert Lower("") == "";
  }
}
