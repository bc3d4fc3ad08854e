/** `commands/author.py`: where an author's profile and posts live, and what creating
    an author writes. */
module Author {
  import opened Text
  import opened PosixPath
  import opened Journal
  import opened Values
  import opened Util

  /** `generate_author_path(username)`: `{root}/content/authors/{username}`. */
  function GenerateAuthorPath(cfg: Config, username: string): (r: string)
    ensures !IsAbs(username) ==> r == ContentRoot(cfg) + "/authors/" + username
  {
    Join(Join(ContentRoot(cfg), "authors"), username)
  }

  /** `generate_author_content_path(username)`: `{root}/content/post/team/{username}`. */
  function GenerateAuthorContentPath(cfg: Config, username: string): (r: string)
    ensures !IsAbs(username) ==> r == ContentRoot(cfg) + "/post/team/" + username
  {
    Join(Join(Join(ContentRoot(cfg), "post"), "team"), username)
  }

  /** A post that is not a daily log is stored directly in the current author's content
      directory, and a daily log in its `daily` sub-directory. */
  lemma PostsLiveInAuthorContentDirectory(cfg: Config, filename: string)
    requires !IsAbs(cfg.username) && !IsAbs(filename)
    ensures !StartsWith(filename, DailyPrefix) ==>
      GeneratePostPath(cfg, filename)
        == GenerateAuthorContentPath(cfg, cfg.username) + "/" + filename
    ensures StartsWith(filename, DailyPrefix) ==>
      GeneratePostPath(cfg, filename)
        == GenerateAuthorContentPath(cfg, cfg.username) + "/daily/" + filename
  {
    var c := ContentRoot(cfg);
    var a := GenerateAuthorContentPath(cfg, cfg.username);
    assert a + "/" == PostDirectory(cfg, false);
    assert a + "/daily/" == PostDirectory(cfg, true);
  }

  /** The bundled templates, `{package}/../templates`, where `package` is the directory of
      the command modules. */
  function TemplatesDirectory(cfg: Config): string {
    Join(cfg.packageDir, "../templates")
  }

  /** `load_author_template()`. */
  function AuthorTemplatePath(cfg: Config): string {
    Join(TemplatesDirectory(cfg), "author.md")
  }

  /** The `_index.md` profile page in an author directory. */
  function AuthorIndexPath(authorPath: string): string {
    Join(authorPath, "_index.md")
  }

  /** The avatar copy in an author directory: `avatar` followed by the extension of the
      given image. */
  function AvatarPath(authorPath: string, avatar: string): string {
    Join(authorPath, "avatar" + Splitext(avatar).1)
  }

  lemma JoinThenExtension(dir: string, ext: string)
    ensures Join(dir, "avatar" + ext) == Join(dir, "avatar") + ext
  {
  }

  /** A path whose base name is `avatar` has no extension. */
  lemma AvatarAloneHasNoExtension(dir: string)
    ensures Splitext(Join(dir, "avatar")).1 == ""
  {
    BasenameOfJoin(dir, "avatar");
    NoDotNoExtension(Join(dir, "avatar"));
  }

  /** The stored avatar keeps the extension of the image it is copied from. */
  lemma AvatarKeepsExtension(authorPath: string, avatar: string)
    ensures Splitext(AvatarPath(authorPath, avatar)).1 == Splitext(avatar).1
    ensures Basename(AvatarPath(authorPath, avatar)) == "avatar" + Splitext(avatar).1
  {
    var ext := Splitext(avatar).1;
    SplitextExtensionShape(avatar);
    var root := Join(authorPath, "avatar");
    JoinThenExtension(authorPath, ext);
    if ext == [] {
      assert root + ext == root;
      AvatarAloneHasNoExtension(authorPath);
    } else {
      assert root[|root| - 1] == 'r';
      assert RFind(root, '/') < |root| - 1;
      SplitextOfRootAndExtension(root, ext);
    }
    BasenameOfJoin(authorPath, "avatar" + ext);
  }

  datatype AuthorStatus =
    | Created(authorPath: string)
    | AlreadyExists(authorPath: string)
      /** The username, name or avatar is missing and would be asked for interactively. */
    | NeedsInput
    | TemplateMissing(templatePath: string)

  /** The user `create_author` sets up: the given username, or else the configured one. */
  function AuthorUser(cfg: Config, username: string): string {
    if username == "" then cfg.username else username
  }

  /** The template context of the author page. */
  function AuthorContext(user: string, name: string): map<string, Value> {
    map["username" := Str(user), "name" := Str(name)]
  }

  /** `create_author(username, name, avatar)`, with an empty string for an argument
      that was not given, the set of existing paths, and the template renderer. An
      existing author directory stops the command before anything is asked or made; the
      two directories are made before the template is looked for. */
  function CreateAuthor(cfg: Config, username: string, name: string, avatar: string,
                        existing: set<string>, render: Renderer): (r: Run<AuthorStatus>)
    ensures var user := AuthorUser(cfg, username);
      user != "" && GenerateAuthorPath(cfg, user) in existing ==>
        r == Run([], Returned(AlreadyExists(GenerateAuthorPath(cfg, user))))
    ensures r.outcome.Returned? && r.outcome.value.AlreadyExists? ==>
      r.effects == [] && r.outcome.value.authorPath in existing
    ensures r.outcome.Returned? && r.outcome.value.NeedsInput? ==>
      r.effects == [] && (AuthorUser(cfg, username) == "" || name == "" || avatar == "")
    ensures r.effects != [] ==>
      var user := AuthorUser(cfg, username);
      && user != "" && name != "" && avatar != ""
      && GenerateAuthorPath(cfg, user) !in existing
      && |r.effects| >= 2
      && r.effects[0] == MakeDirs(GenerateAuthorPath(cfg, user))
      && r.effects[1] == MakeDirs(GenerateAuthorContentPath(cfg, user))
    ensures r.outcome.Returned? && r.outcome.value.TemplateMissing? ==>
      r.outcome.value.templatePath == AuthorTemplatePath(cfg)
      && AuthorTemplatePath(cfg) !in existing && |r.effects| == 2
    ensures r.outcome.Raised? ==>
      && AuthorTemplatePath(cfg) in existing && |r.effects| == 2
      && render(AuthorTemplatePath(cfg), AuthorContext(AuthorUser(cfg, username), name))
           == Error(r.outcome.error)
    ensures r.outcome.Returned? && r.outcome.value.Created? ==>
      var authorPath := r.outcome.value.authorPath;
      && authorPath == GenerateAuthorPath(cfg, AuthorUser(cfg, username))
      && authorPath !in existing
      && AuthorTemplatePath(cfg) in existing
      && |r.effects| == 4
      && r.effects[2].WriteText? && r.effects[2].path == AuthorIndexPath(authorPath)
      && render(AuthorTemplatePath(cfg), AuthorContext(AuthorUser(cfg, username), name))
           == Ok(r.effects[2].text)
      && r.effects[3] == CopyFile(avatar, AvatarPath(authorPath, avatar))
    ensures r.outcome.Returned? && r.outcome.value.AlreadyExists? ==>
      r.outcome.value.authorPath == GenerateAuthorPath(cfg, AuthorUser(cfg, username))
    ensures
      var user := AuthorUser(cfg, username);
      var authorPath := GenerateAuthorPath(cfg, user);
      var dirs := [MakeDirs(authorPath), MakeDirs(GenerateAuthorContentPath(cfg, user))];
      var page := render(AuthorTemplatePath(cfg), AuthorContext(user, name));
      user != "" && name != "" && avatar != "" && authorPath !in existing ==>
        && (AuthorTemplatePath(cfg) !in existing ==>
              r == Run(dirs, Returned(TemplateMissing(AuthorTemplatePath(cfg)))))
        && (AuthorTemplatePath(cfg) in existing && page.Ok? ==>
              r == Run(dirs + [WriteText(AuthorIndexPath(authorPath), page.value),
                               CopyFile(avatar, AvatarPath(authorPath, avatar))],
                       Returned(Created(authorPath))))
    ensures !r.outcome.Exited?
    ensures WritesNoFile(r.effects) <==> !(r.outcome.Returned? && r.outcome.value.Created?)
  {
    var user := AuthorUser(cfg, username);
    if user == "" then Run([], Returned(NeedsInput))
    else
      var authorPath := GenerateAuthorPath(cfg, user);
      if authorPath in existing then Run([], Returned(AlreadyExists(authorPath)))
      else if name == "" || avatar == "" then Run([], Returned(NeedsInput))
      else
        var dirs := [MakeDirs(authorPath), MakeDirs(GenerateAuthorContentPath(cfg, user))];
        assert WritesNoFile(dirs);
        var templatePath := AuthorTemplatePath(cfg);
        if templatePath !in existing then Run(dirs, Returned(TemplateMissing(templatePath)))
        else
          match render(templatePath, AuthorContext(user, name))
          case Ok(output) =>
            var effects := dirs + [WriteText(AuthorIndexPath(authorPath), output),
                                   CopyFile(avatar, AvatarPath(authorPath, avatar))];
            assert Target(effects[2]).Some?;
            Run(effects, Returned(Created(authorPath)))
          case Error(e) => Run(dirs, Raised(e))
  }

  /** For a username without a slash, the author directory is non-empty and ends with
      the username's last character, not with a slash. */
  lemma AuthorPathEndsWithUser(cfg: Config, user: string)
    requires user != "" && '/' !in user
    ensures var authorPath := GenerateAuthorPath(cfg, user);
      authorPath != [] && authorPath[|authorPath| - 1] != '/'
  {
    assert user[0] in user && user[|user| - 1] in user;
    var authorPath := GenerateAuthorPath(cfg, user);
    assert authorPath == ContentRoot(cfg) + "/authors/" + user;
    assert authorPath[|authorPath| - 1] == user[|user| - 1];
  }

  /** `"avatar"` followed by an extension holds no slash. */
  lemma AvatarNameHasNoSlash(avatar: string)
    ensures '/' !in "avatar" + Splitext(avatar).1
  {
    var ext := Splitext(avatar).1;
    SplitextExtensionShape(avatar);
    forall i | 0 <= i < |"avatar" + ext| ensures ("avatar" + ext)[i] != '/' {
      if i >= 6 { assert ("avatar" + ext)[i] == ext[i - 6]; }
    }
  }

  /** The profile page and the avatar copy sit directly in the author directory that was
      made, for a username without a slash. */
  lemma AuthorFilesInAuthorDirectory(cfg: Config, user: string, avatar: string)
    requires user != "" && '/' !in user
    ensures var authorPath := GenerateAuthorPath(cfg, user);
      && Dirname(AuthorIndexPath(authorPath)) == authorPath
      && Basename(AuthorIndexPath(authorPath)) == "_index.md"
      && Dirname(AvatarPath(authorPath, avatar)) == authorPath
  {
    var authorPath := GenerateAuthorPath(cfg, user);
    AuthorPathEndsWithUser(cfg, user);
    assert '/' !in "_index.md";
    DirnameOfJoin(authorPath, "_index.md");
    BasenameOfJoin(authorPath, "_index.md");
    AvatarNameHasNoSlash(avatar);
    DirnameOfJoin(authorPath, "avatar" + Splitext(avatar).1);
  }
}
