/** `commands/create.py`: choosing the template for a new post, deriving its title, and
    what creating the post writes. */
module Create {
  import opened Text
  import opened PosixPath
  import opened Journal
  import opened Values
  import opened Util
  import Author

  /** What `path.isabs(None)` raises when the `templates` table has no entry for a key. */
  const NoTemplateError: Exc :=
    Exc("TypeError", "expected str, bytes or os.PathLike object, not NoneType")

  /** The `templates` key a post uses: `daily_log` for a daily log, and otherwise the
      lower-cased extension without its dot (empty when there is no extension). */
  function TemplateKey(filename: string, daily: bool): string {
    if daily then DailyLogKey else DropFirst(Splitext(Lower(filename)).1)
  }

  /** `load_template(filename, daily)`. The template configured for the key is kept when
      it is absolute and looked up among the bundled templates otherwise; a missing key
      raises. `..` is not normalised away. */
  function LoadTemplate(cfg: Config, filename: string, daily: bool): (r: Result<string>)
    ensures r.Error? <==> !exists i :: 0 <= i < |cfg.templates| && cfg.templates[i].0 == TemplateKey(filename, daily)
    ensures r.Error? ==> r.error == NoTemplateError
    ensures r.Ok? ==>
      exists i :: (0 <= i < |cfg.templates|
        && cfg.templates[i].0 == TemplateKey(filename, daily)
        && (IsAbs(cfg.templates[i].1) ==> r.value == cfg.templates[i].1)
        && (!IsAbs(cfg.templates[i].1) ==> r.value == Join(Author.TemplatesDirectory(cfg), cfg.templates[i].1)))
  {
    match TemplateFor(cfg, TemplateKey(filename, daily))
    case None => Error(NoTemplateError)
    case Some(t) => Ok(if IsAbs(t) then t else Join(Author.TemplatesDirectory(cfg), t))
  }

  /** The name of today's daily log, for the date formatted as `MM-DD-YYYY`. */
  function DailyFileName(today: string): (name: string)
    ensures StartsWith(name, DailyPrefix) && EndsWith(name, ".md")
  {
    var name := DailyPrefix + "-" + today + ".md";
    assert name[..|DailyPrefix|] == DailyPrefix;
    name
  }

  lemma DailyRootHasNoSlash(today: string)
    requires '/' !in today
    ensures RFind(DailyPrefix + "-" + today, '/') == -1
  {
    var root := DailyPrefix + "-" + today;
    forall j | 0 <= j < |root| ensures root[j] != '/' {
      if j >= |DailyPrefix| + 1 {
        assert root[j] == today[j - |DailyPrefix| - 1];
      }
    }
    RFindUnique(root, '/', -1);
  }

  lemma DailySplitext(today: string)
    requires '/' !in today
    ensures Splitext(DailyFileName(today)).1 == ".md"
  {
    var root := DailyPrefix + "-" + today;
    DailyRootHasNoSlash(today);
    assert DailyFileName(today) == root + ".md";
    assert root[0] != '.';
    SplitextOfRootAndExtension(root, ".md");
  }

  /** A date without a slash gives a daily log whose template key, read off its
      extension the way any other post's is, is `md`. */
  lemma DailyFileNameExtension(today: string)
    requires '/' !in today
    ensures TemplateKey(DailyFileName(today), false) == "md"
  {
    var name := DailyFileName(today);
    DailySplitext(today);
    SplitextOfLower(name);
    var ext := Splitext(Lower(name)).1;
    assert ext == Lower(".md");
    assert ext == ".md" by {
      assert |ext| == 3 && ext[0] == '.' && ext[1] == 'm' && ext[2] == 'd';
    }
  }

  /** The title put in the template context: the lower-cased file name without its
      extension, with `_` and then `-` replaced by spaces. */
  function Title(filename: string): string {
    ReplaceAll(ReplaceAll(Splitext(Lower(filename)).0, "_", " "), "-", " ")
  }

  /** The title is the lower-cased stem with each `_` and `-` turned into a space, so it
      has the stem's length and neither character is left. */
  lemma TitleShape(filename: string)
    ensures var stem := Splitext(Lower(filename)).0;
      && |Title(filename)| == |stem|
      && (forall i :: 0 <= i < |stem| ==>
            Title(filename)[i] == (if stem[i] == '_' || stem[i] == '-' then ' ' else stem[i]))
      && '_' !in Title(filename) && '-' !in Title(filename)
  {
    var stem := Splitext(Lower(filename)).0;
    ReplaceCharIsMap(stem, '_', ' ');
    var once := ReplaceAll(stem, "_", " ");
    ReplaceCharIsMap(once, '-', ' ');
  }

  datatype CreateStatus =
      /** The current author has no profile yet; the interactive author setup runs
          before anything else. */
    | AuthorMissing(authorPath: string)
    | UnknownExtension(filename: string)
    | TemplateMissing(templatePath: string)
    | AlreadyExists(path: string)
    | Created(path: string)

  /** The template context: `now` is the clock function itself. */
  function Context(cfg: Config, title: string): map<string, Value> {
    map["now" := Other("builtin_function_or_method", true),
        "username" := Str(cfg.username),
        "title" := Str(title)]
  }

  /** `create(filename, template)`, with an empty string for an argument that was not
      given, today's date as `MM-DD-YYYY`, whether the editor is enabled, the set of
      existing paths, and the template renderer. With the editor enabled the process
      exits with status 0 once the post is written.

      A template that does not exist is reported; as written, it is then handed to the
      renderer anyway, which raises `TemplateNotFound` with its base name
      (`stopOnMissingTemplate` false). With `stopOnMissingTemplate` true the command stops
      there instead, as the data set command does. */
  function CreatePost(cfg: Config, filename: string, template: string, today: string,
                      editorEnabled: bool, existing: set<string>, render: Renderer,
                      stopOnMissingTemplate: bool)
    : (r: Run<CreateStatus>)
    ensures |r.effects| <= 1
    ensures r.outcome.Returned? && r.outcome.value.TemplateMissing? ==>
      stopOnMissingTemplate && r.effects == [] && r.outcome.value.templatePath !in existing
    ensures r.outcome.Returned? && r.outcome.value.AuthorMissing? ==>
      r.effects == [] && r.outcome.value.authorPath !in existing
    ensures r.outcome.Returned? && r.outcome.value.UnknownExtension? ==>
      var name := r.outcome.value.filename;
      && r.effects == []
      && !exists i :: 0 <= i < |cfg.templates| && cfg.templates[i].0 == TemplateKey(name, false)
    ensures r.outcome.Returned? && r.outcome.value.AlreadyExists? ==>
      r.effects == [] && r.outcome.value.path in existing
    ensures r.outcome.Raised? ==> r.effects == []
    ensures r.outcome.Exited? ==> r.outcome.status == 0 && editorEnabled
    ensures r.effects != [] <==> (r.outcome.Exited? || (r.outcome.Returned? && r.outcome.value.Created?))
    ensures r.effects != [] ==>
      var name := if filename == "" then DailyFileName(today) else filename;
      var chosen := ChosenTemplate(cfg, name, template, filename == "");
      && r.effects[0].WriteText?
      && r.effects[0].path == GeneratePostPath(cfg, name)
      && r.effects[0].path !in existing
      && chosen.Ok? && chosen.value in existing
      && render(chosen.value, Context(cfg, Title(name))) == Ok(r.effects[0].text)
      && (r.outcome.Returned? ==> r.outcome.value == Created(r.effects[0].path))
    ensures r.outcome.Returned? && r.outcome.value.AuthorMissing? ==>
      r.outcome.value.authorPath == Author.GenerateAuthorPath(cfg, cfg.username)
    ensures
      var name := if filename == "" then DailyFileName(today) else filename;
      var chosen := ChosenTemplate(cfg, name, template, filename == "");
      && (r.outcome.Raised? ==>
            || (chosen.Error? && r.outcome.error == chosen.error)
            || (chosen.Ok? && chosen.value !in existing && !stopOnMissingTemplate
                && r.outcome.error == Exc("TemplateNotFound", Basename(chosen.value)))
            || (chosen.Ok? && chosen.value in existing
                && render(chosen.value, Context(cfg, Title(name))) == Error(r.outcome.error)))
      && (r.outcome.Returned? && r.outcome.value.TemplateMissing? ==>
            chosen == Ok(r.outcome.value.templatePath))
      && (r.outcome.Returned? && r.outcome.value.AlreadyExists? ==>
            r.outcome.value.path == GeneratePostPath(cfg, name))
    ensures
      var name := if filename == "" then DailyFileName(today) else filename;
      var chosen := ChosenTemplate(cfg, name, template, filename == "");
      var filepath := GeneratePostPath(cfg, name);
      Author.GenerateAuthorPath(cfg, cfg.username) in existing
      && TemplateFor(cfg, TemplateKey(name, false)).Some?
      && chosen.Ok? && chosen.value in existing
      && render(chosen.value, Context(cfg, Title(name))).Ok?
      && filepath !in existing
      ==> r == Run([WriteText(filepath, render(chosen.value, Context(cfg, Title(name))).value)],
                   if editorEnabled then Exited(0) else Returned(Created(filepath)))
  {
    match Prepare(cfg, filename, template, today, existing)
    case Finished(run) => run
    case Ready(name, filepath, templatePath) =>
      if templatePath !in existing then
        if stopOnMissingTemplate then Run([], Returned(TemplateMissing(templatePath)))
        else Run([], Raised(Exc("TemplateNotFound", Basename(templatePath))))
      else
        match render(templatePath, Context(cfg, Title(name)))
        case Error(e) => Run([], Raised(e))
        case Ok(output) =>
          if filepath in existing then Run([], Returned(AlreadyExists(filepath)))
          else if editorEnabled then Run([WriteText(filepath, output)], Exited(0))
          else Run([WriteText(filepath, output)], Returned(Created(filepath)))
  }

  /** The template `create` renders: the one given, or else the one `load_template`
      finds for the post. */
  function ChosenTemplate(cfg: Config, name: string, template: string, daily: bool): Result<string> {
    if template != "" then Ok(template) else LoadTemplate(cfg, name, daily)
  }

  /** Where `create` stands once its template is chosen: the command is over, or the
      post's name and path and the template to render are known. */
  datatype Prepared =
    | Finished(run: Run<CreateStatus>)
    | Ready(name: string, filepath: string, templatePath: string)

  /** The steps of `create` before the template is checked: the author, the daily-log
      name, the extension, and the choice of template. */
  function Prepare(cfg: Config, filename: string, template: string, today: string,
                   existing: set<string>): Prepared {
    var authorPath := Author.GenerateAuthorPath(cfg, cfg.username);
    if authorPath !in existing then Finished(Run([], Returned(AuthorMissing(authorPath))))
    else
      var daily := filename == "";
      var name := if daily then DailyFileName(today) else filename;
      if TemplateFor(cfg, TemplateKey(name, false)).None? then
        Finished(Run([], Returned(UnknownExtension(name))))
      else
        match ChosenTemplate(cfg, name, template, daily)
        case Error(e) => Finished(Run([], Raised(e)))
        case Ok(templatePath) => Ready(name, GeneratePostPath(cfg, name), templatePath)
  }

  /** A file name whose extension has no template is refused, and nothing is written. */
  lemma UnknownExtensionIsRefused(cfg: Config, filename: string, template: string, today: string,
                                  editorEnabled: bool, existing: set<string>, render: Renderer,
                                  stopOnMissingTemplate: bool)
    requires Author.GenerateAuthorPath(cfg, cfg.username) in existing
    requires filename != ""
    ensures (CreatePost(cfg, filename, template, today, editorEnabled, existing, render, stopOnMissingTemplate)
               == Run([], Returned(UnknownExtension(filename))))
      <==> !exists i :: 0 <= i < |cfg.templates| && cfg.templates[i].0 == TemplateKey(filename, false)
  {
  }

  /** Without a file name, the post is today's daily log, stored in the `daily/`
      sub-directory of the author's posts. */
  lemma DailyLogLandsInDaily(cfg: Config, template: string, today: string,
                             editorEnabled: bool, existing: set<string>, render: Renderer,
                             stopOnMissingTemplate: bool)
    ensures var r := CreatePost(cfg, "", template, today, editorEnabled, existing, render,
                                stopOnMissingTemplate);
      r.effects != [] ==>
        r.effects[0].path == PostDirectory(cfg, true) + DailyFileName(today)
  {
  }

  /** As written, a post whose template is given but does not exist crashes with
      `TemplateNotFound` after the "not found" message, although no file is written. */
  lemma MissingTemplateRaises(cfg: Config, filename: string, template: string, today: string,
                              editorEnabled: bool, existing: set<string>, render: Renderer)
    requires Author.GenerateAuthorPath(cfg, cfg.username) in existing
    requires filename != "" && template != "" && template !in existing
    requires TemplateFor(cfg, TemplateKey(filename, false)).Some?
    ensures CreatePost(cfg, filename, template, today, editorEnabled, existing, render, false)
      == Run([], Raised(Exc("TemplateNotFound", Basename(template))))
  {
  }

  /** Stopping at a missing template reports it and ends the command cleanly: nothing is
      rendered, nothing is written, nothing is raised. Exactly there the as-written
      command raises `TemplateNotFound` instead; in every other case the two agree. */
  lemma MissingTemplateStops(cfg: Config, filename: string, template: string, today: string,
                             editorEnabled: bool, existing: set<string>, render: Renderer)
    ensures var asWritten := CreatePost(cfg, filename, template, today, editorEnabled, existing, render, false);
      var stopped := CreatePost(cfg, filename, template, today, editorEnabled, existing, render, true);
      && (stopped.outcome.Returned? && stopped.outcome.value.TemplateMissing? ==>
            && stopped.effects == []
            && asWritten == Run([], Raised(Exc("TemplateNotFound", Basename(stopped.outcome.value.templatePath)))))
      && (!(stopped.outcome.Returned? && stopped.outcome.value.TemplateMissing?) ==> stopped == asWritten)
  {
    var p := Prepare(cfg, filename, template, today, existing);
    if p.Ready? && p.templatePath !in existing {
      assert CreatePost(cfg, filename, template, today, editorEnabled, existing, render, true)
        == Run([], Returned(TemplateMissing(p.templatePath)));
    }
  }
}
