# journal-cli core in Dafny

A model of the core of `journal-cli`, the command-line tool that writes posts, author
profiles and data-set pages into a Hugo publishing tree. The model covers:

- the shared helpers of `commands/util.py`:
  - the title slug;
  - where posts and images live;
  - the search for the newest post file;
- `create` (`commands/create.py`): template choice, title, and the post it writes;
- `author` (`commands/author.py`): author paths, and what creating an author writes;
- `dataset` (`commands/dataset.py`): the name and format taken from the location, the
  automatic schema, and the page it writes;
- the converters:
  - R Markdown reports knitted by blogdown (`converters/rmd.py`): companion files,
    the front-matter scan, the whitelist and author promotion, figure copying, and link
    rewriting;
  - Jupyter notebooks (`converters/ipynb.py`): the post slug, the names of extracted
    images, and where they are saved;
  - the dispatcher that picks a converter by extension (`converters/__init__.py`).

How the model represents the program:

- **Effects.** Every command is a pure function. It returns the file-system changes it
  makes, as a sequence of `Effect`s, and how the Python call ends: a return value, an
  exception, or `sys.exit`. These are bundled in a `Run`.
- **Inputs.** What a command reads from the machine is a parameter:
  - the configuration;
  - the set of existing paths;
  - the working directory;
  - file contents;
  - the clock, as an already formatted string.
- **Libraries.** Library calls are function-valued parameters. The ones that can fail
  return `Ok` or `Error`: Jinja rendering, the YAML loader, the pandas readers, the
  notebook reader and the Markdown exporter. The YAML dumper and the HTML serialiser
  are plain string-valued functions, which cannot fail in the model. The knitted HTML
  page comes in already parsed, as its nodes in document order.
- **Python's standard library.** The parts the core relies on are written out in
  `text.dfy` and `posixpath.dfy`:
  - `os.path.join`, `splitext`, `basename`, `dirname`;
  - `str.lower`, `strip`, `replace`, `split`, `join`;
  - `str(n)`.

Files:

| file | module | models |
|---|---|---|
| `text.dfy` | `Text` | the string operations |
| `posixpath.dfy` | `PosixPath` | the path operations |
| `journal.dfy` | `Values`, `Journal` | Python values, configuration, effects, outcomes |
| `util.dfy` | `Util` | `commands/util.py` |
| `author.dfy` | `Author` | `commands/author.py` |
| `create.dfy` | `Create` | `commands/create.py` |
| `dataset.dfy` | `Dataset` | `commands/dataset.py` |
| `rmd.dfy` | `Rmd` | `converters/rmd.py` |
| `ipynb.dfy` | `Ipynb` | `converters/ipynb.py` |
| `converters.dfy` | `Converters` | `converters/__init__.py` |

Where the code differs from what one might expect, the model follows the code:

- **Slugs are per character.** `generate_slug` turns each character outside
  `[a-zA-Z0-9\-_.]` into its own `-`, so `"Hello, World!"` becomes `hello--world`
  (`Util.SlugOfHelloWorld`). A run of such characters is not collapsed into one `-`.
- **`author` and `authors` can both survive.** The R Markdown front matter keeps both
  keys when `authors` is already set (`Rmd.AuthorAndAuthorsCoexist`); the promotion only
  fires when `authors` is missing or falsy.
- **The post header is written first.** The R Markdown converter writes the post header
  before the page is rewritten. An image without `src` therefore leaves a post that holds
  only its header, and the error is raised.
- **The notebook slug is not slugified.** It is the notebook's file name without its
  extension, so spaces and capitals are kept (`Ipynb.PostSlugIsNotSlugified`).
- **An unknown data-set extension still returns no schema.** It only prints a warning,
  and the code goes on. But no reader runs, and the name error that follows is swallowed.
  So no schema comes back, as if it had returned.
- **The R Markdown source is looked up as `{stem}.Rmd`.** The `R` is capital, whatever
  the case of the path the dispatcher accepted.

## Model

| member | source | states |
|---|---|---|
| `Util.SubstituteSpecialSettles` | commands/util.py:165 | after substitution only characters of `[a-zA-Z0-9\-_.]` remain, so a second substitution changes nothing; a string comes back unchanged exactly when all its characters are in that class |
| `Util.TrimTrailing` | commands/util.py:167 | the result is a prefix of the input that is empty or ends in a letter or digit, and every character removed is neither |
| `Util.GenerateSlug` | commands/util.py:155-168 | the slug holds only lower-case letters, digits, `-`, `_` and `.`; it is empty or ends in a letter or digit; and it meets `SlugOf`, a description in terms of the title's own characters |
| `Util.SlugOfDeterminesSlug` | commands/util.py:155-168 | `SlugOf(title, s)` holds exactly when `s` is the slug of `title`, in both directions |
| `Util.GenerateSlugIdempotent` | commands/util.py:155-168 | slugging a slug gives it back unchanged |
| `Util.SlugOfHelloWorld` | commands/util.py:163-167 | `"Hello, World!"` slugs to `hello--world`: one `-` per special character, and only the trailing `!` is trimmed |
| `Util.GeneratePostPath` | commands/util.py:134-152 | an absolute file name is returned as is; a relative one is placed in the author's team directory, and in its `daily/` sub-directory exactly when the name starts with `daily-log` |
| `Util.PostPathLayout` | commands/util.py:147-151 | for a root without a trailing slash, a post lands at `{root}/content/post/team/{user}/[daily/]{filename}` |
| `Util.GenerateImagePath` | commands/util.py:116-131 | an absolute file name replaces the whole path; a relative one ends the path |
| `Util.ImagePathIsStaticPlusUrl` | commands/util.py:130-131 | the stored image path is `{root}/static` followed by the public URL `/images/team/{user}/{slug}/{filename}` |
| `Util.ImagePathLayout` | commands/util.py:130-131 | for plain components, an image lands at `{root}/static/images/team/{user}/{slug}/{filename}` |
| `Util.Matching` | commands/util.py:44-47 | the `fnmatch` filter keeps exactly the joined paths of a directory's files that end with the extension |
| `Util.EntryCandidates` | commands/util.py:41-47 | one walked directory contributes exactly its files ending with a configured key other than `daily_log` |
| `Util.Candidates` | commands/util.py:37-47 | every collected path ends with a configured key other than `daily_log` |
| `Util.CandidatesAreMatchingFiles` | commands/util.py:37-47 | the collected paths are exactly the walked files that end with a configured key other than `daily_log`, in both directions |
| `Util.Newest` | commands/util.py:49 | for a non-empty list, the index `max` by modification time picks: no item is newer, and every earlier item is strictly older |
| `Util.GetLastModified` | commands/util.py:28-49 | raises exactly when nothing was collected; otherwise returns what `max` by modification time returns: a newest candidate, and the first of the newest |
| `Util.LastModifiedHasTemplateExtension` | commands/util.py:41-49 | the file picked has a configured post extension |
| `Author.GenerateAuthorPath` | commands/author.py:22-28 | a relative username gives `{root}/content/authors/{username}` |
| `Author.GenerateAuthorContentPath` | commands/author.py:31-38 | a relative username gives `{root}/content/post/team/{username}` |
| `Author.PostsLiveInAuthorContentDirectory` | commands/author.py:31-38 | a post is stored directly in the current author's content directory, and a daily log in its `daily/` sub-directory |
| `Author.AvatarAloneHasNoExtension` | commands/author.py:75-76 | a path whose base name is `avatar` has no extension |
| `Author.AvatarKeepsExtension` | commands/author.py:72-76 | the stored avatar is named `avatar` followed by the image's extension, and so keeps that extension |
| `Author.CreateAuthor` | commands/author.py:41-91 | with the username given or taken from the configuration, an existing author directory `generate_author_path(username)` means nothing is done; otherwise, once all inputs are known, the author directory and then `generate_author_content_path(username)` are made; a missing template stops there; a failing render raises with the template and context `{username, name}`; a created author gets `_index.md` written with the rendered text and then the avatar copied; conversely, with all inputs known, the author absent, the template present and the render succeeding, exactly those four effects happen and the author is created; the command never exits, and a file is written exactly when the author is created |
| `Author.AuthorFilesInAuthorDirectory` | commands/author.py:74-76 | for a slash-free username, `_index.md` and the avatar copy sit directly in the author directory |
| `Create.LoadTemplate` | commands/create.py:13-35 | raises exactly when the `templates` table has no entry for the key (`daily_log` for a daily post, the lower-cased extension otherwise); an absolute entry is used as is, a relative one under the bundled templates |
| `Create.DailyFileName` | commands/create.py:66-69 | today's log name starts with `daily-log` and ends with `.md` |
| `Create.DailyFileNameExtension` | commands/create.py:66-75 | the extension check treats a daily log as an `md` file |
| `Create.TitleShape` | commands/create.py:74-85 | the title is the lower-cased stem with every `_` and `-` turned into a space: the same length, and neither character left |
| `Create.CreatePost` | commands/create.py:46-109 | writes at most one file, exactly when the post is created (or the editor then exits with 0), at the post path for the name and never over an existing file, holding the render of the chosen template, which exists, with `now`, the username and the title as context; conversely, with the author present, a known extension, the chosen template present, a successful render and no post at the path, exactly that write happens and the command returns `Created` or exits with 0 as the editor setting says; the refusals (author missing, unknown extension, existing post, at the post path for the name) and exceptions write nothing, and every exception is the template lookup's, the missing template's `TemplateNotFound`, or the render's; a `TemplateMissing` status only comes with `stopOnMissingTemplate`, the corrected behaviour of the finding below |
| `Create.UnknownExtensionIsRefused` | commands/create.py:74-83 | a named post is refused with nothing written exactly when its extension has no template |
| `Create.DailyLogLandsInDaily` | commands/create.py:65-71 | without a file name, the post written is today's log in the author's `daily/` directory |
| `Create.MissingTemplateRaises` | commands/create.py:90-94 | as written, a template that does not exist is reported and then rendered anyway, which raises `TemplateNotFound` |
| `Create.MissingTemplateStops` | commands/create.py:90-94 | stopping at a missing template writes nothing and raises nothing, and differs from the as-written command only where that one raises `TemplateNotFound` |
| `Dataset.ReaderFor` | commands/dataset.py:84-95 | each reader is chosen exactly for its own extensions: `.csv`, `.tsv`, `.json`, `.parquet`, and `.xls` or `.xlsx` for Excel; any other extension gets no reader |
| `Dataset.SchemaLine` | commands/dataset.py:97-100 | an entry reads `- {field}: {kind} [No description]` and holds no newline when its parts hold none |
| `Dataset.SchemaLineInjective` | commands/dataset.py:97-100 | for column names without `:`, the entry determines the column name and the dtype name |
| `Dataset.SchemaTextLines` | commands/dataset.py:97-105 | splitting the schema text at newlines gives back the entries, one per column |
| `Dataset.AutoParseSchema` | commands/dataset.py:49-110 | a schema comes back exactly when the file exists, pandas is installed, the size is at most 100e6 bytes, the extension is known and the reader succeeds; the schema is the entries of the columns the reader found |
| `Dataset.NameAndFormatSpellFileName` | commands/dataset.py:133-141 | without a given name, the name, a dot and the format spell the lower-cased file name; the format holds no dot and no slash |
| `Dataset.GenerateDatasetPath` | commands/dataset.py:113-123 | a relative name gives `{root}/content/datasets/{name}` |
| `Dataset.DatasetIndexLayout` | commands/dataset.py:146-147 | the page is `{root}/content/datasets/{name}/_index.md` |
| `Dataset.AddDataset` | commands/dataset.py:129-176 | an existing page means nothing is done, reported with the data set's directory; otherwise a missing template means nothing is done, reported with the data set template's path; otherwise a failing render raises with nothing written, and a successful one makes the directory and writes the rendered text, for the context with the location, format, name, schema and digest, at the index path, never over an existing page; conversely, a successful render with the page absent and the template present gives exactly those two effects, then `Created` or an exit as the editor setting says; an exit has status 0 and only happens with the editor enabled |
| `Dataset.SchemaInContext` | commands/dataset.py:160 | the template sees a schema exactly when the location could be read |
| `Rmd.ConverterPaths` | converters/rmd.py:35-50 | the source folder is the absolute directory of the file, the stem is the file's base name without its extension and holds no slash, and the companion files are the stem with `.Rmd` and `_blogdown.html` in the source folder |
| `Rmd.CompanionFileNames` | converters/rmd.py:46-50 | the companion files are named `{stem}.Rmd` and `{stem}_blogdown.html` |
| `Rmd.Validate` | converters/rmd.py:99-106 | nothing is reported exactly when both companion files exist, and the R Markdown file is reported first exactly when it is missing |
| `Rmd.StopIndexStops` | converters/rmd.py:80-85 | the line-by-line stopping point meets the stopping condition |
| `Rmd.ScanReadsUpToStop` | converters/rmd.py:80-85 | the scan reads exactly the lines before its stopping point |
| `Rmd.StopsAtUnique` | converters/rmd.py:80-85 | the scan can stop at only one place |
| `Rmd.FrontMatterIsLeadingLines` | converters/rmd.py:78-85 | the raw front matter is the leading lines before the first boundary line met once something was read; a boundary first line is part of it, and without a closing boundary the whole file is |
| `Rmd.ScanStopsSomewhere` | converters/rmd.py:80-85 | every report has a stopping point |
| `Rmd.BoundaryLine` | converters/rmd.py:82 | a `---` line with its newline is a boundary once stripped |
| `Rmd.FrontMatterOfUsualReport` | converters/rmd.py:78-85 | a report opening `---`, title, `---` gives the opening marker and title line as front matter, and the rest is not read |
| `Rmd.FilterPromoteCommute` | converters/rmd.py:88-96 | filtering to the whitelist and promoting `author` commute, since both keys are whitelisted |
| `Rmd.PromoteAuthor` | converters/rmd.py:94-96 | when `authors` is missing or falsy and `author` is truthy, `author` becomes a one-element `authors` list and every other key is kept; otherwise nothing changes |
| `Rmd.PromoteAuthorIdempotent` | converters/rmd.py:94-96 | promoting twice is promoting once, and afterwards no promotion is due |
| `Rmd.AuthorAndAuthorsCoexist` | converters/rmd.py:94-96 | with `authors` already set, `author` is kept beside it |
| `Rmd.FrontMatterOfUnique` | converters/rmd.py:88-96 | `FrontMatterOf`, the key-by-key account of what survives the whitelist and the promotion, allows only one front matter per loaded mapping |
| `Rmd.LoadFrontMatter` | converters/rmd.py:75-97 | succeeds exactly when the loaded YAML is a mapping; the result keeps every whitelisted key with its value and no other key, except that `author` alone is promoted to a one-element `authors` list, and needs no further promotion; a loader error is passed on, and a non-mapping fails at `.items()` |
| `Rmd.RewriteSrc` | converters/rmd.py:115-119 | a link outside `{stem}_files` is kept as is |
| `Rmd.FigureLinkRewritten` | converters/rmd.py:117-119 | a link to a figure directly in `{stem}_files/figure-html/` points to that figure under the image URL directory |
| `Rmd.RewriteImages` | converters/rmd.py:108-120 | succeeds exactly when every image has a `src`, otherwise raises `KeyError`; other nodes and other attributes are kept, and each image's `src` is rewritten |
| `Rmd.WalkFilesListsTheWalk` | converters/rmd.py:67-69 | every file listed comes from some walked directory, with that directory, and every file of every walked directory is listed |
| `Rmd.WalkFilesConcat` | converters/rmd.py:67-69 | the listing of consecutive parts of a walk is the listing of the first part followed by that of the second, so walk order is kept |
| `Rmd.EveryFigureIsCopied` | converters/rmd.py:67-73 | every file of every walked directory is copied from its absolute path to `generate_image_path(slug, name)` |
| `Rmd.CopyEffects` | converters/rmd.py:52-73 | for each figure, in walk order, its destination folder is made and it is copied to `generate_image_path(slug, name)` |
| `Rmd.CopiedFigureMatchesLink` | converters/rmd.py:65-73 | a figure stored directly in the figures folder is copied to `{root}/static` followed by its rewritten link (`img_html_src_dir` of lines 139-140) |
| `Rmd.PostFrontMatter` | converters/rmd.py:127-128 | the post's front matter keeps every key of the loaded one, sets `date` to the current time, and holds only whitelisted keys; a load error is passed on |
| `Rmd.Publish` | converters/rmd.py:134-149 | for a string title, the figures are copied first, then the header with the dumped front matter is written at the post path for `{slug}.html`; when every image has a `src`, the serialised rewritten page is appended and the post path returned, otherwise the missing-`src` error is raised with only the header written |
| `Rmd.Convert` | converters/rmd.py:122-149 | exits with status 1 and no effect exactly when a companion file is missing or the title is missing or falsy; for valid paths, a front-matter error is raised with no effect, a truthy non-string title raises at `lower`, and a string title publishes the post as `Rmd.Publish` does |
| `Ipynb.PostSlug` | converters/ipynb.py:28 | the slug is a slash-free prefix of the notebook's file name, and the slug followed by the extension is that file name |
| `Ipynb.PostSlugIsNotSlugified` | converters/ipynb.py:28 | `/work/My Notebook.ipynb` has slug `My Notebook` |
| `Ipynb.OutputName` | converters/ipynb.py:55-57 | an output is named `{key}_{cell}_{index}{ext}` inside `/images/team/{user}/{slug}` |
| `Ipynb.LeafInjective` | converters/ipynb.py:57 | for one key, the filled-in name determines the cell, the output index and the extension |
| `Ipynb.NotebookItemsDistinct` | converters/ipynb.py:58-60 | the extracted images of well-formed outputs come from pairwise different (cell, output, extension) triples, each with a file extension |
| `Ipynb.SaveEffects` | converters/ipynb.py:30-41 | each image's folder is made and then its bytes are written, in order |
| `Ipynb.Convert` | converters/ipynb.py:43-68 | never exits; returns exactly when the notebook is read and exported; an exception writes nothing and is the reader's or else the exporter's; on success each image's folder is made and its bytes written at its destination, in order, then the exported post is written at the post path for `{slug}.md`, which is returned |
| `Ipynb.SavedImageMatchesLink` | converters/ipynb.py:55-62 | an image is saved at `{root}/static` followed by the name the post links to |
| `Ipynb.ImagePathInjective` | commands/util.py:130-131 | different relative names give different image paths |
| `Ipynb.SavedImagesDistinct` | converters/ipynb.py:55-62 | no two extracted images of a well-formed notebook are saved to the same file |
| `Converters.ConverterFor` | converters/__init__.py:8 | a converter exists exactly for `.ipynb` and `.rmd` |
| `Converters.Wrap` | converters/__init__.py:33-38 | an exception becomes a `ConversionError` naming the file and the original message; returns and exits pass through; effects are kept |
| `Converters.Dispatch` | converters/__init__.py:16-38 | `.md` is returned untouched; an unknown extension raises with no effect; `.rmd` and `.ipynb` run their converter under the wrapper; every exception is a `ConversionError` |
| `Converters.ConvertFile` | converters/__init__.py:16-38 | every exception is a `ConversionError`; `.md` passes through; an exit has status 1 and no effect |
| `Converters.DispatchIgnoresCase` | converters/__init__.py:27-36 | the extension's case does not matter: `.Rmd`, `.RMD` and `.IPYNB` files reach their converter, and `.MD` passes through |
| `Converters.ExitEscapesDispatcher` | converters/__init__.py:33-38 | the R Markdown converter's `sys.exit(1)` is not caught and leaves the dispatcher as an exit |
| `Converters.DotFileIsRefused` | converters/__init__.py:27-32 | a file named only `.md` has no extension, so it is refused with an empty extension in the message |
| `PosixPath.SplitextOfLower` | converters/__init__.py:27 | splitting the lower-cased path gives the lower-cased root and extension |
| `Text.ReplaceCharIsMap` | commands/create.py:85 | replacing one character by another is a per-character map that leaves none of the replaced character |
| `Text.SplitJoinRoundTrip` | commands/dataset.py:105 | splitting a newline join of newline-free parts gives the parts back |
| `Text.NatToStringInjective` | converters/ipynb.py:57 | different indices print differently in output names |

## Left out

- Real I/O is not modelled. The model says what a command would write, not that the
  write succeeds. Failures of `open`, `makedirs`, `copyfile` and `os.walk` are left out.
- `os.path.abspath` does not normalise `.` and `..` here. A relative path is joined to
  the working directory. So `LoadTemplate` keeps `../templates` literally.
- Strings are ASCII for `lower`, `strip` and the regular expressions. Unicode case
  mapping and Unicode whitespace are left out.
- Interactive prompts are not modelled. Prompts for a missing username, name or avatar
  in `create_author`, and the author-setup loop at the start of `create`, are reported
  as the statuses `NeedsInput` and `AuthorMissing`.
- Launching the editor (`launch_editor`), Hugo preview, push and update are left out.
  An enabled editor appears only as the `sys.exit(0)` that follows it.
- Messages printed with `click.secho` and `print` are left out. Each status datatype
  tells which message branch was taken.
- `Util.Matching` treats the `fnmatch` pattern `*{extension}` as a suffix test.
  Glob metacharacters in a configured extension are not modelled.
- `Util.GetLastModified`: modification times are integers, given as a function. Float
  time stamps and ties between them follow the same first-maximum rule.
- The notebook exporter is a parameter, and so is the key it puts first in output
  names. Its Markdown text and its choice of which output representations become
  images are also outside the model; each output's images come in as data.
- `Ipynb.Convert`: when two outputs would get the same name, the exporter's dictionary
  keeps one entry. The model lists every image instead. `Ipynb.SavedImagesDistinct`
  shows the names differ for well-formed outputs.
- `compute_md5` is a parameter: the digest, or empty when the file cannot be read.
  Hashing is left out.
- YAML parsing and dumping, Jinja rendering and pandas dtype inference are parameters.
  Only their success or failure and the values they hand back are modelled.
- HTML parsing is left out: the knitted page is given as its parsed nodes, so a parse
  failure in `BeautifulSoup` is not modelled.
- `Rmd.CopyEffects`: a figure in a sub-folder of `figure-html` is copied flat under its
  file name. But its rewritten link keeps the sub-folder. The model states only the
  agreement for figures directly in the folder (`Rmd.CopiedFigureMatchesLink`).
- Ipynb.OutputName: the template is filled in by nbconvert with `str.format` after the
  whole path is joined, so a `{` or `}` in the username or the slug would raise or change
  the name. The model fills in only the leaf `{key}_{cell}_{index}{ext}`.
- Paths given with `~` and `expanduser` are left out. They only occur in the
  interactive avatar prompt.

## Findings

| source | as written | input that shows it | evidently intended | confidence | as-written member | corrected member |
|---|---|---|---|---|---|---|
| commands/create.py:90-94 | a template that does not exist is reported, but the command goes on to render it, and rendering raises `TemplateNotFound` | `journal create post.md -t /missing.md` with an existing author and an `md` entry in `templates` | stop after reporting, with nothing written, as `commands/dataset.py:155-158` does for its template | medium, not executed | `Create.MissingTemplateRaises` | `Create.MissingTemplateStops` |
