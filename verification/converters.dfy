/** `converters/__init__.py`: choosing a converter by the file's extension and reporting
    its failures as conversion errors. */
module Converters {
  import opened Text
  import opened PosixPath
  import opened Journal
  import Rmd
  import Ipynb

  datatype Converter = IpynbConverter | RmdConverter

  /** `CONVERTERS`, keyed by lower-case extension. */
  function ConverterFor(ext: string): (r: Option<Converter>)
    ensures r.Some? <==> ext == ".ipynb" || ext == ".rmd"
    ensures r == Some(RmdConverter) <==> ext == ".rmd"
  {
    if ext == ".ipynb" then Some(IpynbConverter)
    else if ext == ".rmd" then Some(RmdConverter)
    else None
  }

  function ConversionError(message: string): Exc {
    Exc("ConversionError", message)
  }

  /** The extension the dispatcher looks at: that of the lower-cased path. */
  function DispatchExtension(filepath: string): string {
    Splitext(Lower(filepath)).1
  }

  /** The `try`/`except Exception` around a converter: an exception becomes a conversion
      error naming the file, while a return value and a process exit pass through. */
  function Wrap(filepath: string, run: Run<string>): (r: Run<string>)
    ensures r.effects == run.effects
    ensures r.outcome.Raised? <==> run.outcome.Raised?
    ensures !run.outcome.Raised? ==> r.outcome == run.outcome
    ensures r.outcome.Raised? ==>
      r.outcome.error == ConversionError("Error converting " + filepath + ": " + run.outcome.error.message)
  {
    match run.outcome
    case Raised(e) => Run(run.effects, Raised(ConversionError("Error converting " + filepath + ": " + e.message)))
    case _ => run
  }

  /** The dispatch of `convert_file`, given how each converter would end on the file. */
  function Dispatch(filepath: string, rmdRun: Run<string>, ipynbRun: Run<string>): (r: Run<string>)
    ensures r.outcome.Raised? ==> r.outcome.error.kind == "ConversionError"
    ensures DispatchExtension(filepath) == ".md" ==> r == Run([], Returned(filepath))
    ensures ConverterFor(DispatchExtension(filepath)).None? && DispatchExtension(filepath) != ".md" ==>
      r == Run([], Raised(ConversionError("We don't have a way to convert "
                                           + DispatchExtension(filepath) + " files yet")))
    ensures DispatchExtension(filepath) == ".rmd" ==> r == Wrap(filepath, rmdRun)
    ensures DispatchExtension(filepath) == ".ipynb" ==> r == Wrap(filepath, ipynbRun)
  {
    var ext := DispatchExtension(filepath);
    if ext == ".md" then Run([], Returned(filepath))
    else
      match ConverterFor(ext)
      case None => Run([], Raised(ConversionError("We don't have a way to convert " + ext + " files yet")))
      case Some(RmdConverter) => Wrap(filepath, rmdRun)
      case Some(IpynbConverter) => Wrap(filepath, ipynbRun)
  }

  /** `convert_file(filepath)`, with what each converter would find. Only the converter the
      extension selects has any effect on the result. */
  function ConvertFile(cfg: Config, filepath: string, rmdEnv: Rmd.RmdEnv, ipynbEnv: Ipynb.IpynbEnv)
    : (r: Run<string>)
    ensures r.outcome.Raised? ==> r.outcome.error.kind == "ConversionError"
    ensures DispatchExtension(filepath) == ".md" ==> r == Run([], Returned(filepath))
    ensures r.outcome.Exited? ==> r.outcome.status == 1 && r.effects == []
  {
    Dispatch(filepath, Rmd.Convert(cfg, rmdEnv, filepath), Ipynb.Convert(cfg, ipynbEnv, filepath))
  }

  /** The dispatcher ignores the case of the extension: `.Rmd` and `.RMD` reports go to the
      R Markdown converter and `.IPYNB` notebooks to the notebook converter. */
  lemma DispatchIgnoresCase(cfg: Config, filepath: string, rmdEnv: Rmd.RmdEnv, ipynbEnv: Ipynb.IpynbEnv)
    ensures Lower(Splitext(filepath).1) == ".rmd" ==>
      ConvertFile(cfg, filepath, rmdEnv, ipynbEnv) == Wrap(filepath, Rmd.Convert(cfg, rmdEnv, filepath))
    ensures Lower(Splitext(filepath).1) == ".ipynb" ==>
      ConvertFile(cfg, filepath, rmdEnv, ipynbEnv) == Wrap(filepath, Ipynb.Convert(cfg, ipynbEnv, filepath))
    ensures Lower(Splitext(filepath).1) == ".md" ==>
      ConvertFile(cfg, filepath, rmdEnv, ipynbEnv) == Run([], Returned(filepath))
  {
    SplitextOfLower(filepath);
  }

  /** The R Markdown converter's process exit is not an `Exception`, so it leaves the
      dispatcher unchanged, and nothing was written before it. */
  lemma ExitEscapesDispatcher(cfg: Config, filepath: string, rmdEnv: Rmd.RmdEnv, ipynbEnv: Ipynb.IpynbEnv)
    requires DispatchExtension(filepath) == ".rmd"
    requires Rmd.Convert(cfg, rmdEnv, filepath).outcome.Exited?
    ensures ConvertFile(cfg, filepath, rmdEnv, ipynbEnv) == Run([], Exited(1))
  {
    var run := Rmd.Convert(cfg, rmdEnv, filepath);
    assert run == Run([], Exited(1));
  }

  /** A file whose name is only a dot and an extension, such as `.md`, has no extension in
      the sense of `splitext`, so it is refused with an empty extension in the message. */
  lemma DotFileIsRefused(cfg: Config, rmdEnv: Rmd.RmdEnv, ipynbEnv: Ipynb.IpynbEnv)
    ensures ConvertFile(cfg, "/notes/.md", rmdEnv, ipynbEnv)
      == Run([], Raised(ConversionError("We don't have a way to convert  files yet")))
  {
    DotFileHasNoExtension();
    assert "We don't have a way to convert " + "" + " files yet" == "We don't have a way to convert  files yet";
  }

  /** `splitext` gives `/notes/.md` no extension: its base name is only a leading dot
      followed by letters. */
  lemma DotFileHasNoExtension()
    ensures DispatchExtension("/notes/.md") == ""
  {
    var p := "/notes/.md";
    assert Lower(p) == p;
    RFindUnique(p, '/', 6);
    RFindUnique(p, '.', 7);
    assert !NonDotBetween(p, 7, 7);
  }

}
