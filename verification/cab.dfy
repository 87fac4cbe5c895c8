/** The archive wrapper of lib/cab.js: choosing the output path, deciding
    whether to run the external LZMA codec, its argument vector, the mapping
    of the process's close event to success or failure, and the optional
    removal of the input. The codec itself is an oracle: the caller supplies
    the close event the process would produce. */
module Cab {
  import opened Wrappers
  import Paths
  import JsText

  datatype Mode = Compress | Decompress

  /** The options object as the caller passes it. The defaults object built
      in `compress` and `decompress` is discarded, so an option the caller
      leaves out is falsy: `false` for the flags, the empty string for the
      paths. */
  datatype Options = Options(deleteFile: bool, overwrite: bool, outputFile: string, outputDirectory: string)

  /** How the child process ended: a `close` event with its exit code
      (`None` when a signal ended it) and everything it wrote to stderr, or an
      `error` event (the codec could not be started). */
  datatype Close = Closed(code: Option<int>, stderr: string) | SpawnFailed(message: string)

  datatype ProcessError = NonZeroExit(code: Option<int>) | Diagnostics(stderr: string) | SpawnError(message: string)

  datatype CabError = InputMissing(path: string) | OptionsUndefined | ProcessFailed(cause: ProcessError)

  /** What one `compress` or `decompress` call did: the output path it
      chose, the arguments of the process it spawned (if any), whether it
      deleted its input, and whether it resolved or threw. */
  datatype CabRun = CabRun(output: string, spawned: Option<seq<string>>, deletedInput: bool, result: Outcome<CabError>)

  /** `s.replace(/\.cab$/g, "")`: the anchored pattern matches at most once. */
  function StripCab(s: string): (r: string)
    ensures JsText.EndsWith(s, ".cab") ==> r + ".cab" == s
    ensures !JsText.EndsWith(s, ".cab") ==> r == s
  {
    if JsText.EndsWith(s, ".cab") then s[..|s| - 4] else s
  }

  /** The output path before options apply, still to be resolved. */
  function DefaultOutput(mode: Mode, file: string): string
  {
    match mode
    case Compress => file + ".cab"
    case Decompress => StripCab(file)
  }

  /** The output path after `outputDirectory` and `outputFile` apply. */
  function OutputPath(mode: Mode, file: string, o: Options, cwd: string): string
  {
    var byDefault := Paths.Resolve(cwd, DefaultOutput(mode, file));
    var inDirectory := if o.outputDirectory != "" then Paths.Join(o.outputDirectory, Paths.Basename(byDefault)) else byDefault;
    if o.outputFile != "" then Paths.Resolve(cwd, o.outputFile) else inDirectory
  }

  /** The argument vector given to the codec. */
  function Args(mode: Mode, input: string, output: string): (args: seq<string>)
    ensures |args| == if mode == Compress then 9 else 6
    ensures args[0] == (if mode == Compress then "--compress" else "--decompress")
    ensures args[|args| - 5..] == ["-f", "-k", "--lzma", input, output]
  {
    var head := if mode == Compress then ["--compress", "-9", "-s", "26"] else ["--decompress"];
    head + ["-f", "-k", "--lzma", input, output]
  }

  /** Different calls give different argument vectors: the codec can tell
      the mode, the input and the output apart. */
  lemma ArgsInjective(m1: Mode, i1: string, o1: string, m2: Mode, i2: string, o2: string)
    requires Args(m1, i1, o1) == Args(m2, i2, o2)
    ensures m1 == m2 && i1 == i2 && o1 == o2
  {
    var a := Args(m1, i1, o1);
    assert a[|a| - 2] == i1 && a[|a| - 1] == o1;
    assert Args(m2, i2, o2)[|a| - 2] == i2;
  }

  /** The `close` handler: a non-zero (or missing) exit code rejects first;
      with exit code 0, accumulated stderr that is non-empty and not the text
      "null" rejects; otherwise the promise resolves. An `error` event
      rejects. */
  function ClassifyClose(close: Close): Outcome<ProcessError>
  {
    match close
    case SpawnFailed(message) => Fail(SpawnError(message))
    case Closed(code, stderr) =>
      if code != Some(0) then Fail(NonZeroExit(code))
      else if |stderr| != 0 && stderr != "null" then Fail(Diagnostics(stderr))
      else Pass
  }

  /** The promise resolves exactly when the codec exits with code 0 and
      leaves no diagnostics but the text "null"; a non-zero exit is reported
      before any diagnostics. */
  lemma ClassifyCloseSpec(close: Close)
    ensures ClassifyClose(close).Pass? <==> close.Closed? && close.code == Some(0) && (close.stderr == "" || close.stderr == "null")
    ensures close.Closed? && close.code != Some(0) ==> ClassifyClose(close) == Fail(NonZeroExit(close.code))
    ensures close.Closed? && close.code == Some(0) && ClassifyClose(close).Fail? ==> ClassifyClose(close) == Fail(Diagnostics(close.stderr))
  {
    if close.Closed? && close.code == Some(0) && close.stderr == "" {
      assert |close.stderr| == 0;
    }
  }

  /** `compress(file, options)` or `decompress(file, options)` over a
      filesystem given by the set of existing (resolved) paths. `options`
      is `None` when the caller passes none at all. */
  method Run(mode: Mode, file: string, options: Option<Options>, cwd: string, existing: set<string>, close: Close)
    returns (run: CabRun)
    ensures Paths.Resolve(cwd, file) !in existing ==>
      run.result == Fail(InputMissing(Paths.Resolve(cwd, file))) && run.spawned.None? && !run.deletedInput
    ensures Paths.Resolve(cwd, file) in existing && options.None? ==>
      run.result == Fail(OptionsUndefined) && run.spawned.None? && !run.deletedInput
    ensures Paths.Resolve(cwd, file) in existing && options.Some? ==>
      && run.output == OutputPath(mode, file, options.value, cwd)
      && (run.spawned.Some? <==> options.value.overwrite || Paths.Resolve(cwd, run.output) !in existing)
      && (run.spawned.Some? ==> run.spawned.value == Args(mode, Paths.Resolve(cwd, file), run.output))
      && (run.result.Pass? <==> run.spawned.None? || ClassifyClose(close).Pass?)
      && (run.result.Fail? ==> run.result == Fail(ProcessFailed(ClassifyClose(close).error)))
      && run.deletedInput == (run.result.Pass? && options.value.deleteFile)
  {
    var inputFile := Paths.Resolve(cwd, file);
    var outputFile := Paths.Resolve(cwd, DefaultOutput(mode, file));
    if inputFile !in existing {
      return CabRun(outputFile, None, false, Fail(InputMissing(inputFile)));
    }
    if options.None? {
      return CabRun(outputFile, None, false, Fail(OptionsUndefined));
    }
    var o := options.value;
    if o.outputDirectory != "" {
      outputFile := Paths.Join(o.outputDirectory, Paths.Basename(outputFile));
    }
    if o.outputFile != "" {
      outputFile := Paths.Resolve(cwd, o.outputFile);
    }
    var spawned: Option<seq<string>> := None;
    // `fs.existsSync` resolves a relative output path against the working
    // directory
    if o.overwrite || Paths.Resolve(cwd, outputFile) !in existing {
      spawned := Some(Args(mode, inputFile, outputFile));
      var closed := ClassifyClose(close);
      if closed.Fail? {
        return CabRun(outputFile, spawned, false, Fail(ProcessFailed(closed.error)));
      }
    }
    run := CabRun(outputFile, spawned, o.deleteFile, Pass);
  }

  /** Decompressing the default output of compressing `file`, with the
      default output again, lands on `file` itself: one trailing ".cab" is
      removed, never more. */
  lemma {:induction false} DefaultOutputsRoundTrip(cwd: string, file: string)
    requires Paths.IsAbsolute(cwd)
    ensures var packed := Paths.Resolve(cwd, DefaultOutput(Compress, file));
            Paths.Resolve(cwd, DefaultOutput(Decompress, packed)) == Paths.Resolve(cwd, file)
  {
    var packed := Paths.Resolve(cwd, file + ".cab");
    assert packed == Paths.Resolve(cwd, file) + ".cab";
    assert JsText.EndsWith(packed, ".cab");
    assert StripCab(packed) == Paths.Resolve(cwd, file);
    Paths.ResolveIdempotent(cwd, file);
  }

  /** An `outputFile` option wins over `outputDirectory` and the default;
      an `outputDirectory` alone keeps the base name of the default output
      and places it in that directory. */
  lemma OutputOverrides(mode: Mode, file: string, o: Options, cwd: string)
    ensures o.outputFile != "" ==> OutputPath(mode, file, o, cwd) == Paths.Resolve(cwd, o.outputFile)
    ensures o.outputFile == "" && o.outputDirectory == "" ==>
      OutputPath(mode, file, o, cwd) == Paths.Resolve(cwd, DefaultOutput(mode, file))
    ensures o.outputFile == "" && o.outputDirectory != "" ==>
      var name := Paths.Basename(Paths.Resolve(cwd, DefaultOutput(mode, file)));
      OutputPath(mode, file, o, cwd) == o.outputDirectory + "/" + name
      && (name != "" ==> Paths.Basename(OutputPath(mode, file, o, cwd)) == name)
  {
    var name := Paths.Basename(Paths.Resolve(cwd, DefaultOutput(mode, file)));
    if o.outputFile == "" && o.outputDirectory != "" && name != "" {
      Paths.BasenameSpec(Paths.Resolve(cwd, DefaultOutput(mode, file)));
      Paths.BasenameOfJoin(o.outputDirectory, name);
    }
  }
}
