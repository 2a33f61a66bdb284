/** The end-to-end behaviour of `HandleArguments`: which handlers run, when the
    run succeeds, how each out-parameter is resolved, and what is logged. */
module Resolution {
  import opened Wrappers
  import opened Text
  import opened Paths
  import opened GlobalDictionaries
  import opened Commands
  import opened ArgumentsHandler
  import opened DispatchProperties
  import opened ResolverProperties
  import Parsed

  /** The key `k`, when `b` holds. */
  function Flag(b: bool, k: string): seq<string> {
    if b then [k] else []
  }

  /** The number of log lines a stage adds: one when it runs. */
  function Count(b: bool): nat {
    if b then 1 else 0
  }

  /** No registered flag occurs among the arguments. */
  predicate NoFlagGiven(args: seq<string>) {
    !HelpRequested(args) && !VersionRequested(args) && !OutputPathGiven(args) && !FileTypeGiven(args)
  }

  // ---------------------------------------------------------------- stages

  /** What each stage after the registry loop contributes to the result. */
  lemma Stages(d: State)
    ensures var a := AutoDetectFileType(d);
      var o := DefaultOutputDir(a);
      var r := Finish(d);
      && r.invoked == d.invoked
      && r.success == a.success
      && r.log == NoticeIfNothingInvoked(o).log
      && r.parsed.inputFilePath == d.parsed.inputFilePath
      && r.parsed.fileType == a.parsed.fileType
      && r.parsed.outputDir == o.parsed.outputDir
  {
    var a := AutoDetectFileType(d);
    assert Parsed.Get(a.parsed, Parsed.InputFilePath) == Parsed.Get(d.parsed, Parsed.InputFilePath);
    var o := DefaultOutputDir(a);
    assert Parsed.Get(o.parsed, Parsed.InputFilePath) == Parsed.Get(a.parsed, Parsed.InputFilePath);
    assert Parsed.Get(o.parsed, Parsed.FileType) == Parsed.Get(a.parsed, Parsed.FileType);
    var n := NoticeIfNothingInvoked(o);
    var r := Finish(d);
    assert r.parsed == Parsed.Set(n.parsed, Parsed.OutputText, LogText(n.log));
    assert Parsed.Get(r.parsed, Parsed.InputFilePath) == Parsed.Get(n.parsed, Parsed.InputFilePath);
    assert Parsed.Get(r.parsed, Parsed.FileType) == Parsed.Get(n.parsed, Parsed.FileType);
    assert Parsed.Get(r.parsed, Parsed.OutputDir) == Parsed.Get(n.parsed, Parsed.OutputDir);
  }

  /** Detection leaves the input path and the output directory alone. */
  lemma DetectionKeeps(s: State)
    ensures AutoDetectFileType(s).parsed.inputFilePath == s.parsed.inputFilePath
    ensures AutoDetectFileType(s).parsed.outputDir == s.parsed.outputDir
  {
    var a := AutoDetectFileType(s);
    assert Parsed.Get(a.parsed, Parsed.InputFilePath) == Parsed.Get(s.parsed, Parsed.InputFilePath);
    assert Parsed.Get(a.parsed, Parsed.OutputDir) == Parsed.Get(s.parsed, Parsed.OutputDir);
  }

  /** A kept value is null or not blank. */
  lemma KeptIsNullOrFilled(v: Option<string>)
    ensures IsNullOrWhiteSpace(Keep(v, None)) <==> Keep(v, None).None?
  {
  }

  /** File-type detection runs exactly when no file type was parsed and the input path is not blank. */
  lemma DetectionCondition(args: seq<string>, version: string)
    requires |args| > 0
    ensures DetectsFileType(Dispatched(args, version)) <==> DetectsFromInput(args)
  {
    DispatchedValues(args, version);
    if FileTypeGiven(args) {
      KeptIsNullOrFilled(FileTypeHandler(args).fileType);
    }
  }

  /** Directory defaulting runs exactly when no directory was parsed and the input path is not blank. */
  lemma DefaultingCondition(args: seq<string>, version: string)
    requires |args| > 0
    ensures DefaultsOutputDir(AutoDetectFileType(Dispatched(args, version)))
        <==> !IsBlank(args[0]) && ExplicitOutputDir(args).None?
  {
    var d := Dispatched(args, version);
    DispatchedValues(args, version);
    DetectionKeeps(d);
    if OutputPathGiven(args) {
      KeptIsNullOrFilled(OutputPathHandler(args).outputDir);
    }
  }

  // ---------------------------------------------------------------- handlers run

  lemma KeysOpt(b: bool, inv: Invocation)
    ensures Keys(Opt(b, inv)) == Flag(b, inv.key)
  {
    if b {
      assert Opt(b, inv)[1..] == [];
    }
  }

  lemma KeysOfFour(b0: bool, i0: Invocation, b1: bool, i1: Invocation, b2: bool, i2: Invocation, b3: bool, i3: Invocation)
    ensures Keys(Opt(b0, i0) + (Opt(b1, i1) + (Opt(b2, i2) + Opt(b3, i3))))
         == Flag(b0, i0.key) + (Flag(b1, i1.key) + (Flag(b2, i2.key) + Flag(b3, i3.key)))
  {
    KeysAppend(Opt(b0, i0), Opt(b1, i1) + (Opt(b2, i2) + Opt(b3, i3)));
    KeysAppend(Opt(b1, i1), Opt(b2, i2) + Opt(b3, i3));
    KeysAppend(Opt(b2, i2), Opt(b3, i3));
    KeysOpt(b0, i0);
    KeysOpt(b1, i1);
    KeysOpt(b2, i2);
    KeysOpt(b3, i3);
  }

  /** The handlers that ran and the lines logged by the loop are those of the reference runs. */
  lemma DispatchedRuns(args: seq<string>, version: string)
    requires |args| > 0
    ensures Dispatched(args, version).invoked == Keys(Invocations(version, args, Registry))
    ensures Dispatched(args, version).log == FailureLog(Invocations(version, args, Registry))
  {
    DispatchedValues(args, version);
  }

  /** The handlers that run are those whose flag occurs, each once, in
      registration order: help, version, outputPath, fileType. */
  lemma InvokedInRegistryOrder(args: seq<string>, version: string)
    requires |args| > 0
    ensures var r := HandleArguments(args, version);
      && r.invoked == Flag(HelpRequested(args), "help") + (Flag(VersionRequested(args), "version")
         + (Flag(OutputPathGiven(args), "outputPath") + Flag(FileTypeGiven(args), "fileType")))
      && NoDuplicates(r.invoked)
  {
    DispatchedRuns(args, version);
    Stages(Dispatched(args, version));
    RegistryInvocations(version, args);
    RegistryKeysDistinct();
    KeysAreDistinct(version, args, Registry);
    KeysOfFour(HelpRequested(args), Invocation("help", HelpHandler()),
               VersionRequested(args), Invocation("version", VersionHandler(version)),
               OutputPathGiven(args), Invocation("outputPath", OutputPathHandler(args)),
               FileTypeGiven(args), Invocation("fileType", FileTypeHandler(args)));
  }

  // ---------------------------------------------------------------- success

  /** The run succeeds exactly when every handler that ran succeeded and, if
      the file type was taken from the input path, that type is allowed. */
  lemma SuccessCharacterization(args: seq<string>, version: string)
    requires |args| > 0
    ensures HandleArguments(args, version).success
        <==> HandlersSucceed(args) && (DetectsFromInput(args) ==> Extension(args[0]) in AllowedFileTypes)
  {
    var d := Dispatched(args, version);
    Stages(d);
    DispatchedValues(args, version);
    DetectionCondition(args, version);
  }

  /** Asking for help or for the version always makes the run fail. */
  lemma HelpOrVersionFails(args: seq<string>, version: string)
    requires |args| > 0
    requires HelpRequested(args) || VersionRequested(args)
    ensures !HandleArguments(args, version).success
  {
    SuccessCharacterization(args, version);
  }

  // ---------------------------------------------------------------- values

  /** The input path is always the first argument. */
  lemma InputFilePathIsFirstArgument(args: seq<string>, version: string)
    requires |args| > 0
    ensures HandleArguments(args, version).parsed.inputFilePath == Some(args[0])
  {
    var d := Dispatched(args, version);
    Stages(d);
    DispatchedValues(args, version);
  }

  /** The file type is the non-blank value after `--fileType`/`-ft`, valid or
      not; failing that, the input path's extension; failing that, null. */
  lemma FileTypeResolution(args: seq<string>, version: string)
    requires |args| > 0
    ensures HandleArguments(args, version).parsed.fileType
        == if DetectsFromInput(args) then Some(Extension(args[0])) else ExplicitFileType(args)
  {
    var d := Dispatched(args, version);
    Stages(d);
    DispatchedValues(args, version);
    DetectionCondition(args, version);
    var a := AutoDetectFileType(d);
    assert a.parsed.fileType == Parsed.Get(a.parsed, Parsed.FileType);
  }

  /** An explicit file type that is not allowed is still the resolved file
      type, and the run fails; the input path's extension is not consulted. */
  lemma InvalidFileTypeIsKept(args: seq<string>, version: string, v: string)
    requires |args| > 0
    requires FlagValue(args, "--fileType", "-ft") == Some(v)
    requires !IsBlank(v) && v !in AllowedFileTypes
    ensures HandleArguments(args, version).parsed.fileType == Some(v)
    ensures !HandleArguments(args, version).success
  {
    FlagValueNeedsFlag(args, "--fileType", "-ft");
    assert ExplicitFileType(args) == Some(v);
    assert !FileTypeHandler(args).ok;
    FileTypeResolution(args, version);
    SuccessCharacterization(args, version);
  }

  /** The output directory is the non-blank value after `--outputPath`/`-op`;
      failing that, the input path's directory; failing that, null. */
  lemma OutputDirResolution(args: seq<string>, version: string)
    requires |args| > 0
    ensures HandleArguments(args, version).parsed.outputDir
        == if !IsBlank(args[0]) && ExplicitOutputDir(args).None? then Some(DirectoryName(args[0]))
           else ExplicitOutputDir(args)
  {
    var d := Dispatched(args, version);
    Stages(d);
    DispatchedValues(args, version);
    DetectionKeeps(d);
    DefaultingCondition(args, version);
    DefaultedDirectory(AutoDetectFileType(d));
  }

  /** The directory stage either keeps the parsed directory or stores the
      input path's directory. */
  lemma DefaultedDirectory(a: State)
    ensures DefaultOutputDir(a).parsed.outputDir
        == if DefaultsOutputDir(a) then Some(DirectoryName(a.parsed.inputFilePath.value)) else a.parsed.outputDir
  {
    var o := DefaultOutputDir(a);
    assert o.parsed.outputDir == Parsed.Get(o.parsed, Parsed.OutputDir);
  }

  // ---------------------------------------------------------------- log

  /** No handler runs exactly when no registered flag is given, and then the
      last line logged is the "no valid arguments" notice. The notice does not
      touch success (see `SuccessCharacterization`). */
  lemma NoArgumentsNotice(args: seq<string>, version: string)
    requires |args| > 0
    ensures HandleArguments(args, version).invoked == [] <==> NoFlagGiven(args)
    ensures NoFlagGiven(args) ==>
      var log := HandleArguments(args, version).log;
      |log| > 0 && log[|log| - 1] == NoArgumentsMessage
  {
    NothingInvokedIffNoFlag(args, version);
    NoticeIsLast(Dispatched(args, version));
  }

  lemma NothingInvokedIffNoFlag(args: seq<string>, version: string)
    requires |args| > 0
    ensures HandleArguments(args, version).invoked == [] <==> NoFlagGiven(args)
    ensures Dispatched(args, version).invoked == [] <==> NoFlagGiven(args)
  {
    InvokedInRegistryOrder(args, version);
    Stages(Dispatched(args, version));
    var f0 := Flag(HelpRequested(args), "help");
    var f1 := Flag(VersionRequested(args), "version");
    var f2 := Flag(OutputPathGiven(args), "outputPath");
    var f3 := Flag(FileTypeGiven(args), "fileType");
    assert |f0 + (f1 + (f2 + f3))| == |f0| + |f1| + |f2| + |f3|;
  }

  /** When nothing ran, the notice is the last line of the log. */
  lemma NoticeIsLast(d: State)
    ensures var r := Finish(d);
      r.invoked == [] ==> |r.log| > 0 && r.log[|r.log| - 1] == NoArgumentsMessage
  {
    Stages(d);
  }

  /** The lines the stages after the loop add to the state `d` the loop left:
      the detection line, the defaulting line and the notice, each when that
      stage runs. */
  function StageLines(d: State): seq<string> {
    var a := AutoDetectFileType(d);
    (if DetectsFileType(d) then [DetectionLine(Extension(d.parsed.inputFilePath.value))] else [])
    + ((if DefaultsOutputDir(a) then [DefaultingLine(DirectoryName(a.parsed.inputFilePath.value))] else [])
    + (if d.invoked == [] then [NoArgumentsMessage] else []))
  }

  /** The lines logged after the registry loop, stated over the arguments:
      the detection line for the input path's extension, the defaulting line
      for its directory, and the notice, each when its condition holds. */
  function FinishingLines(args: seq<string>): seq<string>
    requires |args| > 0
  {
    (if DetectsFromInput(args) then [DetectionLine(Extension(args[0]))] else [])
    + ((if !IsBlank(args[0]) && ExplicitOutputDir(args).None? then [DefaultingLine(DirectoryName(args[0]))] else [])
    + (if NoFlagGiven(args) then [NoArgumentsMessage] else []))
  }

  /** After the loop the log only grows: one line for file-type detection, one
      for directory defaulting, one for the notice, each when that step runs. */
  lemma FinishLog(d: State)
    ensures var r := Finish(d);
      var a := AutoDetectFileType(d);
      && d.log <= r.log
      && |r.log| == |d.log| + Count(DetectsFileType(d)) + Count(DefaultsOutputDir(a)) + Count(d.invoked == [])
      && r.log == d.log + StageLines(d)
  {
    var a := AutoDetectFileType(d);
    var o := DefaultOutputDir(a);
    DetectionLog(d);
    DefaultingLog(a);
    NoticeLog(o);
    FinishKeepsLog(d);
    var l0 := if DetectsFileType(d) then [DetectionLine(Extension(d.parsed.inputFilePath.value))] else [];
    var l1 := if DefaultsOutputDir(a) then [DefaultingLine(DirectoryName(a.parsed.inputFilePath.value))] else [];
    var l2 := if d.invoked == [] then [NoArgumentsMessage] else [];
    LinesAppend(d.log, l0, l1, l2);
  }

  lemma DetectionLog(s: State)
    ensures AutoDetectFileType(s).log
         == s.log + if DetectsFileType(s) then [DetectionLine(Extension(s.parsed.inputFilePath.value))] else []
    ensures AutoDetectFileType(s).invoked == s.invoked
  {
  }

  lemma DefaultingLog(s: State)
    ensures DefaultOutputDir(s).log
         == s.log + if DefaultsOutputDir(s) then [DefaultingLine(DirectoryName(s.parsed.inputFilePath.value))] else []
  {
  }

  lemma NoticeLog(s: State)
    ensures NoticeIfNothingInvoked(s).log == s.log + if s.invoked == [] then [NoArgumentsMessage] else []
  {
  }

  lemma FinishKeepsLog(d: State)
    ensures Finish(d).log == NoticeIfNothingInvoked(DefaultOutputDir(AutoDetectFileType(d))).log
  {
  }

  lemma LinesAppend(x: seq<string>, l0: seq<string>, l1: seq<string>, l2: seq<string>)
    ensures x + l0 + l1 + l2 == x + (l0 + (l1 + l2))
    ensures x <= x + (l0 + (l1 + l2))
    ensures |x + (l0 + (l1 + l2))| == |x| + |l0| + |l1| + |l2|
  {
  }

  /** The lines after the loop depend only on the arguments. */
  lemma StageLinesOf(args: seq<string>, version: string)
    requires |args| > 0
    ensures StageLines(Dispatched(args, version)) == FinishingLines(args)
  {
    var d := Dispatched(args, version);
    DispatchedValues(args, version);
    DetectionCondition(args, version);
    DefaultingCondition(args, version);
    DetectionKeeps(d);
    NothingInvokedIffNoFlag(args, version);
  }

  /** The log is the failed handlers' lines, in registration order, followed
      by the detection line, the defaulting line and the notice, each when its
      condition holds. */
  lemma LogLayout(args: seq<string>, version: string)
    requires |args| > 0
    ensures var r := HandleArguments(args, version);
      var failures := FailureLog(Invocations(version, args, Registry));
      && failures <= r.log
      && r.log == failures + FinishingLines(args)
      && |r.log| == |failures| + Count(DetectsFromInput(args))
         + Count(!IsBlank(args[0]) && ExplicitOutputDir(args).None?) + Count(NoFlagGiven(args))
  {
    DispatchedRuns(args, version);
    DetectionCondition(args, version);
    DefaultingCondition(args, version);
    NothingInvokedIffNoFlag(args, version);
    FinishLog(Dispatched(args, version));
    StageLinesOf(args, version);
  }

  /** The log entries of the registry runs, one per failed handler in order. */
  lemma FailuresOfFour(b0: bool, i0: Invocation, b1: bool, i1: Invocation, b2: bool, i2: Invocation, b3: bool, i3: Invocation)
    ensures FailureLog(Opt(b0, i0) + (Opt(b1, i1) + (Opt(b2, i2) + Opt(b3, i3))))
         == FailureLog(Opt(b0, i0)) + (FailureLog(Opt(b1, i1)) + (FailureLog(Opt(b2, i2)) + FailureLog(Opt(b3, i3))))
  {
    FailureLogAppend(Opt(b0, i0), Opt(b1, i1) + (Opt(b2, i2) + Opt(b3, i3)));
    FailureLogAppend(Opt(b1, i1), Opt(b2, i2) + Opt(b3, i3));
    FailureLogAppend(Opt(b2, i2), Opt(b3, i3));
  }

  lemma FailureLogOpt(b: bool, inv: Invocation)
    ensures FailureLog(Opt(b, inv)) == if b then FailureEntry(inv.outcome) else []
  {
    if b {
      assert Opt(b, inv)[1..] == [];
    }
  }

  /** The first failure line of the registry runs: help's listing when help
      is asked for, else the version banner when the version is. */
  lemma FirstFailure(args: seq<string>, version: string)
    ensures var failures := FailureLog(Invocations(version, args, Registry));
      && (HelpRequested(args) ==> |failures| > 0 && failures[0] == HelpHeader + Listing(Registry) + "\n")
      && (!HelpRequested(args) && VersionRequested(args) ==>
            |failures| > 0 && failures[0] == VersionBanner + version + "\n" + "\n")
  {
    RegistryInvocations(version, args);
    var i0 := Invocation("help", HelpHandler());
    var i1 := Invocation("version", VersionHandler(version));
    var i2 := Invocation("outputPath", OutputPathHandler(args));
    var i3 := Invocation("fileType", FileTypeHandler(args));
    FailuresOfFour(HelpRequested(args), i0, VersionRequested(args), i1, OutputPathGiven(args), i2, FileTypeGiven(args), i3);
    FailureLogOpt(HelpRequested(args), i0);
    FailureLogOpt(VersionRequested(args), i1);
    var l0 := FailureLog(Opt(HelpRequested(args), i0));
    var l1 := FailureLog(Opt(VersionRequested(args), i1));
    var rest := FailureLog(Opt(OutputPathGiven(args), i2)) + FailureLog(Opt(FileTypeGiven(args), i3));
    if !HelpRequested(args) {
      assert l0 + (l1 + rest) == l1 + rest;
    }
  }

  /** Without help or version, a value-less `--outputPath`/`-op` makes a bare
      newline the first failure line: that handler fails without a message. */
  lemma OutputPathFailureFirst(args: seq<string>, version: string)
    requires !HelpRequested(args) && !VersionRequested(args) && OutputPathGiven(args)
    requires FlagValue(args, "--outputPath", "-op").None?
    ensures var failures := FailureLog(Invocations(version, args, Registry));
      |failures| > 0 && failures[0] == "\n"
  {
    RegistryInvocations(version, args);
    var i0 := Invocation("help", HelpHandler());
    var i1 := Invocation("version", VersionHandler(version));
    var i2 := Invocation("outputPath", OutputPathHandler(args));
    var i3 := Invocation("fileType", FileTypeHandler(args));
    FailuresOfFour(false, i0, false, i1, true, i2, FileTypeGiven(args), i3);
    FailureLogOpt(true, i2);
    var l2 := FailureLog(Opt(true, i2));
    var l3 := FailureLog(Opt(FileTypeGiven(args), i3));
    assert FailureLog(Opt(false, i0)) + (FailureLog(Opt(false, i1)) + (l2 + l3)) == l2 + l3;
  }

  /** Asking for help makes the listing the first line logged; asking only for
      the version makes the banner and version text the first line. */
  lemma FirstLogLine(args: seq<string>, version: string)
    requires |args| > 0
    ensures var log := HandleArguments(args, version).log;
      && (HelpRequested(args) ==> |log| > 0 && log[0] == HelpHeader + Listing(Registry) + "\n")
      && (!HelpRequested(args) && VersionRequested(args) ==>
            |log| > 0 && log[0] == VersionBanner + version + "\n" + "\n")
  {
    LogLayout(args, version);
    FirstFailure(args, version);
  }

  // ---------------------------------------------------------------- no flags

  /** Without any registered flag nothing runs, so nothing fails in the loop. */
  lemma NoFlagNoFailures(args: seq<string>, version: string)
    requires NoFlagGiven(args)
    ensures FailureLog(Invocations(version, args, Registry)) == []
  {
    RegistryInvocations(version, args);
  }

  /** A command line without flags: both values come from a non-blank input
      path, success depends only on its extension being allowed, and the log
      holds the two detection lines (for a non-blank path) and the notice. */
  lemma WithoutFlags(args: seq<string>, version: string)
    requires |args| > 0 && NoFlagGiven(args)
    ensures var r := HandleArguments(args, version);
      && (r.success <==> (!IsBlank(args[0]) ==> Extension(args[0]) in AllowedFileTypes))
      && r.parsed.fileType == (if IsBlank(args[0]) then None else Some(Extension(args[0])))
      && r.parsed.outputDir == (if IsBlank(args[0]) then None else Some(DirectoryName(args[0])))
      && r.invoked == []
      && |r.log| == 1 + 2 * Count(!IsBlank(args[0]))
      && r.log[|r.log| - 1] == NoArgumentsMessage
  {
    FlagValueNeedsFlag(args, "--fileType", "-ft");
    FlagValueNeedsFlag(args, "--outputPath", "-op");
    assert ExplicitFileType(args).None? && ExplicitOutputDir(args).None?;
    SuccessCharacterization(args, version);
    FileTypeResolution(args, version);
    OutputDirResolution(args, version);
    NoArgumentsNotice(args, version);
    LogLayout(args, version);
    NoFlagNoFailures(args, version);
  }

  /** A lone, non-blank input path with an allowed extension: the run
      succeeds with both values taken from the path, and the log is exactly
      the two detection lines followed by the notice. */
  lemma InputPathOnly(args: seq<string>, version: string, ext: string, dir: string)
    requires |args| > 0 && NoFlagGiven(args) && !IsBlank(args[0])
    requires Extension(args[0]) == ext && ext in AllowedFileTypes && DirectoryName(args[0]) == dir
    ensures var r := HandleArguments(args, version);
      && r.success
      && r.parsed.fileType == Some(ext)
      && r.parsed.outputDir == Some(dir)
      && r.invoked == []
      && r.log == [DetectionLine(ext), DefaultingLine(dir), NoArgumentsMessage]
  {
    InputPathLines(args, ext, dir);
    WithoutFlags(args, version);
    NoFlagNoFailures(args, version);
    LogLayout(args, version);
  }

  lemma InputPathLines(args: seq<string>, ext: string, dir: string)
    requires |args| > 0 && NoFlagGiven(args) && !IsBlank(args[0])
    requires Extension(args[0]) == ext && DirectoryName(args[0]) == dir
    ensures FinishingLines(args) == [DetectionLine(ext), DefaultingLine(dir), NoArgumentsMessage]
  {
    NoFlagNoExplicitValue(args);
    assert DetectsFromInput(args);
    assert FinishingLines(args) == [DetectionLine(ext)] + ([DefaultingLine(dir)] + [NoArgumentsMessage]);
  }

  lemma NoFlagNoExplicitValue(args: seq<string>)
    requires NoFlagGiven(args)
    ensures ExplicitFileType(args).None? && ExplicitOutputDir(args).None?
  {
    FlagValueNeedsFlag(args, "--fileType", "-ft");
    FlagValueNeedsFlag(args, "--outputPath", "-op");
  }

  /** `--outputPath` given without a value and no other flag: the handler's
      empty failure message makes the first logged line a bare newline and
      the run fails, while both values still come from the input path. */
  lemma OutputPathWithoutValue(args: seq<string>, version: string, ext: string, dir: string)
    requires |args| > 0 && !IsBlank(args[0])
    requires !HelpRequested(args) && !VersionRequested(args) && OutputPathGiven(args) && !FileTypeGiven(args)
    requires FlagValue(args, "--outputPath", "-op").None?
    requires Extension(args[0]) == ext && DirectoryName(args[0]) == dir
    ensures var r := HandleArguments(args, version);
      && !r.success
      && |r.log| > 0 && r.log[0] == "\n"
      && r.parsed.fileType == Some(ext)
      && r.parsed.outputDir == Some(dir)
  {
    FlagValueNeedsFlag(args, "--fileType", "-ft");
    assert ExplicitFileType(args).None? && ExplicitOutputDir(args).None?;
    assert !OutputPathHandler(args).ok;
    SuccessCharacterization(args, version);
    FileTypeResolution(args, version);
    OutputDirResolution(args, version);
    LogLayout(args, version);
    OutputPathFailureFirst(args, version);
  }
}
