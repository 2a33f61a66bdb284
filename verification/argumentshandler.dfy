/** The command-line argument resolver: an ordered registry of four commands,
    the per-command handlers, and `HandleArguments`, which runs every matched
    handler once, in registry order, then fills in the file type and the output
    directory from the input path. */
module ArgumentsHandler {
  import opened Wrappers
  import opened Text
  import opened Paths
  import opened GlobalDictionaries
  import opened Commands
  import Parsed
  import Help

  // ---------------------------------------------------------------- registry

  const OutputPathDescription: string :=
    "The path to extract the workbook to\n"
    + "Usage: ExcelExporter.exe <input_file> --outputPath <output_path>\n"
    + "Example: ExcelExporter.exe input.xlsx --outputPath ./output\n"

  const FileTypeDescription: string :=
    "The file type to extract the workbook to\n"
    + "Usage: ExcelExporter.exe <input_file> --fileType <file_type>\n"
    + "Example: ExcelExporter.exe input.xlsx --fileType xlsm\n"

  /** The registered commands, in registration (and so dispatch) order. */
  const Registry: seq<Command> := [
    Command("help", "--help; -h", "Display this help message", ListHelp),
    Command("version", "--version; -v", "Display the version of the program", ShowVersion),
    Command("outputPath", "--outputPath; -op", OutputPathDescription, TakeOutputPath),
    Command("fileType", "--fileType; -ft", FileTypeDescription, TakeFileType)
  ]

  /** No two commands share a key (the registry is a dictionary keyed by it). */
  predicate DistinctKeys(cmds: seq<Command>) {
    forall i, j :: 0 <= i < j < |cmds| ==> cmds[i].key != cmds[j].key
  }

  /** No value occurs twice. */
  predicate NoDuplicates(xs: seq<string>) {
    forall i, j :: 0 <= i < j < |xs| ==> xs[i] != xs[j]
  }

  /** The registry's keys are distinct and each command has exactly a long and a
      short alias. */
  lemma RegistryShape()
    ensures DistinctKeys(Registry)
    ensures AliasTokens(Registry[0].aliases) == ["--help", "-h"]
    ensures AliasTokens(Registry[1].aliases) == ["--version", "-v"]
    ensures AliasTokens(Registry[2].aliases) == ["--outputPath", "-op"]
    ensures AliasTokens(Registry[3].aliases) == ["--fileType", "-ft"]
  {
    RegistryKeysDistinct();
    HelpAliases();
    VersionAliases();
    OutputPathAliases();
    FileTypeAliases();
  }

  lemma RegistryKeysDistinct()
    ensures DistinctKeys(Registry)
  {
  }

  lemma HelpAliases()
    ensures AliasTokens(Registry[0].aliases) == ["--help", "-h"]
  {
    assert Registry[0].aliases == "--help" + "; " + "-h";
    PairTokens(Registry[0].aliases, "--help", "-h");
  }

  lemma VersionAliases()
    ensures AliasTokens(Registry[1].aliases) == ["--version", "-v"]
  {
    assert Registry[1].aliases == "--version" + "; " + "-v";
    PairTokens(Registry[1].aliases, "--version", "-v");
  }

  lemma OutputPathAliases()
    ensures AliasTokens(Registry[2].aliases) == ["--outputPath", "-op"]
  {
    assert Registry[2].aliases == "--outputPath" + "; " + "-op";
    PairTokens(Registry[2].aliases, "--outputPath", "-op");
  }

  lemma FileTypeAliases()
    ensures AliasTokens(Registry[3].aliases) == ["--fileType", "-ft"]
  {
    assert Registry[3].aliases == "--fileType" + "; " + "-ft";
    PairTokens(Registry[3].aliases, "--fileType", "-ft");
  }

  // ---------------------------------------------------------------- handlers

  const InvalidFileTypeError: string := "Invalid file type"
  const MissingFileTypeMessage: string := "Error: Missing file type after --fileType or -ft."
  const InvalidFileTypeMessage: string := "Invalid file type: " + InvalidFileTypeError

  /** `ValidateFileType`: passes exactly for the five allowed workbook kinds,
      compared case-sensitively; otherwise fails as the source's exception does. */
  function ValidateFileType(fileType: string): (r: Outcome<string>)
    ensures r.Pass? <==> fileType in AllowedFileTypes
    ensures r.Fail? ==> r.error == InvalidFileTypeError
  {
    if fileType != "xlsx" && fileType != "xltx" && fileType != "xlsm" && fileType != "xltm" && fileType != "xlam"
    then Fail(InvalidFileTypeError)
    else Pass
  }

  const HelpHeader: string :=
    Help.UsageLine
    + "Example: ExcelExporter.exe input.xlsx --outputPath ./output\n"
    + "<input_file> should be an Excel file (xlsx, xltx, xlsm, xltm, xlam)\n"
    + "Macro-enabled workbooks (xlsm, xltm, xlam) will have their VBA code extracted\n"
    + "\n"
    + Help.ArgumentsLine

  /** One entry of the help listing per command: key, description and aliases. */
  function Listing(cmds: seq<Command>): string {
    if cmds == [] then ""
    else
      cmds[0].key + ": " + cmds[0].description + "\n"
      + "  Aliases: " + cmds[0].aliases + "\n"
      + "\n"
      + Listing(cmds[1..])
  }

  /** The listing of two registries one after the other is their listings one
      after the other, so the listing has one entry per command, in order. */
  lemma {:induction false} ListingAppend(a: seq<Command>, b: seq<Command>)
    ensures Listing(a + b) == Listing(a) + Listing(b)
    decreases |a|
  {
    if a == [] {
      assert a + b == b;
    } else {
      ListingAppend(a[1..], b);
      assert (a + b)[1..] == a[1..] + b;
    }
  }

  /** One command's listing entry: its key and description, then its alias
      string, then a blank line. */
  lemma ListingOne(c: Command)
    ensures Listing([c]) == c.key + ": " + c.description + "\n" + "  Aliases: " + c.aliases + "\n" + "\n"
  {
    assert [c][1..] == [];
  }

  /** `HelpHandler`: fails (help stops the run), parses nothing, and answers
      with the usage header followed by the listing of every registered command. */
  function HelpHandler(): (r: Commands.HandlerResult)
    ensures !r.ok
    ensures r.inputFilePath.None? && r.fileType.None? && r.outputDir.None?
    ensures r.message.Some? && HelpHeader <= r.message.value
    ensures r.message.value[|HelpHeader|..] == Listing(Registry)
  {
    Commands.HandlerResult(false, None, None, None, Some(HelpHeader + Listing(Registry)))
  }

  const VersionBanner: string :=
    "Excel Exporter - Command Line Interface\n"
    + "====================================\n"
    + "Version "

  /** `VersionHandler`: fails (version stops the run), parses nothing, and
      answers with the banner followed by the version text and a newline. The
      version text is what the source reads from `version.txt`. */
  function VersionHandler(version: string): (r: Commands.HandlerResult)
    ensures !r.ok
    ensures r.inputFilePath.None? && r.fileType.None? && r.outputDir.None?
    ensures r.message.Some? && VersionBanner <= r.message.value
    ensures r.message.value[|VersionBanner|..] == version + "\n"
  {
    Commands.HandlerResult(false, None, None, None, Some(VersionBanner + version + "\n"))
  }

  /** Position `i` holds the flag a value-taking handler reads: the first
      `long`, or, when `long` is absent, the first `short`. */
  predicate FlagAt(args: seq<string>, i: int, long: string, short: string) {
    IsFirst(args, i, long) || (long !in args && IsFirst(args, i, short))
  }

  /** The token after the flag, or `None` when neither spelling occurs or the
      flag is the last token. */
  function FlagValue(args: seq<string>, long: string, short: string): (v: Option<string>)
    ensures v.Some? <==> exists i :: 0 <= i < |args| - 1 && FlagAt(args, i, long, short)
    ensures v.Some? ==> exists i :: 0 <= i < |args| - 1 && FlagAt(args, i, long, short) && v.value == args[i + 1]
  {
    var i := IndexOf(args, long);
    var j := if i == -1 then IndexOf(args, short) else i;
    FlagAtIsIndex(args, long, short, j);
    if j == -1 || j + 1 >= |args| then None
    else
      assert FlagAt(args, j, long, short);
      Some(args[j + 1])
  }

  /** The flag position is the one `IndexOf` finds, and no other. */
  lemma FlagAtIsIndex(args: seq<string>, long: string, short: string, j: int)
    requires j == (if IndexOf(args, long) == -1 then IndexOf(args, short) else IndexOf(args, long))
    ensures forall i :: FlagAt(args, i, long, short) <==> (i == j && j != -1)
  {
    forall i | FlagAt(args, i, long, short)
      ensures i == j
    {
      if IsFirst(args, i, long) {
        FirstIsUnique(args, i, IndexOf(args, long), long);
      } else {
        FirstIsUnique(args, i, IndexOf(args, short), short);
      }
    }
  }

  lemma FirstIsUnique(args: seq<string>, i: int, j: int, x: string)
    requires IsFirst(args, i, x) && IsFirst(args, j, x)
    ensures i == j
  {
  }

  /** `OutputPathHandler`: succeeds exactly when a value follows the flag, and
      then parses that value as the output directory; it never sets a message. */
  function OutputPathHandler(args: seq<string>): (r: Commands.HandlerResult)
    ensures r.outputDir == FlagValue(args, "--outputPath", "-op")
    ensures r.ok <==> r.outputDir.Some?
    ensures r.inputFilePath.None? && r.fileType.None? && r.message.None?
  {
    var v := FlagValue(args, "--outputPath", "-op");
    if v.None? then Commands.HandlerResult(false, None, None, None, None)
    else Commands.HandlerResult(true, None, None, v, None)
  }

  /** `FileTypeHandler`: parses the token after the flag as the file type even
      when it is invalid, and succeeds exactly when that token is an allowed type. */
  function FileTypeHandler(args: seq<string>): (r: Commands.HandlerResult)
    ensures r.fileType == FlagValue(args, "--fileType", "-ft")
    ensures r.ok <==> r.fileType.Some? && r.fileType.value in AllowedFileTypes
    ensures r.fileType.None? ==> r.message == Some(MissingFileTypeMessage)
    ensures r.fileType.Some? && !r.ok ==> r.message == Some(InvalidFileTypeMessage)
    ensures r.ok ==> r.message.None?
    ensures r.inputFilePath.None? && r.outputDir.None?
  {
    var v := FlagValue(args, "--fileType", "-ft");
    if v.None? then Commands.HandlerResult(false, None, None, None, Some(MissingFileTypeMessage))
    else
      match ValidateFileType(v.value)
      case Pass => Commands.HandlerResult(true, None, v, None, None)
      case Fail(e) => Commands.HandlerResult(false, None, v, None, Some("Invalid file type: " + e))
  }

  /** Runs the handler a command is tagged with. */
  function RunHandler(h: HandlerKind, version: string, args: seq<string>): Commands.HandlerResult {
    match h
    case ListHelp => HelpHandler()
    case ShowVersion => VersionHandler(version)
    case TakeOutputPath => OutputPathHandler(args)
    case TakeFileType => FileTypeHandler(args)
    case ShowUsage => Help.Handler(args)
  }

  // ---------------------------------------------------------------- dispatch

  /** The resolver's working state: the success flag, the parsed values, the
      message log (one entry per `outputText +=`) and the keys of the handlers
      run so far, in the order they ran. */
  datatype State = State(success: bool, parsed: Parsed.ParsedArguments, log: seq<string>, invoked: seq<string>)

  /** Before dispatch: success, the first argument as input path, nothing else. */
  function Initial(args: seq<string>): (s: State)
    requires |args| > 0
    ensures s.success && s.log == [] && s.invoked == []
    ensures Parsed.Get(s.parsed, Parsed.InputFilePath) == Some(args[0])
    ensures forall f :: f != Parsed.InputFilePath ==> Parsed.Get(s.parsed, f) == None
  {
    State(true, Parsed.Set(Parsed.Fresh(), Parsed.InputFilePath, Some(args[0])), [], [])
  }

  /** A `null` message reads as "" when concatenated. */
  function MessageText(m: Option<string>): string {
    m.GetOr("")
  }

  /** The log entry of one handler run: its message and a newline on failure. */
  function FailureEntry(o: Commands.HandlerResult): seq<string> {
    if o.ok then [] else [MessageText(o.message) + "\n"]
  }

  /** Records `c` as invoked, runs its handler, and folds the outcome in. */
  function Invoke(version: string, args: seq<string>, c: Command, s: State): (r: State)
    ensures r.invoked == s.invoked + [c.key]
    ensures r.success ==> s.success
    ensures !s.success || RunHandler(c.handler, version, args).ok ==> r.success == s.success
    ensures !RunHandler(c.handler, version, args).ok ==> !r.success
    ensures s.log <= r.log && |r.log| <= |s.log| + 1
    ensures |r.log| == |s.log| + 1 <==> !RunHandler(c.handler, version, args).ok
    ensures |r.log| == |s.log| + 1 ==> r.log[|s.log|] == MessageText(RunHandler(c.handler, version, args).message) + "\n"
  {
    var o := RunHandler(c.handler, version, args);
    State(s.success && o.ok, Apply(o, s.parsed), s.log + FailureEntry(o), s.invoked + [c.key])
  }

  /** The inner loop over one command's alias pieces: a trimmed piece found among
      the arguments invokes the command unless its key was already invoked. */
  function RunAliases(version: string, args: seq<string>, c: Command, parts: seq<string>, s: State): (r: State)
    ensures s.invoked <= r.invoked && s.log <= r.log
    ensures r.parsed.outputText == s.parsed.outputText
    ensures r.parsed.outputFolder == s.parsed.outputFolder && r.parsed.saveType == s.parsed.saveType
    decreases |parts|
  {
    if parts == [] then s
    else
      var found := IndexOf(args, Trim(parts[0])) != -1;
      var s' := if found && c.key !in s.invoked then Invoke(version, args, c, s) else s;
      RunAliases(version, args, c, parts[1..], s')
  }

  /** The outer loop over the registry, in order. */
  function DispatchAll(version: string, args: seq<string>, cmds: seq<Command>, s: State): (r: State)
    ensures s.invoked <= r.invoked && s.log <= r.log
    ensures r.parsed.outputText == s.parsed.outputText
    ensures r.parsed.outputFolder == s.parsed.outputFolder && r.parsed.saveType == s.parsed.saveType
    decreases |cmds|
  {
    if cmds == [] then s
    else DispatchAll(version, args, cmds[1..], RunAliases(version, args, cmds[0], Split(cmds[0].aliases, AliasSeparator), s))
  }

  // ---------------------------------------------------------------- after dispatch

  /** File-type detection runs when no file type was parsed and the input path is not blank. */
  predicate DetectsFileType(s: State) {
    IsNullOrWhiteSpace(s.parsed.fileType) && !IsNullOrWhiteSpace(s.parsed.inputFilePath)
  }

  /** Takes the file type from the input path's extension. A valid extension
      leaves success as it was; an invalid one makes the run fail. Either way it
      is stored and one line is logged. */
  function AutoDetectFileType(s: State): (r: State)
    ensures !DetectsFileType(s) ==> r == s
    ensures DetectsFileType(s) ==>
      var ext := Extension(s.parsed.inputFilePath.value);
      && r.parsed == Parsed.Set(s.parsed, Parsed.FileType, Some(ext))
      && (r.success <==> s.success && ext in AllowedFileTypes)
      && |r.log| == |s.log| + 1 && r.log[..|s.log|] == s.log
      && r.log == s.log + [DetectionLine(ext)]
      && r.invoked == s.invoked
  {
    if !DetectsFileType(s) then s
    else
      var ext := Extension(s.parsed.inputFilePath.value);
      var parsed := Parsed.Set(s.parsed, Parsed.FileType, Some(ext));
      match ValidateFileType(ext)
      case Pass =>
        s.(parsed := parsed, log := s.log + ["Auto-detected file type from input file: " + ext + "\n"])
      case Fail(e) =>
        s.(success := false, parsed := parsed,
           log := s.log + ["Auto-detected file type from input file is invalid: " + e + "\n"])
  }

  /** The line file-type detection logs for extension `ext`: a confirmation
      when the extension is an allowed file type, otherwise the validation
      error. */
  function DetectionLine(ext: string): string {
    if ext in AllowedFileTypes then "Auto-detected file type from input file: " + ext + "\n"
    else "Auto-detected file type from input file is invalid: " + InvalidFileTypeError + "\n"
  }

  /** Output-directory defaulting runs when no directory was parsed and the input path is not blank. */
  predicate DefaultsOutputDir(s: State) {
    IsNullOrWhiteSpace(s.parsed.outputDir) && !IsNullOrWhiteSpace(s.parsed.inputFilePath)
  }

  /** Defaults the output directory to the input path's directory. It only sets
      that field and appends one line: success is never touched. */
  function DefaultOutputDir(s: State): (r: State)
    ensures r.success == s.success && r.invoked == s.invoked
    ensures s.log <= r.log
    ensures !DefaultsOutputDir(s) ==> r == s
    ensures DefaultsOutputDir(s) ==>
      && r.parsed == Parsed.Set(s.parsed, Parsed.OutputDir, Some(DirectoryName(s.parsed.inputFilePath.value)))
      && |r.log| == |s.log| + 1
      && r.log == s.log + [DefaultingLine(DirectoryName(s.parsed.inputFilePath.value))]
  {
    if !DefaultsOutputDir(s) then s
    else
      var dir := DirectoryName(s.parsed.inputFilePath.value);
      s.(parsed := Parsed.Set(s.parsed, Parsed.OutputDir, Some(dir)),
         log := s.log + ["Auto-detected output directory from input file: " + dir + "\n"])
  }

  /** The line directory defaulting logs for directory `dir`. */
  function DefaultingLine(dir: string): string {
    "Auto-detected output directory from input file: " + dir + "\n"
  }

  const NoArgumentsMessage: string := "Error: No valid arguments provided.\n"

  /** When no handler ran, appends the "no valid arguments" notice; success and
      the parsed values are never touched. */
  function NoticeIfNothingInvoked(s: State): (r: State)
    ensures r.success == s.success && r.parsed == s.parsed && r.invoked == s.invoked
    ensures s.invoked == [] ==> r.log == s.log + [NoArgumentsMessage]
    ensures s.invoked != [] ==> r.log == s.log
  {
    if |s.invoked| == 0 then s.(log := s.log + [NoArgumentsMessage]) else s
  }

  /** All log entries, in order, as one string. */
  function Concat(log: seq<string>): string {
    if log == [] then "" else log[0] + Concat(log[1..])
  }

  /** The `outputText` out-parameter: `null` until something is appended. */
  function LogText(log: seq<string>): (t: Option<string>)
    ensures t.None? <==> log == []
  {
    if log == [] then None else Some(Concat(log))
  }

  /** Appending a line to the log appends it to `outputText`, as C#'s
      `outputText += line` does, with a `null` text reading as "". */
  lemma LogTextAppend(log: seq<string>, line: string)
    ensures LogText(log + [line]) == Some(LogText(log).GetOr("") + line)
  {
    ConcatAppend(log, [line]);
    assert [line][1..] == [];
    assert Concat([line]) == line + "";
    assert line + "" == line;
    assert LogText(log + [line]) == Some(Concat(log) + line);
    if log == [] {
      assert Concat(log) == "";
      assert "" + line == line;
    }
  }

  lemma {:induction false} ConcatAppend(a: seq<string>, b: seq<string>)
    ensures Concat(a + b) == Concat(a) + Concat(b)
    decreases |a|
  {
    if a == [] {
      assert a + b == b;
    } else {
      ConcatAppend(a[1..], b);
      assert (a + b)[1..] == a[1..] + b;
    }
  }

  /** `HandleArguments`: the resolution pass. The four out-parameters are the
      `inputFilePath`, `fileType`, `outputDir` and `outputText` fields of the
      result's record; `args` must hold at least the input path. The returned
      `outputText` is the joined log, and the two properties the resolver never
      sets stay null. What the other fields resolve to is stated in `Resolution`. */
  function HandleArguments(args: seq<string>, version: string): (r: State)
    requires |args| > 0
    ensures r.parsed.outputText == LogText(r.log)
    ensures r.parsed.outputFolder.None? && r.parsed.saveType.None?
  {
    InitialShape(args);
    FinishShape(Dispatched(args, version));
    Finish(Dispatched(args, version))
  }

  /** The steps after the registry loop: file-type detection, directory
      defaulting, the "no valid arguments" notice, and the log written out. */
  function Finish(d: State): State {
    var s := NoticeIfNothingInvoked(DefaultOutputDir(AutoDetectFileType(d)));
    s.(parsed := Parsed.Set(s.parsed, Parsed.OutputText, LogText(s.log)))
  }

  /** The state after the registry loop. */
  function Dispatched(args: seq<string>, version: string): State
    requires |args| > 0
  {
    DispatchAll(version, args, Registry, Initial(args))
  }

  /** A fresh run has not set `OutputName` or `SaveType`. */
  lemma InitialShape(args: seq<string>)
    requires |args| > 0
    ensures Initial(args).parsed.outputFolder.None? && Initial(args).parsed.saveType.None?
  {
    var s0 := Initial(args);
    assert Parsed.Get(s0.parsed, Parsed.OutputName) == None;
    assert Parsed.Get(s0.parsed, Parsed.SaveType) == None;
  }

  /** The stages after the loop never set `outputFolder` or `saveType`, and
      the last one stores the joined log as `outputText`. */
  lemma FinishShape(d: State)
    requires d.parsed.outputFolder.None? && d.parsed.saveType.None?
    ensures var r := Finish(d);
      && r.parsed.outputText == LogText(r.log)
      && r.parsed.outputFolder.None? && r.parsed.saveType.None?
  {
    var a := AutoDetectFileType(d);
    assert a.parsed.outputFolder.None? && a.parsed.saveType.None? by {
      assert Parsed.Get(a.parsed, Parsed.OutputName) == Parsed.Get(d.parsed, Parsed.OutputName);
      assert Parsed.Get(a.parsed, Parsed.SaveType) == Parsed.Get(d.parsed, Parsed.SaveType);
    }
    var o := DefaultOutputDir(a);
    assert o.parsed.outputFolder.None? && o.parsed.saveType.None? by {
      assert Parsed.Get(o.parsed, Parsed.OutputName) == Parsed.Get(a.parsed, Parsed.OutputName);
      assert Parsed.Get(o.parsed, Parsed.SaveType) == Parsed.Get(a.parsed, Parsed.SaveType);
    }
    var n := NoticeIfNothingInvoked(o);
    var r := Finish(d);
    assert r.parsed == Parsed.Set(n.parsed, Parsed.OutputText, LogText(n.log));
    assert Parsed.Get(r.parsed, Parsed.OutputText) == LogText(n.log);
    assert Parsed.Get(r.parsed, Parsed.OutputName) == Parsed.Get(n.parsed, Parsed.OutputName);
    assert Parsed.Get(r.parsed, Parsed.SaveType) == Parsed.Get(n.parsed, Parsed.SaveType);
  }
}
