# Excel-Exporter argument resolver, in Dafny

This project models the command-line front end of Excel-Exporter, a C# tool
that exports the contents of an Excel workbook. The resolver turns
`ExcelExporter.exe <input_file> [flags]` into six things:

- an input path;
- a file type;
- an output directory;
- the accumulated message text (`outputText`);
- a success flag;
- the list of handlers that ran.

The resolver works from an ordered registry of four commands:

| key | aliases | handler |
|---|---|---|
| `help` | `--help; -h` | lists the usage text and every command, then fails |
| `version` | `--version; -v` | prints a banner and the version text, then fails |
| `outputPath` | `--outputPath; -op` | reads the token after the flag as the output directory |
| `fileType` | `--fileType; -ft` | reads the token after the flag as the file type and validates it against the allowed set |

`HandleArguments` works in four steps:

1. It walks the registry in order. It splits each alias string on `;` and
   trims every piece. A command runs at most once, when one of its aliases is
   among the arguments. A failed handler appends its message and a newline to
   the log. Any non-blank value a handler parsed overwrites the current one.
2. When no file type was parsed and the input path is not blank, it takes the
   file type from the input path's extension. An extension outside the
   allowed set makes the run fail.
3. When no output directory was parsed and the input path is not blank, it
   takes the output directory from the input path's directory.
4. When no handler ran, it logs the notice "Error: No valid arguments
   provided.".

The modules follow the source files:

| module | file | models |
|---|---|---|
| `Wrappers` | `wrappers.dfy` | `Option` for C# `null`; `Outcome` for a check that may throw |
| `Text` | `text.dfy` | the .NET helpers the resolver calls: `char.IsWhiteSpace`, `string.IsNullOrWhiteSpace`, `string.Trim`, `string.Split(char)`, `Array.IndexOf` |
| `Paths` | `paths.dfy` | textual stand-ins for `Path.GetExtension(p).TrimStart('.')` and `Path.GetDirectoryName(p)` |
| `GlobalDictionaries` | `globaldictionaries.dfy` | `Resources/GlobalDictionaries.cs` |
| `Parsed` | `parsed.dfy` | `Classes/ParsedArguments.cs`: six nullable properties; `OutputName` is stored in the backing field `output_folder` |
| `Commands` | `commands.dfy` | `Classes/Commands.cs`: the `Command` record, the result every handler reports, how an alias string becomes alias tokens, and how a handler's values are written into the record |
| `Help` | `help.dfy` | `Commands/Help.cs`: the stand-alone help command and its constant usage text |
| `ArgumentsHandler` | `argumentshandler.dfy` | `Classes/ArgumentsHandler.cs`: the registry, the four handlers, `ValidateFileType`, and `HandleArguments` as a fold over the registry followed by three finishing stages |
| `DispatchProperties` | `dispatchproperties.dfy` | the registry fold against a reference list of handler runs |
| `ResolverProperties` | `resolverproperties.dfy` | that reference list for the four registered commands |
| `Resolution` | `resolution.dfy` | what `HandleArguments` resolves, stated over the arguments alone |
| `Scenarios` | `scenarios.dfy` | three concrete command lines |

Each handler's `out` parameters become one `HandlerResult` value. The stored
delegates become a closed set of handler tags, `HandlerKind`. The four `out`
parameters of `HandleArguments` become fields of the final `State`:
- the parsed values go into a `ParsedArguments` record;
- `outputText` is the concatenated log, or `null` when nothing was logged.

The handlers in `ArgumentsHandler.cs` take five parameters. The `Function`
delegate in `Commands.cs` takes three. The model follows the handlers'
behaviour and keeps one result shape for both.

The dispatch loop is tied to a reference definition, `Invocations`. That
definition lists the handler runs the loop should make: one per command
whose alias occurs, in registry order. `DispatchSummary` proves that the loop
records exactly those runs:
- their keys;
- their success;
- their failure messages;
- their values.

`Resolution` then restates the outcome of `HandleArguments` in terms of which
flags occur in the arguments.

Three behaviours of `Classes/ArgumentsHandler.cs` that the model keeps:
- The "No valid arguments" notice does not mark the run as failed
  (`Classes/ArgumentsHandler.cs:109-113`), so a bare input path succeeds.
- An invalid `--fileType` value is stored (line 208) and blocks detection
  (line 87); the input path's extension is not used instead
  (`Resolution.InvalidFileTypeIsKept`).
- File types are compared case-sensitively (line 228).

## Model

| member | source | states |
|---|---|---|
| `Text.WhiteSpaceIsListed` | Classes/ArgumentsHandler.cs:74-103 | the characters `char.IsWhiteSpace` accepts are exactly the 25 listed ones: space, U+0009 to U+000D, U+0085, U+00A0, U+1680, U+2000 to U+200A, U+2028, U+2029, U+202F, U+205F and U+3000 |
| `Text.NullOrWhiteSpaceIffTrimEmpty` | Classes/ArgumentsHandler.cs:74-103 | `string.IsNullOrWhiteSpace` holds exactly for null and for the strings that `Trim` empties |
| `Text.Trim` | Classes/ArgumentsHandler.cs:58 | the result has no white space at either end, and the input is a blank prefix, then the result, then a blank suffix |
| `Text.TrimOfPadded` | Classes/ArgumentsHandler.cs:58 | trimming a string padded with white space on both sides gives back exactly that string, so `Trim` has one answer |
| `Text.TrimIsUnique` | Classes/ArgumentsHandler.cs:58 | a trimmed string that the input is padded from is the input's `Trim` |
| `Text.IndexOf` | Classes/ArgumentsHandler.cs:59 | -1 exactly when the value is absent; otherwise a position holding the value with no earlier occurrence |
| `Text.Split` | Classes/ArgumentsHandler.cs:55 | at least one piece, no piece contains the separator, and joining the pieces with the separator gives the input back |
| `Text.SplitJoin` | Classes/ArgumentsHandler.cs:55 | splitting pieces that were joined with a separator they do not contain returns those pieces |
| `Paths.Extension` | Classes/ArgumentsHandler.cs:89 | the extension has no dot and no separator, and follows a dot at the end of the path; it is non-empty whenever the final path segment has a dot and the path does not end with one |
| `Paths.ExtensionOfName` | Classes/ArgumentsHandler.cs:89 | the extension of `stem.ext` is `ext` |
| `Paths.DirectoryName` | Classes/ArgumentsHandler.cs:105 | either "" for a path with no separator, or the prefix before the last separator |
| `Paths.DirectoryNameOfPath` | Classes/ArgumentsHandler.cs:105 | the directory name of `dir/name` is `dir` |
| `Paths.DirectoryNameOfBareName` | Classes/ArgumentsHandler.cs:105 | a path without separators has an empty directory name |
| `GlobalDictionaries.AllowedSetsShape` | Resources/GlobalDictionaries.cs:5-18 | five file types and two save types, with no value in both sets |
| `GlobalDictionaries.FileTypesAreLowerCase` | Resources/GlobalDictionaries.cs:5-12 | every allowed file type is lower case, so an upper-case spelling is not allowed |
| `Parsed.Fresh` | Classes/ParsedArguments.cs:3-46 | a new record has every property null |
| `Parsed.Set` | Classes/ParsedArguments.cs:5-45 | after a setter, that property's getter returns the new value and every other property keeps its value |
| `Parsed.OutputNameIsOutputFolder` | Classes/ParsedArguments.cs:33-38 | the `OutputName` property reads and writes the backing field `output_folder` |
| `Parsed.SetsCommute` | Classes/ParsedArguments.cs:5-45 | setters of different properties commute, and a second set of the same property overrides the first |
| `Commands.AliasTokens` | Classes/ArgumentsHandler.cs:55-58 | one token per piece of the alias string, each trimmed and free of `;`; token `k` is piece `k` with white space removed from both ends (by `Text.TrimIsUnique`, the only trimmed string piece `k` is padded from) |
| `Commands.AliasTokensOfPair` | Classes/ArgumentsHandler.cs:55-58 | an alias string `"<long>; <short>"` yields exactly the tokens `long` and `short` |
| `Commands.ApplyIdempotent` | Classes/ArgumentsHandler.cs:74-81 | writing the same handler result twice is the same as writing it once |
| `Help.Command` | Commands/Help.cs:17-24 | the command has key "help", alias string "--help; -h" (which tokenises to `--help` and `-h`), the help description and the usage handler |
| `Help.Handler` | Commands/Help.cs:36-71 | always fails, parses nothing, and answers with a text that opens with the usage line and closes with the "Available arguments:" heading |
| `Help.HandlerLeavesParsedUnchanged` | Commands/Help.cs:31-40 | the parsed record is unused: writing the handler's result into any record leaves it as it was |
| `Help.HandlerIgnoresArgs` | Commands/Help.cs:36-71 | the answer does not depend on the arguments |
| `ArgumentsHandler.RegistryShape` | Classes/ArgumentsHandler.cs:8-35 | the four registry keys are distinct, and each alias string tokenises to its long and short alias |
| `ArgumentsHandler.ValidateFileType` | Classes/ArgumentsHandler.cs:226-232 | passes exactly for the allowed file types, compared case-sensitively, and otherwise fails with "Invalid file type" |
| `ArgumentsHandler.HelpHandler` | Classes/ArgumentsHandler.cs:119-143 | fails, parses nothing, and answers with the usage header followed by one listing entry per registered command |
| `ArgumentsHandler.VersionHandler` | Classes/ArgumentsHandler.cs:145-158 | fails, parses nothing, and answers with the banner, then the version text, then a newline |
| `ArgumentsHandler.FlagValue` | Classes/ArgumentsHandler.cs:171-183 | a value exists exactly when the first long flag, or (when the long flag is absent) the first short flag, is followed by a token, and the value is that token |
| `ArgumentsHandler.OutputPathHandler` | Classes/ArgumentsHandler.cs:160-185 | parses the token after `--outputPath`/`-op` as the output directory, succeeds exactly when there is one, and never sets a message |
| `ArgumentsHandler.FileTypeHandler` | Classes/ArgumentsHandler.cs:187-222 | parses the token after `--fileType`/`-ft` as the file type even when it is invalid; succeeds exactly when it is allowed; a missing value and an invalid value each get their own message |
| `ArgumentsHandler.ListingAppend` | Classes/ArgumentsHandler.cs:135-140 | the listing of two registries one after the other is their two listings one after the other, so the help text has one entry per command, in registry order |
| `ArgumentsHandler.Initial` | Classes/ArgumentsHandler.cs:45-51 | the run starts as a success with the first argument as input path, nothing else set, nothing logged and nothing invoked |
| `ArgumentsHandler.Invoke` | Classes/ArgumentsHandler.cs:62-81 | running a command records its key; success is lost exactly when the handler fails, and then exactly one line is logged: the handler's message (null counting as "") and a newline |
| `ArgumentsHandler.RunAliases` | Classes/ArgumentsHandler.cs:56-83 | the alias loop only extends the invoked list and the log, and never touches `outputText`, `OutputName` or `SaveType` |
| `ArgumentsHandler.DispatchAll` | Classes/ArgumentsHandler.cs:53-84 | the loop only extends the invoked list and the log, and never touches `outputText`, `OutputName` or `SaveType` |
| `ArgumentsHandler.AutoDetectFileType` | Classes/ArgumentsHandler.cs:86-100 | when the file type is null or blank and the input path is not, the extension becomes the file type and success is kept only if it is allowed; the one line logged is "Auto-detected file type from input file: <ext>" for an allowed extension and "Auto-detected file type from input file is invalid: Invalid file type" otherwise; in every other case nothing changes |
| `ArgumentsHandler.DefaultOutputDir` | Classes/ArgumentsHandler.cs:102-107 | when the output directory is null or blank and the input path is not, the input path's directory becomes the output directory and the one line logged is "Auto-detected output directory from input file: <dir>"; success is never touched |
| `ArgumentsHandler.NoticeIfNothingInvoked` | Classes/ArgumentsHandler.cs:109-113 | when no handler ran, the notice is appended; nothing else changes |
| `ArgumentsHandler.LogText` | Classes/ArgumentsHandler.cs:48 | `outputText` is null exactly when nothing was logged |
| `ArgumentsHandler.LogTextAppend` | Classes/ArgumentsHandler.cs:70 | logging one more line appends that line to `outputText`, a null text counting as "" |
| `ArgumentsHandler.ConcatAppend` | Classes/ArgumentsHandler.cs:70-112 | the text of two logs one after the other is the text of the first followed by the text of the second |
| `ArgumentsHandler.HandleArguments` | Classes/ArgumentsHandler.cs:40-116 | the returned `outputText` is the joined log, and `OutputName` and `SaveType` stay null; the other results are stated by `Resolution.SuccessCharacterization`, `Resolution.FileTypeResolution`, `Resolution.OutputDirResolution`, `Resolution.InputFilePathIsFirstArgument` and `Resolution.LogLayout` |
| `DispatchProperties.ApplyAllIsLastNonBlank` | Classes/ArgumentsHandler.cs:74-81 | after a sequence of handler runs, the input path, the file type and the output directory are each the last non-blank value the runs reported for it, or the starting value when every run reported null or blank, whether or not the runs succeeded |
| `DispatchProperties.LastNonBlank` | Classes/ArgumentsHandler.cs:74-81 | the reference for the above: the last entry that is neither null nor blank, or the starting value when there is none |
| `DispatchProperties.RunAliasesEffect` | Classes/ArgumentsHandler.cs:56-83 | the alias loop of a command whose key was already invoked changes nothing; otherwise it runs the handler once if some trimmed alias piece is among the arguments, and changes nothing if none is |
| `DispatchProperties.DispatchSummary` | Classes/ArgumentsHandler.cs:51-84 | the registry loop makes exactly the reference runs, in order: it records their keys, fails exactly when one of them failed without stopping early, logs each failure's message, and writes their values into the record |
| `DispatchProperties.KeyRecorded` | Classes/ArgumentsHandler.cs:55-65 | a key is recorded exactly when one of its command's alias tokens is among the arguments |
| `DispatchProperties.KeysAreDistinct` | Classes/ArgumentsHandler.cs:62-65 | with distinct registry keys, no key is recorded twice, so each handler runs at most once |
| `DispatchProperties.SummariesCompose` | Classes/ArgumentsHandler.cs:53-84 | folding in the runs of one command and then the rest equals folding in all the runs |
| `ResolverProperties.RegistryInvocations` | Classes/ArgumentsHandler.cs:8-35 | help, version, outputPath and fileType run, in that order, each exactly when its long or short alias occurs |
| `ResolverProperties.DispatchedValues` | Classes/ArgumentsHandler.cs:45-84 | after the loop: success exactly when every handler that ran succeeded; the input path is still the first argument; the file type and directory are the non-blank values the flags supplied |
| `Resolution.InvokedInRegistryOrder` | Classes/ArgumentsHandler.cs:51-84 | the invoked keys are those whose flag occurs, in registry order, with no repeats |
| `Resolution.SuccessCharacterization` | Classes/ArgumentsHandler.cs:49-115 | the run succeeds exactly when help and version were not asked for, every value flag that occurs has a valid value, and any file type taken from the input path is allowed |
| `Resolution.HelpOrVersionFails` | Classes/ArgumentsHandler.cs:142-157 | asking for help or for the version always makes the run fail |
| `Resolution.InputFilePathIsFirstArgument` | Classes/ArgumentsHandler.cs:45-75 | the resolved input path is the first argument |
| `Resolution.FileTypeResolution` | Classes/ArgumentsHandler.cs:77-100 | the file type is the non-blank value after `--fileType`/`-ft`, valid or not; failing that, the input path's extension when the path is not blank; failing that, null |
| `Resolution.InvalidFileTypeIsKept` | Classes/ArgumentsHandler.cs:208-218 | a non-blank file type outside the allowed set is kept as the file type and makes the run fail; the extension is not consulted |
| `Resolution.OutputDirResolution` | Classes/ArgumentsHandler.cs:80-107 | the output directory is the non-blank value after `--outputPath`/`-op`; failing that, the input path's directory when the path is not blank; failing that, null |
| `Resolution.NoArgumentsNotice` | Classes/ArgumentsHandler.cs:109-113 | nothing is invoked exactly when no registered flag is given, and then the notice is the last line logged |
| `Resolution.FinishLog` | Classes/ArgumentsHandler.cs:86-113 | after the loop the log only grows: by the detection line, the defaulting line and the notice, in that order, each only when its step runs |
| `Resolution.StageLinesOf` | Classes/ArgumentsHandler.cs:86-113 | the lines the finishing steps log depend only on the arguments: the detection line for the input path's extension when no explicit file type was given and the path is not blank; the defaulting line for its directory when no explicit output directory was given and the path is not blank; the notice when no flag was given |
| `Resolution.LogLayout` | Classes/ArgumentsHandler.cs:68-113 | the log is exactly the failed handlers' lines in registry order followed by those finishing lines |
| `Resolution.FirstLogLine` | Classes/ArgumentsHandler.cs:119-158 | with help, the first line is the help listing; with only the version, it is the banner and version text |
| `Resolution.OutputPathFailureFirst` | Classes/ArgumentsHandler.cs:68-72 | without help or version, a `--outputPath` with no value makes a bare newline the first failure line, because that handler fails without a message (lines 178-181) |
| `Resolution.InputPathOnly` | Classes/ArgumentsHandler.cs:86-113 | a lone non-blank input path with an allowed extension succeeds with both values taken from the path, and logs exactly the detection line, the defaulting line and the notice |
| `Resolution.OutputPathWithoutValue` | Classes/ArgumentsHandler.cs:160-185 | with only a value-less `--outputPath`, the run fails, a bare newline is the first line logged, and both values still come from a non-blank input path |
| `Resolution.WithoutFlags` | Classes/ArgumentsHandler.cs:86-113 | with no flag, both values come from a non-blank input path, success depends only on its extension, nothing is invoked, and the notice closes the log |
| `Scenarios.InputOnly` | Classes/ArgumentsHandler.cs:86-113 | `report.xlsm` alone resolves to file type "xlsm" and directory "", succeeds, and logs exactly "Auto-detected file type from input file: xlsm", "Auto-detected output directory from input file: " and the notice, each with its newline |
| `Scenarios.InvalidExplicitFileType` | Classes/ArgumentsHandler.cs:187-222 | `report.xlsm --fileType bogus` keeps "bogus", fails, and runs only the fileType handler |
| `Scenarios.TrailingOutputPath` | Classes/ArgumentsHandler.cs:160-185 | `report.xlsm --outputPath` fails, logs a bare newline first, and still takes the directory and file type from the input path |

## Left out

- Console and file I/O are left out. The version handler's text comes from
  `version.txt` in the source; here it is the parameter `version`.
- `Path.GetExtension` and `Path.GetDirectoryName` are replaced by text rules
  over `/` and `\`. The model ignores:
  - drive letters and the `:` volume separator;
  - root paths, which .NET maps to `null`;
  - separator normalisation;
  - the exceptions .NET throws for invalid path characters.
- Paths.Extension: on Windows, .NET also stops the extension at `:`. The
  model's contract covers only `.` and the two separators.
- Paths.DirectoryName: the contract covers the textual rule only. It does
  not say that .NET returns `null` for a root path or normalises separators.
- The registry is a .NET `Dictionary`. It is modelled as a sequence in
  insertion order, which is the order its enumeration yields for a dictionary
  that was only ever added to.
- `args[0]` is read unguarded in the source. An empty argument list would
  throw there. The model therefore requires at least one argument in the
  members that read it.
- The source's exception path is not modelled. `ValidateFileType` throws, and
  the caller catches and reads `ex.Message`. The model returns an `Outcome`
  with the same message instead.
- Left out as code outside the resolver:
  - the export in `Program.cs`;
  - VBA, Ribbon, CSV and JSON handling;
  - creating directories.
- No handler parses an output name or a save type. The `OutputName` and
  `SaveType` properties exist, but the resolver never sets them, and
  `AllowedSaveTypes` is never consulted.
