/** Concrete command lines run through the resolver. */
module Scenarios {
  import opened Wrappers
  import opened Text
  import opened Paths
  import opened GlobalDictionaries
  import opened Commands
  import opened ArgumentsHandler
  import opened DispatchProperties
  import opened ResolverProperties
  import opened Resolution

  const Input: string := "report.xlsm"

  lemma InputNotBlank(p: string)
    requires p == Input
    ensures !IsBlank(p)
  {
    assert !IsWhiteSpace(p[0]);
  }

  lemma InputExtension(p: string)
    requires p == Input
    ensures Extension(p) == "xlsm" && Extension(p) in AllowedFileTypes
  {
    assert p == "report" + "." + "xlsm";
    ExtensionOfName("report", "xlsm");
  }

  lemma InputDirectory(p: string)
    requires p == Input
    ensures DirectoryName(p) == ""
  {
    assert '/' !in p && '\\' !in p;
    DirectoryNameOfBareName(p);
  }

  lemma InputOnlyHasNoFlag(args: seq<string>)
    requires args == [Input]
    ensures NoFlagGiven(args)
  {
  }

  /** Only an input path: nothing is invoked, so the notice is logged, yet the
      run succeeds; the file type and directory come from the path. */
  lemma InputOnly(args: seq<string>, version: string)
    requires args == [Input]
    ensures var r := HandleArguments(args, version);
      && r.success
      && r.parsed.fileType == Some("xlsm")
      && r.parsed.outputDir == Some("")
      && r.invoked == []
      && r.log == [DetectionLine("xlsm"), DefaultingLine(""), NoArgumentsMessage]
  {
    InputNotBlank(args[0]);
    InputExtension(args[0]);
    InputDirectory(args[0]);
    InputOnlyHasNoFlag(args);
    InputPathOnly(args, version, "xlsm", "");
  }

  lemma BogusFlags(args: seq<string>)
    requires args == [Input, "--fileType", "bogus"]
    ensures FileTypeGiven(args) && !HelpRequested(args) && !VersionRequested(args) && !OutputPathGiven(args)
  {
  }

  lemma BogusFlagValue(args: seq<string>)
    requires args == [Input, "--fileType", "bogus"]
    ensures FlagValue(args, "--fileType", "-ft") == Some("bogus")
  {
    assert FlagAt(args, 1, "--fileType", "-ft");
  }

  lemma BogusIsInvalid(v: string)
    requires v == "bogus"
    ensures !IsBlank(v) && v !in AllowedFileTypes
  {
    assert !IsWhiteSpace(v[0]);
  }

  /** An explicit file type that is not allowed: it is kept, the run fails,
      and the input path's extension is not used as a fallback. */
  lemma InvalidExplicitFileType(args: seq<string>, version: string)
    requires args == [Input, "--fileType", "bogus"]
    ensures var r := HandleArguments(args, version);
      && !r.success
      && r.parsed.fileType == Some("bogus")
      && r.parsed.outputDir == Some("")
      && r.invoked == ["fileType"]
  {
    InputNotBlank(args[0]);
    InputDirectory(args[0]);
    BogusFlags(args);
    BogusFlagValue(args);
    BogusIsInvalid(args[2]);
    InvalidFileTypeIsKept(args, version, "bogus");
    OutputDirResolution(args, version);
    InvokedInRegistryOrder(args, version);
    var none: seq<string> := [];
    assert none + (none + (none + ["fileType"])) == ["fileType"];
  }

  lemma TrailingFlags(args: seq<string>)
    requires args == [Input, "--outputPath"]
    ensures OutputPathGiven(args) && !HelpRequested(args) && !VersionRequested(args) && !FileTypeGiven(args)
  {
  }

  lemma TrailingFlagValue(args: seq<string>)
    requires args == [Input, "--outputPath"]
    ensures FlagValue(args, "--outputPath", "-op") == None
  {
  }

  /** A trailing `--outputPath` with no value: the handler fails with no
      message, so the first line logged is a bare newline; the run fails, yet
      the directory is still taken from the input path. */
  lemma TrailingOutputPath(args: seq<string>, version: string)
    requires args == [Input, "--outputPath"]
    ensures var r := HandleArguments(args, version);
      && !r.success
      && |r.log| > 0 && r.log[0] == "\n"
      && r.parsed.outputDir == Some("")
      && r.parsed.fileType == Some("xlsm")
  {
    InputNotBlank(args[0]);
    InputExtension(args[0]);
    InputDirectory(args[0]);
    TrailingFlags(args);
    TrailingFlagValue(args);
    OutputPathWithoutValue(args, version, "xlsm", "");
  }
}
