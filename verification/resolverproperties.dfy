/** Properties of `HandleArguments` over the registered commands: which
    handlers run, when the run succeeds, and where each resolved value comes from. */
module ResolverProperties {
  import opened Wrappers
  import opened Text
  import opened Paths
  import opened GlobalDictionaries
  import opened Commands
  import opened ArgumentsHandler
  import opened DispatchProperties
  import Parsed

  predicate HelpRequested(args: seq<string>) { "--help" in args || "-h" in args }
  predicate VersionRequested(args: seq<string>) { "--version" in args || "-v" in args }
  predicate OutputPathGiven(args: seq<string>) { "--outputPath" in args || "-op" in args }
  predicate FileTypeGiven(args: seq<string>) { "--fileType" in args || "-ft" in args }

  /** Every handler that runs succeeds. Help and version never do. */
  predicate HandlersSucceed(args: seq<string>) {
    && !HelpRequested(args)
    && !VersionRequested(args)
    && (OutputPathGiven(args) ==> OutputPathHandler(args).ok)
    && (FileTypeGiven(args) ==> FileTypeHandler(args).ok)
  }

  /** The token after `--fileType`/`-ft`, when there is one and it is not blank. */
  function ExplicitFileType(args: seq<string>): Option<string> {
    var v := FlagValue(args, "--fileType", "-ft");
    if v.Some? && !IsBlank(v.value) then v else None
  }

  /** The token after `--outputPath`/`-op`, when there is one and it is not blank. */
  function ExplicitOutputDir(args: seq<string>): Option<string> {
    var v := FlagValue(args, "--outputPath", "-op");
    if v.Some? && !IsBlank(v.value) then v else None
  }

  /** A value is only found after one of the two spellings. */
  lemma FlagValueNeedsFlag(args: seq<string>, long: string, short: string)
    ensures FlagValue(args, long, short).Some? ==> long in args || short in args
  {
    if FlagValue(args, long, short).Some? {
      var i :| 0 <= i < |args| - 1 && FlagAt(args, i, long, short);
      assert args[i] == long || args[i] == short;
    }
  }

  /** The file type is taken from the input path: none was parsed and the path is not blank. */
  predicate DetectsFromInput(args: seq<string>)
    requires |args| > 0
  {
    ExplicitFileType(args).None? && !IsBlank(args[0])
  }

  /** A command with exactly two alias tokens matches when either occurs. */
  lemma MatchesPair(c: Command, args: seq<string>, long: string, short: string)
    requires AliasTokens(c.aliases) == [long, short]
    ensures Matches(c, args) <==> long in args || short in args
  {
    var tokens := AliasTokens(c.aliases);
    if long in args {
      assert tokens[0] in args;
    }
    if short in args {
      assert tokens[1] in args;
    }
  }

  function Opt(b: bool, inv: Invocation): seq<Invocation> {
    if b then [inv] else []
  }

  /** The reference runs for the registry: help, version, outputPath and
      fileType, each exactly when one of its two aliases occurs, in that order. */
  lemma RegistryInvocations(version: string, args: seq<string>)
    ensures Invocations(version, args, Registry) ==
      Opt(HelpRequested(args), Invocation("help", HelpHandler()))
      + (Opt(VersionRequested(args), Invocation("version", VersionHandler(version)))
      + (Opt(OutputPathGiven(args), Invocation("outputPath", OutputPathHandler(args)))
      + Opt(FileTypeGiven(args), Invocation("fileType", FileTypeHandler(args)))))
  {
    InvocationsOfFour(version, args, Registry);
    HelpHead(version, args);
    VersionHead(version, args);
    OutputPathHead(version, args);
    FileTypeHead(version, args);
  }

  lemma InvocationsOfFour(version: string, args: seq<string>, cmds: seq<Command>)
    requires |cmds| == 4
    ensures Invocations(version, args, cmds) ==
      Head(version, args, cmds[0]) + (Head(version, args, cmds[1])
      + (Head(version, args, cmds[2]) + Head(version, args, cmds[3])))
  {
    var rest := cmds[1..];
    assert rest[0] == cmds[1] && rest[1] == cmds[2] && rest[2] == cmds[3];
    InvocationsCons(version, args, cmds);
    InvocationsOfThree(version, args, rest);
  }

  lemma InvocationsOfThree(version: string, args: seq<string>, cmds: seq<Command>)
    requires |cmds| == 3
    ensures Invocations(version, args, cmds) ==
      Head(version, args, cmds[0]) + (Head(version, args, cmds[1]) + Head(version, args, cmds[2]))
  {
    var rest := cmds[1..];
    assert rest[0] == cmds[1] && rest[1] == cmds[2];
    InvocationsCons(version, args, cmds);
    InvocationsOfTwo(version, args, rest);
  }

  lemma InvocationsOfTwo(version: string, args: seq<string>, cmds: seq<Command>)
    requires |cmds| == 2
    ensures Invocations(version, args, cmds) == Head(version, args, cmds[0]) + Head(version, args, cmds[1])
  {
    InvocationsCons(version, args, cmds);
    InvocationsCons(version, args, cmds[1..]);
    assert cmds[1..][1..] == [];
    var h1 := Head(version, args, cmds[1]);
    assert h1 + [] == h1;
  }

  /** A two-alias command contributes its run exactly when either alias occurs. */
  lemma HeadOfPair(version: string, args: seq<string>, c: Command, long: string, short: string, inv: Invocation)
    requires AliasTokens(c.aliases) == [long, short]
    requires inv == Invocation(c.key, RunHandler(c.handler, version, args))
    ensures Head(version, args, c) == Opt(long in args || short in args, inv)
  {
    MatchesPair(c, args, long, short);
  }

  lemma HelpHead(version: string, args: seq<string>)
    ensures Head(version, args, Registry[0]) == Opt(HelpRequested(args), Invocation("help", HelpHandler()))
  {
    HelpAliases();
    HelpEntry(version, args);
    HeadOfPair(version, args, Registry[0], "--help", "-h", Invocation("help", HelpHandler()));
  }

  lemma HelpEntry(version: string, args: seq<string>)
    ensures Registry[0].key == "help"
    ensures RunHandler(Registry[0].handler, version, args) == HelpHandler()
  {
  }

  lemma VersionHead(version: string, args: seq<string>)
    ensures Head(version, args, Registry[1]) == Opt(VersionRequested(args), Invocation("version", VersionHandler(version)))
  {
    VersionAliases();
    VersionEntry(version, args);
    HeadOfPair(version, args, Registry[1], "--version", "-v", Invocation("version", VersionHandler(version)));
  }

  lemma VersionEntry(version: string, args: seq<string>)
    ensures Registry[1].key == "version"
    ensures RunHandler(Registry[1].handler, version, args) == VersionHandler(version)
  {
  }

  lemma OutputPathHead(version: string, args: seq<string>)
    ensures Head(version, args, Registry[2]) == Opt(OutputPathGiven(args), Invocation("outputPath", OutputPathHandler(args)))
  {
    OutputPathAliases();
    OutputPathEntry(version, args);
    HeadOfPair(version, args, Registry[2], "--outputPath", "-op", Invocation("outputPath", OutputPathHandler(args)));
  }

  lemma OutputPathEntry(version: string, args: seq<string>)
    ensures Registry[2].key == "outputPath"
    ensures RunHandler(Registry[2].handler, version, args) == OutputPathHandler(args)
  {
  }

  lemma FileTypeHead(version: string, args: seq<string>)
    ensures Head(version, args, Registry[3]) == Opt(FileTypeGiven(args), Invocation("fileType", FileTypeHandler(args)))
  {
    FileTypeAliases();
    FileTypeEntry(version, args);
    HeadOfPair(version, args, Registry[3], "--fileType", "-ft", Invocation("fileType", FileTypeHandler(args)));
  }

  lemma FileTypeEntry(version: string, args: seq<string>)
    ensures Registry[3].key == "fileType"
    ensures RunHandler(Registry[3].handler, version, args) == FileTypeHandler(args)
  {
  }

  lemma ApplyAllOpt(b: bool, inv: Invocation, p: Parsed.ParsedArguments)
    ensures ApplyAll(Opt(b, inv), p) == if b then Apply(inv.outcome, p) else p
  {
    if b {
      assert Opt(b, inv)[1..] == [];
    }
  }

  lemma AllOkOpt(b: bool, inv: Invocation)
    ensures AllOk(Opt(b, inv)) <==> (b ==> inv.outcome.ok)
  {
    if b {
      assert Opt(b, inv)[0] == inv;
    }
  }

  /** After the registry loop: success exactly when every handler that ran
      succeeded; the input path is still `args[0]`; the file type and output
      directory are the non-blank values the flags supplied, if any. */
  lemma DispatchedValues(args: seq<string>, version: string)
    requires |args| > 0
    ensures var d := Dispatched(args, version);
      && Summarises(Initial(args), d, Invocations(version, args, Registry))
      && (d.success <==> HandlersSucceed(args))
      && d.parsed.inputFilePath == Some(args[0])
      && d.parsed.fileType == ExplicitFileType(args)
      && d.parsed.outputDir == ExplicitOutputDir(args)
  {
    var s0 := Initial(args);
    RegistryKeysDistinct();
    DispatchSummary(version, args, Registry, s0);
    RegistryInvocations(version, args);
    var h0 := Opt(HelpRequested(args), Invocation("help", HelpHandler()));
    var h1 := Opt(VersionRequested(args), Invocation("version", VersionHandler(version)));
    var h2 := Opt(OutputPathGiven(args), Invocation("outputPath", OutputPathHandler(args)));
    var h3 := Opt(FileTypeGiven(args), Invocation("fileType", FileTypeHandler(args)));
    AllOkAppend(h0, h1 + (h2 + h3));
    AllOkAppend(h1, h2 + h3);
    AllOkAppend(h2, h3);
    AllOkOpt(HelpRequested(args), Invocation("help", HelpHandler()));
    AllOkOpt(VersionRequested(args), Invocation("version", VersionHandler(version)));
    AllOkOpt(OutputPathGiven(args), Invocation("outputPath", OutputPathHandler(args)));
    AllOkOpt(FileTypeGiven(args), Invocation("fileType", FileTypeHandler(args)));
    DispatchedRecord(args, version, s0.parsed);
  }

  lemma DispatchedRecord(args: seq<string>, version: string, p: Parsed.ParsedArguments)
    requires |args| > 0
    requires p.inputFilePath == Some(args[0]) && p.fileType.None? && p.outputDir.None?
    ensures var q := ApplyAll(
        Opt(HelpRequested(args), Invocation("help", HelpHandler()))
        + (Opt(VersionRequested(args), Invocation("version", VersionHandler(version)))
        + (Opt(OutputPathGiven(args), Invocation("outputPath", OutputPathHandler(args)))
        + Opt(FileTypeGiven(args), Invocation("fileType", FileTypeHandler(args))))), p);
      && q.inputFilePath == Some(args[0])
      && q.fileType == ExplicitFileType(args)
      && q.outputDir == ExplicitOutputDir(args)
  {
    var i0 := Invocation("help", HelpHandler());
    var i1 := Invocation("version", VersionHandler(version));
    var i2 := Invocation("outputPath", OutputPathHandler(args));
    var i3 := Invocation("fileType", FileTypeHandler(args));
    var h0 := Opt(HelpRequested(args), i0);
    var h1 := Opt(VersionRequested(args), i1);
    var h2 := Opt(OutputPathGiven(args), i2);
    var h3 := Opt(FileTypeGiven(args), i3);
    ApplyAllAppend(h0, h1 + (h2 + h3), p);
    ApplyAllOpt(HelpRequested(args), i0, p);
    ApplyNothing(i0.outcome, p);
    var p0 := ApplyAll(h0, p);
    ApplyAllAppend(h1, h2 + h3, p0);
    ApplyAllOpt(VersionRequested(args), i1, p0);
    ApplyNothing(i1.outcome, p0);
    var p1 := ApplyAll(h1, p0);
    ApplyAllAppend(h2, h3, p1);
    ApplyAllOpt(OutputPathGiven(args), i2, p1);
    var p2 := ApplyAll(h2, p1);
    ApplyAllOpt(FileTypeGiven(args), i3, p2);
  }
}
