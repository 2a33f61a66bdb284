/** The `Command` record, the shape shared by all handlers, and how the
    dispatcher reads a command's alias string. */
module Commands {
  import opened Wrappers
  import opened Text
  import Parsed

  /** Which handler a command runs. Stored delegates become a closed set of tags:
      the listing help and the version banner of the dispatcher, its two
      value-taking handlers, and the constant usage text of the `Help` command class. */
  datatype HandlerKind = ListHelp | ShowVersion | TakeOutputPath | TakeFileType | ShowUsage

  /** A command: its key, a `;`-separated alias string, help text and handler. */
  datatype Command = Command(key: string, aliases: string, description: string, handler: HandlerKind)

  /** What one handler run reports: whether it succeeded, the values it parsed
      (`None` for `null`) and its message. */
  datatype HandlerResult = HandlerResult(
    ok: bool,
    inputFilePath: Option<string>,
    fileType: Option<string>,
    outputDir: Option<string>,
    message: Option<string>)

  /** The character that separates the aliases of a command. */
  const AliasSeparator: char := ';'

  /** The alias tokens of an alias string: split on `;`, each piece trimmed.
      Token `k` is piece `k` without its padding; by `Text.TrimIsUnique` no
      other trimmed string qualifies. */
  function AliasTokens(aliases: string): (r: seq<string>)
    ensures |r| == |Split(aliases, AliasSeparator)|
    ensures forall k :: 0 <= k < |r| ==> IsTrimmed(r[k]) && AliasSeparator !in r[k]
    ensures forall k :: 0 <= k < |r| ==> PaddedFrom(Split(aliases, AliasSeparator)[k], r[k])
  {
    var parts := Split(aliases, AliasSeparator);
    seq(|parts|, k requires 0 <= k < |parts| => TrimKeepsAbsent(parts[k], AliasSeparator); Trim(parts[k]))
  }

  /** Trimming cannot introduce a character. */
  lemma TrimKeepsAbsent(s: string, c: char)
    requires c !in s
    ensures c !in Trim(s)
  {
    var i := LeadingBlanks(s);
    var r := Trim(s);
    assert s[i..i + |r|] == r;
  }

  /** A long and a short alias joined as `"<long>; <short>"` come back as
      exactly those two tokens. */
  lemma AliasTokensOfPair(long: string, short: string)
    requires AliasSeparator !in long && AliasSeparator !in short
    requires IsTrimmed(long) && IsTrimmed(short)
    ensures AliasTokens(long + "; " + short) == [long, short]
  {
    var padded := " " + short;
    PairSpelling(long, short);
    SplitOfPair(long, padded);
    TokensOfTwoParts(long + "; " + short, long, padded);
    TrimOfTrimmed(long);
    TrimOfSpaced(short);
  }

  /** The same, for an alias string already spelled out. */
  lemma PairTokens(aliases: string, long: string, short: string)
    requires aliases == long + "; " + short
    requires IsTrimmed(long) && AliasSeparator !in long
    requires IsTrimmed(short) && AliasSeparator !in short
    ensures AliasTokens(aliases) == [long, short]
  {
    AliasTokensOfPair(long, short);
  }

  lemma PairSpelling(long: string, short: string)
    ensures long + "; " + short == long + [AliasSeparator] + (" " + short)
    ensures AliasSeparator !in short ==> AliasSeparator !in " " + short
  {
  }

  lemma TokensOfTwoParts(aliases: string, a: string, b: string)
    requires Split(aliases, AliasSeparator) == [a, b]
    ensures AliasTokens(aliases) == [Trim(a), Trim(b)]
  {
    var tokens := AliasTokens(aliases);
    assert tokens[0] == Trim(a);
    assert tokens[1] == Trim(b);
  }

  lemma SplitOfPair(long: string, padded: string)
    requires AliasSeparator !in long && AliasSeparator !in padded
    ensures Split(long + [AliasSeparator] + padded, AliasSeparator) == [long, padded]
  {
    assert long + [AliasSeparator] + padded == Join([long, padded], AliasSeparator);
    SplitJoin([long, padded], AliasSeparator);
  }

  /** Some alias token of `c` is one of the arguments. */
  predicate Matches(c: Command, args: seq<string>) {
    var tokens := AliasTokens(c.aliases);
    exists k :: 0 <= k < |tokens| && tokens[k] in args
  }

  /** The value kept for a field: the handler's value unless it is null or blank. */
  function Keep(handlerValue: Option<string>, current: Option<string>): (r: Option<string>)
    ensures !IsNullOrWhiteSpace(handlerValue) ==> r == handlerValue
    ensures IsNullOrWhiteSpace(handlerValue) ==> r == current
  {
    if IsNullOrWhiteSpace(handlerValue) then current else handlerValue
  }

  /** Writes a handler's non-blank values into the record, whatever `ok` says;
      every other property is left alone. */
  function Apply(o: HandlerResult, p: Parsed.ParsedArguments): (r: Parsed.ParsedArguments)
    ensures r.inputFilePath == Keep(o.inputFilePath, p.inputFilePath)
    ensures r.fileType == Keep(o.fileType, p.fileType)
    ensures r.outputDir == Keep(o.outputDir, p.outputDir)
    ensures r.outputText == p.outputText && r.outputFolder == p.outputFolder && r.saveType == p.saveType
  {
    p.(inputFilePath := Keep(o.inputFilePath, p.inputFilePath),
       fileType := Keep(o.fileType, p.fileType),
       outputDir := Keep(o.outputDir, p.outputDir))
  }

  /** An outcome that parsed nothing leaves the record unchanged. */
  lemma ApplyNothing(o: HandlerResult, p: Parsed.ParsedArguments)
    requires o.inputFilePath.None? && o.fileType.None? && o.outputDir.None?
    ensures Apply(o, p) == p
  {
  }

  /** Applying the same outcome twice is the same as applying it once. */
  lemma ApplyIdempotent(o: HandlerResult, p: Parsed.ParsedArguments)
    ensures Apply(o, Apply(o, p)) == Apply(o, p)
  {
  }
}
