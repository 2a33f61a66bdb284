/** The `Help` command class: builds the help command and answers it with a
    constant usage text. */
module Help {
  import opened Wrappers
  import opened Text
  import Commands
  import Parsed

  const Key: string := "help"
  const LongAlias: string := "--help"
  const ShortAlias: string := "-h"
  const Description: string := "Display this help message"

  const UsageLine: string := "Usage: ExcelExporter.exe <input_file> <arguments>\n"
  const ArgumentsLine: string := "Available arguments:\n"

  /** The usage text: it opens with the usage line and closes with the heading
      of the (empty) argument list. */
  const Usage: string :=
    UsageLine
    + "Example: ExcelExporter.exe input.xlsx\n"
    + "<input_file> should be an Excel file (xlsx, xltx, xlsm, xltm, xlam)\n"
    + "Macro-enabled workbooks (xlsm, xltm, xlam) will have their VBA code extracted\n"
    + "\n"
    + ArgumentsLine

  /** The help command: key "help", aliases `--help` and `-h`, joined as the
      alias string "--help; -h". */
  function Command(): (c: Commands.Command)
    ensures c.key == Key && c.description == Description && c.handler == Commands.ShowUsage
    ensures c.aliases == "--help; -h"
    ensures Commands.AliasTokens(c.aliases) == [LongAlias, ShortAlias]
  {
    var aliases := LongAlias + "; " + ShortAlias;
    assert aliases == "--help; -h";
    Commands.PairTokens(aliases, LongAlias, ShortAlias);
    Commands.Command(Key, aliases, Description, Commands.ShowUsage)
  }

  /** The help handler: always fails (help stops the run), parses nothing, and
      its message is the usage text whatever the arguments. */
  function Handler(args: seq<string>): (r: Commands.HandlerResult)
    ensures !r.ok
    ensures r.inputFilePath.None? && r.fileType.None? && r.outputDir.None?
    ensures r.message.Some? && UsageLine <= r.message.value
    ensures |ArgumentsLine| <= |r.message.value|
    ensures r.message.value[|r.message.value| - |ArgumentsLine|..] == ArgumentsLine
  {
    Commands.HandlerResult(false, None, None, None, Some(Usage))
  }

  /** The handler leaves the parsed record as it found it. */
  lemma HandlerLeavesParsedUnchanged(args: seq<string>, p: Parsed.ParsedArguments)
    ensures Commands.Apply(Handler(args), p) == p
  {
  }

  /** The handler's answer does not depend on the arguments. */
  lemma HandlerIgnoresArgs(a: seq<string>, b: seq<string>)
    ensures Handler(a) == Handler(b)
  {
  }
}
