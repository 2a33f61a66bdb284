/** The `ParsedArguments` record: six optional strings behind properties. */
module Parsed {
  import opened Wrappers

  /** The six properties of the record. */
  datatype Field = InputFilePath | FileType | OutputDir | OutputText | OutputName | SaveType

  /** The backing fields. The `OutputName` property is stored in `outputFolder`. */
  datatype ParsedArguments = ParsedArguments(
    inputFilePath: Option<string>,
    fileType: Option<string>,
    outputDir: Option<string>,
    outputText: Option<string>,
    outputFolder: Option<string>,
    saveType: Option<string>)

  /** A freshly constructed record: every backing field is `null`, the
      non-nullable `InputFilePath` included. */
  function Fresh(): (p: ParsedArguments)
    ensures forall f :: Get(p, f) == None
  {
    ParsedArguments(None, None, None, None, None, None)
  }

  /** The getter of property `f`. */
  function Get(p: ParsedArguments, f: Field): Option<string> {
    match f
    case InputFilePath => p.inputFilePath
    case FileType => p.fileType
    case OutputDir => p.outputDir
    case OutputText => p.outputText
    case OutputName => p.outputFolder
    case SaveType => p.saveType
  }

  /** The setter of property `f`: the getter then returns `v`, and every other
      property keeps its value. */
  function Set(p: ParsedArguments, f: Field, v: Option<string>): (r: ParsedArguments)
    ensures Get(r, f) == v
    ensures forall g :: g != f ==> Get(r, g) == Get(p, g)
  {
    match f
    case InputFilePath => p.(inputFilePath := v)
    case FileType => p.(fileType := v)
    case OutputDir => p.(outputDir := v)
    case OutputText => p.(outputText := v)
    case OutputName => p.(outputFolder := v)
    case SaveType => p.(saveType := v)
  }

  /** `OutputName` writes the backing field `outputFolder` and no other. */
  lemma OutputNameIsOutputFolder(p: ParsedArguments, v: Option<string>)
    ensures Set(p, OutputName, v) == p.(outputFolder := v)
    ensures Get(p, OutputName) == p.outputFolder
  {
  }

  /** Setting two different properties commutes, and a later set of the same
      property overrides an earlier one. */
  lemma SetsCommute(p: ParsedArguments, f: Field, v: Option<string>, g: Field, w: Option<string>)
    ensures f != g ==> Set(Set(p, f, v), g, w) == Set(Set(p, g, w), f, v)
    ensures Set(Set(p, f, v), f, w) == Set(p, f, w)
  {
  }
}
