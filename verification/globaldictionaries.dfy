/** The fixed value sets the exporter accepts. */
module GlobalDictionaries {

  /** The workbook kinds the exporter can open. */
  const AllowedFileTypes: set<string> := {"xlsx", "xltx", "xlsm", "xltm", "xlam"}

  /** The formats the exporter can write sheets in. */
  const AllowedSaveTypes: set<string> := {"csv", "json"}

  /** An ASCII upper-case letter. */
  predicate IsUpper(c: char) {
    'A' <= c <= 'Z'
  }

  /** The two sets have five and two members and share none. */
  lemma AllowedSetsShape()
    ensures |AllowedFileTypes| == 5
    ensures |AllowedSaveTypes| == 2
    ensures AllowedFileTypes !! AllowedSaveTypes
  {
    assert AllowedFileTypes == {"xlsx"} + {"xltx"} + {"xlsm"} + {"xltm"} + {"xlam"};
    assert "xlsx" != "xltx" && "xlsx" != "xlsm" && "xlsx" != "xltm" && "xlsx" != "xlam";
    assert "xltx" != "xlsm" && "xltx" != "xltm" && "xltx" != "xlam";
    assert "xlsm" != "xltm" && "xlsm" != "xlam" && "xltm" != "xlam";
    assert "csv" != "json";
  }

  /** Membership is exact, case-sensitive string equality: every member is
      lower case, so an upper-case spelling such as "XLSX" is not a member. */
  lemma FileTypesAreLowerCase(t: string)
    requires t in AllowedFileTypes
    ensures forall i :: 0 <= i < |t| ==> !IsUpper(t[i])
    ensures t != "XLSX" && t != "Xlsx"
  {
  }
}
