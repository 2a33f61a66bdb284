/** Pure replacements for `Path.GetExtension(p).TrimStart('.')` and
    `Path.GetDirectoryName(p)`: both look only at the text of the path. */
module Paths {

  /** The characters that end a directory name. */
  const DirectorySeparators: set<char> := {'/', '\\'}

  /** The characters that end an extension: its dot, or a directory separator
      when the final segment has no dot. */
  const ExtensionStops: set<char> := {'.', '/', '\\'}

  /** The length of the longest suffix of `s` that holds none of `stops`. */
  function TailLength(s: string, stops: set<char>): (n: nat)
    ensures n <= |s|
    ensures forall i :: |s| - n <= i < |s| ==> s[i] !in stops
    ensures n < |s| ==> s[|s| - n - 1] in stops
    decreases |s|
  {
    if |s| == 0 || s[|s| - 1] in stops then 0
    else
      var n := 1 + TailLength(s[..|s| - 1], stops);
      assert forall i :: |s| - n <= i < |s| - 1 ==> s[i] == s[..|s| - 1][i];
      n
  }

  /** A stop-free suffix that starts at the beginning or right after a stop
      is the longest one. */
  lemma TailLengthIs(s: string, stops: set<char>, k: nat)
    requires k <= |s|
    requires forall i :: |s| - k <= i < |s| ==> s[i] !in stops
    requires k < |s| ==> s[|s| - k - 1] in stops
    ensures TailLength(s, stops) == k
  {
  }

  /** The final segment of `p` (the text after its last directory separator)
      holds a dot. */
  predicate DotInLastSegment(p: string) {
    exists j :: 0 <= j < |p| && p[j] == '.' && NoSeparatorAfter(p, j)
  }

  predicate NoSeparatorAfter(p: string, j: nat) {
    forall i :: j < i < |p| ==> p[i] !in DirectorySeparators
  }

  /** The extension of `p` without its dot: the text after the last `.` of the
      final segment, or "" when that segment has no `.`. */
  function Extension(p: string): (e: string)
    ensures forall i :: 0 <= i < |e| ==> e[i] != '.' && e[i] !in DirectorySeparators
    ensures e != "" ==> |e| < |p| && p[|p| - |e| - 1] == '.' && p[|p| - |e|..] == e
    ensures DotInLastSegment(p) && p[|p| - 1] != '.' ==> e != ""
  {
    var k := TailLength(p, ExtensionStops);
    DotInNameEndsExtension(p, k);
    if k < |p| && p[|p| - k - 1] == '.' then p[|p| - k..] else ""
  }

  /** When the final segment has a dot and does not end with one, the
      extension is non-empty and is preceded by that segment's last dot. */
  lemma DotInNameEndsExtension(p: string, k: nat)
    requires k == TailLength(p, ExtensionStops)
    ensures DotInLastSegment(p) && p[|p| - 1] != '.' ==> 0 < k < |p| && p[|p| - k - 1] == '.'
  {
    if DotInLastSegment(p) && p[|p| - 1] != '.' {
      var j :| 0 <= j < |p| && p[j] == '.' && NoSeparatorAfter(p, j);
      DotAfterLastSeparator(p, j, k);
    }
  }

  /** `p[at]` is a dot with no separator after it, and `p` does not end with a
      dot: then the longest suffix free of dots and separators is non-empty
      and follows a dot. */
  lemma DotAfterLastSeparator(p: string, at: nat, k: nat)
    requires at < |p| && p[at] == '.' && p[|p| - 1] != '.'
    requires forall i :: at < i < |p| ==> p[i] !in DirectorySeparators
    requires k <= |p|
    requires forall i :: |p| - k <= i < |p| ==> p[i] !in ExtensionStops
    requires k < |p| ==> p[|p| - k - 1] in ExtensionStops
    ensures 0 < k < |p| && p[|p| - k - 1] == '.'
  {
    assert p[at] in ExtensionStops;
    assert p[|p| - 1] !in ExtensionStops;
  }

  /** The directory part of `p`: the text before its last directory separator,
      or "" when `p` has none. */
  function DirectoryName(p: string): (d: string)
    ensures || (d == "" && forall i :: 0 <= i < |p| ==> p[i] !in DirectorySeparators)
            || (&& |d| < |p| && p[..|d|] == d && p[|d|] in DirectorySeparators
                && forall i :: |d| < i < |p| ==> p[i] !in DirectorySeparators)
  {
    var n := TailLength(p, DirectorySeparators);
    if n == |p| then "" else p[..|p| - n - 1]
  }

  /** A file name with an extension gives that extension back. */
  lemma ExtensionOfName(stem: string, ext: string)
    requires forall i :: 0 <= i < |ext| ==> ext[i] != '.' && ext[i] !in DirectorySeparators
    ensures Extension(stem + "." + ext) == ext
  {
    var p := stem + "." + ext;
    assert forall i :: |p| - |ext| <= i < |p| ==> p[i] == ext[i - (|p| - |ext|)];
    assert p[|p| - |ext| - 1] == '.';
    TailLengthIs(p, ExtensionStops, |ext|);
    assert p[|p| - |ext|..] == ext;
  }

  /** A path built from a directory, a separator and a file name gives the directory back. */
  lemma DirectoryNameOfPath(dir: string, sep: char, name: string)
    requires sep in DirectorySeparators
    requires forall i :: 0 <= i < |name| ==> name[i] !in DirectorySeparators
    ensures DirectoryName(dir + [sep] + name) == dir
  {
    var p := dir + [sep] + name;
    assert forall i :: |p| - |name| <= i < |p| ==> p[i] == name[i - (|p| - |name|)];
    assert p[|p| - |name| - 1] == sep;
    TailLengthIs(p, DirectorySeparators, |name|);
    assert p[..|dir|] == dir;
  }

  /** A path with no directory separator has an empty directory part. */
  lemma DirectoryNameOfBareName(name: string)
    requires forall i :: 0 <= i < |name| ==> name[i] !in DirectorySeparators
    ensures DirectoryName(name) == ""
  {
    TailLengthIs(name, DirectorySeparators, |name|);
  }
}
