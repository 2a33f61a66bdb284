/** The .NET string and array helpers the argument resolver relies on:
    `char.IsWhiteSpace`, `string.IsNullOrWhiteSpace`, `string.Trim`,
    `string.Split(char)` and `Array.IndexOf`. */
module Text {
  import opened Wrappers

  /** `char.IsWhiteSpace`: the Unicode space, line and paragraph separators,
      the control characters U+0009..U+000D and U+0085. */
  predicate IsWhiteSpace(c: char) {
    || c == ' '
    || ('\t' <= c <= '\r')
    || c == '\U{0085}'
    || c == '\U{00A0}'
    || c == '\U{1680}'
    || ('\U{2000}' <= c <= '\U{200A}')
    || c == '\U{2028}'
    || c == '\U{2029}'
    || c == '\U{202F}'
    || c == '\U{205F}'
    || c == '\U{3000}'
  }

  /** The 25 characters `char.IsWhiteSpace` accepts, listed one by one. */
  const WhiteSpaceChars: set<char> := {
    ' ', '\t', '\n', '\U{000B}', '\U{000C}', '\r', '\U{0085}', '\U{00A0}', '\U{1680}',
    '\U{2000}', '\U{2001}', '\U{2002}', '\U{2003}', '\U{2004}', '\U{2005}',
    '\U{2006}', '\U{2007}', '\U{2008}', '\U{2009}', '\U{200A}',
    '\U{2028}', '\U{2029}', '\U{202F}', '\U{205F}', '\U{3000}'
  }

  /** The range form of `IsWhiteSpace` accepts exactly the listed characters. */
  lemma WhiteSpaceIsListed(c: char)
    ensures IsWhiteSpace(c) <==> c in WhiteSpaceChars
  {
  }

  /** Every character of `s` is white space (vacuously true of ""). */
  predicate IsBlank(s: string) {
    forall i :: 0 <= i < |s| ==> IsWhiteSpace(s[i])
  }

  /** `string.IsNullOrWhiteSpace`, with `None` standing for `null`. */
  predicate IsNullOrWhiteSpace(o: Option<string>) {
    o.None? || IsBlank(o.value)
  }

  /** Neither end of `s` is white space. */
  predicate IsTrimmed(s: string) {
    |s| == 0 || (!IsWhiteSpace(s[0]) && !IsWhiteSpace(s[|s| - 1]))
  }

  /** `s` is `m` with white space added on either side. */
  ghost predicate PaddedFrom(s: string, m: string) {
    exists a, b :: IsBlank(a) && IsBlank(b) && s == a + m + b
  }

  /** The number of white-space characters `s` starts with. */
  function LeadingBlanks(s: string): (n: nat)
    ensures n <= |s|
    ensures forall i :: 0 <= i < n ==> IsWhiteSpace(s[i])
    ensures n < |s| ==> !IsWhiteSpace(s[n])
    decreases |s|
  {
    if |s| > 0 && IsWhiteSpace(s[0]) then
      var n := 1 + LeadingBlanks(s[1..]);
      assert forall i :: 1 <= i < n ==> s[i] == s[1..][i - 1];
      n
    else 0
  }

  /** The number of white-space characters `s` ends with. */
  function TrailingBlanks(s: string): (n: nat)
    ensures n <= |s|
    ensures forall i :: |s| - n <= i < |s| ==> IsWhiteSpace(s[i])
    ensures n < |s| ==> !IsWhiteSpace(s[|s| - n - 1])
    decreases |s|
  {
    if |s| > 0 && IsWhiteSpace(s[|s| - 1]) then
      var n := 1 + TrailingBlanks(s[..|s| - 1]);
      assert forall i :: |s| - n <= i < |s| - 1 ==> s[i] == s[..|s| - 1][i];
      n
    else 0
  }

  /** `string.Trim()`: `s` without its leading and trailing white space; ""
      when `s` is blank. */
  function Trim(s: string): (r: string)
    ensures IsTrimmed(r)
    ensures PaddedFrom(s, r)
    ensures var i := LeadingBlanks(s);
      i + |r| <= |s| && s[i..i + |r|] == r && IsBlank(s[..i]) && IsBlank(s[i + |r|..])
  {
    var i := LeadingBlanks(s);
    if i == |s| then
      TrimmedSlice(s, i, i);
      ""
    else
      var n := TrailingBlanks(s);
      assert n < |s| - i;
      TrimmedSlice(s, i, |s| - n);
      s[i..|s| - n]
  }

  /** The slice between a blank prefix and a blank suffix, whose ends are not
      white space, is trimmed and padded from `s`. */
  lemma TrimmedSlice(s: string, i: nat, j: nat)
    requires i <= j <= |s|
    requires forall k :: 0 <= k < i ==> IsWhiteSpace(s[k])
    requires forall k :: j <= k < |s| ==> IsWhiteSpace(s[k])
    requires i < j ==> !IsWhiteSpace(s[i]) && !IsWhiteSpace(s[j - 1])
    ensures IsTrimmed(s[i..j]) && IsBlank(s[..i]) && IsBlank(s[j..])
    ensures PaddedFrom(s, s[i..j])
  {
    assert forall k :: 0 <= k < |s| - j ==> s[j..][k] == s[j + k];
    assert s == s[..i] + s[i..j] + s[j..];
  }

  /** `string.IsNullOrWhiteSpace` holds exactly for `null` and for the
      strings that `Trim` empties. */
  lemma NullOrWhiteSpaceIffTrimEmpty(o: Option<string>)
    ensures IsNullOrWhiteSpace(o) <==> o.None? || Trim(o.value) == ""
  {
    if o.Some? {
      BlankIffTrimsToEmpty(o.value);
    }
  }

  lemma BlankIffTrimsToEmpty(s: string)
    ensures IsBlank(s) <==> Trim(s) == ""
  {
    if IsBlank(s) {
      assert IsBlank("") && s == s + "" + "";
      TrimIsUnique(s, "");
    }
    if Trim(s) == "" {
      var a, b :| IsBlank(a) && IsBlank(b) && s == a + "" + b;
      forall i | 0 <= i < |s|
        ensures IsWhiteSpace(s[i])
      {
        if i < |a| {
          assert s[i] == a[i];
        } else {
          assert s[i] == b[i - |a|];
        }
      }
    }
  }

  /** Any count that covers a blank prefix ending before a non-white character
      (or at the end) is the leading count. */
  lemma LeadingBlanksIs(s: string, k: nat)
    requires k <= |s| && IsBlank(s[..k]) && (k == |s| || !IsWhiteSpace(s[k]))
    ensures LeadingBlanks(s) == k
  {
    assert forall i :: 0 <= i < k ==> s[..k][i] == s[i];
  }

  /** Any count that covers a blank suffix starting after a non-white character
      (or at the start) is the trailing count. */
  lemma TrailingBlanksIs(s: string, k: nat)
    requires k <= |s| && IsBlank(s[|s| - k..]) && (k == |s| || !IsWhiteSpace(s[|s| - k - 1]))
    ensures TrailingBlanks(s) == k
  {
    assert forall i :: |s| - k <= i < |s| ==> s[|s| - k..][i - (|s| - k)] == s[i];
  }

  /** Trimming undoes white-space padding: `Trim` has exactly one answer. */
  lemma TrimOfPadded(a: string, m: string, b: string)
    requires IsBlank(a) && IsBlank(b) && IsTrimmed(m)
    ensures Trim(a + m + b) == m
  {
    var s := a + m + b;
    if |m| == 0 {
      assert s[..|s|] == s;
      LeadingBlanksIs(s, |s|);
    } else {
      assert s[..|a|] == a && s[|a|] == m[0];
      LeadingBlanksIs(s, |a|);
      assert s[|s| - |b|..] == b && s[|s| - |b| - 1] == m[|m| - 1];
      TrailingBlanksIs(s, |b|);
      assert s[|a|..|s| - |b|] == m;
    }
  }

  /** `Trim` has exactly one answer: the trimmed string `s` is padded from. */
  lemma TrimIsUnique(s: string, m: string)
    requires PaddedFrom(s, m) && IsTrimmed(m)
    ensures Trim(s) == m
  {
    var a, b :| IsBlank(a) && IsBlank(b) && s == a + m + b;
    TrimOfPadded(a, m, b);
  }

  /** A trimmed string is its own `Trim`. */
  lemma TrimOfTrimmed(m: string)
    requires IsTrimmed(m)
    ensures Trim(m) == m
  {
    TrimOfPadded("", m, "");
    assert "" + m + "" == m;
  }

  /** One leading space is dropped by `Trim`. */
  lemma TrimOfSpaced(m: string)
    requires IsTrimmed(m)
    ensures Trim(" " + m) == m
  {
    assert IsBlank(" ");
    TrimOfPadded(" ", m, "");
    assert " " + m + "" == " " + m;
  }

  /** `Array.IndexOf` (and `string.IndexOf(char)`): the position of the first
      occurrence of `x`, or -1 when there is none. */
  function IndexOf<T(==)>(xs: seq<T>, x: T): (i: int)
    ensures -1 <= i < |xs|
    ensures i == -1 <==> x !in xs
    ensures 0 <= i ==> xs[i] == x && x !in xs[..i]
    decreases |xs|
  {
    if |xs| == 0 then -1
    else if xs[0] == x then 0
    else
      var j := IndexOf(xs[1..], x);
      assert xs[1..] == xs[1..][..|xs| - 1];
      if j == -1 then -1
      else
        assert xs[..j + 1] == [xs[0]] + xs[1..][..j];
        j + 1
  }

  /** The first occurrence of `x` in `xs` is at position `i`. */
  predicate IsFirst<T(==)>(xs: seq<T>, i: int, x: T) {
    0 <= i < |xs| && xs[i] == x && x !in xs[..i]
  }

  /** Concatenates `parts`, putting `sep` between neighbours. */
  function Join(parts: seq<string>, sep: char): string
    requires |parts| >= 1
  {
    if |parts| == 1 then parts[0] else parts[0] + [sep] + Join(parts[1..], sep)
  }

  /** `string.Split(char)`: the pieces between separators, empty pieces kept. */
  function Split(s: string, sep: char): (r: seq<string>)
    ensures |r| >= 1
    ensures forall k :: 0 <= k < |r| ==> sep !in r[k]
    ensures Join(r, sep) == s
    decreases |s|
  {
    var i := IndexOf(s, sep);
    if i == -1 then [s]
    else
      var rest := Split(s[i + 1..], sep);
      var r := [s[..i]] + rest;
      assert r[1..] == rest;
      assert Join(r, sep) == s[..i] + [sep] + Join(rest, sep);
      assert s == s[..i] + [sep] + s[i + 1..];
      r
  }

  /** Splitting what `Join` built gives the parts back. */
  lemma {:induction false} SplitJoin(parts: seq<string>, sep: char)
    requires |parts| >= 1
    requires forall k :: 0 <= k < |parts| ==> sep !in parts[k]
    ensures Split(Join(parts, sep), sep) == parts
    decreases |parts|
  {
    if |parts| > 1 {
      var tail := parts[1..];
      assert forall k :: 0 <= k < |tail| ==> tail[k] == parts[k + 1];
      var rest := Join(tail, sep);
      JoinCons(parts, sep);
      SplitAfterFirst(parts[0], sep, rest);
      SplitJoin(tail, sep);
      assert parts == [parts[0]] + tail;
    }
  }

  lemma JoinCons(parts: seq<string>, sep: char)
    requires |parts| > 1
    ensures Join(parts, sep) == parts[0] + [sep] + Join(parts[1..], sep)
  {
  }

  /** The first piece ends at the first separator. */
  lemma SplitAfterFirst(a: string, sep: char, rest: string)
    requires sep !in a
    ensures Split(a + [sep] + rest, sep) == [a] + Split(rest, sep)
  {
    var s := a + [sep] + rest;
    IndexOfAfterPrefix(a, sep, rest);
    assert s[..|a|] == a;
    assert s[|a| + 1..] == rest;
  }

  lemma IndexOfAfterPrefix<T>(a: seq<T>, x: T, b: seq<T>)
    requires x !in a
    ensures IndexOf(a + [x] + b, x) == |a|
  {
    var s := a + [x] + b;
    assert s[|a|] == x;
    assert s[..|a|] == a;
  }
}
