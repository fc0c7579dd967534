/** String helpers standing in for the .NET string library calls the disc
    resolver and the playlist view make: `ToUpper`, the `Extension` property
    of a file-info object, `Path.GetFileNameWithoutExtension`, a
    case-insensitive wildcard `*.ext` match and an ordinal `Compare`. */
module Text {

  /** Upper-casing of one character; only ASCII letters change. */
  function ToUpperChar(c: char): char {
    if 'a' <= c <= 'z' then (c as int - 32) as char else c
  }

  function ToUpper(s: string): (r: string)
    ensures |r| == |s|
    ensures forall i :: 0 <= i < |s| ==> r[i] == ToUpperChar(s[i])
  {
    if s == [] then [] else [ToUpperChar(s[0])] + ToUpper(s[1..])
  }

  /** Index of the last occurrence of `c` in `s`, or -1. */
  function LastIndexOf(s: string, c: char): (r: int)
    ensures -1 <= r < |s|
    ensures r >= 0 ==> s[r] == c
    ensures forall j :: r < j < |s| ==> s[j] != c
  {
    if s == [] then -1
    else if s[|s| - 1] == c then |s| - 1
    else LastIndexOf(s[..|s| - 1], c)
  }

  /** The `Extension` property of a disc file-info object, taken to read
      the way `System.IO.FileInfo.Extension` defines it: the suffix starting
      at the last '.', dot included, or the empty string when there is no
      '.' or the '.' is the last character. */
  function Extension(name: string): (r: string)
    ensures r == [] || (r[0] == '.' && |r| >= 2)
    ensures |r| <= |name| && r == name[|name| - |r|..]
  {
    var k := LastIndexOf(name, '.');
    if k < 0 || k == |name| - 1 then [] else name[k..]
  }

  /** The last '.' of `s` is at `k`. */
  predicate LastDotAt(s: string, k: int) {
    0 <= k < |s| && s[k] == '.' && forall j :: k < j < |s| ==> s[j] != '.'
  }

  lemma ExtensionAtLastDot(s: string, k: int)
    requires LastDotAt(s, k) && k < |s| - 1
    ensures LastIndexOf(s, '.') == k
    ensures Extension(s) == s[k..]
  {
  }

  /** Text ending in what upper-cases to `ext` (a '.' and at least one more
      character, no other '.') has that ending as its extension. */
  lemma ExtensionOfSuffix(s: string, ext: string)
    requires 2 <= |ext| <= |s| && ext[0] == '.'
    requires forall j :: 1 <= j < |ext| ==> ext[j] != '.'
    requires ToUpper(s[|s| - |ext|..]) == ext
    ensures Extension(s) == s[|s| - |ext|..]
    ensures LastIndexOf(s, '.') == |s| - |ext|
  {
    DotsOfSuffix(s, ext);
    ExtensionAtLastDot(s, |s| - |ext|);
  }

  lemma DotsOfSuffix(s: string, ext: string)
    requires 1 <= |ext| <= |s| && ext[0] == '.'
    requires forall j :: 1 <= j < |ext| ==> ext[j] != '.'
    requires ToUpper(s[|s| - |ext|..]) == ext
    ensures LastDotAt(s, |s| - |ext|)
  {
    var k := |s| - |ext|;
    var t := s[k..];
    assert ToUpperChar(t[0]) == ext[0];
    UpperIsDotOnlyForDot(t[0]);
    forall j | k < j < |s|
      ensures s[j] != '.'
    {
      assert t[j - k] == s[j] && ToUpperChar(t[j - k]) == ext[j - k];
      UpperIsDotOnlyForDot(s[j]);
    }
  }

  lemma UpperIsDotOnlyForDot(c: char)
    ensures ToUpperChar(c) == '.' <==> c == '.'
  {
  }

  /** `Path.GetFileNameWithoutExtension`: everything before the last '.'. */
  function WithoutExtension(name: string): (r: string)
    ensures r <= name
    ensures '.' in name ==> |r| < |name| && name[|r|] == '.'
    ensures '.' !in name ==> r == name
  {
    var k := LastIndexOf(name, '.');
    if k < 0 then name else name[..k]
  }

  /** The `*.ext` wildcard of a directory listing: does `s` end in `suffix`,
      letters compared without regard to case? The disc file systems'
      wildcard listings are taken to match this way, as the Windows file
      system does. */
  predicate EndsWithIgnoringCase(s: string, suffix: string) {
    |suffix| <= |s| && ToUpper(s[|s| - |suffix|..]) == ToUpper(suffix)
  }

  /** Two patterns that upper-case alike match the same names. */
  lemma EndsWithIgnoringCaseOfPattern(s: string, suffix: string, other: string)
    requires ToUpper(suffix) == ToUpper(other)
    ensures EndsWithIgnoringCase(s, suffix) <==> EndsWithIgnoringCase(s, other)
  {
    var n := |suffix|;
    assert n == |ToUpper(suffix)| == |ToUpper(other)| == |other|;
    if n <= |s| {
      var tail := s[|s| - n..];
      assert EndsWithIgnoringCase(s, suffix) <==> ToUpper(tail) == ToUpper(suffix);
      assert EndsWithIgnoringCase(s, other) <==> ToUpper(tail) == ToUpper(other);
    }
  }

  /** Ordinal string comparison, standing in for the culture-sensitive
      `string.Compare` / `String.CompareTo` of the source. */
  function CompareOrdinal(a: string, b: string): (r: int)
    ensures -1 <= r <= 1
  {
    if a == [] && b == [] then 0
    else if a == [] then -1
    else if b == [] then 1
    else if a[0] < b[0] then -1
    else if b[0] < a[0] then 1
    else CompareOrdinal(a[1..], b[1..])
  }

  lemma {:induction false} CompareOrdinalZeroIffEqual(a: string, b: string)
    ensures CompareOrdinal(a, b) == 0 <==> a == b
  {
    if a != [] && b != [] && a[0] == b[0] {
      CompareOrdinalZeroIffEqual(a[1..], b[1..]);
      assert a == [a[0]] + a[1..] && b == [b[0]] + b[1..];
    }
  }

  lemma {:induction false} CompareOrdinalAntisymmetric(a: string, b: string)
    ensures CompareOrdinal(a, b) == -CompareOrdinal(b, a)
  {
    if a != [] && b != [] && a[0] == b[0] {
      CompareOrdinalAntisymmetric(a[1..], b[1..]);
    }
  }

  lemma {:induction false} CompareOrdinalTransitive(a: string, b: string, c: string)
    requires CompareOrdinal(a, b) <= 0 && CompareOrdinal(b, c) <= 0
    ensures CompareOrdinal(a, c) <= 0
  {
    if a != [] && b != [] && c != [] && a[0] == b[0] && b[0] == c[0] {
      CompareOrdinalTransitive(a[1..], b[1..], c[1..]);
    }
  }
}
