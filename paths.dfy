/** How a game's display name is derived from the path of its executable:
    the file name after the last directory separator, without its extension. */
module Paths {

  /** Directory separators recognised in a path (both the Windows and the POSIX one). */
  predicate IsSep(c: char) {
    c == '/' || c == '\\'
  }

  /** Index of the last separator in `s`, or -1 when there is none. */
  function LastSep(s: string): (r: int)
    ensures -1 <= r < |s|
    ensures r >= 0 ==> IsSep(s[r])
    ensures forall j :: r < j < |s| ==> !IsSep(s[j])
  {
    if s == [] then -1
    else if IsSep(s[|s| - 1]) then |s| - 1
    else LastSep(s[..|s| - 1])
  }

  /** The file-name part of a path: the longest suffix that holds no separator. */
  function BaseName(path: string): (b: string)
    ensures |b| <= |path| && b == path[|path| - |b|..]
    ensures forall j :: 0 <= j < |b| ==> !IsSep(b[j])
    ensures |b| < |path| ==> IsSep(path[|path| - |b| - 1])
  {
    path[LastSep(path) + 1..]
  }

  /** Index of the last '.' in `s`, or -1 when there is none. */
  function LastDot(s: string): (r: int)
    ensures -1 <= r < |s|
    ensures r >= 0 ==> s[r] == '.'
    ensures forall j :: r < j < |s| ==> s[j] != '.'
  {
    if s == [] then -1
    else if s[|s| - 1] == '.' then |s| - 1
    else LastDot(s[..|s| - 1])
  }

  /** True when some character of `s` is not a dot. */
  predicate HasNonDot(s: string) {
    exists i :: 0 <= i < |s| && s[i] != '.'
  }

  /** The root of a file name with its extension removed. The extension starts at the
      last dot, but only when a character other than a dot precedes that dot, so that
      a leading dot (as in ".bashrc") is part of the name and not an extension. */
  function StripExtension(b: string): (r: string)
    ensures |r| <= |b| && r == b[..|r|]
    ensures |r| < |b| ==>
      b[|r|] == '.' && HasNonDot(r) && forall j :: |r| < j < |b| ==> b[j] != '.'
    ensures |r| == |b| ==>
      forall i, j :: 0 <= i < j < |b| && b[j] == '.' ==> b[i] == '.'
  {
    var d := LastDot(b);
    if d > 0 && HasNonDot(b[..d]) then b[..d] else b
  }

  /** The name a newly added game gets: its file name without the extension. */
  function GameName(path: string): (n: string)
    ensures |n| <= |BaseName(path)| && n == BaseName(path)[..|n|]
    ensures forall j :: 0 <= j < |n| ==> !IsSep(n[j])
  {
    StripExtension(BaseName(path))
  }

  /** An extension as `splitext` splits it off: empty, or a dot followed by
      characters that are neither dots nor separators. */
  predicate IsExtension(ext: string) {
    ext == [] || (ext[0] == '.' && forall j :: 0 < j < |ext| ==> ext[j] != '.' && !IsSep(ext[j]))
  }

  /** Stripping the extension of a separator-free file name leaves a root
      followed by an extension. */
  lemma {:induction false} StripShape(b: string)
    requires forall j :: 0 <= j < |b| ==> !IsSep(b[j])
    ensures b == StripExtension(b) + b[|StripExtension(b)|..]
    ensures IsExtension(b[|StripExtension(b)|..])
  {
    var n := StripExtension(b);
    var ext := b[|n|..];
    assert |ext| > 0 ==> ext[0] == b[|n|];
    forall j | 0 < j < |ext|
      ensures ext[j] != '.' && !IsSep(ext[j])
    {
      assert ext[j] == b[|n| + j];
    }
  }

  /** The name carries no separator, and the file name of the path is the name
      followed by an extension. */
  lemma GameNameShape(path: string)
    ensures forall j :: 0 <= j < |GameName(path)| ==> !IsSep(GameName(path)[j])
    ensures BaseName(path) == GameName(path) + BaseName(path)[|GameName(path)|..]
    ensures IsExtension(BaseName(path)[|GameName(path)|..])
  {
    var b := BaseName(path);
    StripShape(b);
    var n := StripExtension(b);
    assert GameName(path) == n;
    forall j | 0 <= j < |n|
      ensures !IsSep(n[j])
    {
      assert n[j] == b[j];
    }
  }

  /** The last separator is determined by its position alone. */
  lemma LastSepAt(s: string, k: int)
    requires -1 <= k < |s| && (k >= 0 ==> IsSep(s[k]))
    requires forall j :: k < j < |s| ==> !IsSep(s[j])
    ensures LastSep(s) == k
  {
  }

  /** The last dot is determined by its position alone. */
  lemma LastDotAt(s: string, k: int)
    requires -1 <= k < |s| && (k >= 0 ==> s[k] == '.')
    requires forall j :: k < j < |s| ==> s[j] != '.'
    ensures LastDot(s) == k
  {
  }

  /** A POSIX path: the directories and the extension are dropped. */
  lemma GameNameOfExe()
    ensures GameName("/games/foo.exe") == "foo"
  {
    var p, b := "/games/foo.exe", "foo.exe";
    LastSepAt(p, 6);
    assert BaseName(p) == b;
    LastDotAt(b, 3);
    assert b[..3] == "foo" && "foo"[0] != '.';
  }

  /** A Windows path to a dot file: the leading dot is part of the name. */
  lemma GameNameOfDotFile()
    ensures GameName("C:\\Games\\.hidden") == ".hidden"
  {
    var p, b := "C:\\Games\\.hidden", ".hidden";
    LastSepAt(p, 8);
    assert BaseName(p) == b;
    LastDotAt(b, 0);
  }
}
