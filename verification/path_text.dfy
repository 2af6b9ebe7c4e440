/** The two string helpers of the .NET base library the matcher relies on:
    `System.IO.Path.GetExtension` as it behaves on Windows, and
    `String.ToLower(CultureInfo.InvariantCulture)`. */
module PathText {

  /** Windows accepts both the backslash and the forward slash. */
  predicate IsDirectorySeparator(c: char) {
    c == '\\' || c == '/'
  }

  /** `path[i..]` is the extension of `path`: a '.' that is not the last
      character, after which there is neither a '.' nor a directory separator. */
  predicate ExtensionStartsAt(path: string, i: int) {
    && 0 <= i < |path| - 1
    && path[i] == '.'
    && forall k :: i < k < |path| ==> path[k] != '.' && !IsDirectorySeparator(path[k])
  }

  /** The backward scan of `GetExtension`, positioned at index `i`; every
      character after `i` has already been seen to be neither '.' nor a
      separator. */
  function ExtensionFrom(path: string, i: int): (e: string)
    requires -1 <= i < |path|
    requires forall k :: i < k < |path| ==> path[k] != '.' && !IsDirectorySeparator(path[k])
    ensures forall j :: ExtensionStartsAt(path, j) ==> e == path[j..]
    ensures e == "" || (ExtensionStartsAt(path, |path| - |e|) && e == path[|path| - |e|..])
    decreases i + 1
  {
    if i < 0 then ""
    else if path[i] == '.' then (if i != |path| - 1 then path[i..] else "")
    else if IsDirectorySeparator(path[i]) then ""
    else ExtensionFrom(path, i - 1)
  }

  /** The extension of `path`, leading '.' included, or "" when the last
      segment has no '.' or ends in one. */
  function GetExtension(path: string): (e: string)
    ensures forall j :: ExtensionStartsAt(path, j) ==> e == path[j..]
    ensures e == "" || (ExtensionStartsAt(path, |path| - |e|) && e == path[|path| - |e|..])
  {
    ExtensionFrom(path, |path| - 1)
  }

  /** A file named `stem.ext` has extension `.ext`, whatever the stem holds
      (directories, further dots), as long as `ext` itself has no '.' or separator. */
  lemma ExtensionOfNamedFile(stem: string, ext: string)
    requires |ext| > 0
    requires forall k :: 0 <= k < |ext| ==> ext[k] != '.' && !IsDirectorySeparator(ext[k])
    ensures GetExtension(stem + "." + ext) == "." + ext
  {
    var path := stem + "." + ext;
    forall k | |stem| < k < |path|
      ensures path[k] != '.' && !IsDirectorySeparator(path[k])
    {
      assert path[k] == ext[k - |stem| - 1];
    }
    assert ExtensionStartsAt(path, |stem|);
    assert path[|stem|..] == "." + ext;
  }

  /** A path whose last character is '.' has no extension. */
  lemma TrailingDotHasNoExtension(path: string)
    requires |path| > 0 && path[|path| - 1] == '.'
    ensures GetExtension(path) == ""
  {
  }

  /** Invariant-culture lower-casing of one character, on the ASCII letters. */
  function LowerChar(c: char): char {
    if 'A' <= c <= 'Z' then (c as int - 'A' as int + 'a' as int) as char else c
  }

  function ToLowerInvariant(s: string): (r: string)
    ensures |r| == |s|
    ensures forall i :: 0 <= i < |s| ==> r[i] == LowerChar(s[i])
  {
    seq(|s|, i requires 0 <= i < |s| => LowerChar(s[i]))
  }

  /** Lower-casing twice changes nothing more: the result has no upper-case
      ASCII letter left. */
  lemma {:induction false} ToLowerIdempotent(s: string)
    ensures ToLowerInvariant(ToLowerInvariant(s)) == ToLowerInvariant(s)
    ensures forall i :: 0 <= i < |s| ==> !('A' <= ToLowerInvariant(s)[i] <= 'Z')
  {
    var once := ToLowerInvariant(s);
    var twice := ToLowerInvariant(once);
    forall i | 0 <= i < |s|
      ensures twice[i] == once[i]
    {
      assert once[i] == LowerChar(s[i]);
    }
  }
}
