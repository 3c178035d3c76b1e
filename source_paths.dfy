/**
 * The source path reported for a line-table row: joined with the
 * compilation directory when relative, optionally moved from an original
 * source root to a new one, and canonicalised through the file system.
 */
module SourcePaths {
  import opened Types

  /**
   * `dir_concat` of the utilities file, which is not part of this model:
   * an empty directory leaves the file name as it is, any other is joined
   * to it with one '/'.
   */
  function DirConcat(dir: string, file: string): string
  {
    if dir == "" then file else dir + "/" + file
  }

  predicate IsAbsolute(p: string)
  {
    |p| > 0 && p[0] == '/'
  }

  predicate OccursAt(s: string, pat: string, k: nat)
  {
    k + |pat| <= |s| && s[k..k + |pat|] == pat
  }

  /** `std::string::find` from offset `i`: the first occurrence of `pat` at or after `i`. */
  function FindFrom(s: string, pat: string, i: nat): (r: Option<nat>)
    requires i <= |s|
    ensures r.Some? ==> i <= r.value && OccursAt(s, pat, r.value)
    ensures r.Some? ==> forall k :: i <= k < r.value ==> !OccursAt(s, pat, k)
    ensures r.None? ==> forall k :: i <= k <= |s| ==> !OccursAt(s, pat, k)
    decreases |s| - i
  {
    if i + |pat| > |s| then None
    else if s[i..i + |pat|] == pat then Some(i)
    else FindFrom(s, pat, i + 1)
  }

  function Find(s: string, pat: string): Option<nat>
  {
    FindFrom(s, pat, 0)
  }

  /** `s.replace(k, |orig|, repl)`. */
  function ReplaceAt(s: string, k: nat, n: nat, repl: string): string
    requires k + n <= |s|
  {
    s[..k] + repl + s[k + n..]
  }

  /** `get_real_path` of the utilities file: the canonical path, or "" when `realpath` fails. */
  function GetRealPath(realPath: string -> Option<string>, p: string): string
  {
    match realPath(p)
    case Some(r) => r
    case None => ""
  }

  /** The path before any remapping: the recorded one when absolute, else joined with the directory. */
  function RecordedPath(compDir: string, src: string): string
  {
    if IsAbsolute(src) then src else DirConcat(compDir, src)
  }

  /**
   * The canonical path the remap step produces, or "" for none. With both
   * roots configured, only a path holding the original root is remapped
   * (at that root's first occurrence) and canonicalised; without both
   * roots, every path is canonicalised.
   */
  function RemappedRealPath(filePath: string, origRoot: string, newRoot: string, realPath: string -> Option<string>): string
  {
    if |origRoot| > 0 && |newRoot| > 0 then
      match Find(filePath, origRoot)
      case Some(k) => GetRealPath(realPath, ReplaceAt(filePath, k, |origRoot|, newRoot))
      case None => ""
    else GetRealPath(realPath, filePath)
  }

  /** The path reported to the line listeners. */
  function ResolveSourcePath(compDir: string, src: string, origRoot: string, newRoot: string,
                             realPath: string -> Option<string>): string
  {
    var filePath := RecordedPath(compDir, src);
    var rp := RemappedRealPath(filePath, origRoot, newRoot, realPath);
    if rp != "" then rp else filePath
  }

  /** The first occurrence `find` reports is an occurrence, and no earlier one exists. */
  lemma FindIsFirstOccurrence(s: string, pat: string)
    ensures Find(s, pat).Some? ==> OccursAt(s, pat, Find(s, pat).value)
    ensures Find(s, pat).Some? ==> forall k :: 0 <= k < Find(s, pat).value ==> !OccursAt(s, pat, k)
    ensures Find(s, pat).None? <==> forall k :: 0 <= k <= |s| ==> !OccursAt(s, pat, k)
  {
  }

  /** A relative path is joined with the compilation directory; an absolute one is kept. */
  lemma RecordedPathCases(compDir: string, src: string)
    ensures IsAbsolute(src) ==> RecordedPath(compDir, src) == src
    ensures !IsAbsolute(src) && compDir != "" ==> RecordedPath(compDir, src) == compDir + "/" + src
    ensures !IsAbsolute(src) && compDir == "" ==> RecordedPath(compDir, src) == src
  {
  }

  /** With both roots configured, only the first occurrence of the original root is replaced. */
  lemma RemapReplacesFirstOccurrence(compDir: string, src: string, origRoot: string, newRoot: string,
                                     realPath: string -> Option<string>, k: nat)
    requires |origRoot| > 0 && |newRoot| > 0
    requires var p := RecordedPath(compDir, src);
      OccursAt(p, origRoot, k) && forall j :: 0 <= j < k ==> !OccursAt(p, origRoot, j)
    ensures var p := RecordedPath(compDir, src);
      var moved := p[..k] + newRoot + p[k + |origRoot|..];
      ResolveSourcePath(compDir, src, origRoot, newRoot, realPath) ==
        if GetRealPath(realPath, moved) != "" then GetRealPath(realPath, moved) else p
  {
    var p := RecordedPath(compDir, src);
    assert Find(p, origRoot) == Some(k);
  }

  /** With both roots configured, a path that does not hold the original root is left untouched. */
  lemma RemapLeavesOtherPathsUntouched(compDir: string, src: string, origRoot: string, newRoot: string,
                                       realPath: string -> Option<string>)
    requires |origRoot| > 0 && |newRoot| > 0
    requires var p := RecordedPath(compDir, src);
      forall k :: 0 <= k <= |p| ==> !OccursAt(p, origRoot, k)
    ensures ResolveSourcePath(compDir, src, origRoot, newRoot, realPath) == RecordedPath(compDir, src)
  {
  }

  /** Without both roots, an absolute path comes through unchanged unless canonicalisation rewrites it. */
  lemma AbsolutePathWithoutRemap(compDir: string, src: string, origRoot: string, newRoot: string,
                                 realPath: string -> Option<string>)
    requires origRoot == "" || newRoot == ""
    requires IsAbsolute(src)
    ensures ResolveSourcePath(compDir, src, origRoot, newRoot, realPath) ==
      if GetRealPath(realPath, src) != "" then GetRealPath(realPath, src) else src
  {
  }

  /** "/build/src/foo.c" under the remap "/build/src" to "/home/user/src" is "/home/user/src/foo.c". */
  lemma RemapExample(realPath: string -> Option<string>)
    requires realPath("/home/user/src/foo.c") == Some("/home/user/src/foo.c")
    ensures ResolveSourcePath("/build", "/build/src/foo.c", "/build/src", "/home/user/src", realPath) ==
      "/home/user/src/foo.c"
  {
    var p := "/build/src/foo.c";
    assert IsAbsolute(p);
    assert OccursAt(p, "/build/src", 0);
    assert ReplaceAt(p, 0, 10, "/home/user/src") == "/home/user/src/foo.c";
  }
}
