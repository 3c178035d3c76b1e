/**
 * Finding the file whose DWARF data describes an image: the image itself,
 * else the `.build-id` file named after its build-id, else the file its
 * `.gnu_debuglink` section names, looked for in three standard places.
 */
module DebugInfo {
  import opened Types
  import BuildId

  const DEBUG_ROOT: string := "/usr/lib/debug"

  /**
   * `open_debuglink_file`: `<dir>/<link>`, then `<dir>/.debug/<link>`, then
   * `/usr/lib/debug<realpath of dir>/<link>`; the last one is tried only when
   * `realpath` succeeds. `dir` is `dirname` of the image's file name.
   */
  function OpenDebuglinkFile(dir: string, link: string, opens: string -> bool,
                             realPath: string -> Option<string>): (r: Option<string>)
    ensures r.Some? ==> opens(r.value) && r.value in DebugLinkCandidates(dir, link, realPath(dir + "/"))
  {
    var filePath := dir + "/";
    if opens(filePath + link) then Some(filePath + link)
    else if opens(filePath + ".debug/" + link) then Some(filePath + ".debug/" + link)
    else match realPath(filePath)
      case None => None
      case Some(resolved) =>
        var candidate := DEBUG_ROOT + resolved + "/" + link;
        if opens(candidate) then Some(candidate) else None
  }

  /** The candidate paths, in the order they are tried. */
  function DebugLinkCandidates(dir: string, link: string, realDir: Option<string>): seq<string>
  {
    var filePath := dir + "/";
    [filePath + link, filePath + ".debug/" + link] +
      match realDir
      case None => []
      case Some(resolved) => [DEBUG_ROOT + resolved + "/" + link]
  }

  /** The index of the first candidate that opens. */
  function FirstOpenableIndex(cands: seq<string>, opens: string -> bool): (r: Option<nat>)
    ensures r.Some? ==> r.value < |cands| && opens(cands[r.value])
    ensures r.Some? ==> forall j :: 0 <= j < r.value ==> !opens(cands[j])
    ensures r.None? <==> forall j :: 0 <= j < |cands| ==> !opens(cands[j])
  {
    if cands == [] then None
    else if opens(cands[0]) then Some(0)
    else match FirstOpenableIndex(cands[1..], opens)
      case None => None
      case Some(k) => Some(k + 1)
  }

  /** The first candidate that opens. */
  function FirstOpenable(cands: seq<string>, opens: string -> bool): Option<string>
  {
    match FirstOpenableIndex(cands, opens)
    case Some(k) => Some(cands[k])
    case None => None
  }

  /** The debug-link lookup takes the first candidate that opens, in candidate order. */
  lemma OpenDebuglinkFollowsCandidateOrder(dir: string, link: string, opens: string -> bool,
                                           realPath: string -> Option<string>)
    ensures OpenDebuglinkFile(dir, link, opens, realPath) ==
      FirstOpenable(DebugLinkCandidates(dir, link, realPath(dir + "/")), opens)
  {
    var cands := DebugLinkCandidates(dir, link, realPath(dir + "/"));
    var r := FirstOpenableIndex(cands, opens);
    var o := OpenDebuglinkFile(dir, link, opens, realPath);
    if r.Some? {
      var k := r.value;
      assert k > 0 ==> !opens(cands[0]);
      assert k > 1 ==> !opens(cands[1]);
    } else {
      assert !opens(cands[0]) && !opens(cands[1]);
      assert |cands| == 3 ==> !opens(cands[2]);
    }
  }

  /**
   * The file whose DWARF data is read, as `parseOneDwarf` finds it: the
   * image itself, else the `.build-id` file (when there is a build-id), else
   * the debug-link file (when there is a link name). A file that opens but
   * holds no DWARF data is passed over for the next way.
   */
  function DebugSource(filename: string, buildId: string, debuglink: string, dir: string,
                       opens: string -> bool, hasDwarf: string -> bool,
                       realPath: string -> Option<string>): (r: Option<string>)
    requires |buildId| % 2 == 0
    ensures r.Some? ==> || r.value == filename
                        || (|buildId| >= 2 && r.value == BuildId.BuildIdDebugPath(buildId))
                        || r.value in DebugLinkCandidates(dir, debuglink, realPath(dir + "/"))
  {
    if hasDwarf(filename) then Some(filename)
    else if |buildId| > 0 && opens(BuildId.BuildIdDebugPath(buildId)) && hasDwarf(BuildId.BuildIdDebugPath(buildId))
    then Some(BuildId.BuildIdDebugPath(buildId))
    else if |debuglink| > 0 then
      match OpenDebuglinkFile(dir, debuglink, opens, realPath)
      case Some(p) => if hasDwarf(p) then Some(p) else None
      case None => None
    else None
  }

  /** The order of the separate-debug search: the build-id file wins over every debug-link candidate. */
  lemma BuildIdBeforeDebugLink(filename: string, buildId: string, debuglink: string, dir: string,
                               opens: string -> bool, hasDwarf: string -> bool,
                               realPath: string -> Option<string>)
    requires |buildId| % 2 == 0 && |buildId| > 0
    requires !hasDwarf(filename)
    requires opens(BuildId.BuildIdDebugPath(buildId)) && hasDwarf(BuildId.BuildIdDebugPath(buildId))
    ensures DebugSource(filename, buildId, debuglink, dir, opens, hasDwarf, realPath) ==
      Some(BuildId.BuildIdDebugPath(buildId))
  {
  }

  /** When the build-id file is of no use, the debug-link candidates are tried in order. */
  lemma DebugLinkAfterBuildId(filename: string, buildId: string, debuglink: string, dir: string,
                              opens: string -> bool, hasDwarf: string -> bool,
                              realPath: string -> Option<string>)
    requires |buildId| % 2 == 0 && |debuglink| > 0
    requires !hasDwarf(filename)
    requires |buildId| > 0 ==> !(opens(BuildId.BuildIdDebugPath(buildId)) && hasDwarf(BuildId.BuildIdDebugPath(buildId)))
    ensures DebugSource(filename, buildId, debuglink, dir, opens, hasDwarf, realPath) ==
      match FirstOpenable(DebugLinkCandidates(dir, debuglink, realPath(dir + "/")), opens)
      case Some(p) => if hasDwarf(p) then Some(p) else None
      case None => None
  {
    OpenDebuglinkFollowsCandidateOrder(dir, debuglink, opens, realPath);
  }

  /** Every file the search settles on holds DWARF data. */
  lemma DebugSourceHasDwarf(filename: string, buildId: string, debuglink: string, dir: string,
                            opens: string -> bool, hasDwarf: string -> bool,
                            realPath: string -> Option<string>)
    requires |buildId| % 2 == 0
    ensures var s := DebugSource(filename, buildId, debuglink, dir, opens, hasDwarf, realPath);
      s.Some? ==> hasDwarf(s.value)
  {
  }
}
