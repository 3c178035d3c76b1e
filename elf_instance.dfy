/**
 * The ELF parser object: its life cycle over a main image and the shared
 * objects loaded after it, the section loop that collects segments,
 * build-id, debug link and gcov files, and the line-table walk that reports
 * lines to the listeners.
 */
module ElfParser {
  import opened Types
  import opened Segments
  import opened Listeners
  import opened LineTable
  import opened Sections
  import BuildId
  import Rodata
  import Gcov
  import SourcePaths
  import DebugInfo

  /** `ELFMAG`: "\177ELF". */
  const ELFMAG: seq<byte> := [0x7f, 69, 76, 70]

  datatype MatchResult = MatchPerfect | MatchNone

  /** `matchParser`: a file is taken when its identification starts with the ELF magic. */
  function MatchParser(header: seq<byte>): (m: MatchResult)
    ensures m == MatchPerfect <==> |header| >= |ELFMAG| && forall i :: 0 <= i < |ELFMAG| ==> header[i] == ELFMAG[i]
  {
    if |header| >= |ELFMAG| && header[..|ELFMAG|] == ELFMAG then MatchPerfect else MatchNone
  }

  /** The configuration keys the parser reads: the path-prefix remap, "verify" and "gcov" (nonzero read as true). */
  datatype Config = Config(origRoot: string, newRoot: string, verify: bool, gcov: bool)

  /** `FLG_NONE` for the main image, `FLG_TYPE_SOLIB`, `FLG_TYPE_COVERAGE_DATA`. */
  datatype FileKind = MainFile | SharedObject | CoverageData

  /** What `onFile` receives. */
  datatype File = File(path: string, kind: FileKind, segments: seq<Segment>)

  /**
   * Everything outside the parser that it consults: the configuration
   * store; whether a path can be opened (`open`, `lstat`, `read_file` and
   * `file_exists` alike); libelf's and libdw's view of a file; the basic
   * blocks a graph file parses into, each with the address `gcovGetAddress`
   * gives it; `realpath`; `dirname`; and the address verifier.
   */
  datatype World = World(
    config: Config,
    opens: string -> bool,
    image: string -> Option<ElfImage>,
    dwarf: string -> Option<seq<CompileUnit>>,
    gcno: string -> Option<seq<GcnoBlock>>,
    realPath: string -> Option<string>,
    dirname: string -> string,
    verifier: (Segment, u64) -> bool)

  /** The fields the section loop changes. */
  datatype ElfState = ElfState(
    curSegments: seq<Segment>,
    executableSegments: seq<Segment>,
    buildId: string,
    debuglink: string,
    gcnoFiles: seq<string>,
    fileEvents: seq<Event<File>>)

  /** The coverage-data file events of the names found in `.rodata`. */
  function CoverageFiles(names: seq<string>): (r: seq<File>)
    ensures |r| == |names|
    ensures forall k :: 0 <= k < |names| ==> r[k] == File(names[k], CoverageData, [])
  {
    seq(|names|, k requires 0 <= k < |names| => File(names[k], CoverageData, []))
  }

  lemma CoverageFilesAppend(a: seq<string>, b: seq<string>)
    ensures CoverageFiles(a + b) == CoverageFiles(a) + CoverageFiles(b)
  {
  }

  /** What a run of sections contributes to the image's state, and the `onFile` calls it makes. */
  datatype Collected = Collected(
    segs: seq<Segment>,
    buildId: string,
    debuglink: string,
    gcdaFiles: seq<string>,
    events: seq<Event<File>>)

  function Join(a: Collected, b: Collected): Collected
  {
    Collected(a.segs + b.segs, a.buildId + b.buildId, a.debuglink + b.debuglink,
              a.gcdaFiles + b.gcdaFiles, a.events + b.events)
  }

  /** The contribution of one section with data. */
  function Contribution(s: Section, scan: bool, fileListeners: seq<nat>): Collected
  {
    var names := SectionGcda(s, scan);
    Collected(SectionSegments(s), SectionBuildId(s), SectionDebuglink(s), names,
              BroadcastAll(fileListeners, CoverageFiles(names)))
  }

  /** The contribution of a run of sections with data, in section order. */
  function CollectedOf(secs: seq<Section>, scan: bool, fileListeners: seq<nat>): Collected
  {
    if secs == [] then Collected([], "", "", [], [])
    else Join(CollectedOf(secs[..|secs| - 1], scan, fileListeners), Contribution(secs[|secs| - 1], scan, fileListeners))
  }

  /** One more section joins its contribution to those of the sections before it. */
  lemma CollectStep(secs: seq<Section>, i: nat, scan: bool, fileListeners: seq<nat>)
    requires i < |secs|
    ensures CollectedOf(secs[..i + 1], scan, fileListeners) ==
      Join(CollectedOf(secs[..i], scan, fileListeners), Contribution(secs[i], scan, fileListeners))
  {
    assert secs[..i + 1][..i] == secs[..i];
  }

  /**
   * Field by field, the contribution of a run of sections is what the section
   * lists collect, and the `onFile` calls announce its data files in order.
   */
  lemma {:induction false} CollectedOfFields(secs: seq<Section>, scan: bool, fileListeners: seq<nat>)
    ensures CollectedOf(secs, scan, fileListeners).segs == ExecSegments(secs)
    ensures CollectedOf(secs, scan, fileListeners).buildId == BuildIdOf(secs)
    ensures CollectedOf(secs, scan, fileListeners).debuglink == DebuglinkOf(secs)
    ensures CollectedOf(secs, scan, fileListeners).gcdaFiles == GcdaNamesOf(secs, scan)
    ensures CollectedOf(secs, scan, fileListeners).events == BroadcastAll(fileListeners, CoverageFiles(GcdaNamesOf(secs, scan)))
  {
    if secs != [] {
      var front := secs[..|secs| - 1];
      CollectedOfFields(front, scan, fileListeners);
      var names, more := GcdaNamesOf(front, scan), SectionGcda(secs[|secs| - 1], scan);
      CoverageFilesAppend(names, more);
      BroadcastAllAppend(fileListeners, CoverageFiles(names), CoverageFiles(more));
    }
  }

  /** The collected build-id holds whole bytes, and every collected data-file name can be rewritten. */
  lemma CollectedShape(secs: seq<Section>, scan: bool, fileListeners: seq<nat>)
    ensures |CollectedOf(secs, scan, fileListeners).buildId| % 2 == 0
    ensures Gcov.AllRewritable(CollectedOf(secs, scan, fileListeners).gcdaFiles)
  {
    CollectedOfFields(secs, scan, fileListeners);
    BuildIdOfIsEven(secs);
    GcdaNamesOfShape(secs, scan);
  }

  /** `checkFile`'s verdict: the file opens and libelf recognises it as ELF. */
  predicate FileChecks(w: World, f: string)
  {
    w.opens(f) && w.image(f).Some? && w.image(f).value.isElf
  }

  /**
   * The specification of `parseOneElf`: the new state and the result. A
   * file that cannot be read, mapped or whose section-name index cannot be
   * read changes nothing; otherwise the sections up to the first one without
   * data are processed, and the gcov graph files are queued only if every
   * section was.
   */
  function ElfScan(pre: ElfState, filename: string, w: World, fileListeners: seq<nat>): (ElfState, bool)
  {
    if !w.opens(filename) || w.image(filename).None? || !w.image(filename).value.hasShstrndx then (pre, false)
    else SectionsScan(pre, w.image(filename).value.sections, w.config.gcov, w.opens, fileListeners)
  }

  /** The section loop of `parseOneElf` and what follows it, once the image is open. */
  function SectionsScan(pre: ElfState, secs: seq<Section>, scan: bool, fileExists: string -> bool,
                        fileListeners: seq<nat>): (ElfState, bool)
  {
    var n := ProcessedCount(secs);
    var c := CollectedOf(secs[..n], scan, fileListeners);
    CollectedShape(secs[..n], scan, fileListeners);
    (ElfState(
       if pre.curSegments == [] then c.segs else pre.curSegments,
       pre.executableSegments + c.segs,
       pre.buildId + c.buildId,
       pre.debuglink + c.debuglink,
       if n == |secs| then pre.gcnoFiles + Gcov.ExistingGcnoFiles(c.gcdaFiles, fileExists) else pre.gcnoFiles,
       pre.fileEvents + c.events),
     n == |secs|)
  }

  /** The DWARF units of the file the debug-file search settled on. */
  function DwarfUnits(w: World, src: Option<string>): seq<CompileUnit>
  {
    match src
    case None => []
    case Some(p) => match w.dwarf(p) case Some(cus) => cus case None => []
  }

  class ElfInstance {
    var filename: string
    var isMainFile: bool
    var elfIsShared: bool
    var elfIs32Bit: bool
    var initialized: bool
    var verifyAddresses: bool
    var origRoot: string
    var newRoot: string
    var buildId: string
    var debuglink: string
    var curSegments: seq<Segment>
    var executableSegments: seq<Segment>
    var gcnoFiles: seq<string>
    var lineListeners: seq<nat>
    var fileListeners: seq<nat>
    /** Every `onLine` call made so far. */
    var lineEvents: seq<Event<Line>>
    /** Every `onFile` call made so far. */
    var fileEvents: seq<Event<File>>

    /** The build-id string always holds whole bytes, two hex digits each. */
    ghost predicate Valid()
      reads this`buildId
    {
      |buildId| % 2 == 0
    }

    function Snapshot(): ElfState
      reads this`curSegments, this`executableSegments, this`buildId, this`debuglink, this`gcnoFiles, this`fileEvents
    {
      ElfState(curSegments, executableSegments, buildId, debuglink, gcnoFiles, fileEvents)
    }

    function DwarfContext(w: World, relocation: u64): Context
      reads this`executableSegments, this`curSegments, this`verifyAddresses, this`origRoot, this`newRoot
    {
      Context(executableSegments, curSegments, verifyAddresses, w.verifier, origRoot, newRoot, w.realPath, relocation)
    }

    /** The file `parseOneDwarf` reads DWARF data from, if any. */
    function DebugSourceOf(w: World): Option<string>
      reads this`filename, this`buildId, this`debuglink
      requires Valid()
    {
      DebugInfo.DebugSource(filename, buildId, debuglink, w.dirname(filename), w.opens,
                            p => w.dwarf(p).Some?, w.realPath)
    }

    /** The lines `doParse` reports once the section loop has run. */
    function ReportedLines(relocation: u64, w: World): seq<Line>
      reads this`filename, this`buildId, this`debuglink, this`gcnoFiles
      reads this`executableSegments, this`curSegments, this`verifyAddresses, this`origRoot, this`newRoot
      requires Valid()
    {
      if w.config.gcov && |gcnoFiles| > 0 then GcnoLines(w.gcno, gcnoFiles, relocation)
      else if w.opens(filename) && DebugSourceOf(w).Some? then
        DwarfLines(DwarfContext(w, relocation), DwarfUnits(w, DebugSourceOf(w)))
      else []
    }

    /** The effect of a `doParse(relocation)` that got past `lstat`. */
    twostate predicate Parsed(relocation: u64, w: World)
      reads this
      requires Valid()
    {
      && Snapshot() == ElfScan(old(Snapshot()), old(filename), w, old(fileListeners)).0
      && lineEvents == old(lineEvents) + BroadcastAll(lineListeners, ReportedLines(relocation, w))
    }

    constructor ()
      ensures Valid()
      ensures filename == "" && isMainFile && !elfIsShared && elfIs32Bit && !initialized && !verifyAddresses
      ensures origRoot == "" && newRoot == "" && buildId == "" && debuglink == ""
      ensures curSegments == [] && executableSegments == [] && gcnoFiles == []
      ensures lineListeners == [] && fileListeners == [] && lineEvents == [] && fileEvents == []
    {
      filename := "";
      isMainFile := true;
      elfIsShared := false;
      elfIs32Bit := true;
      initialized := false;
      verifyAddresses := false;
      origRoot := "";
      newRoot := "";
      buildId := "";
      debuglink := "";
      curSegments := [];
      executableSegments := [];
      gcnoFiles := [];
      lineListeners := [];
      fileListeners := [];
      lineEvents := [];
      fileEvents := [];
    }

    method RegisterLineListener(l: nat)
      modifies this`lineListeners
      ensures lineListeners == old(lineListeners) + [l]
    {
      lineListeners := lineListeners + [l];
    }

    method RegisterFileListener(l: nat)
      modifies this`fileListeners
      ensures fileListeners == old(fileListeners) + [l]
    {
      fileListeners := fileListeners + [l];
    }

    /**
     * `addFile`: reads the configuration on the first call, resets the
     * per-image state, takes the host's segments as the current ones, and
     * announces the file when `checkFile` accepts it. The queue of gcov graph
     * files is left as it is.
     */
    method AddFile(fname: string, host: seq<HostSegment>, w: World) returns (ok: bool)
      requires Valid()
      modifies this`initialized, this`origRoot, this`newRoot, this`verifyAddresses, this`filename
      modifies this`buildId, this`debuglink, this`curSegments, this`executableSegments
      modifies this`elfIs32Bit, this`elfIsShared, this`fileEvents
      ensures Valid() && initialized
      ensures old(initialized) ==>
        origRoot == old(origRoot) && newRoot == old(newRoot) && verifyAddresses == old(verifyAddresses)
      ensures !old(initialized) ==>
        origRoot == w.config.origRoot && newRoot == w.config.newRoot && verifyAddresses == w.config.verify
      ensures filename == fname && buildId == "" && debuglink == ""
      ensures curSegments == FromHostAll(host) && executableSegments == []
      ensures ok == FileChecks(w, fname)
      ensures isMainFile && FileChecks(w, fname) ==>
        elfIs32Bit == w.image(fname).value.is32Bit && elfIsShared == w.image(fname).value.isShared
      ensures !(isMainFile && FileChecks(w, fname)) ==>
        elfIs32Bit == old(elfIs32Bit) && elfIsShared == old(elfIsShared)
      ensures fileEvents == old(fileEvents) +
        if ok then Broadcast(fileListeners, File(fname, if isMainFile then MainFile else SharedObject, curSegments)) else []
    {
      Initialize(w.config);
      ResetImage(fname, host);
      ok := CheckFile(w);
      if ok {
        AnnounceImage();
      }
    }

    /** The first `addFile` reads the path-prefix remap and the "verify" setting; later ones keep them. */
    method Initialize(config: Config)
      modifies this`initialized, this`origRoot, this`newRoot, this`verifyAddresses
      ensures initialized
      ensures old(initialized) ==>
        origRoot == old(origRoot) && newRoot == old(newRoot) && verifyAddresses == old(verifyAddresses)
      ensures !old(initialized) ==>
        origRoot == config.origRoot && newRoot == config.newRoot && verifyAddresses == config.verify
    {
      if !initialized {
        origRoot := config.origRoot;
        newRoot := config.newRoot;
        verifyAddresses := config.verify;
        initialized := true;
      }
    }

    /** A new image starts with no build-id, no debug link, no executable segments and the host's segments. */
    method ResetImage(fname: string, host: seq<HostSegment>)
      modifies this`filename, this`buildId, this`debuglink, this`curSegments, this`executableSegments
      ensures filename == fname && buildId == "" && debuglink == ""
      ensures curSegments == FromHostAll(host) && executableSegments == []
    {
      filename := fname;
      buildId := "";
      debuglink := "";
      executableSegments := [];
      curSegments := HostSegments(host);
    }

    /** The accepted image is announced to every file listener, with its current segments. */
    method AnnounceImage()
      modifies this`fileEvents
      ensures fileEvents == old(fileEvents) +
        Broadcast(fileListeners, File(filename, if isMainFile then MainFile else SharedObject, curSegments))
    {
      fileEvents := fileEvents + Broadcast(fileListeners, File(filename, if isMainFile then MainFile else SharedObject, curSegments));
    }

    /** `checkFile`: for the main image it also records the ELF class and whether it is `ET_DYN`. */
    method CheckFile(w: World) returns (ok: bool)
      modifies this`elfIs32Bit, this`elfIsShared
      ensures ok == FileChecks(w, filename)
      ensures isMainFile && ok ==>
        elfIs32Bit == w.image(filename).value.is32Bit && elfIsShared == w.image(filename).value.isShared
      ensures !(isMainFile && ok) ==> elfIs32Bit == old(elfIs32Bit) && elfIsShared == old(elfIsShared)
    {
      if !w.opens(filename) {
        return false;
      }
      var img := w.image(filename);
      if img.None? {
        return false;
      }
      ok := img.value.isElf;
      if isMainFile && ok {
        elfIs32Bit := img.value.is32Bit;
        elfIsShared := img.value.isShared;
      }
    }

    /**
     * `parse`: a shared (position-independent) main image is deferred until
     * its relocation is known; anything else is parsed at relocation 0, after
     * which the parser treats every later image as a shared object.
     */
    method Parse(w: World) returns (ok: bool)
      requires Valid()
      modifies this`isMainFile, this`curSegments, this`executableSegments, this`buildId, this`debuglink
      modifies this`gcnoFiles, this`fileEvents, this`lineEvents
      ensures Valid()
      ensures old(isMainFile && elfIsShared) ==> ok && unchanged(this)
      ensures !old(isMainFile && elfIsShared) ==> ok == w.opens(old(filename))
      ensures !old(isMainFile && elfIsShared) && !ok ==> unchanged(this)
      ensures !old(isMainFile && elfIsShared) && ok ==> !isMainFile && Parsed(0, w)
    {
      if isMainFile && elfIsShared {
        return true;
      }
      ok := DoParse(0, w);
      if !ok {
        return;
      }
      isMainFile := false;
    }

    /**
     * `doParse`: the section loop runs (its own verdict is not looked at),
     * then the gcov graph files are parsed when gcov mode is on and some were
     * queued, and the DWARF line table otherwise.
     */
    method DoParse(relocation: u64, w: World) returns (ok: bool)
      requires Valid()
      modifies this`curSegments, this`executableSegments, this`buildId, this`debuglink
      modifies this`gcnoFiles, this`fileEvents, this`lineEvents
      ensures Valid()
      ensures ok == w.opens(filename)
      ensures !ok ==> unchanged(this)
      ensures ok ==> Parsed(relocation, w)
    {
      if !w.opens(filename) {
        return false;
      }
      var _ := ParseOneElf(w);
      ParseLines(relocation, w);
      ok := true;
    }

    /** The line reporting that ends `doParse`: the gcov graph files, else the DWARF line table. */
    method ParseLines(relocation: u64, w: World)
      requires Valid()
      modifies this`lineEvents
      ensures lineEvents == old(lineEvents) + BroadcastAll(lineListeners, ReportedLines(relocation, w))
    {
      if w.config.gcov && |gcnoFiles| > 0 {
        ParseGcnoFiles(relocation, w);
      } else {
        var _ := ParseOneDwarf(relocation, w);
      }
    }

    /**
     * `setMainFileRelocation`: refused unless the main image is still being
     * parsed; a shared main image is parsed now at the given relocation; a
     * fixed-address one was parsed already and is left alone (the source only
     * warns when the relocation is nonzero).
     */
    method SetMainFileRelocation(relocation: u64, w: World) returns (ok: bool)
      requires Valid()
      modifies this`curSegments, this`executableSegments, this`buildId, this`debuglink
      modifies this`gcnoFiles, this`fileEvents, this`lineEvents
      ensures Valid()
      ensures !isMainFile ==> !ok && unchanged(this)
      ensures isMainFile && !elfIsShared ==> ok && unchanged(this)
      ensures isMainFile && elfIsShared ==> ok == w.opens(filename)
      ensures isMainFile && elfIsShared && !ok ==> unchanged(this)
      ensures isMainFile && elfIsShared && ok ==> Parsed(relocation, w)
    {
      if !isMainFile {
        return false;
      }
      if elfIsShared {
        ok := DoParse(relocation, w);
        return;
      }
      ok := true;
    }

    /** `parseGcnoFiles`: each queued graph file's blocks, at their generated addresses plus the relocation. */
    method ParseGcnoFiles(relocation: u64, w: World)
      modifies this`lineEvents
      ensures lineEvents == old(lineEvents) + BroadcastAll(lineListeners, GcnoLines(w.gcno, gcnoFiles, relocation))
    {
      var evs := GcnoEvents(relocation, w);
      lineEvents := lineEvents + evs;
    }

    /** The `onLine` calls `parseGcnoFiles` makes, file by file and block by block. */
    method GcnoEvents(relocation: u64, w: World) returns (evs: seq<Event<Line>>)
      ensures evs == BroadcastAll(lineListeners, GcnoLines(w.gcno, gcnoFiles, relocation))
    {
      evs := [];
      var i := 0;
      while i < |gcnoFiles|
        invariant 0 <= i <= |gcnoFiles|
        invariant evs == BroadcastAll(lineListeners, GcnoLines(w.gcno, gcnoFiles[..i], relocation))
      {
        GcnoLinesStep(w.gcno, gcnoFiles, i, relocation);
        var parsed := w.gcno(gcnoFiles[i]);
        if parsed.Some? {
          BroadcastAllAppend(lineListeners, GcnoLines(w.gcno, gcnoFiles[..i], relocation), BlockLines(parsed.value, relocation));
          var more := BlockEvents(parsed.value, relocation);
          evs := evs + more;
        }
        i := i + 1;
      }
      assert gcnoFiles[..i] == gcnoFiles;
    }

    /** The `onLine` calls for the blocks of one parsed graph file. */
    method BlockEvents(bbs: seq<GcnoBlock>, relocation: u64) returns (evs: seq<Event<Line>>)
      ensures evs == BroadcastAll(lineListeners, BlockLines(bbs, relocation))
    {
      evs := [];
      var j := 0;
      while j < |bbs|
        invariant 0 <= j <= |bbs|
        invariant evs == BroadcastAll(lineListeners, BlockLines(bbs[..j], relocation))
      {
        var line := Line(bbs[j].file, bbs[j].lineNo, WrapAdd(bbs[j].addr, relocation));
        BlockLinesStep(bbs, j, relocation);
        BroadcastAllStep(lineListeners, BlockLines(bbs[..j], relocation), line);
        evs := evs + Broadcast(lineListeners, line);
        j := j + 1;
      }
      assert bbs[..j] == bbs;
    }

    /**
     * `parseOneElf`: walks the sections in order until one yields no data,
     * collecting executable segments (into the current list only when it was
     * empty on entry), build-id digits, debug-link text and, in gcov mode,
     * data-file names found in `.rodata`; once every section is done, the
     * graph files that exist next to those names are queued.
     */
    method ParseOneElf(w: World) returns (ok: bool)
      requires Valid()
      modifies this`curSegments, this`executableSegments, this`buildId, this`debuglink
      modifies this`gcnoFiles, this`fileEvents
      ensures Valid()
      ensures Snapshot() == ElfScan(old(Snapshot()), filename, w, fileListeners).0
      ensures ok == ElfScan(old(Snapshot()), filename, w, fileListeners).1
    {
      if !w.opens(filename) {
        return false;
      }
      var img := w.image(filename);
      if img.None? || !img.value.hasShstrndx {
        return false;
      }
      ok := ProcessSections(img.value.sections, w);
    }

    /** `parseOneElf` once the image is open and its section-name index read. */
    method ProcessSections(secs: seq<Section>, w: World) returns (ok: bool)
      requires Valid()
      modifies this`curSegments, this`executableSegments, this`buildId, this`debuglink
      modifies this`gcnoFiles, this`fileEvents
      ensures Valid()
      ensures Snapshot() == SectionsScan(old(Snapshot()), secs, w.config.gcov, w.opens, fileListeners).0
      ensures ok == SectionsScan(old(Snapshot()), secs, w.config.gcov, w.opens, fileListeners).1
    {
      var n, c := ScanSections(secs, w);
      CollectedShape(secs[..n], w.config.gcov, fileListeners);
      StoreSections(c);
      if n < |secs| {
        return false;
      }
      var gcnos := GcnoCandidates(c.gcdaFiles, w.opens);
      QueueGcnoFiles(gcnos);
      ok := true;
    }

    /**
     * What the processed sections contribute, appended to the image's state;
     * the segments become the current ones only when there were none on
     * entry to the section loop.
     */
    method StoreSections(c: Collected)
      requires Valid() && |c.buildId| % 2 == 0
      modifies this`curSegments, this`executableSegments, this`buildId, this`debuglink, this`fileEvents
      ensures Valid()
      ensures curSegments == if old(curSegments) == [] then c.segs else old(curSegments)
      ensures executableSegments == old(executableSegments) + c.segs
      ensures buildId == old(buildId) + c.buildId
      ensures debuglink == old(debuglink) + c.debuglink
      ensures fileEvents == old(fileEvents) + c.events
    {
      if curSegments == [] {
        curSegments := c.segs;
      }
      executableSegments := executableSegments + c.segs;
      buildId := buildId + c.buildId;
      debuglink := debuglink + c.debuglink;
      fileEvents := fileEvents + c.events;
    }

    method QueueGcnoFiles(gcnos: seq<string>)
      modifies this`gcnoFiles
      ensures gcnoFiles == old(gcnoFiles) + gcnos
    {
      gcnoFiles := gcnoFiles + gcnos;
    }

    /**
     * The section loop: it stops at the first section without data, having
     * processed those before it, and gives back what they contribute.
     */
    method ScanSections(secs: seq<Section>, w: World) returns (n: nat, c: Collected)
      ensures n == ProcessedCount(secs)
      ensures c == CollectedOf(secs[..n], w.config.gcov, fileListeners)
    {
      var scan := w.config.gcov;
      c := Collected([], "", "", [], []);
      var i := 0;
      assert secs[i..] == secs;
      while i < |secs| && secs[i].data.Data?
        invariant 0 <= i <= |secs|
        invariant ProcessedCount(secs) == i + ProcessedCount(secs[i..])
        invariant c == CollectedOf(secs[..i], scan, fileListeners)
      {
        var more := ScanSection(secs[i], scan);
        ProcessedCountStep(secs, i);
        CollectStep(secs, i, scan, fileListeners);
        c := Join(c, more);
        i := i + 1;
      }
      if i < |secs| {
        ProcessedCountStep(secs, i);
      } else {
        assert secs[i..] == [];
      }
      n := i;
    }

    /**
     * One turn of the section loop, for a section with data: the `.rodata`
     * scan in gcov mode, the GNU build-id note, the debug link and the
     * executable segment, in that order.
     */
    method ScanSection(s: Section, scan: bool) returns (c: Collected)
      ensures c == Contribution(s, scan, fileListeners)
    {
      var buf := if s.data.Data? then s.data.buf else None;
      var names, evs, digits, link, segs := [], [], "", "", [];
      if scan && buf.Some? && s.name == RODATA_NAME {
        names := Rodata.ScanRodata(buf.value);
        evs := CoverageEvents(names);
      }
      if s.shType == BuildId.SHT_NOTE && buf.Some? {
        var desc := BuildId.GnuBuildIdDescriptor(buf.value);
        if desc.Some? {
          digits := BuildIdDigits(desc.value);
        }
      }
      if s.name == DEBUGLINK_NAME && buf.Some? {
        link := CString(buf.value);
      }
      if IsExecAlloc(s.flags) {
        segs := [FromSection(s.addr, s.size)];
      }
      c := Collected(segs, digits, link, names, evs);
    }

    /** The `onFile` calls announcing the data-file names found, in order. */
    method CoverageEvents(names: seq<string>) returns (evs: seq<Event<File>>)
      ensures evs == BroadcastAll(fileListeners, CoverageFiles(names))
    {
      ghost var files := CoverageFiles(names);
      evs := [];
      var k := 0;
      while k < |names|
        invariant 0 <= k <= |names|
        invariant evs == BroadcastAll(fileListeners, files[..k])
      {
        assert files[..k + 1][..k] == files[..k];
        evs := evs + Broadcast(fileListeners, File(names[k], CoverageData, []));
        k := k + 1;
      }
      assert files[..k] == files;
    }

    /** The build-id digits of a note's descriptor: two lower-case hex digits per byte, high nibble first. */
    method BuildIdDigits(desc: seq<byte>) returns (digits: string)
      ensures digits == BuildId.HexEncode(desc)
    {
      digits := "";
      var i := 0;
      while i < |desc|
        invariant 0 <= i <= |desc|
        invariant digits == BuildId.HexEncode(desc[..i])
      {
        digits := digits + [BuildId.HEX_DIGITS[desc[i] / 16]];
        digits := digits + [BuildId.HEX_DIGITS[desc[i] % 16]];
        assert desc[..i + 1] == desc[..i] + [desc[i]];
        BuildId.HexEncodeAppend(desc[..i], [desc[i]]);
        i := i + 1;
      }
      assert desc[..i] == desc;
    }

    /**
     * `parseOneDwarf`: finds the file holding debug information and walks
     * its line tables, reporting every selected row to every line listener;
     * a unit whose entry cannot be read ends the walk, one without a line
     * table is skipped.
     */
    method ParseOneDwarf(relocation: u64, w: World) returns (ok: bool)
      requires Valid()
      modifies this`lineEvents
      ensures ok == (w.opens(filename) && DebugSourceOf(w).Some?)
      ensures lineEvents == old(lineEvents) +
        if ok then BroadcastAll(lineListeners, DwarfLines(DwarfContext(w, relocation), DwarfUnits(w, DebugSourceOf(w)))) else []
    {
      if !w.opens(filename) {
        return false;
      }
      var src := DebugInfo.DebugSource(filename, buildId, debuglink, w.dirname(filename), w.opens,
                                       p => w.dwarf(p).Some?, w.realPath);
      if src.None? {
        return false;
      }
      var evs := DwarfEvents(DwarfUnits(w, src), relocation, w);
      lineEvents := lineEvents + evs;
      ok := true;
    }

    /** The `onLine` calls of the walk over all compile units. */
    method DwarfEvents(cus: seq<CompileUnit>, relocation: u64, w: World) returns (evs: seq<Event<Line>>)
      ensures evs == BroadcastAll(lineListeners, DwarfLines(DwarfContext(w, relocation), cus))
    {
      ghost var ctx := DwarfContext(w, relocation);
      ghost var visited: seq<DirRow> := [];
      evs := [];
      var c, ends := 0, false;
      assert cus[c..] == cus;
      while c < |cus| && !ends
        invariant 0 <= c <= |cus|
        invariant WalkRows(cus) == visited + (if ends then [] else WalkRows(cus[c..]))
        invariant evs == BroadcastAll(lineListeners, EmitRows(ctx, visited))
      {
        var more;
        ends, more := CompileUnitEvents(cus[c], relocation, w);
        ghost var u := UnitRowsOf(cus[c]);
        WalkInvariantStep(cus, c, visited);
        EmitRowsAppend(ctx, visited, u);
        BroadcastAllAppend(lineListeners, EmitRows(ctx, visited), EmitRows(ctx, u));
        evs := evs + more;
        visited := visited + u;
        c := c + 1;
      }
      assert !ends ==> cus[c..] == [];
      assert visited + [] == visited;
    }

    /** One compile unit's turn of the walk: its `onLine` calls, and whether the walk ends with it. */
    method CompileUnitEvents(cu: CompileUnit, relocation: u64, w: World) returns (ends: bool, evs: seq<Event<Line>>)
      ensures ends == EndsWalk(cu)
      ensures evs == BroadcastAll(lineListeners, EmitRows(DwarfContext(w, relocation), UnitRowsOf(cu)))
    {
      if cu.BadDie? {
        ends, evs := true, [];
      } else if cu.NoLineTable? {
        ends, evs := false, [];
      } else {
        ends, evs := UnitEvents(cu.compDir, cu.rows, relocation, w);
      }
    }

    /** The `onLine` calls of one compile unit; `stopped` when an unreadable row ends the whole walk. */
    method UnitEvents(dir: string, rows: seq<RowRead>, relocation: u64, w: World) returns (stopped: bool, evs: seq<Event<Line>>)
      ensures stopped == UnitRows(dir, rows).1
      ensures evs == BroadcastAll(lineListeners, EmitRows(DwarfContext(w, relocation), UnitRows(dir, rows).0))
    {
      ghost var ctx := DwarfContext(w, relocation);
      ghost var acc: seq<DirRow> := [];
      evs := [];
      var i := 0;
      assert rows[i..] == rows;
      while i < |rows| && rows[i].Row?
        invariant 0 <= i <= |rows|
        invariant UnitRows(dir, rows).0 == acc + UnitRows(dir, rows[i..]).0
        invariant UnitRows(dir, rows).1 == UnitRows(dir, rows[i..]).1
        invariant evs == BroadcastAll(lineListeners, EmitRows(ctx, acc))
      {
        UnitInvariantStep(dir, rows, i, acc);
        var x := DirRow(dir, rows[i].row);
        EmitRowsStep(ctx, acc, x);
        var more := RowEvents(x, relocation, w);
        BroadcastAllAppend(lineListeners, EmitRows(ctx, acc), if Selected(ctx, x) then [LineOf(ctx, x)] else []);
        evs := evs + more;
        acc := acc + [x];
        i := i + 1;
      }
      stopped := i < |rows|;
      if stopped {
        UnitRowsStep(dir, rows, i);
      } else {
        assert rows[i..] == [];
      }
      assert UnitRows(dir, rows).0 == acc;
    }

    /**
     * One line-table row: reported when its line is nonzero, it begins a
     * statement and its address is valid, with the resolved source path and
     * the translated address plus the relocation.
     */
    method RowEvents(x: DirRow, relocation: u64, w: World) returns (evs: seq<Event<Line>>)
      ensures evs == BroadcastAll(lineListeners, if Selected(DwarfContext(w, relocation), x) then [LineOf(DwarfContext(w, relocation), x)] else [])
    {
      evs := [];
      var r := x.row;
      if r.lineNo != 0 && r.isStmt {
        var valid := AddressIsValid(r.addr, w.verifier);
        if valid {
          var path := SourcePaths.ResolveSourcePath(x.dir, r.src, origRoot, newRoot, w.realPath);
          var adjusted := AdjustAddressBySegment(r.addr);
          var line := Line(path, r.lineNo, WrapAdd(adjusted, relocation));
          BroadcastAllStep(lineListeners, [], line);
          evs := Broadcast(lineListeners, line);
        }
      }
    }

    /** `addressIsValid`: the address lies in an executable segment and, when asked, the verifier accepts it there. */
    method AddressIsValid(addr: u64, verifier: (Segment, u64) -> bool) returns (out: bool)
      ensures out == Segments.AddressIsValid(executableSegments, verifyAddresses, verifier, addr)
    {
      var i := 0;
      while i < |executableSegments|
        invariant 0 <= i <= |executableSegments|
        invariant forall j :: 0 <= j < i ==> !Contains(executableSegments[j], addr)
      {
        var seg := executableSegments[i];
        if Contains(seg, addr) {
          assert FirstContaining(executableSegments, addr) == Some(i);
          out := true;
          if verifyAddresses {
            out := verifier(seg, addr - seg.base);
          }
          return;
        }
        i := i + 1;
      }
      return false;
    }

    /** `adjustAddressBySegment`: translated through the first current segment holding it, else unchanged. */
    method AdjustAddressBySegment(addr: u64) returns (r: u64)
      ensures r == Translate(curSegments, addr)
    {
      r := addr;
      var i := 0;
      while i < |curSegments|
        invariant 0 <= i <= |curSegments|
        invariant forall j :: 0 <= j < i ==> !Contains(curSegments[j], addr)
      {
        if Contains(curSegments[i], addr) {
          assert FirstContaining(curSegments, addr) == Some(i);
          r := Adjust(curSegments[i], addr);
          return;
        }
        i := i + 1;
      }
    }
  }

  /** The host's program headers as segments, in their order. */
  method HostSegments(host: seq<HostSegment>) returns (segs: seq<Segment>)
    ensures segs == FromHostAll(host)
  {
    segs := [];
    var i := 0;
    while i < |host|
      invariant 0 <= i <= |host|
      invariant segs == FromHostAll(host[..i])
    {
      segs := segs + [FromHost(host[i])];
      i := i + 1;
    }
    assert host[..i] == host;
  }

  /** The graph file of each data file found (".gcda" rewritten in place to ".gcno"), kept when it exists. */
  method GcnoCandidates(gcdaFiles: seq<string>, fileExists: string -> bool) returns (gcnos: seq<string>)
    requires Gcov.AllRewritable(gcdaFiles)
    ensures gcnos == Gcov.ExistingGcnoFiles(gcdaFiles, fileExists)
  {
    gcnos := [];
    var i := 0;
    while i < |gcdaFiles|
      invariant 0 <= i <= |gcdaFiles|
      invariant gcnos == Gcov.ExistingGcnoFiles(gcdaFiles[..i], fileExists)
    {
      assert gcdaFiles[..i + 1][..i] == gcdaFiles[..i];
      var gcno := gcdaFiles[i];
      var sz := |gcno|;
      gcno := gcno[sz - 2 := 'n'];
      gcno := gcno[sz - 1 := 'o'];
      if fileExists(gcno) {
        gcnos := gcnos + [gcno];
      }
      i := i + 1;
    }
    assert gcdaFiles[..i] == gcdaFiles;
  }
}
