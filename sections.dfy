/**
 * The section table of an image, normalised over the 32- and 64-bit header
 * layouts, and what the section loop of `parseOneElf` collects from it.
 */
module Sections {
  import opened Types
  import opened Segments
  import BuildId
  import Rodata
  import Gcov

  const SHF_ALLOC: bv64 := 0x2
  const SHF_EXECINSTR: bv64 := 0x4
  const RODATA_NAME: string := ".rodata"
  const DEBUGLINK_NAME: string := ".gnu_debuglink"

  /** What `elf_getdata` returns: nothing (an error), or a descriptor whose buffer may be NULL. */
  datatype SectionData = NoData | Data(buf: Option<seq<byte>>)

  /** One section header, with its name already looked up in the section-name table. */
  datatype Section = Section(shType: nat, addr: u64, size: u64, flags: bv64, name: string, data: SectionData)

  /**
   * libelf's view of a file: whether `elf_kind` recognises it, its class and
   * type (`ET_DYN` or not), whether the section-name table index can be read,
   * and its sections in table order.
   */
  datatype ElfImage = ElfImage(isElf: bool, is32Bit: bool, isShared: bool, hasShstrndx: bool, sections: seq<Section>)

  /** `(sh_flags & (SHF_EXECINSTR | SHF_ALLOC)) == (SHF_EXECINSTR | SHF_ALLOC)`. */
  predicate IsExecAlloc(flags: bv64)
  {
    flags & (SHF_EXECINSTR | SHF_ALLOC) == SHF_EXECINSTR | SHF_ALLOC
  }

  /** The mask test holds exactly when both flags are set. */
  lemma IsExecAllocIff(flags: bv64)
    ensures IsExecAlloc(flags) <==> flags & SHF_EXECINSTR != 0 && flags & SHF_ALLOC != 0
  {
  }

  function SectionSegments(s: Section): seq<Segment>
  {
    if IsExecAlloc(s.flags) then [FromSection(s.addr, s.size)] else []
  }

  /** The descriptor of a section's GNU build-id note, if it has one. */
  function SectionBuildIdBytes(s: Section): seq<byte>
  {
    if s.shType == BuildId.SHT_NOTE && s.data.Data? && s.data.buf.Some? then
      match BuildId.GnuBuildIdDescriptor(s.data.buf.value)
      case Some(desc) => desc
      case None => []
    else []
  }

  /** The build-id digits a section contributes: those of its GNU build-id note. */
  function SectionBuildId(s: Section): string
  {
    BuildId.HexEncode(SectionBuildIdBytes(s))
  }

  /** The debug-link text a section contributes: the C string of a `.gnu_debuglink` buffer. */
  function SectionDebuglink(s: Section): string
  {
    if s.name == DEBUGLINK_NAME && s.data.Data? && s.data.buf.Some? then CString(s.data.buf.value) else ""
  }

  /** The gcov data-file names a section contributes when the scan is on. */
  function SectionGcda(s: Section, scan: bool): seq<string>
  {
    if scan && s.data.Data? && s.data.buf.Some? && s.name == RODATA_NAME then Rodata.GcdaNames(s.data.buf.value) else []
  }

  /** The executable segments of the sections, in section order. */
  function ExecSegments(secs: seq<Section>): seq<Segment>
  {
    if secs == [] then [] else ExecSegments(secs[..|secs| - 1]) + SectionSegments(secs[|secs| - 1])
  }

  function BuildIdOf(secs: seq<Section>): string
  {
    if secs == [] then "" else BuildIdOf(secs[..|secs| - 1]) + SectionBuildId(secs[|secs| - 1])
  }

  function DebuglinkOf(secs: seq<Section>): string
  {
    if secs == [] then "" else DebuglinkOf(secs[..|secs| - 1]) + SectionDebuglink(secs[|secs| - 1])
  }

  function GcdaNamesOf(secs: seq<Section>, scan: bool): seq<string>
  {
    if secs == [] then [] else GcdaNamesOf(secs[..|secs| - 1], scan) + SectionGcda(secs[|secs| - 1], scan)
  }

  /** How many sections the loop gets through: up to the first one `elf_getdata` fails on. */
  function ProcessedCount(secs: seq<Section>): (n: nat)
    ensures n <= |secs|
    ensures forall j :: 0 <= j < n ==> secs[j].data.Data?
    ensures n < |secs| ==> secs[n].data.NoData?
  {
    if secs == [] || secs[0].data.NoData? then 0 else 1 + ProcessedCount(secs[1..])
  }

  /** The count from section `i` on: none if `i` has no data, else one more than from `i + 1` on. */
  lemma ProcessedCountStep(secs: seq<Section>, i: nat)
    requires i < |secs|
    ensures ProcessedCount(secs[i..]) == if secs[i].data.NoData? then 0 else 1 + ProcessedCount(secs[i + 1..])
  {
    assert secs[i..][1..] == secs[i + 1..];
  }

  /** One more processed section extends each collected list by that section's contribution. */
  lemma PrefixStep(secs: seq<Section>, i: nat, scan: bool)
    requires i < |secs|
    ensures ExecSegments(secs[..i + 1]) == ExecSegments(secs[..i]) + SectionSegments(secs[i])
    ensures BuildIdOf(secs[..i + 1]) == BuildIdOf(secs[..i]) + SectionBuildId(secs[i])
    ensures DebuglinkOf(secs[..i + 1]) == DebuglinkOf(secs[..i]) + SectionDebuglink(secs[i])
    ensures GcdaNamesOf(secs[..i + 1], scan) == GcdaNamesOf(secs[..i], scan) + SectionGcda(secs[i], scan)
  {
    assert secs[..i + 1][..i] == secs[..i];
  }

  /** Segments follow the section order: the segments of two runs of sections are concatenated. */
  lemma {:induction false} ExecSegmentsAppend(a: seq<Section>, b: seq<Section>)
    ensures ExecSegments(a + b) == ExecSegments(a) + ExecSegments(b)
  {
    if b == [] {
      assert a + b == a;
    } else {
      assert (a + b)[..|a + b| - 1] == a + b[..|b| - 1];
      ExecSegmentsAppend(a, b[..|b| - 1]);
    }
  }

  /** A section becomes a segment exactly when it is allocated and executable. */
  lemma {:induction false} ExecSegmentsIff(secs: seq<Section>, seg: Segment)
    ensures seg in ExecSegments(secs) <==>
      exists k :: 0 <= k < |secs| && IsExecAlloc(secs[k].flags) && seg == FromSection(secs[k].addr, secs[k].size)
  {
    if secs != [] {
      var front := secs[..|secs| - 1];
      ExecSegmentsIff(front, seg);
      if exists k :: 0 <= k < |secs| && IsExecAlloc(secs[k].flags) && seg == FromSection(secs[k].addr, secs[k].size) {
        var k :| 0 <= k < |secs| && IsExecAlloc(secs[k].flags) && seg == FromSection(secs[k].addr, secs[k].size);
        if k < |front| {
          assert front[k] == secs[k];
        }
      }
      if seg in ExecSegments(front) {
        var k :| 0 <= k < |front| && IsExecAlloc(front[k].flags) && seg == FromSection(front[k].addr, front[k].size);
        assert secs[k] == front[k];
      }
    }
  }

  /** Section segments translate to themselves: their base is their virtual address. */
  lemma {:induction false} ExecSegmentsAreIdentity(secs: seq<Section>)
    ensures forall j :: 0 <= j < |ExecSegments(secs)| ==> ExecSegments(secs)[j].base == ExecSegments(secs)[j].vaddr
  {
    if secs != [] {
      ExecSegmentsAreIdentity(secs[..|secs| - 1]);
    }
  }

  predicate AllLowerHex(s: string)
  {
    forall i :: 0 <= i < |s| ==> BuildId.IsLowerHex(s[i])
  }

  lemma AllLowerHexAppend(x: string, y: string)
    requires AllLowerHex(x) && AllLowerHex(y)
    ensures AllLowerHex(x + y)
  {
    assert forall i :: |x| <= i < |x + y| ==> (x + y)[i] == y[i - |x|];
  }

  lemma SectionBuildIdIsHex(s: Section)
    ensures |SectionBuildId(s)| % 2 == 0 && AllLowerHex(SectionBuildId(s))
  {
    BuildId.HexEncodeIsLowerHex(SectionBuildIdBytes(s));
  }

  /** The build-id note descriptors of the sections, in section order. */
  function BuildIdBytesOf(secs: seq<Section>): seq<byte>
  {
    if secs == [] then [] else BuildIdBytesOf(secs[..|secs| - 1]) + SectionBuildIdBytes(secs[|secs| - 1])
  }

  /** The collected build-id is the hex encoding of the descriptors, one after the other. */
  lemma {:induction false} BuildIdOfEncodesBytes(secs: seq<Section>)
    ensures BuildIdOf(secs) == BuildId.HexEncode(BuildIdBytesOf(secs))
  {
    if secs != [] {
      var front, last := secs[..|secs| - 1], secs[|secs| - 1];
      BuildIdOfEncodesBytes(front);
      BuildId.HexEncodeAppend(BuildIdBytesOf(front), SectionBuildIdBytes(last));
    }
  }

  /** The build-id collected from any sections holds whole bytes, two digits each. */
  lemma BuildIdOfIsEven(secs: seq<Section>)
    ensures |BuildIdOf(secs)| % 2 == 0
  {
    var n, k := |BuildIdOf(secs)|, |BuildIdBytesOf(secs)|;
    assert n == 2 * k by {
      BuildIdOfEncodesBytes(secs);
    }
    DoubleIsEven(n, k);
  }

  /**
   * Kept apart from `BuildIdOfIsEven`: the `% 2` step next to the unfolded
   * definitions of the collected build-id is too costly for the solver.
   */
  lemma DoubleIsEven(n: nat, k: nat)
    requires n == 2 * k
    ensures n % 2 == 0
  {
  }

  /** The build-id collected from any sections is lower-case hex throughout. */
  lemma {:induction false} BuildIdOfIsLowerHex(secs: seq<Section>)
    ensures AllLowerHex(BuildIdOf(secs))
  {
    if secs != [] {
      var front := secs[..|secs| - 1];
      BuildIdOfIsLowerHex(front);
      SectionBuildIdIsHex(secs[|secs| - 1]);
      AllLowerHexAppend(BuildIdOf(front), SectionBuildId(secs[|secs| - 1]));
    }
  }

  /** Every collected data-file name ends with "gcda", so the gcno rewrite can be applied to it. */
  lemma {:induction false} GcdaNamesOfShape(secs: seq<Section>, scan: bool)
    ensures forall k :: 0 <= k < |GcdaNamesOf(secs, scan)| ==>
      |GcdaNamesOf(secs, scan)[k]| >= 4 &&
      GcdaNamesOf(secs, scan)[k][|GcdaNamesOf(secs, scan)[k]| - 4..] == Rodata.GCDA
  {
    if secs != [] {
      GcdaNamesOfShape(secs[..|secs| - 1], scan);
      var s := secs[|secs| - 1];
      if scan && s.data.Data? && s.data.buf.Some? && s.name == RODATA_NAME {
        var d := s.data.buf.value;
        Rodata.ScanNamesShape(d, Rodata.ScanBound(|d|));
      }
    }
  }
}
