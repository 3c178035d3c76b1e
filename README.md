# kcov's ELF parser, modelled in Dafny

This project models the ELF parser of kcov. kcov is a code-coverage tool. Its ELF parser runs once per image: the main executable and every shared object loaded after it. For each image the parser:

- tells the file listeners that the image exists, and names the gcov data files it finds;
- collects the image's executable segments, its GNU build-id and its `.gnu_debuglink` name;
- reports one line event per source line to every line listener. The lines come from the DWARF line table, or from the gcov graph files in gcov mode.

The C++ class `ElfInstance` becomes the Dafny class `ElfParser.ElfInstance`. It keeps the fields that decide which lines and files are reported: the file name, the main-file, shared and 32-bit flags, the initialised flag, the verify flag, the two path-prefix roots, the build-id, the debug link, the current and executable segment lists, the gcov graph-file queue and the two listener lists. `m_elf`, `m_checksum`, `m_addressVerifier` and `m_filter` have no counterpart (see "## Left out"). Two fields are added: the listener calls become two event logs, `lineEvents` and `fileEvents`. Each event is an `Event(listener, payload)`, in the order the calls are made.

Everything the parser asks of the outside world is one value of the datatype `ElfParser.World`:

- the configuration;
- whether a path opens;
- libelf's view of a file, normalised over the 32- and 64-bit layouts;
- libdw's compile units;
- the blocks of a gcov graph file;
- `realpath`, `dirname` and the address verifier.

The methods are proved against specification functions:

- `ElfScan` for `parseOneElf`;
- `DwarfLines` for `parseOneDwarf`;
- `GcnoLines` for `parseGcnoFiles`;
- `GcdaNames` for the `.rodata` scan;
- `HexEncode` for the build-id loop;
- `Translate` for `adjustAddressBySegment`;
- `AddressIsValid` for `addressIsValid`.

The lemmas then state what the parser promises of those functions. Examples:

- a section is a segment exactly when it is allocated and executable;
- translation goes through the first segment that holds an address;
- a line is reported exactly for selected rows, and only for addresses inside executable segments;
- relocation shifts every address by the same bias, in the DWARF and the gcov branch alike;
- each listener receives every line in table order;
- the build-id is lower-case hex, two digits per byte, and can be decoded back;
- the debug file is looked for first in the image, then via the build-id, then via the debug-link candidates, in a fixed order;
- the names the `.rodata` scan records end in "gcda", hold no NUL and come in offset order;
- gcda names become gcno names.

Modules:

| module | file | what it holds |
|---|---|---|
| `Types` | types.dfy | `u64`, `byte`, `Option`, 64-bit wrap-around, C strings |
| `Segments` | segments.dfy | segments, containment, translation, address validity |
| `Listeners` | listeners.dfy | listener fan-out as an event log |
| `BuildId` | build_id.dfy | the GNU build-id note, hex encoding, the `.build-id` path |
| `Rodata` | rodata.dfy | the `.rodata` scan for gcov data-file names |
| `Gcov` | gcov.dfy | the gcda to gcno rewrite and the queue of graph files |
| `SourcePaths` | source_paths.dfy | source-path joining, remapping and canonicalisation |
| `DebugInfo` | debug_info.dfy | where the DWARF data is read from |
| `LineTable` | line_table.dfy | the line-table walk, the row filter, the gcov fallback |
| `Sections` | sections.dfy | the section table and what each section contributes |
| `ElfParser` | elf_instance.dfy | the class `ElfInstance` and the specification of `parseOneElf` |

Two behaviours of the source are worth noting:

- `setMainFileRelocation` on a fixed-address main image parses nothing. It warns when the relocation is nonzero and returns true (src/parsers/elf-parser.cc:229-241). `SetMainFileRelocation` does the same.
- The bound of the `.rodata` scan is wrong in two ways; see "## Findings". The model scans with the corrected bound.

## Model

| member | source | states |
|---|---|---|
| `ElfParser.ElfScan` | src/parsers/elf-parser.cc:454-626 | the specification of `parseOneElf`: a file that does not read, does not map or has no readable section-name index leaves the state as it was and gives false; otherwise `SectionsScan` of its sections |
| `ElfParser.SectionsScan` | src/parsers/elf-parser.cc:485-625 | the sections before the first one without data are processed. Their segments are appended to the executable ones, and become the current ones only when there were none. Their build-id digits, debug-link text and `onFile` calls are appended. The existing graph files are queued and the result is true only when no section failed |
| `ElfParser.Contribution` | src/parsers/elf-parser.cc:529-602 | what one section with data adds: its segment, its build-id digits, its debug-link text, its gcda names and their `onFile` calls |
| `ElfParser.CollectedOf` | src/parsers/elf-parser.cc:486-603 | the contributions of a run of sections, joined in section order |
| `ElfParser.FileChecks` | src/parsers/elf-parser.cc:135-188 | `checkFile`'s verdict: the file opens, libelf begins on it and recognises its kind |
| `ElfParser.DwarfUnits` | src/parsers/elf-parser.cc:350-442 | the compile units of the file the debug-file search chose; none when it chose none |
| `ElfParser.ElfInstance.Valid` | src/parsers/elf-parser.cc:311-315 | the class invariant: the build-id has an even length, so the `.build-id` path can take its first two digits |
| `ElfParser.ElfInstance.DebugSourceOf` | src/parsers/elf-parser.cc:299-347 | the file `parseOneDwarf` reads DWARF data from, for the image's name, build-id and debug link |
| `ElfParser.ElfInstance.ReportedLines` | src/parsers/elf-parser.cc:204-220 | the lines `doParse` reports after the section loop: the gcov lines when gcov mode is on and graph files are queued; else the DWARF lines when the file opens and a DWARF source is found; else none |
| `ElfParser.ElfInstance.Parsed` | src/parsers/elf-parser.cc:204-220 | the effect of a `doParse` that got past `lstat`: the section state is `ElfScan` of the old one, and the reported lines are appended to the line log |
| `Types.WrapAdd` | src/parsers/elf-parser.cc:439 | `adjustAddressBySegment(addr) + relocation` on 64-bit unsigned operands, wrapping modulo 2^64 |
| `Types.BytesToString` | src/parsers/elf-parser.cc:549 | the bytes of a gcda name read as characters, one for one |
| `Segments.Contains` | src/parsers/elf-parser.cc:643-680 | `addressIsWithinSegment`: the address lies from the base up to, not including, base plus size |
| `Segments.Adjust` | src/parsers/elf-parser.cc:668-680 | `adjustAddress`: the offset of the address from the base, added to the loaded address, modulo 2^64 |
| `Segments.FromHost` | src/parsers/elf-parser.cc:117-122 | a host segment is looked up by its physical address and translated to its virtual one |
| `Segments.FromSection` | src/parsers/elf-parser.cc:598 | a section segment has `sh_addr` as both its base and its loaded address, and `sh_size` as its size |
| `Segments.Translate` | src/parsers/elf-parser.cc:668-680 | the specification of `adjustAddressBySegment`: through the first segment holding the address, else the address itself |
| `Segments.AddressIsValid` | src/parsers/elf-parser.cc:643-666 | the specification of `addressIsValid`: the first segment holding the address decides, through the verifier when verification is on; no segment means invalid |
| `Listeners.BroadcastAll` | src/parsers/elf-parser.cc:436-439 | each item in turn is sent to every listener in registration order |
| `BuildId.ReadWord` | src/parsers/elf-parser.cc:562-576 | one 32-bit word of the note header (`n_namesz`, `n_descsz`, `n_type`) read in host byte order |
| `BuildId.GnuBuildIdExample` | src/parsers/elf-parser.cc:561-589 | a note named "GNU" of type 3 with the descriptor ab cd is found, and its build-id is "abcd" |
| `BuildId.BuildIdDebugPath` | src/parsers/elf-parser.cc:311-315 | `/usr/lib/debug/.build-id/`, the first two digits, '/', the rest, ".debug" |
| `Rodata.MarkerAt` | src/parsers/elf-parser.cc:536 | the five bytes "gcda\0" start at the offset and fit in the section |
| `Rodata.Hit` | src/parsers/elf-parser.cc:536-547 | a marker whose walk back stopped at a NUL rather than at the section start |
| `Rodata.NameAt` | src/parsers/elf-parser.cc:549 | the name recorded for a hit: the bytes after the NUL the walk stopped at, up to the marker's NUL |
| `Rodata.HitOffsets` | src/parsers/elf-parser.cc:533-547 | the hit offsets below the bound, in increasing order |
| `Rodata.ScanNames` | src/parsers/elf-parser.cc:533-551 | the names recorded for the offsets below the bound, in offset order |
| `Rodata.ScanBound` | src/parsers/elf-parser.cc:533 | the corrected bound: every offset at which the marker fits, none for a section shorter than the marker |
| `Rodata.GcdaNames` | src/parsers/elf-parser.cc:529-558 | the specification of the `.rodata` scan, with the corrected bound |
| `Rodata.AsWrittenScanBound` | src/parsers/elf-parser.cc:533 | `d_size - 5` in `size_t` arithmetic |
| `Rodata.AsWrittenScanNames` | src/parsers/elf-parser.cc:533 | the names the loop records with the bound as written, for a section at least as long as the marker |
| `Gcov.GcnoName` | src/parsers/elf-parser.cc:609-614 | the last two characters of the name are overwritten with 'n' and 'o' |
| `Gcov.AllRewritable` | src/parsers/elf-parser.cc:609-614 | every name has the two characters the rewrite overwrites |
| `Gcov.ExistingGcnoFiles` | src/parsers/elf-parser.cc:605-618 | the rewritten names that exist, in the order of the data-file names |
| `SourcePaths.DirConcat` | src/parsers/elf-parser.cc:411-412 | the compilation directory joined with the source name by one '/', or the name alone when the directory is empty |
| `SourcePaths.Find` | src/parsers/elf-parser.cc:421-422 | `std::string::find` from the start |
| `SourcePaths.ReplaceAt` | src/parsers/elf-parser.cc:423 | `std::string::replace`: the characters at the occurrence are replaced by the new root |
| `SourcePaths.GetRealPath` | src/parsers/elf-parser.cc:424-428 | the canonical path, or "" when `realpath` fails |
| `SourcePaths.RecordedPath` | src/parsers/elf-parser.cc:411-414 | an absolute source name is kept; a relative one is joined with the compilation directory |
| `SourcePaths.RemappedRealPath` | src/parsers/elf-parser.cc:418-429 | with both roots set: the canonical path of the remapped path when the original root occurs, else "". Without both roots: the canonical path of the recorded path |
| `SourcePaths.ResolveSourcePath` | src/parsers/elf-parser.cc:409-434 | the reported path: the non-empty result of the remap step, else the recorded path |
| `DebugInfo.OpenDebuglinkFile` | src/parsers/elf-parser.cc:682-719 | the first of `dir/link`, `dir/.debug/link` and `/usr/lib/debug<realpath of dir>/link` that opens; the last is tried only when `realpath` succeeds. A file found opens and is one of the candidates |
| `DebugInfo.DebugLinkCandidates` | src/parsers/elf-parser.cc:688-716 | the debug-link paths in the order they are tried |
| `DebugInfo.FirstOpenable` | src/parsers/elf-parser.cc:688-718 | the first candidate that opens, if any |
| `DebugInfo.DebugSource` | src/parsers/elf-parser.cc:299-347 | the image itself when it has DWARF data. Else the `.build-id` file, when there is a build-id and that file opens with DWARF data. Else the debug-link file, when there is a link name and the file found has DWARF data. Else none. A file chosen is the image, the `.build-id` file or a debug-link candidate |
| `LineTable.UnitRows` | src/parsers/elf-parser.cc:382-400 | a unit's rows in table order, up to the first unreadable one, and whether one was met |
| `LineTable.WalkRows` | src/parsers/elf-parser.cc:350-442 | the rows the walk reads: unit by unit, skipping units without tables, and ending at an unreadable DIE or row |
| `LineTable.UnitRowsOf` | src/parsers/elf-parser.cc:358-400 | the rows one compile unit gives the walk: none for a unit that is unreadable or has no tables |
| `LineTable.EndsWalk` | src/parsers/elf-parser.cc:358-400 | a unit ends the walk when its DIE, or one of its rows, cannot be read |
| `LineTable.Selected` | src/parsers/elf-parser.cc:402-407 | a nonzero line number, the start of a statement, and an address `addressIsValid` accepts |
| `LineTable.LineOf` | src/parsers/elf-parser.cc:411-439 | the resolved source path, the line number, and the translated address plus the relocation modulo 2^64 |
| `LineTable.EmitRows` | src/parsers/elf-parser.cc:382-441 | the lines of the selected rows, in row order |
| `LineTable.DwarfLines` | src/parsers/elf-parser.cc:350-442 | the specification of the line-table walk: the lines of the selected rows the walk reads |
| `LineTable.ReportedFrom` | src/parsers/elf-parser.cc:402-439 | a line and the row it was reported for: same line number, the row's translated address plus the relocation, and the row inside an executable segment |
| `LineTable.Shift` | src/parsers/elf-parser.cc:439 | one line with the relocation added to its address modulo 2^64 |
| `LineTable.AllUnitRows` | src/parsers/elf-parser.cc:382-400 | every row of a unit whose rows all read, in table order |
| `LineTable.GcnoLines` | src/parsers/elf-parser.cc:244-253 | the specification of `parseGcnoFiles`: the lines of each queued graph file in queue order; one that does not parse gives none |
| `Sections.IsExecAlloc` | src/parsers/elf-parser.cc:595-596 | the masked `sh_flags` hold both the `SHF_EXECINSTR` and the `SHF_ALLOC` bit |
| `Sections.SectionSegments` | src/parsers/elf-parser.cc:595-602 | one segment for an allocated, executable section, none otherwise |
| `Sections.SectionBuildIdBytes` | src/parsers/elf-parser.cc:561-589 | the descriptor of the GNU build-id note of a note section with a buffer, or nothing |
| `Sections.SectionBuildId` | src/parsers/elf-parser.cc:580-587 | the digits one section adds to the build-id |
| `Sections.SectionDebuglink` | src/parsers/elf-parser.cc:591-593 | the C string of a `.gnu_debuglink` section's buffer, or nothing |
| `Sections.SectionGcda` | src/parsers/elf-parser.cc:529-558 | the gcda names of a `.rodata` section with a buffer, in gcov mode; nothing otherwise |
| `Sections.ExecSegments` | src/parsers/elf-parser.cc:595-602 | the segments of a run of sections, in section order |
| `Sections.BuildIdOf` | src/parsers/elf-parser.cc:561-589 | the build-id digits of a run of sections, in section order |
| `Sections.BuildIdBytesOf` | src/parsers/elf-parser.cc:583-587 | the build-id note descriptors of a run of sections, in section order |
| `Sections.DebuglinkOf` | src/parsers/elf-parser.cc:591-593 | the debug-link text of a run of sections, in section order |
| `Sections.GcdaNamesOf` | src/parsers/elf-parser.cc:529-558 | the gcda names of a run of sections, in section order |
| `ElfParser.MatchParser` | src/parsers/elf-parser.cc:87-95 | a file is taken exactly when its identification is at least four bytes long and begins with "\177ELF" |
| `ElfParser.CoverageFiles` | src/parsers/elf-parser.cc:553-557 | one coverage-data `File` per name found, with the same name, in the same order, with no segments |
| `ElfParser.CoverageFilesAppend` | src/parsers/elf-parser.cc:549-557 | the coverage files of two runs of names are those of each run, in order |
| `ElfParser.CollectStep` | src/parsers/elf-parser.cc:486-603 | one more processed section appends its own contribution to that of the sections before it |
| `ElfParser.CollectedOfFields` | src/parsers/elf-parser.cc:486-603 | what a run of sections contributes is: its executable segments, build-id digits, debug-link text and gcda names, each in section order; and one `onFile` per gcda name, sent to every file listener |
| `ElfParser.CollectedShape` | src/parsers/elf-parser.cc:580-618 | the collected build-id has an even length, and every collected gcda name is long enough for the two-character rewrite |
| `ElfParser.ElfInstance.constructor` | src/parsers/elf-parser.cc:41-55 | a new parser has an empty file name, is on the main file, assumes a 32-bit image that is not shared, is not initialised, does not verify addresses, and has no segments, listeners or events |
| `ElfParser.ElfInstance.RegisterLineListener` | src/parsers/elf-parser.cc:628-631 | the listener is appended to the line listeners |
| `ElfParser.ElfInstance.RegisterFileListener` | src/parsers/elf-parser.cc:633-636 | the listener is appended to the file listeners |
| `ElfParser.ElfInstance.AddFile` | src/parsers/elf-parser.cc:97-133 | the configuration is read only on the first call. Build-id, debug link and executable segments are reset. The host's segments become the current ones. The gcov queue is kept. The result is `checkFile`'s verdict. An accepted file is announced to every file listener, as the main file or a shared object, with the current segments |
| `ElfParser.ElfInstance.Initialize` | src/parsers/elf-parser.cc:99-108 | the path-prefix remap and the "verify" setting are taken from the configuration only when not yet initialised; afterwards the parser is initialised |
| `ElfParser.ElfInstance.ResetImage` | src/parsers/elf-parser.cc:111-122 | the file name is the new one; build-id and debug link are empty; there are no executable segments; the current segments are the host's, in order |
| `ElfParser.ElfInstance.AnnounceImage` | src/parsers/elf-parser.cc:127-130 | one `onFile` per file listener, in registration order, carrying the image's name, kind and current segments |
| `ElfParser.ElfInstance.CheckFile` | src/parsers/elf-parser.cc:135-188 | accepts exactly a file that opens and that libelf recognises; for an accepted main file it records the ELF class and whether the type is `ET_DYN`, and otherwise leaves both flags alone |
| `ElfParser.ElfInstance.Parse` | src/parsers/elf-parser.cc:190-202 | a shared main image is deferred: the result is true and nothing changes. Anything else is parsed at relocation 0. The result is whether the file opens. A failure changes nothing. After a success the parser is no longer on the main file |
| `ElfParser.ElfInstance.DoParse` | src/parsers/elf-parser.cc:204-220 | fails, changing nothing, when the file does not open. Otherwise the section loop's effect is `ElfScan` of the old state, its verdict is ignored, and the reported lines are appended to the line log |
| `ElfParser.ElfInstance.ParseLines` | src/parsers/elf-parser.cc:213-217 | in gcov mode with graph files queued, the gcov lines are reported; otherwise the DWARF lines are |
| `ElfParser.ElfInstance.SetMainFileRelocation` | src/parsers/elf-parser.cc:222-242 | refused, changing nothing, unless on the main file. A fixed-address main file gives true and changes nothing, whatever the relocation. A shared main file is parsed at the given relocation |
| `ElfParser.ElfInstance.ParseGcnoFiles` | src/parsers/elf-parser.cc:244-253 | the line log grows by the lines of every queued graph file, in queue order, each sent to every line listener |
| `ElfParser.ElfInstance.GcnoEvents` | src/parsers/elf-parser.cc:244-253 | the events are the fan-out of `GcnoLines` of the queue: a graph file that does not parse contributes nothing and does not stop the rest |
| `ElfParser.ElfInstance.BlockEvents` | src/parsers/elf-parser.cc:283-287 | the events are the fan-out of the blocks' lines, in block order |
| `ElfParser.ElfInstance.ParseOneElf` | src/parsers/elf-parser.cc:454-626 | the new state and the result are `ElfScan` of the old state. A file that does not read, does not map, or has no readable section-name index changes nothing and gives false |
| `ElfParser.ElfInstance.ProcessSections` | src/parsers/elf-parser.cc:485-625 | the new state and the result are `SectionsScan`. Sections are processed up to the first one without data. The result is true exactly when every section was processed. Only then are the existing graph files queued |
| `ElfParser.ElfInstance.StoreSections` | src/parsers/elf-parser.cc:485-602 | the segments found become the current ones only when there were none on entry, so host segments are never changed. Executable segments, build-id, debug link and file events are extended by what was collected, and the build-id stays even |
| `ElfParser.ElfInstance.QueueGcnoFiles` | src/parsers/elf-parser.cc:616-617 | the graph files are appended to the queue and nothing is removed |
| `ElfParser.ElfInstance.ScanSections` | src/parsers/elf-parser.cc:486-527 | the loop stops at the first section whose data cannot be read. The count is `ProcessedCount`, and the collection is that of exactly the processed sections |
| `ElfParser.ElfInstance.ScanSection` | src/parsers/elf-parser.cc:529-602 | one section's contribution: gcda names from `.rodata` in gcov mode, build-id digits from a GNU build-id note, the debug link from `.gnu_debuglink`, and a segment when it is allocated and executable |
| `ElfParser.ElfInstance.CoverageEvents` | src/parsers/elf-parser.cc:553-557 | one `onFile` per name and file listener, names in order, each with coverage-data kind |
| `ElfParser.ElfInstance.BuildIdDigits` | src/parsers/elf-parser.cc:580-587 | the digits appended are exactly the hex encoding of the descriptor |
| `ElfParser.ElfInstance.ParseOneDwarf` | src/parsers/elf-parser.cc:291-452 | succeeds exactly when the file opens and a DWARF source is found. On success, the lines of that source's units are sent to every line listener. A unit whose entry cannot be read ends the walk but not the success |
| `ElfParser.ElfInstance.DwarfEvents` | src/parsers/elf-parser.cc:350-442 | the events are the fan-out of `DwarfLines` over the compile units |
| `ElfParser.ElfInstance.CompileUnitEvents` | src/parsers/elf-parser.cc:358-379 | a unit whose DIE cannot be read ends the walk with no events. A unit without line, file or directory tables is skipped. Otherwise its rows are walked |
| `ElfParser.ElfInstance.UnitEvents` | src/parsers/elf-parser.cc:382-441 | the events are the fan-out of the lines of the unit's rows up to the first unreadable one; `stopped` says whether such a row ended the walk |
| `ElfParser.ElfInstance.RowEvents` | src/parsers/elf-parser.cc:402-439 | a row is reported to every line listener exactly when it is selected. It carries the resolved path, its line, and its translated address plus the relocation modulo 2^64 |
| `ElfParser.ElfInstance.AddressIsValid` | src/parsers/elf-parser.cc:643-666 | the early-exit scan gives exactly `Segments.AddressIsValid` of the executable segments |
| `ElfParser.ElfInstance.AdjustAddressBySegment` | src/parsers/elf-parser.cc:668-680 | the early-exit scan gives exactly `Segments.Translate` of the current segments |
| `ElfParser.HostSegments` | src/parsers/elf-parser.cc:117-122 | the host's program headers become segments one for one, in order, keyed by physical address and translated to the virtual one |
| `ElfParser.GcnoCandidates` | src/parsers/elf-parser.cc:605-618 | the rewrite loop yields exactly the existing graph files of the data files, in order |
| `Types.CString` | src/parsers/elf-parser.cc:591-593 | the text of a buffer read as a C string: the bytes before the first NUL, all NUL-free, followed by a NUL unless the buffer ends |
| `Segments.FromHostAll` | src/parsers/elf-parser.cc:117-122 | one segment per host segment, built from its physical address, virtual address and size |
| `Segments.FirstContaining` | src/parsers/elf-parser.cc:668-680 | the index found holds the address and no earlier segment does; none is found exactly when no segment holds it |
| `Segments.TranslateUsesFirstSegment` | src/parsers/elf-parser.cc:668-680 | the address is translated through the first segment that holds it |
| `Segments.TranslateOutsideIsIdentity` | src/parsers/elf-parser.cc:668-680 | outside every segment the address is unchanged, so translating twice is translating once there |
| `Segments.SectionSegmentsTranslateToSelf` | src/parsers/elf-parser.cc:598 | section-built segments (base equals virtual address) translate every address to itself |
| `Segments.AddressIsValidIff` | src/parsers/elf-parser.cc:643-666 | valid exactly when some segment holds the address, no earlier one does, and, when verification is on, the verifier accepts the offset in that segment |
| `Segments.OutsideSegmentsIsInvalid` | src/parsers/elf-parser.cc:643-666 | an address outside every executable segment is never valid, whatever the verifier says |
| `Listeners.Broadcast` | src/parsers/elf-parser.cc:436-439 | one event per listener, in registration order, each carrying the item |
| `Listeners.BroadcastAllAppend` | src/parsers/elf-parser.cc:436-439 | calls made for two runs of items are those of each run, in order |
| `Listeners.ReceivedBroadcast` | src/parsers/elf-parser.cc:436-439 | with distinct listeners, one item reaches a registered listener exactly once and no other listener at all |
| `Listeners.EachListenerReceivesAllInOrder` | src/parsers/elf-parser.cc:436-439 | each distinct registered listener receives every item, in the order reported |
| `Listeners.UnregisteredReceivesNothing` | src/parsers/elf-parser.cc:436-439 | a listener that is not registered receives nothing |
| `Listeners.UnregisteredReceivesNothingOne` | src/parsers/elf-parser.cc:127-130 | a listener that is not registered takes no part in a single fan-out |
| `BuildId.HexValue` | src/parsers/elf-parser.cc:580-586 | a character has a value exactly when it is a lower-case hex digit, and the digit table maps that value back to it |
| `BuildId.HexDigitValue` | src/parsers/elf-parser.cc:580-586 | the table entry for each of 0..15 is the lower-case digit of that value |
| `BuildId.HexEncode` | src/parsers/elf-parser.cc:580-587 | the build-id grows by exactly two characters per descriptor byte |
| `BuildId.HexEncodeDigits` | src/parsers/elf-parser.cc:585-586 | characters 2k and 2k+1 are the digits of the high and the low nibble of byte k |
| `BuildId.HexEncodeIsLowerHex` | src/parsers/elf-parser.cc:580-587 | every character of the encoding is in 0-9a-f |
| `BuildId.HexRoundTrip` | src/parsers/elf-parser.cc:580-587 | decoding the encoding gives back the descriptor: no two descriptors share a build-id string |
| `BuildId.HexEncodeAppend` | src/parsers/elf-parser.cc:580-587 | encoding two descriptors in a row equals concatenating their encodings, so notes met one after another append their digits |
| `BuildId.GnuBuildIdDescriptor` | src/parsers/elf-parser.cc:561-589 | a descriptor is found exactly when the note's name is the C string "GNU", its type is `NT_GNU_BUILD_ID`, and the 12-byte header, the name and the descriptor fit in the data. It is the `n_descsz` bytes that start `n_namesz` bytes after the header |
| `BuildId.BuildIdDebugPathInjective` | src/parsers/elf-parser.cc:311-315 | distinct build-ids name distinct `.build-id` debug files |
| `BuildId.BuildIdDebugPathShape` | src/parsers/elf-parser.cc:311-315 | the path is `/usr/lib/debug/.build-id/`, then the first two digits, '/', the remaining digits, then ".debug" |
| `Rodata.RewindStop` | src/parsers/elf-parser.cc:539-547 | the walk back stops at the nearest NUL at or before the offset, or at the section start, and passes only non-NUL bytes |
| `Rodata.ScanRodata` | src/parsers/elf-parser.cc:529-558 | the scan loop, with the rewind loop inside it, yields exactly `GcdaNames` of the data |
| `Rodata.NameAtShape` | src/parsers/elf-parser.cc:549 | a recorded name ends with "gcda" and holds no NUL |
| `Rodata.ScanNamesShape` | src/parsers/elf-parser.cc:529-558 | every name the scan records ends with "gcda" and holds no NUL |
| `Rodata.ScanNamesAtOffsets` | src/parsers/elf-parser.cc:533-551 | the names correspond one for one, in order, to the offsets of markers whose rewind stopped at a NUL |
| `Rodata.HitOffsetsIncreasing` | src/parsers/elf-parser.cc:533-551 | names are recorded in strictly increasing offset order |
| `Rodata.HitOffsetsComplete` | src/parsers/elf-parser.cc:533-547 | an offset is recorded exactly when it is below the bound, a marker sits there, and the rewind did not reach the section start |
| `Rodata.EveryMarkerFound` | src/parsers/elf-parser.cc:533-551 | every marker that fits in the section and has a NUL before it is found |
| `Rodata.ShortSectionHasNoNames` | src/parsers/elf-parser.cc:533 | a section shorter than the five-byte marker yields no names |
| `Rodata.AsWrittenBoundUnderflows` | src/parsers/elf-parser.cc:533 | for a section shorter than the marker, the bound in `size_t` arithmetic wraps to at least 2^64 - 5, and the first comparison reads past the section |
| `Rodata.AsWrittenSkipsLastOffset` | src/parsers/elf-parser.cc:533 | for longer sections the bound as written leaves out exactly the last offset the marker fits at |
| `Rodata.AsWrittenMissesMarkerAtEnd` | src/parsers/elf-parser.cc:533 | a section ending in "\0agcda\0": the corrected scan finds "agcda", the bound as written finds nothing |
| `Gcov.GcnoNameReplacesSuffix` | src/parsers/elf-parser.cc:609-614 | a name ending in "gcda" becomes the same stem ending in "gcno" |
| `Gcov.GcnoNameExample` | src/parsers/elf-parser.cc:609-614 | "foo.gcda" becomes "foo.gcno" |
| `Gcov.GcnoNameKeepsStem` | src/parsers/elf-parser.cc:610-614 | the rewrite keeps the length and every character but the last two, which become "no" |
| `Gcov.ExistingGcnoFilesIff` | src/parsers/elf-parser.cc:605-618 | a file is queued exactly when it exists and is the rewrite of some data-file name |
| `Gcov.NothingQueuedWhenAbsent` | src/parsers/elf-parser.cc:616-617 | when no rewritten name exists, nothing is queued |
| `Gcov.ExistingGcnoFilesAppend` | src/parsers/elf-parser.cc:605-618 | the queue for two runs of names is the queue of each run, in order |
| `SourcePaths.FindFrom` | src/parsers/elf-parser.cc:421-422 | `find` reports an occurrence at or after the start, with none earlier; none is reported exactly when there is none |
| `SourcePaths.FindIsFirstOccurrence` | src/parsers/elf-parser.cc:421-422 | the original root's reported occurrence is the first one |
| `SourcePaths.RecordedPathCases` | src/parsers/elf-parser.cc:411-414 | an absolute source path is kept; a relative one is joined with the compilation directory by `dir_concat` |
| `SourcePaths.RemapReplacesFirstOccurrence` | src/parsers/elf-parser.cc:419-434 | with both roots set, the first occurrence of the original root is replaced by the new one. A non-empty `realpath` of the result is reported, and otherwise the recorded path |
| `SourcePaths.RemapLeavesOtherPathsUntouched` | src/parsers/elf-parser.cc:419-434 | with both roots set, a path that does not hold the original root is reported as recorded |
| `SourcePaths.AbsolutePathWithoutRemap` | src/parsers/elf-parser.cc:427-434 | without both roots, an absolute path is reported as `realpath` gives it, or unchanged when that fails |
| `SourcePaths.RemapExample` | src/parsers/elf-parser.cc:419-434 | "/build/src/foo.c" under the remap "/build/src" to "/home/user/src" is reported as "/home/user/src/foo.c" |
| `DebugInfo.FirstOpenableIndex` | src/parsers/elf-parser.cc:682-719 | the candidate chosen opens and no earlier one does; none is chosen exactly when none opens |
| `DebugInfo.OpenDebuglinkFollowsCandidateOrder` | src/parsers/elf-parser.cc:682-719 | the debug-link file is the first that opens of `dir/link`, `dir/.debug/link` and, when `realpath` of the directory succeeds, `/usr/lib/debug<realpath>/link` |
| `DebugInfo.BuildIdBeforeDebugLink` | src/parsers/elf-parser.cc:306-326 | an image without DWARF data whose `.build-id` file opens and holds DWARF data is read through that file, whatever its debug link says |
| `DebugInfo.DebugLinkAfterBuildId` | src/parsers/elf-parser.cc:328-339 | when the image and the build-id file give no DWARF data, the debug-link candidates are tried in order, and the first that opens is used if it holds DWARF data |
| `DebugInfo.DebugSourceHasDwarf` | src/parsers/elf-parser.cc:341-347 | every file the search settles on holds DWARF data; otherwise no lines are reported |
| `LineTable.WalkRowsStep` | src/parsers/elf-parser.cc:350-442 | the walk reads one compile unit's rows and goes on to the next unless that unit ended it |
| `LineTable.WalkInvariantStep` | src/parsers/elf-parser.cc:350-442 | the rows read so far plus the rows still to come are preserved across one compile unit |
| `LineTable.UnitInvariantStep` | src/parsers/elf-parser.cc:382-441 | the rows read so far plus the rows still to come are preserved across one readable row |
| `LineTable.UnitRowsStep` | src/parsers/elf-parser.cc:382-400 | an unreadable row ends the unit and the walk; a readable one is read and the walk goes on |
| `LineTable.EmitRowsStep` | src/parsers/elf-parser.cc:402-439 | one more row adds its line exactly when it is selected |
| `LineTable.EmitRowsAppend` | src/parsers/elf-parser.cc:382-441 | the lines of two runs of rows are those of each run, in order |
| `LineTable.EmitRowsIff` | src/parsers/elf-parser.cc:402-407 | a line is reported exactly when it is the line of some selected row |
| `LineTable.EmittedLinesComeFromExecutableSegments` | src/parsers/elf-parser.cc:402-439 | every reported line comes from a row with a nonzero line number that begins a statement. The row's address lies in an executable segment, and the line's address is that address translated, plus the relocation |
| `LineTable.RowsOutsideSegmentsNeverEmitted` | src/parsers/elf-parser.cc:406-407 | rows outside every executable segment report nothing |
| `LineTable.ShiftAll` | src/parsers/elf-parser.cc:439 | shifting keeps the number of lines |
| `LineTable.RelocationShiftsEveryAddress` | src/parsers/elf-parser.cc:439 | the lines at a relocation are those at relocation 0, in the same order, each address increased by the relocation modulo 2^64 |
| `LineTable.UnitRowsComplete` | src/parsers/elf-parser.cc:382-400 | a unit whose rows all read is read completely, in table order, and does not end the walk |
| `LineTable.UnreadableRowEndsWalk` | src/parsers/elf-parser.cc:390-444 | after a unit with an unreadable row, no later unit's rows are read |
| `LineTable.UnreadableStopsUnit` | src/parsers/elf-parser.cc:390-400 | a unit holding an unreadable row ends the walk |
| `LineTable.BlockLines` | src/parsers/elf-parser.cc:283-287 | one line per block |
| `LineTable.GcnoLinesStep` | src/parsers/elf-parser.cc:244-253 | a graph file that does not parse adds nothing; one that parses adds the lines of its blocks |
| `LineTable.BlockLinesStep` | src/parsers/elf-parser.cc:283-287 | one more block appends its line |
| `LineTable.BlockLinesAt` | src/parsers/elf-parser.cc:283-287 | block k is reported with its file, its line and its generated address plus the relocation |
| `LineTable.ShiftAllAppend` | src/parsers/elf-parser.cc:243-252 | shifting a run of lines by the bias distributes over concatenation |
| `LineTable.BlockRelocationShiftsEveryAddress` | src/parsers/elf-parser.cc:276-287 | one graph file's lines at a relocation are its lines at relocation 0 with every address shifted by the bias |
| `LineTable.GcnoRelocationShiftsEveryAddress` | src/parsers/elf-parser.cc:243-287 | the gcov lines at a relocation are the gcov lines at relocation 0 with every address shifted by the bias, same lines in the same order |
| `Sections.IsExecAllocIff` | src/parsers/elf-parser.cc:595-596 | the flag-mask test holds exactly when both `SHF_EXECINSTR` and `SHF_ALLOC` are set |
| `Sections.ProcessedCount` | src/parsers/elf-parser.cc:520-527 | every section before the count has data, and the section at the count, if any, has none |
| `Sections.ProcessedCountStep` | src/parsers/elf-parser.cc:520-527 | from a section without data nothing more is processed; from one with data, one more |
| `Sections.PrefixStep` | src/parsers/elf-parser.cc:486-603 | one more section appends its contribution to each of the four collected lists |
| `Sections.ExecSegmentsAppend` | src/parsers/elf-parser.cc:595-602 | segments follow section order |
| `Sections.ExecSegmentsIff` | src/parsers/elf-parser.cc:595-602 | a segment is collected exactly when some section is allocated and executable and the segment is built from its address and size |
| `Sections.ExecSegmentsAreIdentity` | src/parsers/elf-parser.cc:598 | every collected segment has its base equal to its virtual address |
| `Sections.SectionBuildIdIsHex` | src/parsers/elf-parser.cc:561-589 | one section's build-id digits come in pairs and are lower-case hex |
| `Sections.BuildIdOfEncodesBytes` | src/parsers/elf-parser.cc:561-589 | the collected build-id is the hex encoding of the note descriptors, one after another |
| `Sections.BuildIdOfIsEven` | src/parsers/elf-parser.cc:580-587 | the collected build-id has an even length, so the `.build-id` path can split off two digits |
| `Sections.BuildIdOfIsLowerHex` | src/parsers/elf-parser.cc:580-587 | the collected build-id is lower-case hex throughout |
| `Sections.GcdaNamesOfShape` | src/parsers/elf-parser.cc:529-558 | every collected data-file name ends with "gcda" |

## Left out

- File-system and library calls are oracles in `World`. These are `open`, `lstat`, `read_file`, `file_exists`, `realpath`, `dirname`, libelf, libdw and the gcov graph parser with `gcovGetAddress`. All of "can the file be opened" is one predicate, so `lstat`, `open` and `read_file` agree on a path. `dir_concat` and `get_real_path` are not part of this model. They are given the meaning their use here implies: an empty directory leaves the name alone, and a failed `realpath` gives "".
- The raw 32- and 64-bit header casts are replaced by one normalised section record. The note header has the same layout in both classes, and its words are read little-endian.
- The ELF version check, the checksum, the "handle-solibs" capability toggle, `getParserType`, `maxPossibleHits`, `setupParser` and the self-registration with the parser manager are not modelled. They are process-wide or foreign and decide nothing about the reported lines.
- Warnings, errors and debug logging are left out.
- `ElfParser.MatchParser`: an identification shorter than four bytes does not match. The source compares four bytes whatever the size it is given.
- `m_elf`, `m_checksum` and `m_filter` are not modelled. `m_elf` is the libelf handle; it becomes the image value of `World`. `m_checksum` is computed once by `checkFile`, for the first main image only, and `getChecksum` returns it; it decides nothing about the reported lines. `m_filter` is set by `setupParser`.
- The address verifier (`m_addressVerifier`) is an uninterpreted predicate of the segment and the offset. Its `setup` call and the segment's data buffer are not modelled.
- Closing descriptors and freeing buffers are not modelled. `dwarf_end` is not modelled either. Its failure would make the source loop on `goto out_err`.
- Resource exhaustion and `std::bad_alloc` are left out.
- `BuildId.GnuBuildIdDescriptor`: a note whose header, name or descriptor would lie past the section data gives no build-id. The source reads out of bounds there. The model does not pick a value for those bytes.
- `Sections.SectionDebuglink`: a NULL `.gnu_debuglink` buffer adds nothing, and a buffer without a NUL adds all its bytes. In the source the first is undefined behaviour and the second reads past the buffer.
- `ElfParser.ElfInstance.CheckFile`: for a main file that libelf opens but does not recognise, the source still reads the ELF header. For such a file this is a NULL dereference. The model leaves the class flags unchanged instead.
- `ElfParser.ElfInstance.ScanSections`: the source pushes segments, digits and names onto the fields while it walks the sections. The model collects them in a local value and stores them once the loop ends. Nothing reads those fields during the loop, so the final state is the same. Stopping at a section whose data cannot be read, and skipping the graph-file queue then, are kept.
- `ElfParser.ElfInstance.Valid`: the class invariant states only that the build-id has an even length. Its lower-case hex shape is proved about the collected value (`Sections.BuildIdOfIsLowerHex`), not carried as an invariant.
- `ElfParser.ElfInstance.UnitEvents`: hitting an unreadable row ends the walk over all units (the source's `goto out_err`). The model handles this through the loop conditions and the `stopped` and `ends` results.
- Listener calls are appended to `lineEvents` and `fileEvents` instead of being made. A listener that calls back into the parser is outside the model.
- Integers are unbounded. Addresses, sizes and the relocation are `u64`, and the additions and subtractions that can wrap are written modulo 2^64. Line numbers are kept as `int`.
- `Segments.Contains`: the segment end `base + size` is computed on unbounded integers, without wrap-around. The segment class is not part of this model. A segment whose end passes 2^64 therefore holds addresses that a 64-bit end test might not.

## Findings

| source | as written | input that shows it | evidently intended | confidence | as-written member | corrected member |
|---|---|---|---|---|---|---|
| src/parsers/elf-parser.cc:533 | `i < data->d_size - 5` in `size_t` arithmetic: the bound wraps around for a `.rodata` shorter than five bytes | a 4-byte `.rodata` in gcov mode: the bound is 2^64 - 1, and the `memcmp` at offset 0 reads five bytes of four | a section shorter than the marker is scanned at no offset | not executed | `Rodata.AsWrittenBoundUnderflows` | `Rodata.ShortSectionHasNoNames`, `Rodata.ScanRodata` |
| src/parsers/elf-parser.cc:533 | the bound `d_size - 5` stops one offset early: a marker whose NUL is the section's last byte is never compared | `.rodata` = 01 00 'a' 'g' 'c' 'd' 'a' 00: the name "agcda" is not recorded | every offset `i` with `i + 5 <= d_size` is compared | not executed | `Rodata.AsWrittenMissesMarkerAtEnd`, `Rodata.AsWrittenSkipsLastOffset` | `Rodata.ScanRodata`, `Rodata.EveryMarkerFound` |
