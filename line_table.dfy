/**
 * The DWARF line-table walk of `parseOneDwarf` and the gcov fallback of
 * `parseGcnoFiles`, as functions from their inputs to the lines reported.
 */
module LineTable {
  import opened Types
  import opened Segments
  import SourcePaths

  /** One row of a line program, as the `dwarf_line*` accessors report it. */
  datatype LineRow = LineRow(lineNo: int, isStmt: bool, addr: u64, src: string)

  /** A row whose accessors all succeed, or one where some accessor fails. */
  datatype RowRead = Row(row: LineRow) | Unreadable

  /**
   * One compile unit: its DIE cannot be read (the walk ends), or its line,
   * file or directory table is missing or has no directory (the unit is
   * skipped), or its first source directory (NULL read as "") and its rows.
   */
  datatype CompileUnit = BadDie | NoLineTable | Unit(compDir: string, rows: seq<RowRead>)

  /** What `onLine` receives. */
  datatype Line = Line(path: string, lineNo: int, addr: u64)

  /** A row together with the compilation directory of its unit. */
  datatype DirRow = DirRow(dir: string, row: LineRow)

  /** Everything a row's treatment depends on besides the row. */
  datatype Context = Context(
    execSegs: seq<Segment>,
    curSegs: seq<Segment>,
    verify: bool,
    verifier: (Segment, u64) -> bool,
    origRoot: string,
    newRoot: string,
    realPath: string -> Option<string>,
    relocation: u64)

  /** The rows of one unit the walk reads, and whether an unreadable row ended the whole walk. */
  function UnitRows(dir: string, rows: seq<RowRead>): (seq<DirRow>, bool)
  {
    if rows == [] then ([], false)
    else match rows[0]
      case Unreadable => ([], true)
      case Row(r) =>
        var rest := UnitRows(dir, rows[1..]);
        ([DirRow(dir, r)] + rest.0, rest.1)
  }

  /** The rows the walk reads over all units, in unit order and then table order. */
  function WalkRows(cus: seq<CompileUnit>): seq<DirRow>
  {
    if cus == [] then []
    else match cus[0]
      case BadDie => []
      case NoLineTable => WalkRows(cus[1..])
      case Unit(dir, rows) =>
        var u := UnitRows(dir, rows);
        if u.1 then u.0 else u.0 + WalkRows(cus[1..])
  }

  /** A row is reported when its line is nonzero, it begins a statement and its address is valid. */
  predicate Selected(ctx: Context, x: DirRow)
  {
    x.row.lineNo != 0 && x.row.isStmt && AddressIsValid(ctx.execSegs, ctx.verify, ctx.verifier, x.row.addr)
  }

  /** The line reported for a row: the resolved path and the translated, relocated address. */
  function LineOf(ctx: Context, x: DirRow): Line
  {
    Line(SourcePaths.ResolveSourcePath(x.dir, x.row.src, ctx.origRoot, ctx.newRoot, ctx.realPath),
         x.row.lineNo,
         WrapAdd(Translate(ctx.curSegs, x.row.addr), ctx.relocation))
  }

  /** The lines reported for a sequence of rows, in row order. */
  function EmitRows(ctx: Context, rs: seq<DirRow>): seq<Line>
  {
    if rs == [] then []
    else EmitRows(ctx, rs[..|rs| - 1]) + (if Selected(ctx, rs[|rs| - 1]) then [LineOf(ctx, rs[|rs| - 1])] else [])
  }

  /** The lines `parseOneDwarf` reports for a file with these compile units. */
  function DwarfLines(ctx: Context, cus: seq<CompileUnit>): seq<Line>
  {
    EmitRows(ctx, WalkRows(cus))
  }

  /** The rows one compile unit gives the walk. */
  function UnitRowsOf(cu: CompileUnit): seq<DirRow>
  {
    if cu.Unit? then UnitRows(cu.compDir, cu.rows).0 else []
  }

  /** Whether the walk ends with this unit: its DIE is unreadable, or one of its rows is. */
  predicate EndsWalk(cu: CompileUnit)
  {
    cu.BadDie? || (cu.Unit? && UnitRows(cu.compDir, cu.rows).1)
  }

  lemma WalkRowsStep(cus: seq<CompileUnit>, c: nat)
    requires c < |cus|
    ensures WalkRows(cus[c..]) == UnitRowsOf(cus[c]) + (if EndsWalk(cus[c]) then [] else WalkRows(cus[c + 1..]))
  {
    assert cus[c..][0] == cus[c];
    assert cus[c..][1..] == cus[c + 1..];
  }

  /** The walk's loop invariant carries over one compile unit. */
  lemma WalkInvariantStep(cus: seq<CompileUnit>, c: nat, visited: seq<DirRow>)
    requires c < |cus|
    ensures visited + WalkRows(cus[c..]) ==
      (visited + UnitRowsOf(cus[c])) + (if EndsWalk(cus[c]) then [] else WalkRows(cus[c + 1..]))
  {
    WalkRowsStep(cus, c);
    var u, rest := UnitRowsOf(cus[c]), if EndsWalk(cus[c]) then [] else WalkRows(cus[c + 1..]);
    assert visited + (u + rest) == (visited + u) + rest;
  }

  /** The loop over one unit's rows carries its invariant over a readable row. */
  lemma UnitInvariantStep(dir: string, rows: seq<RowRead>, i: nat, acc: seq<DirRow>)
    requires i < |rows| && rows[i].Row?
    ensures acc + UnitRows(dir, rows[i..]).0 == (acc + [DirRow(dir, rows[i].row)]) + UnitRows(dir, rows[i + 1..]).0
    ensures UnitRows(dir, rows[i..]).1 == UnitRows(dir, rows[i + 1..]).1
  {
    UnitRowsStep(dir, rows, i);
    var x, rest := DirRow(dir, rows[i].row), UnitRows(dir, rows[i + 1..]).0;
    assert acc + ([x] + rest) == (acc + [x]) + rest;
  }

  /** A unit's rows are read one at a time, as the loop over its line table does. */
  lemma UnitRowsStep(dir: string, rows: seq<RowRead>, i: nat)
    requires i < |rows|
    ensures rows[i].Unreadable? ==> UnitRows(dir, rows[i..]) == ([], true)
    ensures rows[i].Row? ==> UnitRows(dir, rows[i..]).0 == [DirRow(dir, rows[i].row)] + UnitRows(dir, rows[i + 1..]).0
    ensures rows[i].Row? ==> UnitRows(dir, rows[i..]).1 == UnitRows(dir, rows[i + 1..]).1
  {
    assert rows[i..][0] == rows[i];
    assert rows[i..][1..] == rows[i + 1..];
  }

  /** One more row reports its line exactly when it is selected. */
  lemma EmitRowsStep(ctx: Context, acc: seq<DirRow>, x: DirRow)
    ensures EmitRows(ctx, acc + [x]) == EmitRows(ctx, acc) + (if Selected(ctx, x) then [LineOf(ctx, x)] else [])
  {
    assert (acc + [x])[..|acc|] == acc;
  }

  lemma {:induction false} EmitRowsAppend(ctx: Context, a: seq<DirRow>, b: seq<DirRow>)
    ensures EmitRows(ctx, a + b) == EmitRows(ctx, a) + EmitRows(ctx, b)
  {
    if b == [] {
      assert a + b == a;
    } else {
      assert (a + b)[..|a + b| - 1] == a + b[..|b| - 1];
      EmitRowsAppend(ctx, a, b[..|b| - 1]);
    }
  }

  /** A reported line is exactly the line of some selected row. */
  lemma {:induction false} EmitRowsIff(ctx: Context, rs: seq<DirRow>, l: Line)
    ensures l in EmitRows(ctx, rs) <==> exists x :: x in rs && Selected(ctx, x) && l == LineOf(ctx, x)
  {
    if rs != [] {
      var front := rs[..|rs| - 1];
      EmitRowsIff(ctx, front, l);
      assert rs == front + [rs[|rs| - 1]];
      if exists x :: x in rs && Selected(ctx, x) && l == LineOf(ctx, x) {
        var x :| x in rs && Selected(ctx, x) && l == LineOf(ctx, x);
        if x != rs[|rs| - 1] {
          assert x in front;
        }
      }
    }
  }

  /** `l` is what row `x` reports, and `x` lies in an executable segment of the context. */
  predicate ReportedFrom(ctx: Context, l: Line, x: DirRow)
  {
    && x.row.lineNo != 0
    && x.row.isStmt
    && l.lineNo == x.row.lineNo
    && l.addr == WrapAdd(Translate(ctx.curSegs, x.row.addr), ctx.relocation)
    && exists i :: 0 <= i < |ctx.execSegs| && Contains(ctx.execSegs[i], x.row.addr)
  }

  /**
   * A reported line comes from a row with a nonzero line number that begins
   * a statement, whose address lies in an executable segment (and passed the
   * verifier when verification is on); its address is that row's address
   * translated through the current segments, plus the relocation.
   */
  lemma EmittedLinesComeFromExecutableSegments(ctx: Context, rs: seq<DirRow>, l: Line)
    requires l in EmitRows(ctx, rs)
    ensures exists x :: x in rs && ReportedFrom(ctx, l, x)
  {
    EmitRowsIff(ctx, rs, l);
    var x :| x in rs && Selected(ctx, x) && l == LineOf(ctx, x);
    var k := FirstContaining(ctx.execSegs, x.row.addr).value;
    assert Contains(ctx.execSegs[k], x.row.addr);
  }

  /** Rows outside every executable segment are never reported. */
  lemma {:induction false} RowsOutsideSegmentsNeverEmitted(ctx: Context, rs: seq<DirRow>)
    requires forall x :: x in rs ==> forall i :: 0 <= i < |ctx.execSegs| ==> !Contains(ctx.execSegs[i], x.row.addr)
    ensures EmitRows(ctx, rs) == []
  {
    if rs != [] {
      var front := rs[..|rs| - 1];
      assert forall x :: x in front ==> x in rs;
      RowsOutsideSegmentsNeverEmitted(ctx, front);
      OutsideSegmentsIsInvalid(ctx.execSegs, ctx.verify, ctx.verifier, rs[|rs| - 1].row.addr);
    }
  }

  function Shift(l: Line, b: u64): Line
  {
    l.(addr := WrapAdd(l.addr, b))
  }

  function ShiftAll(ls: seq<Line>, b: u64): (r: seq<Line>)
    ensures |r| == |ls|
  {
    if ls == [] then [] else ShiftAll(ls[..|ls| - 1], b) + [Shift(ls[|ls| - 1], b)]
  }

  /**
   * Relocation adds the same bias, modulo 2^64, to every reported address:
   * it changes neither which lines are reported nor their order.
   */
  lemma {:induction false} RelocationShiftsEveryAddress(ctx: Context, rs: seq<DirRow>)
    ensures EmitRows(ctx, rs) == ShiftAll(EmitRows(ctx.(relocation := 0), rs), ctx.relocation)
  {
    if rs != [] {
      var front := rs[..|rs| - 1];
      RelocationShiftsEveryAddress(ctx, front);
      var x := rs[|rs| - 1];
      var t := Translate(ctx.curSegs, x.row.addr);
      assert WrapAdd(WrapAdd(t, 0), ctx.relocation) == WrapAdd(t, ctx.relocation);
      var zero := ctx.(relocation := 0);
      if Selected(ctx, x) {
        assert EmitRows(zero, rs) == EmitRows(zero, front) + [LineOf(zero, x)];
      } else {
        assert EmitRows(zero, rs) == EmitRows(zero, front);
      }
    }
  }

  /** Every row of a unit whose rows are all readable, in table order. */
  function AllUnitRows(dir: string, rows: seq<RowRead>): seq<DirRow>
    requires forall k :: 0 <= k < |rows| ==> rows[k].Row?
  {
    seq(|rows|, k requires 0 <= k < |rows| => DirRow(dir, rows[k].row))
  }

  /** A unit without unreadable rows is read completely and does not end the walk. */
  lemma {:induction false} UnitRowsComplete(dir: string, rows: seq<RowRead>)
    requires forall k :: 0 <= k < |rows| ==> rows[k].Row?
    ensures UnitRows(dir, rows) == (AllUnitRows(dir, rows), false)
  {
    if rows != [] {
      UnitRowsComplete(dir, rows[1..]);
      assert AllUnitRows(dir, rows) == [DirRow(dir, rows[0].row)] + AllUnitRows(dir, rows[1..]);
    }
  }

  /** An unreadable row ends the walk: no row after it, in this unit or a later one, is read. */
  lemma {:induction false} UnreadableRowEndsWalk(cus: seq<CompileUnit>, later: seq<CompileUnit>)
    requires |cus| > 0 && cus[|cus| - 1].Unit?
    requires Unreadable in cus[|cus| - 1].rows
    ensures WalkRows(cus + later) == WalkRows(cus)
  {
    var u := cus[|cus| - 1];
    UnreadableStopsUnit(u.compDir, u.rows);
    if |cus| > 1 {
      assert (cus + later)[1..] == cus[1..] + later;
      UnreadableRowEndsWalk(cus[1..], later);
    } else {
      assert (cus + later)[0] == u;
    }
  }

  lemma {:induction false} UnreadableStopsUnit(dir: string, rows: seq<RowRead>)
    requires Unreadable in rows
    ensures UnitRows(dir, rows).1
  {
    if rows[0] != Unreadable {
      assert Unreadable in rows[1..];
      UnreadableStopsUnit(dir, rows[1..]);
    }
  }

  /** A gcov basic block with the address `gcovGetAddress` generated for it. */
  datatype GcnoBlock = GcnoBlock(file: string, lineNo: int, addr: u64)

  /** The lines one graph file reports: each block's generated address plus the relocation. */
  function BlockLines(bbs: seq<GcnoBlock>, relocation: u64): (r: seq<Line>)
    ensures |r| == |bbs|
  {
    if bbs == [] then []
    else
      var last := bbs[|bbs| - 1];
      BlockLines(bbs[..|bbs| - 1], relocation) + [Line(last.file, last.lineNo, WrapAdd(last.addr, relocation))]
  }

  /**
   * The lines `parseGcnoFiles` reports; a file that cannot be read or
   * parsed (`None`) reports nothing and does not stop the others.
   */
  function GcnoLines(gcno: string -> Option<seq<GcnoBlock>>, files: seq<string>, relocation: u64): seq<Line>
  {
    if files == [] then []
    else
      var blocks := match gcno(files[|files| - 1])
        case None => []
        case Some(bbs) => BlockLines(bbs, relocation);
      GcnoLines(gcno, files[..|files| - 1], relocation) + blocks
  }

  /** One more graph file appends the lines of its blocks, or nothing when it cannot be parsed. */
  lemma GcnoLinesStep(gcno: string -> Option<seq<GcnoBlock>>, files: seq<string>, i: nat, relocation: u64)
    requires i < |files|
    ensures gcno(files[i]).None? ==> GcnoLines(gcno, files[..i + 1], relocation) == GcnoLines(gcno, files[..i], relocation)
    ensures gcno(files[i]).Some? ==>
      GcnoLines(gcno, files[..i + 1], relocation) ==
      GcnoLines(gcno, files[..i], relocation) + BlockLines(gcno(files[i]).value, relocation)
  {
    assert files[..i + 1][..i] == files[..i];
  }

  /** One more block appends its line. */
  lemma BlockLinesStep(bbs: seq<GcnoBlock>, j: nat, relocation: u64)
    requires j < |bbs|
    ensures BlockLines(bbs[..j + 1], relocation) ==
      BlockLines(bbs[..j], relocation) + [Line(bbs[j].file, bbs[j].lineNo, WrapAdd(bbs[j].addr, relocation))]
  {
    assert bbs[..j + 1][..j] == bbs[..j];
  }

  /** Block `k` of a graph file is reported with its file, its line and its address plus the relocation. */
  lemma {:induction false} BlockLinesAt(bbs: seq<GcnoBlock>, relocation: u64, k: nat)
    requires k < |bbs|
    ensures BlockLines(bbs, relocation)[k] == Line(bbs[k].file, bbs[k].lineNo, WrapAdd(bbs[k].addr, relocation))
  {
    if k < |bbs| - 1 {
      BlockLinesAt(bbs[..|bbs| - 1], relocation, k);
    }
  }

  /** Shifting distributes over concatenation. */
  lemma {:induction false} ShiftAllAppend(a: seq<Line>, b: seq<Line>, bias: u64)
    ensures ShiftAll(a + b, bias) == ShiftAll(a, bias) + ShiftAll(b, bias)
  {
    if b != [] {
      assert (a + b)[..|a + b| - 1] == a + b[..|b| - 1];
      ShiftAllAppend(a, b[..|b| - 1], bias);
    } else {
      assert a + b == a;
    }
  }

  /** One graph file's lines at a relocation are its lines at relocation 0, shifted. */
  lemma {:induction false} BlockRelocationShiftsEveryAddress(bbs: seq<GcnoBlock>, relocation: u64)
    ensures BlockLines(bbs, relocation) == ShiftAll(BlockLines(bbs, 0), relocation)
  {
    if bbs != [] {
      BlockRelocationShiftsEveryAddress(bbs[..|bbs| - 1], relocation);
      var last := bbs[|bbs| - 1];
      assert WrapAdd(WrapAdd(last.addr, 0), relocation) == WrapAdd(last.addr, relocation);
    }
  }

  /**
   * The gcov branch relocates as the DWARF branch does: every reported
   * address gets the same bias, and which lines are reported and their
   * order do not change.
   */
  lemma {:induction false} GcnoRelocationShiftsEveryAddress(gcno: string -> Option<seq<GcnoBlock>>, files: seq<string>, relocation: u64)
    ensures GcnoLines(gcno, files, relocation) == ShiftAll(GcnoLines(gcno, files, 0), relocation)
  {
    if files != [] {
      var front := files[..|files| - 1];
      GcnoRelocationShiftsEveryAddress(gcno, front, relocation);
      match gcno(files[|files| - 1])
      case None =>
        assert GcnoLines(gcno, files, 0) == GcnoLines(gcno, front, 0);
        assert GcnoLines(gcno, files, relocation) == GcnoLines(gcno, front, relocation);
      case Some(bbs) =>
        BlockRelocationShiftsEveryAddress(bbs, relocation);
        ShiftAllAppend(GcnoLines(gcno, front, 0), BlockLines(bbs, 0), relocation);
    }
  }
}
