/**
 * The scan of `.rodata` for the names of gcov data files that the gcov
 * runtime embeds in an instrumented binary: every occurrence of the bytes
 * "gcda" followed by a NUL marks the end of such a name, whose start is
 * found by walking back to the previous NUL.
 */
module Rodata {
  import opened Types

  /** "gcda\0". */
  const MARKER: seq<byte> := [103, 99, 100, 97, 0]
  const GCDA: string := "gcda"

  predicate MarkerAt(d: seq<byte>, i: nat)
  {
    i + |MARKER| <= |d| && d[i..i + |MARKER|] == MARKER
  }

  /**
   * Where the backward walk from `j` stops: at the nearest NUL at or before
   * `j`, or at offset 0, whose byte the walk does not inspect.
   */
  function RewindStop(d: seq<byte>, j: nat): (r: nat)
    requires j < |d|
    ensures r <= j
    ensures r == 0 || d[r] == 0
    ensures forall k :: r < k <= j ==> d[k] != 0
  {
    if j == 0 || d[j] == 0 then j else RewindStop(d, j - 1)
  }

  /** A marker at `i` names a file unless the walk back reached the start of the section. */
  predicate Hit(d: seq<byte>, i: nat)
  {
    MarkerAt(d, i) && RewindStop(d, i) > 0
  }

  /** The recorded name: the C string that starts just after the NUL the walk stopped at. */
  function NameAt(d: seq<byte>, i: nat): string
    requires Hit(d, i)
  {
    BytesToString(d[RewindStop(d, i) + 1..i + 4])
  }

  /** The offsets below `n` whose marker names a file, in increasing order. */
  function HitOffsets(d: seq<byte>, n: nat): seq<nat>
    requires n <= |d|
  {
    if n == 0 then [] else HitOffsets(d, n - 1) + (if Hit(d, n - 1) then [n - 1] else [])
  }

  /** The names recorded for the offsets below `n`, in the order of the offsets. */
  function ScanNames(d: seq<byte>, n: nat): seq<string>
    requires n <= |d|
  {
    if n == 0 then [] else ScanNames(d, n - 1) + (if Hit(d, n - 1) then [NameAt(d, n - 1)] else [])
  }

  /** The offsets a marker fits at: none when the section is shorter than the marker. */
  function ScanBound(size: nat): nat
  {
    if size < |MARKER| then 0 else size - |MARKER| + 1
  }

  /** The names the scan records for a `.rodata` section. */
  function GcdaNames(d: seq<byte>): seq<string>
  {
    ScanNames(d, ScanBound(|d|))
  }

  /** The loop of the scan with the corrected bound, proved against `GcdaNames`. */
  method ScanRodata(data: seq<byte>) returns (names: seq<string>)
    ensures names == GcdaNames(data)
  {
    names := [];
    var bound := ScanBound(|data|);
    var i := 0;
    while i < bound
      invariant 0 <= i <= bound
      invariant names == ScanNames(data, i)
    {
      if data[i..i + 5] == MARKER {
        var g := i;
        while g != 0 && data[g] != 0
          invariant 0 <= g <= i
          invariant RewindStop(data, g) == RewindStop(data, i)
        {
          g := g - 1;
        }
        if g != 0 {
          names := names + [BytesToString(data[g + 1..i + 4])];
        }
      }
      i := i + 1;
    }
  }

  /** A recorded name ends with "gcda" and holds no NUL. */
  lemma NameAtShape(d: seq<byte>, i: nat)
    requires Hit(d, i)
    ensures |NameAt(d, i)| >= 4 && NameAt(d, i)[|NameAt(d, i)| - 4..] == GCDA
    ensures forall c :: c in NameAt(d, i) ==> c != '\0'
  {
    var s := RewindStop(d, i);
    var raw := d[s + 1..i + 4];
    var name := NameAt(d, i);
    var m := |name|;
    assert m == i + 3 - s && name == BytesToString(raw);
    assert raw[m - 4..] == [103, 99, 100, 97] by {
      assert d[i..i + 5] == MARKER;
      assert d[i..i + 4] == d[i..i + 5][..4];
      assert raw[m - 4..] == d[i..i + 4];
    }
    assert name[m - 4..] == GCDA by {
      assert name[m - 4] as int == raw[m - 4] && name[m - 3] as int == raw[m - 3];
      assert name[m - 2] as int == raw[m - 2] && name[m - 1] as int == raw[m - 1];
    }
    forall c | c in name
      ensures c != '\0'
    {
      var k :| 0 <= k < |name| && name[k] == c;
      assert name[k] as int == d[s + 1 + k];
      if s + 1 + k > i {
        assert d[s + 1 + k] == MARKER[s + 1 + k - i];
      }
    }
  }

  /** Every name the scan records ends with "gcda" and holds no NUL. */
  lemma {:induction false} ScanNamesShape(d: seq<byte>, n: nat)
    requires n <= |d|
    ensures forall k :: 0 <= k < |ScanNames(d, n)| ==>
      |ScanNames(d, n)[k]| >= 4 && ScanNames(d, n)[k][|ScanNames(d, n)[k]| - 4..] == GCDA &&
      (forall c :: c in ScanNames(d, n)[k] ==> c != '\0')
  {
    if n > 0 {
      ScanNamesShape(d, n - 1);
      if Hit(d, n - 1) {
        NameAtShape(d, n - 1);
      }
    }
  }

  /** The names are those of the hit offsets, one for one and in the same order. */
  lemma {:induction false} ScanNamesAtOffsets(d: seq<byte>, n: nat)
    requires n <= |d|
    ensures |ScanNames(d, n)| == |HitOffsets(d, n)|
    ensures forall k :: 0 <= k < |HitOffsets(d, n)| ==>
      HitOffsets(d, n)[k] < n && Hit(d, HitOffsets(d, n)[k]) && ScanNames(d, n)[k] == NameAt(d, HitOffsets(d, n)[k])
  {
    if n > 0 {
      ScanNamesAtOffsets(d, n - 1);
    }
  }

  /** The offsets are strictly increasing: names are recorded in the order they occur. */
  lemma {:induction false} HitOffsetsIncreasing(d: seq<byte>, n: nat)
    requires n <= |d|
    ensures forall j, k :: 0 <= j < k < |HitOffsets(d, n)| ==> HitOffsets(d, n)[j] < HitOffsets(d, n)[k]
    ensures forall k :: 0 <= k < |HitOffsets(d, n)| ==> HitOffsets(d, n)[k] < n
  {
    if n > 0 {
      HitOffsetsIncreasing(d, n - 1);
    }
  }

  /** An offset is recorded exactly when it lies below the bound and its marker names a file. */
  lemma {:induction false} HitOffsetsComplete(d: seq<byte>, n: nat, i: nat)
    requires n <= |d|
    ensures i in HitOffsets(d, n) <==> i < n && Hit(d, i)
  {
    if n > 0 {
      HitOffsetsComplete(d, n - 1, i);
    }
  }

  /** Every marker that fits in the section and has a NUL before it is found. */
  lemma EveryMarkerFound(d: seq<byte>, i: nat)
    requires Hit(d, i)
    ensures i in HitOffsets(d, ScanBound(|d|))
  {
    HitOffsetsComplete(d, ScanBound(|d|), i);
  }

  /** A section shorter than the marker yields no names. */
  lemma ShortSectionHasNoNames(d: seq<byte>)
    requires |d| < |MARKER|
    ensures GcdaNames(d) == []
  {
  }

  // The source's loop, `for (size_t i = 0; i < data->d_size - 5; i++)`, as written.

  /** The loop bound as the source computes it, in `size_t` arithmetic. */
  function AsWrittenScanBound(size: u64): u64
  {
    (size - 5) % U64_MODULUS
  }

  /**
   * For a section shorter than the marker the bound wraps around: the loop
   * runs far past the end and its first comparison, at offset 0, already
   * reads five bytes of a section that holds fewer.
   */
  lemma AsWrittenBoundUnderflows(size: u64)
    requires size < |MARKER|
    ensures AsWrittenScanBound(size) > size
    ensures AsWrittenScanBound(size) >= U64_MODULUS - |MARKER|
    ensures 0 + |MARKER| > size
  {
  }

  /** The names the as-written loop records for a section at least as long as the marker. */
  function AsWrittenScanNames(d: seq<byte>): seq<string>
    requires |MARKER| <= |d|
  {
    ScanNames(d, |d| - |MARKER|)
  }

  /** The as-written loop never looks at the last offset a marker fits at; nothing else differs. */
  lemma AsWrittenSkipsLastOffset(d: seq<byte>)
    requires |MARKER| <= |d| < U64_MODULUS
    ensures AsWrittenScanBound(|d|) == |d| - |MARKER|
    ensures GcdaNames(d) == AsWrittenScanNames(d) +
      (if Hit(d, |d| - |MARKER|) then [NameAt(d, |d| - |MARKER|)] else [])
  {
  }

  /** A section ending in "\0agcda\0": the corrected scan finds "agcda", the as-written one nothing. */
  lemma AsWrittenMissesMarkerAtEnd()
    ensures var d: seq<byte> := [1, 0, 97, 103, 99, 100, 97, 0];
      AsWrittenScanNames(d) == [] && GcdaNames(d) == ["agcda"]
  {
    var d: seq<byte> := [1, 0, 97, 103, 99, 100, 97, 0];
    assert d[0..5][0] != MARKER[0] && d[1..6][0] != MARKER[0] && d[2..7][0] != MARKER[0];
    assert ScanNames(d, 3) == [];
    assert MarkerAt(d, 3);
    assert RewindStop(d, 2) == 1;
    assert RewindStop(d, 3) == 1;
    assert d[2..7] == [97, 103, 99, 100, 97];
    assert NameAt(d, 3) == "agcda";
  }
}
