/**
 * The GNU build-id: locating its note in a section, encoding its
 * descriptor as lower-case hex, and the `.build-id` debug-file path named
 * after it.
 */
module BuildId {
  import opened Types

  const SHT_NOTE: nat := 7
  const NT_GNU_BUILD_ID: nat := 3
  /** `sizeof (Elf32_Nhdr)`, which equals `sizeof (Elf64_Nhdr)`: three 32-bit words. */
  const NOTE_HEADER_SIZE: nat := 12
  /** `ELF_NOTE_GNU` as the C string the note name is compared with: "GNU" and its NUL. */
  const ELF_NOTE_GNU: seq<byte> := [71, 78, 85, 0]

  const HEX_DIGITS: string := "0123456789abcdef"

  /** The prefix of the separate debug file named after a build-id. */
  const BUILD_ID_DEBUG_DIR: string := "/usr/lib/debug/.build-id/"

  /** A lower-case hexadecimal digit, as the parser writes them. */
  predicate IsLowerHex(c: char)
  {
    '0' <= c <= '9' || 'a' <= c <= 'f'
  }

  /** The value of one lower-case hex digit (the inverse of the digit table). */
  function HexValue(c: char): (v: Option<nat>)
    ensures v.Some? <==> IsLowerHex(c)
    ensures v.Some? ==> v.value < 16 && HEX_DIGITS[v.value] == c
  {
    if '0' <= c <= '9' then Some(c as int - '0' as int)
    else if 'a' <= c <= 'f' then Some(c as int - 'a' as int + 10)
    else None
  }

  /** The table entry for `n` is the digit whose value is `n`. */
  lemma HexDigitValue(n: nat)
    requires n < 16
    ensures IsLowerHex(HEX_DIGITS[n]) && HexValue(HEX_DIGITS[n]) == Some(n)
  {
    if n < 10 {
      assert HEX_DIGITS[n] as int == '0' as int + n by {
        assert HEX_DIGITS[..10] == "0123456789";
      }
    } else {
      assert HEX_DIGITS[n] as int == 'a' as int + n - 10 by {
        assert HEX_DIGITS[10..] == "abcdef";
      }
    }
  }

  /** The build-id string of a descriptor: two digits per byte, high nibble first. */
  function HexEncode(desc: seq<byte>): (r: string)
    ensures |r| == 2 * |desc|
  {
    if desc == [] then ""
    else [HEX_DIGITS[desc[0] / 16], HEX_DIGITS[desc[0] % 16]] + HexEncode(desc[1..])
  }

  /** Reads a hex string back into bytes; fails on an odd length or a foreign character. */
  function HexDecode(s: string): Option<seq<byte>>
    decreases |s|
  {
    if s == [] then Some([])
    else if |s| == 1 then None
    else match (HexValue(s[0]), HexValue(s[1]), HexDecode(s[2..]))
      case (Some(hi), Some(lo), Some(rest)) => Some([hi * 16 + lo] + rest)
      case _ => None
  }

  /** Characters `2k` and `2k+1` are the high and the low nibble of byte `k`. */
  lemma {:induction false} HexEncodeDigits(desc: seq<byte>, k: nat)
    requires k < |desc|
    ensures HexEncode(desc)[2 * k] == HEX_DIGITS[desc[k] / 16]
    ensures HexEncode(desc)[2 * k + 1] == HEX_DIGITS[desc[k] % 16]
  {
    if k > 0 {
      HexEncodeDigits(desc[1..], k - 1);
    }
  }

  /** Every character of an encoded build-id is in `0-9a-f`. */
  lemma {:induction false} HexEncodeIsLowerHex(desc: seq<byte>)
    ensures forall i :: 0 <= i < |HexEncode(desc)| ==> IsLowerHex(HexEncode(desc)[i])
  {
    forall i | 0 <= i < |HexEncode(desc)|
      ensures IsLowerHex(HexEncode(desc)[i])
    {
      HexEncodeDigits(desc, i / 2);
      HexDigitValue(desc[i / 2] / 16);
      HexDigitValue(desc[i / 2] % 16);
      assert i == 2 * (i / 2) || i == 2 * (i / 2) + 1;
    }
  }

  /** The encoding loses nothing: decoding it gives the descriptor back. */
  lemma {:induction false} HexRoundTrip(desc: seq<byte>)
    ensures HexDecode(HexEncode(desc)) == Some(desc)
  {
    if desc != [] {
      var s, rest := HexEncode(desc), desc[1..];
      var hi, lo := desc[0] / 16, desc[0] % 16;
      assert s[0] == HEX_DIGITS[hi] && s[1] == HEX_DIGITS[lo] && s[2..] == HexEncode(rest) by {
        assert s == [HEX_DIGITS[hi], HEX_DIGITS[lo]] + HexEncode(rest);
      }
      HexDigitValue(hi);
      HexDigitValue(lo);
      HexRoundTrip(rest);
      HexDecodeStep(s, hi, lo, rest);
      assert hi * 16 + lo == desc[0];
      assert [hi * 16 + lo] + desc[1..] == desc;
    }
  }

  /** Decoding reads two digits, then the rest. */
  lemma HexDecodeStep(s: string, hi: nat, lo: nat, rest: seq<byte>)
    requires |s| >= 2 && HexValue(s[0]) == Some(hi) && HexValue(s[1]) == Some(lo)
    requires HexDecode(s[2..]) == Some(rest)
    ensures HexDecode(s) == Some([hi * 16 + lo] + rest)
  {
  }

  /** The encoding of two descriptors in a row is their two encodings in a row. */
  lemma {:induction false} HexEncodeAppend(a: seq<byte>, b: seq<byte>)
    ensures HexEncode(a + b) == HexEncode(a) + HexEncode(b)
  {
    if a != [] {
      assert (a + b)[1..] == a[1..] + b;
      HexEncodeAppend(a[1..], b);
    } else {
      assert a + b == b;
    }
  }

  /** A 32-bit note-header word in host (little-endian) byte order. */
  function ReadWord(d: seq<byte>, off: nat): u64
    requires off + 4 <= |d|
  {
    d[off] as int + 256 * d[off + 1] as int + 65536 * d[off + 2] as int + 16777216 * d[off + 3] as int
  }

  /**
   * The descriptor of the GNU build-id note at the start of a note
   * section's data: its name is the C string "GNU" and its type is
   * NT_GNU_BUILD_ID; the descriptor starts `n_namesz` bytes after the name.
   * A header, name or descriptor that would lie past the end of the data
   * gives none.
   */
  function GnuBuildIdDescriptor(d: seq<byte>): (r: Option<seq<byte>>)
    ensures r.Some? ==> |d| >= NOTE_HEADER_SIZE + 4 && ReadWord(d, 8) == NT_GNU_BUILD_ID
    ensures r.Some? ==> d[NOTE_HEADER_SIZE..NOTE_HEADER_SIZE + 4] == ELF_NOTE_GNU
    ensures r.Some? ==> |r.value| == ReadWord(d, 4)
    ensures r.Some? ==> NOTE_HEADER_SIZE + ReadWord(d, 0) + ReadWord(d, 4) <= |d|
    ensures r.Some? ==> r.value == d[NOTE_HEADER_SIZE + ReadWord(d, 0) .. NOTE_HEADER_SIZE + ReadWord(d, 0) + ReadWord(d, 4)]
    ensures (|d| >= NOTE_HEADER_SIZE + 4 && d[NOTE_HEADER_SIZE..NOTE_HEADER_SIZE + 4] == ELF_NOTE_GNU &&
             ReadWord(d, 8) == NT_GNU_BUILD_ID && NOTE_HEADER_SIZE + ReadWord(d, 0) + ReadWord(d, 4) <= |d|) ==> r.Some?
  {
    if |d| < NOTE_HEADER_SIZE + 4 then None
    else
      var namesz := ReadWord(d, 0);
      var descsz := ReadWord(d, 4);
      var ntype := ReadWord(d, 8);
      var start := NOTE_HEADER_SIZE + namesz;
      if d[NOTE_HEADER_SIZE..NOTE_HEADER_SIZE + 4] == ELF_NOTE_GNU && ntype == NT_GNU_BUILD_ID && start + descsz <= |d|
      then Some(d[start..start + descsz])
      else None
  }

  /** A note with a 4-byte name "GNU", type 3 and a 2-byte descriptor ab cd gives the build-id "abcd". */
  lemma GnuBuildIdExample()
    ensures var d: seq<byte> := [4, 0, 0, 0, 2, 0, 0, 0, 3, 0, 0, 0, 71, 78, 85, 0, 0xab, 0xcd];
      GnuBuildIdDescriptor(d) == Some([0xab, 0xcd]) && HexEncode([0xab, 0xcd]) == "abcd"
  {
    var d: seq<byte> := [4, 0, 0, 0, 2, 0, 0, 0, 3, 0, 0, 0, 71, 78, 85, 0, 0xab, 0xcd];
    assert d[NOTE_HEADER_SIZE..NOTE_HEADER_SIZE + 4] == ELF_NOTE_GNU;
    assert d[16..18] == [0xab, 0xcd];
  }

  /**
   * `/usr/lib/debug/.build-id/<first two digits>/<the other digits>.debug`.
   * A build-id string always holds whole bytes, so a non-empty one has at
   * least two digits.
   */
  function BuildIdDebugPath(id: string): string
    requires |id| >= 2
  {
    BUILD_ID_DEBUG_DIR + id[..2] + "/" + id[2..] + ".debug"
  }

  /** Distinct build-ids name distinct debug files. */
  lemma BuildIdDebugPathInjective(a: string, b: string)
    requires |a| >= 2 && |b| >= 2
    requires BuildIdDebugPath(a) == BuildIdDebugPath(b)
    ensures a == b
  {
    var pa, pb := BuildIdDebugPath(a), BuildIdDebugPath(b);
    var n := |BUILD_ID_DEBUG_DIR|;
    assert |a| == |b| by {
      assert |pa| == n + |a| + 7;
      assert |pb| == n + |b| + 7;
    }
    assert a[..2] == pa[n..n + 2] == pb[n..n + 2] == b[..2];
    assert a[2..] == pa[n + 3..n + 3 + |a| - 2] == pb[n + 3..n + 3 + |b| - 2] == b[2..];
    assert a == a[..2] + a[2..];
    assert b == b[..2] + b[2..];
  }

  /** The path can be split back into the directory, the first two digits and the rest. */
  lemma BuildIdDebugPathShape(id: string)
    requires |id| >= 2
    ensures var p := BuildIdDebugPath(id);
      |p| == |BUILD_ID_DEBUG_DIR| + |id| + 7 &&
      p[..|BUILD_ID_DEBUG_DIR|] == BUILD_ID_DEBUG_DIR &&
      p[|BUILD_ID_DEBUG_DIR|..|BUILD_ID_DEBUG_DIR| + 2] == id[..2] &&
      p[|BUILD_ID_DEBUG_DIR| + 2] == '/' &&
      p[|BUILD_ID_DEBUG_DIR| + 3..|p| - 6] == id[2..] &&
      p[|p| - 6..] == ".debug"
  {
  }
}
