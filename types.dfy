/** Machine-level value types shared by every module of the model. */
module Types {
  /** `uint64_t`, `size_t` and `unsigned long` on the 64-bit hosts the parser targets. */
  const U64_MODULUS: int := 0x1_0000_0000_0000_0000

  type u64 = x: int | 0 <= x < 0x1_0000_0000_0000_0000

  /** One `unsigned char` of a file or section buffer. */
  type byte = x: int | 0 <= x < 256

  datatype Option<T> = None | Some(value: T)

  /** `a + b` on unsigned 64-bit operands: the sum wraps around. */
  function WrapAdd(a: u64, b: u64): u64
  {
    (a + b) % U64_MODULUS
  }

  /** A NUL-free byte string read as a C `char` string. */
  function BytesToString(bs: seq<byte>): (s: string)
    ensures |s| == |bs|
    ensures forall i :: 0 <= i < |bs| ==> s[i] as int == bs[i]
  {
    seq(|bs|, i requires 0 <= i < |bs| => bs[i] as char)
  }

  /** The C string at the start of a buffer: the bytes before its first NUL (all of it when there is none). */
  function CString(bs: seq<byte>): (s: string)
    ensures |s| <= |bs|
    ensures forall i :: 0 <= i < |s| ==> s[i] as int == bs[i] && bs[i] != 0
    ensures |s| < |bs| ==> bs[|s|] == 0
  {
    if bs == [] || bs[0] == 0 then "" else [bs[0] as char] + CString(bs[1..])
  }
}
