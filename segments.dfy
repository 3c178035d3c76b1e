/**
 * The segment model: the mapped regions an image is made of, the query
 * "which region holds this address" and the translation of an address
 * through the first region that holds it.
 */
module Segments {
  import opened Types

  /**
   * One region: link-time addresses `base .. base + size - 1`, which the
   * loader placed at `vaddr ..`. The address of the region's bytes that the
   * C++ `Segment` also carries is not modelled; the address verifier is
   * given the segment itself instead.
   */
  datatype Segment = Segment(base: u64, vaddr: u64, size: u64)

  /** One region as the host's loader reported it (`struct phdr_data_segment`). */
  datatype HostSegment = HostSegment(paddr: u64, vaddr: u64, size: u64)

  predicate Contains(s: Segment, a: u64)
  {
    s.base <= a < s.base + s.size
  }

  /** Translation through one segment, in 64-bit unsigned arithmetic. */
  function Adjust(s: Segment, a: u64): u64
  {
    (a - s.base + s.vaddr) % U64_MODULUS
  }

  /** A host segment keeps its physical base for lookups and its virtual base for translation. */
  function FromHost(h: HostSegment): Segment
  {
    Segment(h.paddr, h.vaddr, h.size)
  }

  function FromHostAll(hs: seq<HostSegment>): (r: seq<Segment>)
    ensures |r| == |hs|
    ensures forall i :: 0 <= i < |hs| ==> r[i] == FromHost(hs[i])
  {
    seq(|hs|, i requires 0 <= i < |hs| => FromHost(hs[i]))
  }

  /** A section segment is based at the section's address for lookups and for translation alike. */
  function FromSection(shAddr: u64, shSize: u64): Segment
  {
    Segment(shAddr, shAddr, shSize)
  }

  /** The index of the first segment that contains `a`, if any. */
  function FirstContaining(segs: seq<Segment>, a: u64): (r: Option<nat>)
    ensures r.Some? ==> r.value < |segs| && Contains(segs[r.value], a)
    ensures r.Some? ==> forall j :: 0 <= j < r.value ==> !Contains(segs[j], a)
    ensures r.None? <==> forall j :: 0 <= j < |segs| ==> !Contains(segs[j], a)
  {
    if segs == [] then None
    else if Contains(segs[0], a) then Some(0)
    else match FirstContaining(segs[1..], a)
      case None => None
      case Some(k) => Some(k + 1)
  }

  /** The specification of `adjustAddressBySegment`. */
  function Translate(segs: seq<Segment>, a: u64): u64
  {
    match FirstContaining(segs, a)
    case Some(k) => Adjust(segs[k], a)
    case None => a
  }

  /**
   * The specification of `addressIsValid`: some segment holds `a`, and when
   * verification is on, the verifier accepts the offset of `a` in the first
   * such segment.
   */
  predicate AddressIsValid(segs: seq<Segment>, verify: bool, verifier: (Segment, u64) -> bool, a: u64)
  {
    match FirstContaining(segs, a)
    case Some(k) => !verify || verifier(segs[k], a - segs[k].base)
    case None => false
  }

  /** Translation picks the first segment holding the address and no other. */
  lemma TranslateUsesFirstSegment(segs: seq<Segment>, a: u64, i: nat)
    requires i < |segs| && Contains(segs[i], a)
    requires forall j :: 0 <= j < i ==> !Contains(segs[j], a)
    ensures Translate(segs, a) == Adjust(segs[i], a)
  {
  }

  /** Outside every segment translation is the identity, hence idempotent there. */
  lemma TranslateOutsideIsIdentity(segs: seq<Segment>, a: u64)
    requires forall j :: 0 <= j < |segs| ==> !Contains(segs[j], a)
    ensures Translate(segs, a) == a
    ensures Translate(segs, Translate(segs, a)) == Translate(segs, a)
  {
  }

  /** Segments built from sections only (base equals vaddr) translate nothing. */
  lemma SectionSegmentsTranslateToSelf(segs: seq<Segment>, a: u64)
    requires forall j :: 0 <= j < |segs| ==> segs[j].base == segs[j].vaddr
    ensures Translate(segs, a) == a
  {
  }

  /** Both directions of the validity rule. */
  lemma AddressIsValidIff(segs: seq<Segment>, verify: bool, verifier: (Segment, u64) -> bool, a: u64)
    ensures AddressIsValid(segs, verify, verifier, a) <==>
      exists i :: 0 <= i < |segs| && Contains(segs[i], a) &&
        (forall j :: 0 <= j < i ==> !Contains(segs[j], a)) &&
        (!verify || verifier(segs[i], a - segs[i].base))
  {
    match FirstContaining(segs, a)
    case Some(k) =>
      if AddressIsValid(segs, verify, verifier, a) {
        assert Contains(segs[k], a);
      }
    case None =>
  }

  /** An address outside every executable segment is never valid, whatever the verifier says. */
  lemma OutsideSegmentsIsInvalid(segs: seq<Segment>, verify: bool, verifier: (Segment, u64) -> bool, a: u64)
    requires forall j :: 0 <= j < |segs| ==> !Contains(segs[j], a)
    ensures !AddressIsValid(segs, verify, verifier, a)
  {
  }
}
