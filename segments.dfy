/** The segment table of the host database, as the loader consults it:
    `get_segm_num` finds the segment holding a linear address and `getnseg`
    gives a segment's start. The table is an explicit parameter; segments are
    numbered by their position in it. */
module Segments {
  import opened MapTypes

  /** A segment covers the addresses from `startEa` up to, not including,
      `endEa`. */
  datatype Segment = Segment(startEa: U32, endEa: U32)

  predicate Contains(s: Segment, ea: int) {
    s.startEa <= ea < s.endEa
  }

  /** Segment numbers are `int` in the host interface. */
  type SegmentTable = segs: seq<Segment> | |segs| < 0x8000_0000

  /** `get_segm_num`: the number of the first segment from `k` on that holds
      `ea`, or -1 when none does. */
  function SegmentNumberFrom(segs: SegmentTable, ea: int, k: nat): (n: int)
    requires k <= |segs|
    ensures n == -1 || k <= n < |segs|
    ensures n >= 0 ==> Contains(segs[n], ea) && forall i :: k <= i < n ==> !Contains(segs[i], ea)
    ensures n == -1 ==> forall i :: k <= i < |segs| ==> !Contains(segs[i], ea)
    decreases |segs| - k
  {
    if k == |segs| then -1
    else if Contains(segs[k], ea) then k
    else SegmentNumberFrom(segs, ea, k + 1)
  }

  function SegmentNumber(segs: SegmentTable, ea: int): int {
    SegmentNumberFrom(segs, ea, 0)
  }

  /** `linearAddressToSymbolAddr`: `seg` becomes the number of the segment
      holding `linear` (all ones, from -1, when there is none) and `addr` the
      offset of `linear` in it, or all ones; the name is kept. */
  function LinearAddressToSymbolAddr(sym: MapSymbol, linear: U32, segs: SegmentTable): (r: MapSymbol)
    ensures r.name == sym.name
    ensures r.seg < |segs| <==> exists i :: 0 <= i < |segs| && Contains(segs[i], linear)
    ensures r.seg < |segs| ==>
      Contains(segs[r.seg], linear) && segs[r.seg].startEa + r.addr == linear &&
      forall i :: 0 <= i < r.seg ==> !Contains(segs[i], linear)
    ensures r.seg >= |segs| ==> r.seg == ALL_ONES && r.addr == ALL_ONES
  {
    var n := SegmentNumber(segs, linear);
    if n < 0 then
      // (unsigned long) -1, and getnseg(-1) is NULL
      sym.(seg := ALL_ONES, addr := ALL_ONES)
    else
      // the unsigned subtraction cannot wrap: the segment starts at or below `linear`
      sym.(seg := n, addr := linear - segs[n].startEa)
  }
}
