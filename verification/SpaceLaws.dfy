/** Readable and writable space. */
module SpaceLaws {
  import opened MachineWords
  import opened RingGeometry
  import opened FrameWalk
  import opened RingModel

  /** IntNetRingGetReadable. */
  function Readable(s: RingState): int {
    if s.offRead <= s.offWriteCom then s.offWriteCom - s.offRead
    else s.g.end - s.offRead + s.offWriteCom - s.g.start
  }

  /**
   Readable space is what the committed frames take up, and together with the pending frames, the writable space and
   the one byte kept free it makes up the whole ring.
   */
  lemma SpaceConserved(s: RingState)
    requires Inv(s)
    ensures Readable(s) == TotalFoot(s.g, CommittedSlots(s))
    ensures Readable(s) + TotalFoot(s.g, Pending(s)) + Writable(s.g, s.offWriteInt, s.offRead) + 1 == s.g.Size()
  {
    hide Linked, Slots;
    FootprintsFillDistance(s.m, s.g, s.offRead, s.offWriteCom);
    FootprintsFillDistance(s.m, s.g, s.offWriteCom, s.offWriteInt);
  }

  /**
   Twice the rounded size of writable space guarantees an allocation. An allocation implies that its footprint and
   seven bytes more were writable, except in the exact-fit corner, where one byte less than the footprint was.
   */
  lemma AllocationBound(g: Geometry, w: int, r: int, cap: nat)
    requires AlignedRing(g) && Cursor(g, w) && Cursor(g, r) && Aligned(cap) && cap > 0
    ensures Writable(g, w, r) >= 2 * cap ==> Place(g, w, r, cap).Some?
    ensures Place(g, w, r, cap).Some? && !ExactFit(g, w, r, cap)
            ==> Writable(g, w, r) >= Foot(g, Place(g, w, r, cap).value) + 7 >= cap + 15
    ensures Place(g, w, r, cap).Some? && ExactFit(g, w, r, cap) ==> Writable(g, w, r) == cap + 7
  {
    AlignedSum(g.end, w);
    AlignedSum(w, r);
    AlignedSum(g.end, g.start);
    AlignedSum(cap, 8);
    AlignedSum(cap, cap);
    AlignedSum(g.end - g.start, w - r);
    var free := Writable(g, w, r) + 1;
    assert Aligned(free) by {
      AlignedSum(0, w - r);
    }
    if free > 2 * cap {
      AlignedGap(cap + cap, free);
      if r <= w && g.end - w < cap + 8 {
        AlignedGap(g.end - w, cap + 8);
      }
    }
    if Place(g, w, r, cap).Some? && !ExactFit(g, w, r, cap) {
      PlaceSound(g, w, r, cap);
      var foot := Foot(g, Place(g, w, r, cap).value);
      assert Aligned(foot) by {
        AlignedSum(g.end - w, cap);
        AlignedSum(8, cap);
      }
      AlignedGap(foot, free);
    }
  }

  /** No smaller bound would do: for every size there is an empty ring with one byte less that overflows. */
  lemma AllocationBoundIsTight(cap: nat) returns (g: Geometry, w: int)
    requires Aligned(cap) && 8 <= cap <= 0x4000_0000
    ensures AlignedRing(g) && Cursor(g, w)
    ensures Writable(g, w, w) == 2 * cap - 1 && Place(g, w, w, cap).None?
  {
    g, w := Geometry(0, 2 * cap), cap;
  }
}
