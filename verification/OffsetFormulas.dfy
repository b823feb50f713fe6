/** The 32-bit offset computations of the reader, the committer and the allocator, and that they agree. */
module OffsetFormulas {
  import opened MachineWords
  import opened FrameHeader
  import opened RingGeometry
  import opened RingModel

  /** IntNetRingSkipFrame and IntNetRingReadAndSkipFrame: add offset and size, then round up. */
  function SkipOffset(h: int, hd: Header): u32 {
    AlignU32(U32(h + hd.off + hd.cb))
  }

  /** IntNetRingCommitFrame and IntNetRingCommitFrameEx: add offset and rounded size. */
  function CommitOffset(h: int, hd: Header): u32 {
    U32(U32(h + hd.off) + AlignU32(hd.cb))
  }

  /** The allocator, for a frame that follows its header and for one that starts over. */
  function AllocateOffset(g: Geometry, w: int, cb: u32, split: bool): u32 {
    if split then U32(g.start + AlignU32(cb)) else U32(w + AlignU32(cb) + 8)
  }

  lemma AlignU32IsAlign8(x: u32)
    requires x + 7 < 0x1_0000_0000
    ensures AlignU32(x) == Align8(x)
  {
    U32Identity(x + 7);
    hide U32, Align8;
    RoundedDown(x + 7);
    Align8Unique(x, (x + 7) / 8 * 8);
  }

  lemma RoundedDown(x: nat)
    ensures Aligned(x / 8 * 8) && x - 8 < x / 8 * 8 <= x
  {
  }

  lemma Align8Shift(p: nat, x: nat)
    requires Aligned(p)
    ensures Align8(p + x) == p + Align8(x)
  {
    Align8IsAligned(x);
    Align8Unique(p + x, p + Align8(x));
  }

  /**
   From the header of a well-formed frame, be its offset negative or not, the reader and the committer compute the very
   offset the allocator chose; none goes beyond the end of the ring.
   */
  lemma FormulasAgree(g: Geometry, slot: Slot, hd: Header)
    requires AlignedRing(g) && SlotOk(g, slot) && Aligned(slot.hdr)
    requires slot.pay == slot.hdr + hd.off && slot.cap == Align8(hd.cb)
    ensures SkipOffset(slot.hdr, hd) == CommitOffset(slot.hdr, hd) == slot.pay + slot.cap
            == AllocateOffset(g, slot.hdr, hd.cb, slot.pay != slot.hdr + 8)
    ensures g.start <= slot.pay + slot.cap <= g.end
  {
    hide U32, AlignU32, Align8, Aligned;
    PayloadAligned(g, slot);
    Align8Shift(slot.pay, hd.cb);
    AlignU32IsAlign8(hd.cb);
    AlignU32IsAlign8(slot.pay + hd.cb);
    U32Identity(slot.pay);
    U32Identity(slot.pay + hd.cb);
    U32Identity(slot.pay + slot.cap);
  }

  lemma PayloadAligned(g: Geometry, slot: Slot)
    requires AlignedRing(g) && SlotOk(g, slot) && Aligned(slot.hdr)
    ensures Aligned(slot.pay)
  {
  }
}
