/**
 The ring operations as functions on the ring's value, and the ring invariant. The class in
 RingBuffers.dfy carries the operations out in place and is proved to compute these functions.
 */
module RingModel {
  import opened MachineWords
  import opened Wrappers
  import opened FrameHeader
  import opened RingGeometry
  import opened FrameWalk

  /** INTNETRINGBUF; index `i` of `m` is the byte at offset `i` from the structure. */
  datatype RingState = RingState(
    g: Geometry, m: seq<byte>,
    offRead: int, offWriteCom: int, offWriteInt: int,
    cbWritten: int, cFrames: int, cOverflows: int)

  predicate Cursor(g: Geometry, x: int) {
    InRing(g, x) && Aligned(x)
  }

  /** Memory covers the ring and the three offsets are aligned and in range. */
  predicate Shape(s: RingState) {
    && MemoryOk(s.m, s.g) && AlignedRing(s.g)
    && Cursor(s.g, s.offRead) && Cursor(s.g, s.offWriteCom) && Cursor(s.g, s.offWriteInt)
  }

  /** The committed offset lies between the reader and the writer, and well-formed frames fill both stretches. */
  predicate Inv(s: RingState) {
    && Shape(s)
    && Dist(s.g, s.offRead, s.offWriteInt)
       == Dist(s.g, s.offRead, s.offWriteCom) + Dist(s.g, s.offWriteCom, s.offWriteInt)
    && Linked(s.m, s.g, s.offRead, s.offWriteCom)
    && Linked(s.m, s.g, s.offWriteCom, s.offWriteInt)
  }

  /** The frames ready for the reader, oldest first. */
  function Committed(s: RingState): seq<Frame>
    requires Inv(s)
  {
    Queue(s.m, s.g, s.offRead, s.offWriteCom)
  }

  /** The places of the committed frames. */
  function CommittedSlots(s: RingState): seq<Slot>
    requires Inv(s)
  {
    Slots(s.m, s.g, s.offRead, s.offWriteCom)
  }

  /** The places of allocated frames that are not committed yet, oldest first. */
  function Pending(s: RingState): seq<Slot>
    requires Inv(s)
  {
    Slots(s.m, s.g, s.offWriteCom, s.offWriteInt)
  }

  /** What pending frames would read as if they were committed now. */
  function PendingFrames(s: RingState): seq<Frame>
    requires Inv(s)
  {
    Queue(s.m, s.g, s.offWriteCom, s.offWriteInt)
  }

  /** INTNETRINGBUF_ASSERT_SANITY. */
  predicate Sane(s: RingState) {
    && Cursor(s.g, s.offWriteCom) && Cursor(s.g, s.offRead) && Cursor(s.g, s.offWriteInt)
    && if s.offRead <= s.offWriteCom
       then s.offWriteCom <= s.offWriteInt || s.offWriteInt < s.offRead
       else s.offWriteCom <= s.offWriteInt
  }

  /** What the sanity macro leaves out: with the reader ahead of the committer it must also be ahead of the writer. */
  lemma SanityGap(s: RingState)
    requires Shape(s)
    ensures Dist(s.g, s.offRead, s.offWriteInt)
            == Dist(s.g, s.offRead, s.offWriteCom) + Dist(s.g, s.offWriteCom, s.offWriteInt)
            <==> Sane(s) && (s.offWriteCom < s.offRead ==> s.offWriteInt < s.offRead)
  {
  }

  /** Offsets that the sanity macro lets pass although the writer has overtaken the reader. */
  lemma SaneOutOfOrder(m: seq<byte>)
    requires |m| == 48
    ensures var s := RingState(Geometry(0, 48), m, 16, 8, 24, 0, 0, 0);
      && Shape(s) && Sane(s)
      && Dist(s.g, s.offRead, s.offWriteInt)
         != Dist(s.g, s.offRead, s.offWriteCom) + Dist(s.g, s.offWriteCom, s.offWriteInt)
  {
  }

  function FrameHeaderFor(kind: u16, cb: nat, slot: Slot): Header
    requires -0x8000_0000 <= slot.pay - slot.hdr < 0x8000_0000
  {
    Header(kind, U16(cb), slot.pay - slot.hdr)
  }

  /** intnetRingAllocateFrameInternal: decides where the frame goes and writes its header. */
  function Allocate(s: RingState, kind: u16, cb: nat): (RingState, Option<Slot>)
    requires Shape(s)
  {
    var place := Place(s.g, s.offWriteInt, s.offRead, Align8(cb));
    if place.None? then (s.(cOverflows := s.cOverflows + 1), None)
    else
      PlaceSound(s.g, s.offWriteInt, s.offRead, Align8(cb));
      var slot := place.value;
      (s.(m := Put(s.m, slot.hdr, Encode(FrameHeaderFor(kind, cb, slot))), offWriteInt := NextHeader(s.g, slot)), place)
  }

  /** The producer stores bytes of an allocated frame. */
  function Fill(s: RingState, at: int, data: seq<byte>): RingState
    requires 0 <= at && at + |data| <= |s.m|
  {
    s.(m := Put(s.m, at, data))
  }

  /** IntNetRingCommitFrame for the frame whose header lies at `h`. */
  function Commit(s: RingState, h: int): RingState
    requires Shape(s) && InRing(s.g, h)
  {
    s.(offWriteCom := NextAt(s.m, s.g, h), cbWritten := s.cbWritten + ReadHeader(s.m, h).cb, cFrames := s.cFrames + 1)
  }

  /** `cbUsed` of IntNetRingCommitFrameEx with the GSO context added where there is one. */
  function UsedSize(h: Header, cbUsed: nat): nat {
    if h.kind == TYPE_GSO then cbUsed + 8 else cbUsed
  }

  /** Writes `second` at `p` and then `first` at `h`. */
  function PutTwoHeaders(m: seq<byte>, h: int, first: Header, p: int, second: Header): (r: seq<byte>)
    requires 0 <= h && h + 8 <= |m| && 0 <= p && p + 8 <= |m|
    ensures |r| == |m|
  {
    Put(Put(m, p, Encode(second)), h, Encode(first))
  }

  /** The memory IntNetRingCommitFrameEx leaves: the frame shortened and a padding frame behind it. */
  function Padded(m: seq<byte>, g: Geometry, h: int, cbUsed: nat): (r: seq<byte>)
    requires MemoryOk(m, g) && InRing(g, h) && FrameStarts(m, g, h)
    requires UsedSize(ReadHeader(m, h), cbUsed) <= ReadHeader(m, h).cb
    ensures |r| == |m|
  {
    var hd := ReadHeader(m, h);
    var used := UsedSize(hd, cbUsed);
    var cap, capUsed := Align8(hd.cb), Align8(used);
    if cap == capUsed then m
    else
      Align8Gap(used, hd.cb);
      PutTwoHeaders(m, h, hd.(cb := U16(used)),
                    SlotAt(m, h).pay + capUsed, Header(TYPE_PADDING, U16(cap - capUsed - 8), 8))
  }

  /** IntNetRingCommitFrameEx for the frame whose header lies at `h`. */
  function CommitEx(s: RingState, h: int, cbUsed: nat): RingState
    requires Shape(s) && InRing(s.g, h) && FrameStarts(s.m, s.g, h)
    requires UsedSize(ReadHeader(s.m, h), cbUsed) <= ReadHeader(s.m, h).cb
  {
    s.(m := Padded(s.m, s.g, h, cbUsed), offWriteCom := NextAt(s.m, s.g, h),
       cbWritten := s.cbWritten + UsedSize(ReadHeader(s.m, h), cbUsed), cFrames := s.cFrames + 1)
  }

  /** IntNetRingWriteFrame; the flag is false on overflow. */
  function WriteFrame(s: RingState, data: seq<byte>): (RingState, bool)
    requires Shape(s)
  {
    var place := Place(s.g, s.offWriteInt, s.offRead, Align8(|data|));
    if place.None? then (s.(cOverflows := s.cOverflows + 1), false)
    else
      PlaceSound(s.g, s.offWriteInt, s.offRead, Align8(|data|));
      var slot := place.value;
      var offNew := NextHeader(s.g, slot);
      var m := Put(s.m, slot.hdr, Encode(FrameHeaderFor(TYPE_FRAME, |data|, slot)));
      (s.(m := Put(m, slot.pay, data), offWriteInt := offNew, offWriteCom := offNew,
          cbWritten := s.cbWritten + |data|, cFrames := s.cFrames + 1), true)
  }

  /** IntNetRingSkipFrame. */
  function Skip(s: RingState): RingState
    requires Shape(s)
  {
    s.(offRead := NextAt(s.m, s.g, s.offRead))
  }
}
