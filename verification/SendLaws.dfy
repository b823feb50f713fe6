/** Whole sends: allocate, fill and commit in one go, the one-call writer, free space and GSO frames. */
module SendLaws {
  import opened MachineWords
  import opened Wrappers
  import opened FrameHeader
  import opened RingGeometry
  import opened FrameWalk
  import opened RingModel
  import opened RingLaws

  /** Allocates room for `data`, stores it there and commits; the flag is false on overflow. */
  function Send(s: RingState, kind: u16, data: seq<byte>): (RingState, bool)
    requires Shape(s)
  {
    var (t, place) := Allocate(s, kind, |data|);
    if place.None? then (t, false)
    else
      PlaceSound(s.g, s.offWriteInt, s.offRead, Align8(|data|));
      Align8IsAligned(|data|);
      NextAligned(s.g, place.value);
      (Commit(Fill(t, place.value.pay, data), place.value.hdr), true)
  }

  /**
   With nothing pending, a successful send appends exactly the frame sent if and only if it is not the exact fit; in the
   exact-fit corner the ring reads as empty afterwards and every queued frame is lost with the new one.
   */
  lemma SendAppendsUnlessExactFit(s: RingState, kind: u16, data: seq<byte>)
    requires Inv(s) && s.offWriteCom == s.offWriteInt
    requires IsValidFrameType(kind) && |data| < 0x1_0000 && Send(s, kind, data).1
    ensures Inv(Send(s, kind, data).0)
    ensures Committed(Send(s, kind, data).0) == Committed(s) + [Frame(kind, data)]
            <==> !ExactFit(s.g, s.offWriteInt, s.offRead, Align8(|data|))
    ensures ExactFit(s.g, s.offWriteInt, s.offRead, Align8(|data|)) ==> Committed(Send(s, kind, data).0) == []
  {
    hide Decode, Linked, Slots, Queue;
    if ExactFit(s.g, s.offWriteInt, s.offRead, Align8(|data|)) {
      ExactFitEmpties(s, kind, data);
    } else {
      SendAppends(s, kind, data);
    }
  }

  lemma ExactFitEmpties(s: RingState, kind: u16, data: seq<byte>)
    requires Inv(s) && s.offWriteCom == s.offWriteInt
    requires IsValidFrameType(kind) && |data| < 0x1_0000 && Send(s, kind, data).1
    requires ExactFit(s.g, s.offWriteInt, s.offRead, Align8(|data|))
    ensures Inv(Send(s, kind, data).0) && Committed(Send(s, kind, data).0) == []
  {
    hide Decode, Align8;
    SendOffsets(s, kind, data, Place(s.g, s.offWriteInt, s.offRead, Align8(|data|)).value);
  }

  lemma SendAppends(s: RingState, kind: u16, data: seq<byte>)
    requires Inv(s) && s.offWriteCom == s.offWriteInt
    requires IsValidFrameType(kind) && |data| < 0x1_0000 && Send(s, kind, data).1
    requires !ExactFit(s.g, s.offWriteInt, s.offRead, Align8(|data|))
    ensures Inv(Send(s, kind, data).0)
    ensures Committed(Send(s, kind, data).0) == Committed(s) + [Frame(kind, data)]
  {
    hide Decode, Linked, Slots, Queue, Align8, Put;
    var t := Allocate(s, kind, |data|).0;
    var slot := Place(s.g, s.offWriteInt, s.offRead, Align8(|data|)).value;
    NoSlots(s.m, s.g, s.offWriteCom);
    AllocateKeeps(s, kind, |data|);
    assert Pending(t) == [slot];
    PlaceSound(s.g, s.offWriteInt, s.offRead, Align8(|data|));
    hide Place, ExactFit;
    assert Send(s, kind, data) == (Commit(Fill(t, slot.pay, data), slot.hdr), true);
    SentFrame(t, Fill(t, slot.pay, data), kind, data, slot);
  }

  /** Filling the only pending frame with as many bytes as were allocated and committing it. */
  lemma SentFrame(t: RingState, u: RingState, kind: u16, data: seq<byte>, slot: Slot)
    requires Inv(t) && Pending(t) == [slot] && slot.hdr == t.offWriteCom && SlotOk(t.g, slot)
    requires |data| < 0x1_0000 && slot.cap == Align8(|data|)
    requires ReadHeader(t.m, slot.hdr) == Header(kind, |data|, slot.pay - slot.hdr)
    requires u == Fill(t, slot.pay, data)
    ensures Inv(u) && u.offWriteCom != u.offWriteInt && Inv(Commit(u, slot.hdr))
    ensures Committed(u) == Committed(t) && PendingFrames(u) == [Frame(kind, data)]
    ensures Committed(Commit(u, slot.hdr)) == Committed(t) + [Frame(kind, data)]
  {
    hide Decode, Linked, Slots, Queue, Align8;
    FillKeeps(t, 0, slot.pay, data);
    FilledFrame(t, u, 0, slot.pay, data);
    assert u.offWriteCom != u.offWriteInt by {
      if u.offWriteCom == u.offWriteInt {
        NoSlots(u.m, u.g, u.offWriteCom);
      }
    }
    CommitKeeps(u);
    assert FrameAt(u.m, u.g, slot.hdr).data == data;
  }

  lemma NoSlots(m: seq<byte>, g: Geometry, a: int)
    requires MemoryOk(m, g) && InRing(g, a)
    ensures Linked(m, g, a, a) && Slots(m, g, a, a) == []
  {
  }

  /** A send leaves both write offsets where the allocator put them. */
  lemma SendOffsets(s: RingState, kind: u16, data: seq<byte>, slot: Slot)
    requires Shape(s) && IsValidFrameType(kind) && |data| < 0x1_0000
    requires Place(s.g, s.offWriteInt, s.offRead, Align8(|data|)) == Some(slot)
    ensures SlotOk(s.g, slot) && slot.hdr == s.offWriteInt && slot.cap == Align8(|data|)
    ensures Cursor(s.g, NextHeader(s.g, slot))
    ensures Send(s, kind, data).1
    ensures Send(s, kind, data).0.offWriteCom == Send(s, kind, data).0.offWriteInt == NextHeader(s.g, slot)
    ensures Send(s, kind, data).0.cbWritten == s.cbWritten + |data|
  {
    PlaceSound(s.g, s.offWriteInt, s.offRead, Align8(|data|));
    hide Place, Decode, Encode, FrameHeaderFor;
    Align8IsAligned(|data|);
    NextAligned(s.g, slot);
    var t := Allocate(s, kind, |data|).0;
    HeaderLeadsToSlot(s.m, t.m, s.g, kind, |data|, slot);
    HeaderSurvivesFill(t.m, s.g, data, slot);
    hide Align8, SlotOk, Aligned, ExactFit;
    assert Send(s, kind, data) == (Commit(Fill(t, slot.pay, data), slot.hdr), true);
  }

  lemma HeaderSurvivesFill(m: seq<byte>, g: Geometry, data: seq<byte>, slot: Slot)
    requires MemoryOk(m, g) && SlotOk(g, slot) && SlotAt(m, slot.hdr) == slot && |data| <= slot.cap
    ensures var r := Put(m, slot.pay, data);
            ReadHeader(r, slot.hdr) == ReadHeader(m, slot.hdr) && SlotAt(r, slot.hdr) == slot
  {
    hide Decode, Align8;
    PutElsewhere(m, slot.pay, data, slot.hdr, slot.hdr + 8);
  }

  /**
   IntNetRingWriteFrame does exactly what allocating, copying and committing do, to every offset, byte and counter, on
   success and on overflow, as long as the size fits the header's 16-bit field; beyond that they part company.
   */
  lemma WriteFrameRefinesSend(s: RingState, data: seq<byte>)
    requires Shape(s)
    ensures WriteFrame(s, data).1 == Send(s, TYPE_FRAME, data).1
    ensures WriteFrame(s, data) == Send(s, TYPE_FRAME, data) <==> |data| < 0x1_0000 || !Send(s, TYPE_FRAME, data).1
  {
    if Send(s, TYPE_FRAME, data).1 {
      if |data| < 0x1_0000 {
        hide Decode, Encode, Align8;
        SendOffsets(s, TYPE_FRAME, data, Place(s.g, s.offWriteInt, s.offRead, Align8(|data|)).value);
      } else {
        assert ReadHeader(Fill(Allocate(s, TYPE_FRAME, |data|).0, 0, []).m, s.offWriteInt).cb < 0x1_0000;
      }
    }
  }
}
