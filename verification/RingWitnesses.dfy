/** Inputs on which the ring operations fall short. */
module RingWitnesses {
  import opened MachineWords
  import opened Wrappers
  import opened FrameHeader
  import opened RingGeometry
  import opened FrameWalk
  import opened RingModel
  import opened RingLaws
  import opened PaddingLaws
  import opened SendLaws

  /** An empty ring of `size` bytes. */
  function EmptyRingOf(m: seq<byte>, size: int): RingState {
    RingState(Geometry(0, size), m, 0, 0, 0, 0, 0, 0)
  }

  /** Two frames of 16 bytes in a ring of 48: the second is the exact fit, and the first is lost with it. */
  lemma SecondFrameLosesFirst(m: seq<byte>, a: seq<byte>, b: seq<byte>)
    requires |m| == 48 && |a| == |b| == 16
    ensures var s := EmptyRingOf(m, 48);
      && Inv(s) && Send(s, TYPE_FRAME, a).1 && Inv(Send(s, TYPE_FRAME, a).0)
      && var t := Send(s, TYPE_FRAME, a).0;
      && Committed(t) == [Frame(TYPE_FRAME, a)] && Send(t, TYPE_FRAME, b).1
      && Inv(Send(t, TYPE_FRAME, b).0) && Committed(Send(t, TYPE_FRAME, b).0) == []
  {
    var s := EmptyRingOf(m, 48);
    assert Align8(16) == 16;
    assert Committed(s) == [];
    SendOffsets(s, TYPE_FRAME, a, Slot(0, 8, 16));
    var t := Send(s, TYPE_FRAME, a).0;
    SendKeepsRest(s, a);
    hide Linked, Slots, Queue, Send, Decode, Align8;
    SendAppends(s, TYPE_FRAME, a);
    SendOffsets(t, TYPE_FRAME, b, Slot(24, 32, 16));
    ExactFitEmpties(t, TYPE_FRAME, b);
  }

  lemma SendKeepsRest(s: RingState, data: seq<byte>)
    requires Shape(s)
    ensures var t := Send(s, TYPE_FRAME, data).0; t.g == s.g && |t.m| == |s.m| && t.offRead == s.offRead
  {
  }

  /** A frame of 65536 bytes: the header's size field holds 0, and the two ways of sending it part company. */
  lemma TruncatedSize(m: seq<byte>, data: seq<byte>)
    requires |m| == 0x2_0000 && |data| == 0x1_0000
    ensures var s := EmptyRingOf(m, 0x2_0000);
      && Inv(s) && WriteFrame(s, data).1 && Send(s, TYPE_FRAME, data).1
      && WriteFrame(s, data) != Send(s, TYPE_FRAME, data)
      && ReadHeader(WriteFrame(s, data).0.m, 0).cb == 0
  {
    var s, slot := EmptyRingOf(m, 0x2_0000), Slot(0, 8, 0x1_0000);
    Align8Unique(0x1_0000, 0x1_0000);
    WriteFrameRefinesSend(s, data);
    assert Place(s.g, 0, 0, Align8(|data|)) == Some(slot);
    DecodeEncode(FrameHeaderFor(TYPE_FRAME, |data|, slot));
    hide Decode, Encode, Send, Align8;
    assert WriteFrame(s, data).0.m[0..8] == Encode(FrameHeaderFor(TYPE_FRAME, |data|, slot));
  }

  /** The first frame of an empty ring is allocated for 16 bytes of which 13 are used: the consumer gets all 16. */
  lemma ThirteenOfSixteen(m: seq<byte>)
    requires |m| == 48
    ensures var s := Allocate(EmptyRingOf(m, 48), TYPE_FRAME, 16).0;
      && Inv(s) && s.offWriteCom != s.offWriteInt && FrameStarts(s.m, s.g, s.offWriteCom)
      && UsedSize(ReadHeader(s.m, s.offWriteCom), 13) == 13 <= ReadHeader(s.m, s.offWriteCom).cb
      && Inv(CommitEx(s, s.offWriteCom, 13))
      && var f := FrameAt(s.m, s.g, s.offWriteCom);
      && |f.data| == 16 && Delivered(Committed(CommitEx(s, s.offWriteCom, 13))) == Delivered(Committed(s)) + [f]
  {
    hide *;
    EmptyRingPlaces(m);
    ShortenedFirst(EmptyRingOf(m, 48), 16, Allocate(EmptyRingOf(m, 48), TYPE_FRAME, 16).0, Slot(0, 8, 16), 13);
  }

  /** The first frame of an empty ring, shortened by less than a multiple of eight. */
  lemma ShortenedFirst(empty: RingState, cb: nat, s: RingState, slot: Slot, used: nat)
    requires Inv(empty) && empty.offWriteCom == empty.offWriteInt && used <= cb < 0x1_0000 && Align8(cb) == Align8(used)
    requires Place(empty.g, empty.offWriteInt, empty.offRead, Align8(cb)) == Some(slot)
    requires !ExactFit(empty.g, empty.offWriteInt, empty.offRead, Align8(cb)) && s == Allocate(empty, TYPE_FRAME, cb).0
    ensures Inv(s) && s.offWriteCom != s.offWriteInt && FrameStarts(s.m, s.g, s.offWriteCom)
    ensures UsedSize(ReadHeader(s.m, s.offWriteCom), used) == used <= ReadHeader(s.m, s.offWriteCom).cb
    ensures Inv(CommitEx(s, s.offWriteCom, used))
    ensures var f := FrameAt(s.m, s.g, s.offWriteCom);
      |f.data| == cb && Delivered(Committed(CommitEx(s, s.offWriteCom, used))) == Delivered(Committed(s)) + [f]
  {
    hide Inv, FrameAt, FrameStarts, CommitEx, Allocate, Place, ExactFit, Align8, Delivered, Committed, Decode, UsedSize;
    FirstFrame(empty, cb, s, slot);
    InvHasShape(s);
    Untrimmed(s, FrameAt(s.m, s.g, s.offWriteCom), used);
  }

  lemma EmptyRingPlaces(m: seq<byte>)
    requires |m| == 48
    ensures var empty := EmptyRingOf(m, 48);
      && Inv(empty) && Align8(16) == Align8(13) && empty.offWriteCom == empty.offWriteInt
      && Place(empty.g, empty.offWriteInt, empty.offRead, Align8(16)) == Some(Slot(0, 8, 16))
      && !ExactFit(empty.g, empty.offWriteInt, empty.offRead, Align8(16))
  {
  }

  /** A shortened commit that rounds to the allocated size delivers the whole allocated frame. */
  lemma Untrimmed(s: RingState, f: Frame, used: nat)
    requires Inv(s) && s.offWriteCom != s.offWriteInt && FrameStarts(s.m, s.g, s.offWriteCom)
    requires f == FrameAt(s.m, s.g, s.offWriteCom) && f.kind == TYPE_FRAME
    requires used <= |f.data| && Align8(used) == Align8(|f.data|)
    ensures UsedSize(ReadHeader(s.m, s.offWriteCom), used) == used <= ReadHeader(s.m, s.offWriteCom).cb
    ensures Inv(CommitEx(s, s.offWriteCom, used))
    ensures Delivered(Committed(CommitEx(s, s.offWriteCom, used))) == Delivered(Committed(s)) + [f]
  {
    hide Decode, Encode, Linked, Slots, Queue, Align8;
    var s' := CommitEx(s, s.offWriteCom, used);
    hide CommitEx;
    CommitExKeeps(s, used, f, used, s');
    hide Inv, Delivered;
    DeliveredCommit(Committed(s), Committed(s'), f, f, false);
  }

  /** The first frame of an empty ring. */
  lemma FirstFrame(empty: RingState, cb: nat, s: RingState, slot: Slot)
    requires Inv(empty) && empty.offWriteCom == empty.offWriteInt && cb < 0x1_0000
        && s == Allocate(empty, TYPE_FRAME, cb).0
    requires Place(empty.g, empty.offWriteInt, empty.offRead, Align8(cb)) == Some(slot)
    requires !ExactFit(empty.g, empty.offWriteInt, empty.offRead, Align8(cb))
    ensures Inv(s) && s.offWriteCom != s.offWriteInt && FrameStarts(s.m, s.g, s.offWriteCom)
    ensures FrameAt(s.m, s.g, s.offWriteCom).kind == TYPE_FRAME && |FrameAt(s.m, s.g, s.offWriteCom).data| == cb
  {
    hide Decode, Encode, Linked, Slots, Queue, Align8, Place;
    AllocateKeeps(empty, TYPE_FRAME, cb);
    hide Inv, Pending;
    NotWalked(s);
  }
}
