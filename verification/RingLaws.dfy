/** What single ring operations do to the queue of committed frames and to the pending allocations. */
module RingLaws {
  import opened MachineWords
  import opened Wrappers
  import opened FrameHeader
  import opened RingGeometry
  import opened FrameWalk
  import opened RingModel

  lemma InvHasShape(s: RingState)
    requires Inv(s)
    ensures Shape(s)
    ensures Dist(s.g, s.offRead, s.offWriteInt)
            == Dist(s.g, s.offRead, s.offWriteCom) + Dist(s.g, s.offWriteCom, s.offWriteInt)
  {
  }

  /** Bytes outside the committed and pending frames do not matter. */
  lemma ScratchKeeps(s: RingState, s': RingState)
    requires Inv(s) && s' == s.(m := s'.m) && MemoryOk(s'.m, s.g)
    requires Agree(s.m, s'.m, s.g, s.offRead, Dist(s.g, s.offRead, s.offWriteInt))
    ensures Inv(s') && Committed(s') == Committed(s) && Pending(s') == Pending(s)
  {
    hide Decode, Linked, Slots, Queue, FrameAt;
    var g, r, c, w := s.g, s.offRead, s.offWriteCom, s.offWriteInt;
    assert Dist(g, r, w) <= g.Size() by {
      DistAdd(g, r, w, w);
    }
    AgreeWithin(s.m, s'.m, g, r, Dist(g, r, w), r, Dist(g, r, c));
    AgreeWithin(s.m, s'.m, g, r, Dist(g, r, w), c, Dist(g, c, w));
    WalkStable(s.m, s'.m, g, r, c);
    WalkStable(s.m, s'.m, g, c, w);
  }

  /** The header an allocation writes leads back to the place the allocator chose. */
  lemma HeaderLeadsToSlot(m: seq<byte>, m': seq<byte>, g: Geometry, kind: u16, cb: nat, slot: Slot)
    requires MemoryOk(m, g) && SlotOk(g, slot) && slot.cap == Align8(cb) && cb < 0x1_0000 && IsValidFrameType(kind)
    requires m' == Put(m, slot.hdr, Encode(FrameHeaderFor(kind, cb, slot)))
    ensures ReadHeader(m', slot.hdr) == Header(kind, cb, slot.pay - slot.hdr)
    ensures FrameStarts(m', g, slot.hdr) && SlotAt(m', slot.hdr) == slot
    ensures FrameAt(m', g, slot.hdr).kind == kind && |FrameAt(m', g, slot.hdr).data| == cb
  {
    DecodeEncode(FrameHeaderFor(kind, cb, slot));
  }

  /**
   Outside the exact-fit corner an allocation keeps the invariant, adds the new place behind the pending ones and
   changes nothing the reader or a commit will look at.
   */
  lemma AllocateKeeps(s: RingState, kind: u16, cb: nat)
    requires Inv(s) && cb < 0x1_0000 && IsValidFrameType(kind)
    requires Place(s.g, s.offWriteInt, s.offRead, Align8(cb)).Some?
    requires !ExactFit(s.g, s.offWriteInt, s.offRead, Align8(cb))
    ensures var s' := Allocate(s, kind, cb).0;
            var slot := Place(s.g, s.offWriteInt, s.offRead, Align8(cb)).value;
            && Inv(s') && Committed(s') == Committed(s) && Pending(s') == Pending(s) + [slot]
            && slot.hdr == s.offWriteInt && SlotAt(s'.m, slot.hdr) == slot
            && FrameStarts(s'.m, s.g, slot.hdr)
            && ReadHeader(s'.m, slot.hdr) == Header(kind, cb, slot.pay - slot.hdr)
            && PendingFrames(s') == PendingFrames(s) + [FrameAt(s'.m, s.g, slot.hdr)]
  {
    hide Decode, Linked, Slots, Queue, FrameAt;
    var g, r, c, w := s.g, s.offRead, s.offWriteCom, s.offWriteInt;
    PlaceSound(g, w, r, Align8(cb));
    var slot := Place(g, w, r, Align8(cb)).value;
    var s' := Allocate(s, kind, cb).0;
    HeaderLeadsToSlot(s.m, s'.m, g, kind, cb, slot);
    WriteLeavesBefore(s.m, s'.m, g, r, slot);
    OneMoreFrame(s, s', slot);
  }

  /** A frame that has come to lie behind the pending frames extends the invariant and both queues. */
  lemma OneMoreFrame(s: RingState, s': RingState, slot: Slot)
    requires Inv(s) && Shape(s'.(offWriteInt := s.offWriteInt))
    requires s'.g == s.g && s'.offRead == s.offRead && s'.offWriteCom == s.offWriteCom
    requires SlotOk(s.g, slot) && slot.hdr == s.offWriteInt && s'.offWriteInt == NextHeader(s.g, slot)
    requires FrameStarts(s'.m, s.g, slot.hdr) && SlotAt(s'.m, slot.hdr) == slot
    requires Agree(s.m, s'.m, s.g, s.offRead, Dist(s.g, s.offRead, s.offWriteInt))
    requires Dist(s.g, s.offRead, s.offWriteInt) + Foot(s.g, slot) < s.g.Size()
    ensures Inv(s') && Committed(s') == Committed(s) && Pending(s') == Pending(s) + [slot]
    ensures PendingFrames(s') == PendingFrames(s) + [FrameAt(s'.m, s.g, slot.hdr)]
  {
    hide Decode, Linked, Slots, Queue, FrameAt;
    var g, r, c, w, n := s.g, s.offRead, s.offWriteCom, s.offWriteInt, s'.offWriteInt;
    Align8IsAligned(ReadHeader(s'.m, w).cb);
    NextAligned(g, slot);
    NextCloser(g, slot, n);
    DistAdd(g, r, w, n);
    DistAdd(g, c, w, n);
    DistAdd(g, r, c, n);
    AgreeWithin(s.m, s'.m, g, r, Dist(g, r, w), r, Dist(g, r, c));
    AgreeWithin(s.m, s'.m, g, r, Dist(g, r, w), c, Dist(g, c, w));
    WalkStable(s.m, s'.m, g, r, c);
    WalkStable(s.m, s'.m, g, c, w);
    WalkOne(s'.m, g, w);
    WalkJoins(s'.m, g, c, w, n);
  }

  // ----- non-interference

  /** The frames a walk meets, and everything behind them, occupy different bytes. */
  lemma LaterPlaceDisjoint(g: Geometry, r: int, first: Slot, later: Slot, x: int)
    requires GeometryOk(g) && InRing(g, r) && SlotOk(g, first) && SlotOk(g, later)
    requires Dist(g, r, first.hdr) + Foot(g, first) <= Dist(g, r, later.hdr)
    requires Dist(g, r, later.hdr) + Foot(g, later) <= g.Size()
    ensures !(Occupies(first, x) && Occupies(later, x))
  {
  }

  /** A place behind everything pending shares no byte with a frame that is committed or pending. */
  lemma FreePlaceDisjoint(s: RingState, slot: Slot, k: nat, x: int)
    requires Inv(s) && SlotOk(s.g, slot) && slot.hdr == s.offWriteInt && Occupies(slot, x)
    requires Dist(s.g, s.offRead, s.offWriteInt) + Foot(s.g, slot) <= s.g.Size()
    ensures s.g.start <= x < s.g.end
    ensures k < |CommittedSlots(s)| ==> !Occupies(CommittedSlots(s)[k], x)
    ensures k < |Pending(s)| ==> !Occupies(Pending(s)[k], x)
  {
    hide Decode, Linked, Slots, Align8;
    var g, r, c, w := s.g, s.offRead, s.offWriteCom, s.offWriteInt;
    OccupiedWithinFootprint(g, r, slot, x);
    hide Occupies;
    if k < |CommittedSlots(s)| {
      WalkReaches(s.m, g, r, c, k);
      LaterPlaceDisjoint(g, r, CommittedSlots(s)[k], slot, x);
    }
    if k < |Pending(s)| {
      WalkReaches(s.m, g, c, w, k);
      DistAdd(g, r, c, Pending(s)[k].hdr);
      DistAdd(g, r, w, w);
      LaterPlaceDisjoint(g, r, Pending(s)[k], slot, x);
    }
  }

  /**
   The bytes an allocation hands out, header and payload, lie inside the ring and belong to no frame that is committed
   or pending. This holds even for the exact fit.
   */
  lemma AllocationDisjoint(s: RingState, cap: nat, slot: Slot, k: nat, x: int)
    requires Inv(s) && Place(s.g, s.offWriteInt, s.offRead, cap) == Some(slot) && Occupies(slot, x)
    ensures s.g.start <= x < s.g.end
    ensures k < |CommittedSlots(s)| ==> !Occupies(CommittedSlots(s)[k], x)
    ensures k < |Pending(s)| ==> !Occupies(Pending(s)[k], x)
  {
    hide Inv, CommittedSlots, Pending;
    InvHasShape(s);
    PlaceSound(s.g, s.offWriteInt, s.offRead, cap);
    FreePlaceDisjoint(s, slot, k, x);
  }

  // ----- filling

  /**
   Storing into the payload of the `k`-th pending frame changes that frame's contents and nothing else: every header,
   every committed frame and every other pending frame reads as before.
   */
  lemma FillKeeps(s: RingState, k: nat, at: int, data: seq<byte>)
    requires Inv(s) && k < |Pending(s)|
    requires Pending(s)[k].pay <= at && at + |data| <= Pending(s)[k].pay + Pending(s)[k].cap
    ensures 0 <= at && at + |data| <= |s.m|
    ensures var s' := Fill(s, at, data);
            && Inv(s') && Committed(s') == Committed(s) && Pending(s') == Pending(s)
            && forall i | 0 <= i < |Pending(s)| && i != k :: PendingFrames(s')[i] == PendingFrames(s)[i]
  {
    hide Decode, Linked, Slots, Queue, FrameAt;
    var g, r, c, w := s.g, s.offRead, s.offWriteCom, s.offWriteInt;
    var slot := Pending(s)[k];
    WalkCut(s.m, g, c, w, k);
    var s' := Fill(s, at, data);
    PayloadChange(s.m, s'.m, g, c, w, k);
    assert Dist(g, r, slot.hdr) == Dist(g, r, c) + Dist(g, c, slot.hdr) && Dist(g, r, w) < g.Size() by {
      DistAdd(g, r, c, slot.hdr);
      DistAdd(g, r, w, w);
    }
    WriteLeavesBefore(s.m, s'.m, g, r, slot);
    AgreeWithin(s.m, s'.m, g, r, Dist(g, r, slot.hdr), r, Dist(g, r, c));
    WalkStable(s.m, s'.m, g, r, c);
  }

  /** The frame that was stored into keeps its header and reads as the bytes now in its payload. */
  lemma FilledFrame(s: RingState, s': RingState, k: nat, at: int, data: seq<byte>)
    requires Inv(s) && k < |Pending(s)|
    requires Pending(s)[k].pay <= at && at + |data| <= Pending(s)[k].pay + Pending(s)[k].cap
    requires 0 <= at && at + |data| <= |s.m| && s' == Fill(s, at, data)
    ensures var h := Pending(s)[k].hdr;
            && InRing(s.g, h) && FrameStarts(s'.m, s.g, h) && ReadHeader(s'.m, h) == ReadHeader(s.m, h)
            && Inv(s') && Pending(s') == Pending(s) && PendingFrames(s')[k] == FrameAt(s'.m, s.g, h)
  {
    hide Inv, Pending, PendingFrames, Committed, Decode, Align8, FrameStarts, FrameAt, SlotAt;
    FillKeeps(s, k, at, data);
    PendingFrameAt(s, k);
    PendingFrameAt(s', k);
    var h := Pending(s)[k].hdr;
    assert s.m[h..h + HEADER_SIZE] == s'.m[h..h + HEADER_SIZE];
  }

  /** The `k`-th pending frame stands at the `k`-th pending place. */
  lemma PendingFrameAt(s: RingState, k: nat)
    requires Inv(s) && k < |Pending(s)|
    ensures var slot := Pending(s)[k];
            && MemoryOk(s.m, s.g) && InRing(s.g, slot.hdr) && SlotOk(s.g, slot)
            && FrameStarts(s.m, s.g, slot.hdr) && SlotAt(s.m, slot.hdr) == slot
            && k < |PendingFrames(s)| && PendingFrames(s)[k] == FrameAt(s.m, s.g, slot.hdr)
  {
    hide Decode, Linked, Slots, Queue, FrameAt, Align8, Foot, Dist;
    WalkCut(s.m, s.g, s.offWriteCom, s.offWriteInt, k);
  }

  // ----- committing

  /**
   Moving the committed offset behind the oldest pending frame appends to the reader's queue whatever frames a walk
   over that frame's place now meets, provided nothing outside the place was written.
   */
  lemma OldestReleased(s: RingState, s': RingState)
    requires Inv(s) && s.offWriteCom != s.offWriteInt
    requires s'.g == s.g && s'.offRead == s.offRead && s'.offWriteInt == s.offWriteInt
    requires s'.offWriteCom == NextAt(s.m, s.g, s.offWriteCom) && MemoryOk(s'.m, s.g)
    requires forall x | s.g.start <= x < s.g.end && s.m[x] != s'.m[x] :: Occupies(SlotAt(s.m, s.offWriteCom), x)
    requires InRing(s.g, s'.offWriteCom) ==> Linked(s'.m, s.g, s.offWriteCom, s'.offWriteCom)
    ensures Inv(s') && FrameStarts(s.m, s.g, s.offWriteCom)
    ensures Committed(s') == Committed(s) + Queue(s'.m, s.g, s.offWriteCom, s'.offWriteCom)
    ensures Pending(s) == [SlotAt(s.m, s.offWriteCom)] + Pending(s')
    ensures PendingFrames(s) == [FrameAt(s.m, s.g, s.offWriteCom)] + PendingFrames(s')
  {
    hide Decode, Linked, Slots, Queue, FrameAt;
    var g, r, c, n, w := s.g, s.offRead, s.offWriteCom, s'.offWriteCom, s.offWriteInt;
    WalkUncons(s.m, g, c, w);
    var slot := SlotAt(s.m, c);
    Align8IsAligned(ReadHeader(s.m, c).cb);
    NextAligned(g, slot);
    DistAdd(g, r, c, w);
    DistAdd(g, c, n, w);
    DistAdd(g, r, n, w);
    DistAdd(g, r, c, n);
    WriteLeavesBefore(s.m, s'.m, g, r, slot);
    WalkStable(s.m, s'.m, g, r, c);
    WriteLeavesAfter(s.m, s'.m, g, slot, Dist(g, n, w));
    WalkStable(s.m, s'.m, g, n, w);
    WalkJoins(s'.m, g, r, c, n);
  }

  /** Committing the oldest pending frame moves it, as it stands in memory, to the end of the reader's queue. */
  lemma CommitKeeps(s: RingState)
    requires Inv(s) && s.offWriteCom != s.offWriteInt
    ensures var s' := Commit(s, s.offWriteCom);
            && Inv(s') && FrameStarts(s.m, s.g, s.offWriteCom)
            && Committed(s') == Committed(s) + [FrameAt(s.m, s.g, s.offWriteCom)]
            && Pending(s) == [SlotAt(s.m, s.offWriteCom)] + Pending(s')
            && PendingFrames(s) == [FrameAt(s.m, s.g, s.offWriteCom)] + PendingFrames(s')
  {
    hide Decode, Linked, Slots, Queue, FrameAt;
    WalkUncons(s.m, s.g, s.offWriteCom, s.offWriteInt);
    DistAdd(s.g, s.offRead, s.offWriteCom, s.offWriteInt);
    WalkOne(s.m, s.g, s.offWriteCom);
    OldestReleased(s, Commit(s, s.offWriteCom));
  }

  lemma CommitOldest(s: RingState)
    requires Inv(s) && s.offWriteCom != s.offWriteInt
    ensures Inv(Commit(s, s.offWriteCom)) && PendingFrames(s) != []
    ensures Committed(Commit(s, s.offWriteCom)) == Committed(s) + [PendingFrames(s)[0]]
    ensures Pending(s) != [] && Pending(Commit(s, s.offWriteCom)) == Pending(s)[1..]
  {
    hide Inv, Committed, Pending, PendingFrames, FrameStarts, FrameAt, Decode, Align8, Commit;
    CommitKeeps(s);
  }

  /** Committing the oldest pending frame, but for the counters. */
  lemma OneCommit(s: RingState) returns (t: RingState)
    requires Inv(s) && Pending(s) != []
    ensures var h := Pending(s)[0].hdr;
            && h == s.offWriteCom && InRing(s.g, h) && FrameStarts(s.m, s.g, h) && SlotAt(s.m, h) == Pending(s)[0]
            && t == s.(offWriteCom := NextAt(s.m, s.g, h)) && Inv(t) && Pending(t) == Pending(s)[1..]
            && Committed(t) == Committed(s) + [FrameAt(s.m, s.g, h)]
  {
    hide Decode, Linked, Slots, Queue, FrameAt, FrameStarts, Align8;
    assert s.offWriteCom != s.offWriteInt by {
      NotWalked(s);
    }
    CommitKeeps(s);
    t := s.(offWriteCom := NextAt(s.m, s.g, s.offWriteCom));
    assert t == Commit(s, s.offWriteCom).(cbWritten := s.cbWritten, cFrames := s.cFrames);
  }

  /** Committing the two oldest pending frames, but for the counters. */
  lemma TwoCommits(s: RingState) returns (t: RingState)
    requires Inv(s) && |Pending(s)| >= 2
    ensures var h, n := Pending(s)[0].hdr, Pending(s)[1].hdr;
            && InRing(s.g, h) && FrameStarts(s.m, s.g, h) && InRing(s.g, n) && FrameStarts(s.m, s.g, n)
            && t == s.(offWriteCom := NextHeader(s.g, Pending(s)[1])) && Inv(t) && Pending(t) == Pending(s)[2..]
            && Committed(t) == Committed(s) + [FrameAt(s.m, s.g, h), FrameAt(s.m, s.g, n)]
  {
    hide Decode, Inv, Committed, Pending, FrameAt, FrameStarts, Align8;
    var s1 := OneCommit(s);
    assert Pending(s)[1] == Pending(s1)[0];
    t := OneCommit(s1);
  }

  lemma NotWalked(s: RingState)
    requires Inv(s)
    ensures s.offWriteCom == s.offWriteInt ==> Pending(s) == []
  {
  }

  // ----- reading

  /** Skipping takes exactly the oldest frame off the queue and brings the reader closer to the committed offset. */
  lemma SkipDequeues(s: RingState)
    requires Inv(s) && s.offRead != s.offWriteCom
    ensures var s' := Skip(s);
            && Inv(s') && FrameStarts(s.m, s.g, s.offRead)
            && Committed(s) == [FrameAt(s.m, s.g, s.offRead)] + Committed(s')
            && Pending(s') == Pending(s) && PendingFrames(s') == PendingFrames(s)
            && 8 <= Dist(s.g, s.offRead, s'.offRead)
            && Dist(s.g, s.offRead, s'.offRead) + Dist(s.g, s'.offRead, s.offWriteCom)
              == Dist(s.g, s.offRead, s.offWriteCom)
  {
    hide Decode, Linked, Slots, Queue, FrameAt;
    var g, r, c, w := s.g, s.offRead, s.offWriteCom, s.offWriteInt;
    var n := Skip(s).offRead;
    WalkUncons(s.m, g, r, c);
    Align8IsAligned(ReadHeader(s.m, r).cb);
    NextAligned(g, SlotAt(s.m, r));
    DistAdd(g, r, n, w);
    DistAdd(g, n, c, w);
  }
}
