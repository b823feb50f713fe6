/** IntNetRingCommitFrameEx: shortening a frame and planting a padding frame behind it. */
module PaddingLaws {
  import opened MachineWords
  import opened Wrappers
  import opened FrameHeader
  import opened RingGeometry
  import opened FrameWalk
  import opened RingModel
  import opened RingLaws

  /** The part of a place that `used` bytes need, and the place of the padding frame behind it. */
  function UsedPart(s: Slot, used: nat): Slot { s.(cap := Align8(used)) }

  function PaddingPart(s: Slot, used: nat): Slot {
    Slot(s.pay + Align8(used), s.pay + Align8(used) + 8, s.cap - Align8(used) - 8)
  }

  /** The two parts are well-formed places that fill the original one and lead to the same next header. */
  lemma PartsFillSlot(g: Geometry, s: Slot, cb: nat, used: nat)
    requires AlignedRing(g) && SlotOk(g, s) && Aligned(s.hdr) && s.cap == Align8(cb)
    requires used <= cb && Align8(used) != Align8(cb)
    ensures var u, p := UsedPart(s, used), PaddingPart(s, used);
            && SlotOk(g, u) && SlotOk(g, p) && Cursor(g, p.hdr)
            && NextHeader(g, u) == p.hdr && NextHeader(g, p) == NextHeader(g, s)
            && Foot(g, u) + Foot(g, p) == Foot(g, s)
            && Align8(p.cap) == p.cap
            && Cursor(g, NextHeader(g, s))
  {
    Align8Gap(used, cb);
    PartsAligned(g, s, cb, used);
    hide Align8, Aligned;
    if s.pay == s.hdr + 8 {
      assert UsedPart(s, used).pay == s.hdr + 8;
    }
  }

  lemma PartsAligned(g: Geometry, s: Slot, cb: nat, used: nat)
    requires AlignedRing(g) && SlotOk(g, s) && Aligned(s.hdr) && s.cap == Align8(cb)
    requires Align8(used) + 8 <= s.cap
    ensures Cursor(g, NextHeader(g, s)) && Aligned(PaddingPart(s, used).hdr)
    ensures Align8(PaddingPart(s, used).cap) == PaddingPart(s, used).cap
  {
    Align8IsAligned(used);
    Align8IsAligned(cb);
    hide Align8;
    NextAligned(g, s);
    Align8Unique(s.cap - Align8(used) - 8, s.cap - Align8(used) - 8);
  }

  /** Writing the padding header `second` at `p` and then the frame header `first` at `h` leaves both readable. */
  lemma TwoHeaders(m: seq<byte>, h: int, first: Header, p: int, second: Header)
    requires 0 <= h && h + 8 <= |m| && 0 <= p && p + 8 <= |m| && (h + 8 <= p || p + 8 <= h)
    ensures var r := PutTwoHeaders(m, h, first, p, second);
            && ReadHeader(r, h) == first && ReadHeader(r, p) == second
            && forall x | 0 <= x < |m| && !(h <= x < h + 8) && !(p <= x < p + 8) :: r[x] == m[x]
  {
    hide Decode, Encode;
    DecodeEncode(first);
    DecodeEncode(second);
    var m1 := Put(m, p, Encode(second));
    var r := Put(m1, h, Encode(first));
    assert r[p..p + 8] == m1[p..p + 8];
  }

  lemma PaddedIsTwoHeaders(m: seq<byte>, g: Geometry, h: int, cbUsed: nat, first: Header, p: int, second: Header)
    requires MemoryOk(m, g) && InRing(g, h) && FrameStarts(m, g, h) && 0 <= p && p + 8 <= |m|
    requires var hd := ReadHeader(m, h);
             && UsedSize(hd, cbUsed) <= hd.cb && Align8(UsedSize(hd, cbUsed)) != Align8(hd.cb)
             && first == hd.(cb := UsedSize(hd, cbUsed)) && p == SlotAt(m, h).pay + Align8(first.cb)
             && second.kind == TYPE_PADDING && second.off == 8 && second.cb == SlotAt(m, h).cap - Align8(first.cb) - 8
    ensures Padded(m, g, h, cbUsed) == PutTwoHeaders(m, h, first, p, second)
  {
    U16Identity(first.cb);
    U16Identity(second.cb);
    hide U16, Decode, PutTwoHeaders, Align8;
  }

  /** The two headers a shortened frame leaves; nothing outside the frame's own place is written. */
  lemma PaddedHeaders(m: seq<byte>, g: Geometry, h: int, cbUsed: nat, hd: Header, slot: Slot, used: u16, p: Slot)
    requires MemoryOk(m, g) && InRing(g, h) && FrameStarts(m, g, h) && hd == ReadHeader(m, h) && slot == SlotAt(m, h)
    requires used == UsedSize(hd, cbUsed) <= hd.cb && Align8(used) != Align8(hd.cb)
    requires p == PaddingPart(slot, used) && SlotOk(g, p) && 0 <= p.cap < 0x1_0000
    ensures var r := Padded(m, g, h, cbUsed);
            && ReadHeader(r, h) == hd.(cb := used)
            && ReadHeader(r, p.hdr) == Header(TYPE_PADDING, p.cap, 8)
            && (forall x | g.start <= x < g.end && m[x] != r[x] :: Occupies(slot, x))
            && r[slot.pay..slot.pay + used] == m[slot.pay..slot.pay + used]
  {
    var first, second := hd.(cb := used), Header(TYPE_PADDING, p.cap, 8);
    PaddedIsTwoHeaders(m, g, h, cbUsed, first, p.hdr, second);
    hide Padded, PutTwoHeaders, Decode, Encode, Align8;
    assert h == slot.hdr && SlotOk(g, slot);
    OnlyTwoHeaders(m, Padded(m, g, h, cbUsed), g, slot, used, p, first, second);
  }

  lemma OnlyTwoHeaders(m: seq<byte>, r: seq<byte>, g: Geometry, slot: Slot, used: u16, p: Slot, first: Header,
      second: Header)
    requires MemoryOk(m, g) && SlotOk(g, slot) && SlotOk(g, p) && 0 <= p.cap && p == PaddingPart(slot, used)
    requires r == PutTwoHeaders(m, slot.hdr, first, p.hdr, second)
    ensures ReadHeader(r, slot.hdr) == first && ReadHeader(r, p.hdr) == second
    ensures forall x | g.start <= x < g.end && m[x] != r[x] :: Occupies(slot, x)
    ensures r[slot.pay..slot.pay + used] == m[slot.pay..slot.pay + used]
  {
    hide PutTwoHeaders, Decode, Encode, Align8;
    TwoHeaders(m, slot.hdr, first, p.hdr, second);
  }

  /** The two frames a shortened frame leaves: the used part, the padding, and then the very same next header. */
  lemma PaddedStarts(m: seq<byte>, r: seq<byte>, g: Geometry, h: int, slot: Slot, used: u16, p: Slot)
    requires MemoryOk(m, g) && MemoryOk(r, g) && AlignedRing(g) && Cursor(g, h) && FrameStarts(m, g, h)
        && slot == SlotAt(m, h)
    requires used <= ReadHeader(m, h).cb && Align8(used) != Align8(ReadHeader(m, h).cb)
    requires ReadHeader(r, h) == ReadHeader(m, h).(cb := used)
    requires p == PaddingPart(slot, used) && InRing(g, p.hdr)
    requires 0 <= p.cap < 0x1_0000 && ReadHeader(r, p.hdr) == Header(TYPE_PADDING, p.cap, 8)
    ensures FrameStarts(r, g, h) && SlotAt(r, h) == UsedPart(slot, used) && NextAt(r, g, h) == p.hdr
    ensures FrameStarts(r, g, p.hdr) && SlotAt(r, p.hdr) == p && NextAt(r, g, p.hdr) == NextAt(m, g, h)
    ensures InRing(g, NextAt(m, g, h)) && Foot(g, UsedPart(slot, used)) + Foot(g, p) == Foot(g, slot)
  {
    hide Decode;
    PartsFillSlot(g, slot, ReadHeader(m, h).cb, used);
  }

  /** The walk over a shortened frame. */
  lemma PaddedWalk(m: seq<byte>, r: seq<byte>, g: Geometry, h: int, used: u16, p: Slot)
    requires MemoryOk(m, g) && MemoryOk(r, g) && AlignedRing(g) && Cursor(g, h) && FrameStarts(m, g, h)
    requires Foot(g, SlotAt(m, h)) < g.Size()
    requires used <= ReadHeader(m, h).cb && Align8(used) != Align8(ReadHeader(m, h).cb)
    requires ReadHeader(r, h) == ReadHeader(m, h).(cb := used)
    requires p == PaddingPart(SlotAt(m, h), used) && InRing(g, p.hdr)
    requires 0 <= p.cap < 0x1_0000 && ReadHeader(r, p.hdr) == Header(TYPE_PADDING, p.cap, 8)
    ensures var n := NextAt(m, g, h);
            && InRing(g, n)
            && FrameStarts(r, g, h) && NextAt(r, g, h) == p.hdr
            && FrameStarts(r, g, p.hdr) && NextAt(r, g, p.hdr) == n
            && Linked(r, g, h, n) && Queue(r, g, h, n) == [FrameAt(r, g, h), FrameAt(r, g, p.hdr)]
            && Slots(r, g, h, n) == [UsedPart(SlotAt(m, h), used), p]
  {
    var slot, n := SlotAt(m, h), NextAt(m, g, h);
    hide Decode, Align8, SlotAt, FrameStarts, FrameAt;
    PaddedStarts(m, r, g, h, slot, used, p);
    NextCloser(g, slot, n);
    WalkOne(r, g, p.hdr);
    assert StepsTowards(r, g, h, n);
    WalkCons(r, g, h, n);
  }

  /** The frames IntNetRingCommitFrameEx hands to the reader, as far as they are determined by the frame committed. */
  function UsedFrame(f: Frame, cbUsed: nat): Frame
    requires (if f.kind == TYPE_GSO then cbUsed + 8 else cbUsed) <= |f.data|
  {
    f.(data := f.data[..if f.kind == TYPE_GSO then cbUsed + 8 else cbUsed])
  }

  /** Only the committed offset and the memory under the committed frame matter to the invariant and the queues. */
  lemma CommitExFields(s: RingState, cbUsed: nat, s': RingState)
    requires Inv(s) && s.offWriteCom != s.offWriteInt && FrameStarts(s.m, s.g, s.offWriteCom)
    requires UsedSize(ReadHeader(s.m, s.offWriteCom), cbUsed) <= ReadHeader(s.m, s.offWriteCom).cb
    requires s' == CommitEx(s, s.offWriteCom, cbUsed)
    ensures s'.g == s.g && s'.offRead == s.offRead && s'.offWriteInt == s.offWriteInt
    ensures s'.offWriteCom == NextAt(s.m, s.g, s.offWriteCom) == Commit(s, s.offWriteCom).offWriteCom
    ensures MemoryOk(s'.m, s.g)
    ensures Align8(UsedSize(ReadHeader(s.m, s.offWriteCom), cbUsed)) == Align8(ReadHeader(s.m, s.offWriteCom).cb)
            ==> s'.m == s.m
  {
  }

  /**
   IntNetRingCommitFrameEx leaves the committed offset exactly where IntNetRingCommitFrame would. When rounding makes
   used and allocated size equal it queues the frame with its allocated length; otherwise it queues the used bytes and
   a padding frame for the rest.
   */
  lemma CommitExKeeps(s: RingState, cbUsed: nat, f: Frame, used: nat, s': RingState)
    requires Inv(s) && s.offWriteCom != s.offWriteInt
    requires FrameStarts(s.m, s.g, s.offWriteCom) && f == FrameAt(s.m, s.g, s.offWriteCom)
    requires used == UsedSize(ReadHeader(s.m, s.offWriteCom), cbUsed) <= ReadHeader(s.m, s.offWriteCom).cb
    requires s' == CommitEx(s, s.offWriteCom, cbUsed)
    ensures s'.offWriteCom == Commit(s, s.offWriteCom).offWriteCom
    ensures Inv(s') && Pending(s) == [SlotAt(s.m, s.offWriteCom)] + Pending(s')
        && PendingFrames(s) == [f] + PendingFrames(s')
    ensures used <= |f.data|
    ensures if Align8(used) == Align8(|f.data|) then Committed(s') == Committed(s) + [f]
            else exists padding: Frame :: padding.kind == TYPE_PADDING
                                          && |padding.data| == Align8(|f.data|) - Align8(used) - 8
                                          && Committed(s') == Committed(s) + [f.(data := f.data[..used]), padding]
  {
    assert |f.data| == ReadHeader(s.m, s.offWriteCom).cb;
    var g, c := s.g, s.offWriteCom;
    hide *;
    CommitExFields(s, cbUsed, s');
    WalkUncons(s.m, g, c, s.offWriteInt);
    if Align8(used) == Align8(|f.data|) {
      WalkWholeFrame(s, f);
      OldestReleased(s, s');
    } else {
      var slot := SlotAt(s.m, c);
      var p := PaddingPart(slot, used);
      ShrunkFrame(s, cbUsed, slot, used, p);
      OldestReleased(s, s');
      var padding := FrameAt(s'.m, g, p.hdr);
      UsedPartOf(f, cbUsed, used, s.m, g, c, slot, p);
      assert Committed(s') == Committed(s) + [f.(data := f.data[..used]), padding];
    }
  }

  lemma WalkWholeFrame(s: RingState, f: Frame)
    requires Inv(s) && s.offWriteCom != s.offWriteInt
    requires FrameStarts(s.m, s.g, s.offWriteCom) && f == FrameAt(s.m, s.g, s.offWriteCom)
    ensures var n := NextAt(s.m, s.g, s.offWriteCom);
            InRing(s.g, n) && Linked(s.m, s.g, s.offWriteCom, n) && Queue(s.m, s.g, s.offWriteCom, n) == [f]
  {
  }

  lemma UsedPartOf(f: Frame, cbUsed: nat, used: nat, m: seq<byte>, g: Geometry, h: int, slot: Slot, p: Slot)
    requires MemoryOk(m, g) && InRing(g, h) && FrameStarts(m, g, h) && f == FrameAt(m, g, h)
    requires used == UsedSize(ReadHeader(m, h), cbUsed) <= ReadHeader(m, h).cb
    requires slot == SlotAt(m, h) && p == PaddingPart(slot, used)
    ensures used <= |f.data| && f.(data := f.data[..used]) == UsedFrame(f, cbUsed)
    ensures p.cap == Align8(|f.data|) - Align8(used) - 8
  {
  }

  lemma ShrunkFrame(s: RingState, cbUsed: nat, slot: Slot, used: u16, p: Slot)
    requires Inv(s) && s.offWriteCom != s.offWriteInt
    requires FrameStarts(s.m, s.g, s.offWriteCom) && slot == SlotAt(s.m, s.offWriteCom)
    requires used == UsedSize(ReadHeader(s.m, s.offWriteCom), cbUsed) <= ReadHeader(s.m, s.offWriteCom).cb
    requires Align8(used) != Align8(ReadHeader(s.m, s.offWriteCom).cb) && p == PaddingPart(slot, used)
    ensures var r := CommitEx(s, s.offWriteCom, cbUsed).m;
            var g, c, n := s.g, s.offWriteCom, NextAt(s.m, s.g, s.offWriteCom);
            && InRing(g, n) && Linked(r, g, c, n) && InRing(g, p.hdr) && FrameStarts(r, g, p.hdr)
            && Queue(r, g, c, n) == [UsedFrame(FrameAt(s.m, g, c), cbUsed), FrameAt(r, g, p.hdr)]
            && FrameAt(r, g, p.hdr).kind == TYPE_PADDING && |FrameAt(r, g, p.hdr).data| == p.cap
            && forall x | g.start <= x < g.end && s.m[x] != r[x] :: Occupies(slot, x)
  {
    hide Decode, Linked, Slots, Queue, Padded, Align8, SlotOk;
    WalkUncons(s.m, s.g, s.offWriteCom, s.offWriteInt);
    DistAdd(s.g, s.offWriteCom, s.offWriteInt, s.offWriteCom);
    ShrunkWalk(s.m, s.g, s.offWriteCom, cbUsed, slot, used, p);
  }

  lemma ShrunkWalk(m: seq<byte>, g: Geometry, h: int, cbUsed: nat, slot: Slot, used: u16, p: Slot)
    requires MemoryOk(m, g) && AlignedRing(g) && Cursor(g, h) && FrameStarts(m, g, h)
    requires slot == SlotAt(m, h) && Foot(g, slot) < g.Size()
    requires used == UsedSize(ReadHeader(m, h), cbUsed) <= ReadHeader(m, h).cb
    requires Align8(used) != Align8(ReadHeader(m, h).cb) && p == PaddingPart(slot, used)
    ensures var r := Padded(m, g, h, cbUsed);
            var n := NextAt(m, g, h);
            && InRing(g, n) && Linked(r, g, h, n) && InRing(g, p.hdr) && FrameStarts(r, g, p.hdr)
            && Queue(r, g, h, n) == [UsedFrame(FrameAt(m, g, h), cbUsed), FrameAt(r, g, p.hdr)]
            && FrameAt(r, g, p.hdr).kind == TYPE_PADDING && |FrameAt(r, g, p.hdr).data| == p.cap
            && forall x | g.start <= x < g.end && m[x] != r[x] :: Occupies(slot, x)
  {
    var hd := ReadHeader(m, h);
    hide Decode, Linked, Slots, Queue, Padded;
    assert SlotOk(g, p) && 0 <= p.cap < 0x1_0000 by {
      PartsFillSlot(g, slot, hd.cb, used);
      Align8Gap(used, hd.cb);
    }
    hide Align8;
    PaddedHeaders(m, g, h, cbUsed, hd, slot, used, p);
    var r := Padded(m, g, h, cbUsed);
    PaddedWalk(m, r, g, h, used, p);
    SameUsedBytes(m, r, g, h, cbUsed, slot, used);
  }

  lemma SameUsedBytes(m: seq<byte>, r: seq<byte>, g: Geometry, h: int, cbUsed: nat, slot: Slot, used: u16)
    requires MemoryOk(m, g) && MemoryOk(r, g) && InRing(g, h) && FrameStarts(m, g, h) && FrameStarts(r, g, h)
    requires slot == SlotAt(m, h) && used == UsedSize(ReadHeader(m, h), cbUsed) <= ReadHeader(m, h).cb
    requires ReadHeader(r, h) == ReadHeader(m, h).(cb := used)
    requires r[slot.pay..slot.pay + used] == m[slot.pay..slot.pay + used]
    ensures FrameAt(r, g, h) == UsedFrame(FrameAt(m, g, h), cbUsed)
  {
    hide Decode, Align8;
    assert FrameAt(m, g, h).data[..used] == m[slot.pay..slot.pay + used];
  }

  /** The frames a consumer passes on: padding is skipped. */
  function Delivered(q: seq<Frame>): seq<Frame> {
    if q == [] then []
    else (if q[0].kind == TYPE_PADDING then [] else [q[0]]) + Delivered(q[1..])
  }

  lemma {:induction false} DeliveredAppends(q: seq<Frame>, q': seq<Frame>)
    ensures Delivered(q + q') == Delivered(q) + Delivered(q')
  {
    if q == [] {
      assert q + q' == q';
    } else {
      assert (q + q')[1..] == q[1..] + q';
      DeliveredAppends(q[1..], q');
    }
  }

  /**
   A consumer that skips padding receives exactly the bytes used if and only if the used size is the allocated one or
   rounds up to a smaller multiple of eight: in between, the length field keeps the allocated size.
   */
  lemma DeliveredExactlyWhenTrimmed(s: RingState, cbUsed: nat, f: Frame, used: nat)
    requires Inv(s) && s.offWriteCom != s.offWriteInt
    requires FrameStarts(s.m, s.g, s.offWriteCom) && f == FrameAt(s.m, s.g, s.offWriteCom) && f.kind != TYPE_PADDING
    requires used == UsedSize(ReadHeader(s.m, s.offWriteCom), cbUsed) <= ReadHeader(s.m, s.offWriteCom).cb
    ensures Inv(CommitEx(s, s.offWriteCom, cbUsed)) && used <= |f.data|
    ensures Delivered(Committed(CommitEx(s, s.offWriteCom, cbUsed)))
            == Delivered(Committed(s)) + [f.(data := f.data[..used])]
            <==> used == |f.data| || Align8(used) != Align8(|f.data|)
  {
    hide Decode, Linked, Slots, Queue, Align8;
    assert |f.data| == ReadHeader(s.m, s.offWriteCom).cb;
    var s' := CommitEx(s, s.offWriteCom, cbUsed);
    CommitExKeeps(s, cbUsed, f, used, s');
    hide CommitEx, Inv, FrameAt, FrameStarts, Delivered, StepsTowards, Committed;
    DeliveredCommit(Committed(s), Committed(s'), f, f.(data := f.data[..used]), Align8(used) != Align8(|f.data|));
    var before, u := Delivered(Committed(s)), f.(data := f.data[..used]);
    if used == |f.data| {
      assert u == f;
    } else {
      assert |u.data| != |f.data|;
      assert (before + [f])[|before|] == f && (before + [u])[|before|] == u;
    }
  }

  lemma DeliveredCommit(q: seq<Frame>, q': seq<Frame>, f: Frame, u: Frame, trimmed: bool)
    requires u.kind == f.kind != TYPE_PADDING
    requires if !trimmed then q' == q + [f]
             else exists padding: Frame :: padding.kind == TYPE_PADDING && q' == q + [u, padding]
    ensures Delivered(q') == Delivered(q) + [if trimmed then u else f]
  {
    if trimmed {
      var padding: Frame :| padding.kind == TYPE_PADDING && q' == q + [u, padding];
      DeliveredAppends(q, [u, padding]);
      assert [u, padding][1..] == [padding] && [padding][1..] == [];
    } else {
      DeliveredAppends(q, [f]);
      assert [f][1..] == [];
    }
  }

  // ----- shortening before the commit, as the reader's side never sees it

  /** Storing the size field of a frame whose padding header is in place. */
  lemma SizeStored(m: seq<byte>, r: seq<byte>, g: Geometry, slot: Slot, used: u16, p: Slot)
    requires MemoryOk(m, g) && SlotOk(g, slot) && SlotOk(g, p) && p == PaddingPart(slot, used)
    requires r == Put(m, slot.hdr + 2, ToBytes(used, 2))
    ensures ReadHeader(r, slot.hdr) == ReadHeader(m, slot.hdr).(cb := used)
    ensures ReadHeader(r, p.hdr) == ReadHeader(m, p.hdr)
    ensures forall x | g.start <= x < g.end && m[x] != r[x] :: Occupies(slot, x)
  {
    var h := slot.hdr;
    var hd := ReadHeader(m, h).(cb := used);
    SizeField(m, h, used);
    DecodeEncode(hd);
    hide Decode, Encode, Align8, ToBytes;
    assert r[h..h + 8] == Encode(hd);
    assert r[p.hdr..p.hdr + 8] == m[p.hdr..p.hdr + 8];
  }

  /** The oldest pending place becomes two, and nothing else changes. */
  lemma OldestDivided(s: RingState, s': RingState, slot: Slot, used: u16, p: Slot)
    requires Inv(s) && s.offWriteCom != s.offWriteInt && s' == s.(m := s'.m) && MemoryOk(s'.m, s.g)
    requires FrameStarts(s.m, s.g, s.offWriteCom) && slot == SlotAt(s.m, s.offWriteCom)
    requires used <= ReadHeader(s.m, s.offWriteCom).cb && Align8(used) != Align8(ReadHeader(s.m, s.offWriteCom).cb)
    requires ReadHeader(s'.m, s.offWriteCom) == ReadHeader(s.m, s.offWriteCom).(cb := used)
    requires p == PaddingPart(slot, used) && InRing(s.g, p.hdr)
    requires 0 <= p.cap < 0x1_0000 && ReadHeader(s'.m, p.hdr) == Header(TYPE_PADDING, p.cap, 8)
    requires forall x | s.g.start <= x < s.g.end && s.m[x] != s'.m[x] :: Occupies(slot, x)
    ensures Inv(s') && Committed(s') == Committed(s) && Pending(s') == [UsedPart(slot, used), p] + Pending(s)[1..]
  {
    var g, r, c, w := s.g, s.offRead, s.offWriteCom, s.offWriteInt;
    hide Decode, Linked, Slots, Queue, FrameAt, Align8, Occupies, SlotOk, StepsTowards;
    assert Dist(g, r, c) + Foot(g, slot) <= g.Size() && Foot(g, slot) < g.Size() by {
      WalkUncons(s.m, g, c, w);
      DistAdd(g, c, w, c);
      DistAdd(g, r, c, w);
    }
    DividedWalk(s.m, s'.m, g, c, w, slot, used, p);
    WriteLeavesBefore(s.m, s'.m, g, r, slot);
    WalkStable(s.m, s'.m, g, r, c);
  }

  /** A walk whose first frame is divided. */
  lemma DividedWalk(m: seq<byte>, r: seq<byte>, g: Geometry, c: int, w: int, slot: Slot, used: u16, p: Slot)
    requires MemoryOk(m, g) && MemoryOk(r, g) && AlignedRing(g) && Cursor(g, c) && Cursor(g, w) && c != w
        && Linked(m, g, c, w)
    requires FrameStarts(m, g, c) && slot == SlotAt(m, c) && Foot(g, slot) < g.Size()
    requires used <= ReadHeader(m, c).cb && Align8(used) != Align8(ReadHeader(m, c).cb)
    requires ReadHeader(r, c) == ReadHeader(m, c).(cb := used)
    requires p == PaddingPart(slot, used) && InRing(g, p.hdr)
    requires 0 <= p.cap < 0x1_0000 && ReadHeader(r, p.hdr) == Header(TYPE_PADDING, p.cap, 8)
    requires forall x | g.start <= x < g.end && m[x] != r[x] :: Occupies(slot, x)
    ensures Linked(r, g, c, w) && Slots(r, g, c, w) == [UsedPart(slot, used), p] + Slots(m, g, c, w)[1..]
  {
    var n := NextAt(m, g, c);
    hide Decode, Linked, Slots, Queue, FrameAt, Align8, Occupies, SlotOk;
    WalkUncons(m, g, c, w);
    PaddedWalk(m, r, g, c, used, p);
    DistAdd(g, c, w, c);
    WriteLeavesAfter(m, r, g, slot, Dist(g, n, w));
    WalkStable(m, r, g, n, w);
    DistAdd(g, c, n, w);
    WalkJoins(r, g, c, n, w);
  }
}
