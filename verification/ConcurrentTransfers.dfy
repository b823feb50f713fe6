/**
 Whole transfers on the shared ring without interruption: what the single loads and stores of one side add up to when
 the other side does nothing meanwhile.
 */
module ConcurrentTransfers {
  import opened MachineWords
  import opened Wrappers
  import opened FrameHeader
  import opened RingGeometry
  import opened FrameWalk
  import opened RingModel
  import opened RingLaws
  import opened PaddingLaws
  import opened SendLaws
  import opened ConcurrentRing
  import opened ConcurrentRuns

  lemma {:induction false} AfterJoins(s: State, a: seq<Step>, t: State, b: seq<Step>)
    requires After(s, a) == Some(t)
    ensures After(s, a + b) == After(t, b)
    decreases |a|
  {
    hide Enabled, Next;
    if a == [] {
      assert a + b == b;
    } else {
      assert a + b == [a[0]] + (a[1..] + b);
      AfterJoins(Next(s, a[0]), a[1..], t, b);
      OneStep(s, a[0], a[1..] + b);
    }
  }

  lemma LastStep(s: State, step: Step)
    requires Enabled(s, step)
    ensures After(s, [step]) == Some(Next(s, step))
  {
  }

  /**
   Neither side ever waits for the other: whatever the reader is doing, the writer can take its next step, commit what
   it has handed out and, between allocations, begin another one; and whatever the writer is doing, the reader can take
   its next step.
   */
  lemma NobodyWaits(s: State, kind: u16, cb: u16)
    requires Good(s) && kind in {TYPE_FRAME, TYPE_GSO} && 12 <= cb
    ensures s.writer.Idle? ==> Enabled(s, LoadWriteInt(kind, cb))
    ensures s.writer.LoadedInt? ==> Enabled(s, LoadReadOffset)
    ensures s.writer.LoadedBoth? ==> Enabled(s, CompareExchange)
    ensures s.writer.StoringHeader? ==> Enabled(s, StoreHeaderByte)
    ensures s.writer.Shrunk? || (s.writer.Idle? && s.pending != []) ==> Enabled(s, StoreCommit)
    ensures s.reader.Resting? ==> Enabled(s, ReaderLoadRead)
    ensures s.reader.LoadedRead? ==> Enabled(s, ReaderLoadCommit)
    ensures s.reader.Copying? ==> Enabled(s, ReaderLoadByte) || Enabled(s, ReaderStoreRead)
  {
    hide Decode, Encode, Align8, Inv, Committed, Pending, ReaderOk, NewestOk;
    if s.writer.Shrunk? || (s.writer.Idle? && s.pending != []) {
      WriterNotStuck(s);
    }
    if s.reader.Copying? {
      ReaderNotStuck(s);
    }
    if s.writer.StoringHeader? {
      HeaderInMemory(s);
    }
  }

  lemma HeaderInMemory(s: State)
    requires Good(s) && s.writer.StoringHeader?
    ensures s.writer.i < HEADER_SIZE && 0 <= s.writer.slot.hdr && s.writer.slot.hdr + HEADER_SIZE <= |s.m|
  {
    InvHasShape(RingOf(s));
  }

  // ----- filling

  /** Storing `data` byte by byte into the `k`-th place handed out, from `off` on. */
  function FillSteps(k: nat, off: nat, data: seq<byte>): seq<Step>
    decreases |data|
  {
    if data == [] then [] else [FillByte(k, off, data[0])] + FillSteps(k, off + 1, data[1..])
  }

  lemma {:induction false} FillRuns(s: State, k: nat, off: nat, data: seq<byte>)
    requires k < |s.pending| && off + |data| <= s.pending[k].cap
    requires 0 <= s.pending[k].pay && s.pending[k].pay + s.pending[k].cap <= |s.m|
    ensures After(s, FillSteps(k, off, data)) == Some(s.(m := Put(s.m, s.pending[k].pay + off, data)))
    decreases |data|
  {
    var at := s.pending[k].pay + off;
    hide Put;
    if data == [] {
      PutEmpty(s.m, at, data);
    } else {
      var b, rest := [data[0]], data[1..];
      var s' := Next(s, FillByte(k, off, data[0]));
      PutAdjacent(s.m, at, b, rest);
      assert b + rest == data;
      FillRuns(s', k, off + 1, rest);
      assert FillSteps(k, off, data) == [FillByte(k, off, data[0])] + FillSteps(k, off + 1, rest);
      OneStep(s, FillByte(k, off, data[0]), FillSteps(k, off + 1, rest));
    }
  }

  /**
   Any byte of a place handed out can be stored at any time; it is then in memory at its place, every other byte is as
   before, and the frame there has it in its data unless the byte lies in the rounding behind them.
   */
  lemma FillByteStores(s: State, k: nat, off: nat, b: byte)
    requires Good(s) && k < |s.pending| && off < s.pending[k].cap
    ensures Enabled(s, FillByte(k, off, b))
    ensures var s', slot := Next(s, FillByte(k, off, b)), s.pending[k];
            && s' == s.(m := s'.m) && |s'.m| == |s.m| && s'.m[slot.pay + off] == b
            && (forall i | 0 <= i < |s.m| && i != slot.pay + off :: s'.m[i] == s.m[i])
            && StartsAt(s, k) && StartsAt(s', k)
            && var f, f' := FrameAt(s.m, s.g, slot.hdr), FrameAt(s'.m, s.g, slot.hdr);
            && f'.kind == f.kind && f'.data == if off < |f.data| then f.data[off := b] else f.data
  {
    hide Good, Decode, Align8, FrameAt, FrameStarts, SlotAt;
    PendingStarts(s, k);
    var slot := s.pending[k];
    InBounds(s.m, s.g, slot);
    assert Next(s, FillByte(k, off, b)) == s.(m := Put(s.m, slot.pay + off, [b]));
    StoredIntoFrame(s.m, s.g, slot, off, b);
  }

  lemma InBounds(m: seq<byte>, g: Geometry, slot: Slot)
    requires MemoryOk(m, g) && InRing(g, slot.hdr) && FrameStarts(m, g, slot.hdr) && SlotAt(m, slot.hdr) == slot
    ensures 0 <= slot.pay && slot.pay + slot.cap <= |m|
  {
  }

  lemma StoredIntoFrame(m: seq<byte>, g: Geometry, slot: Slot, off: nat, b: byte)
    requires MemoryOk(m, g) && InRing(g, slot.hdr) && FrameStarts(m, g, slot.hdr) && SlotAt(m, slot.hdr) == slot
    requires off < slot.cap
    ensures 0 <= slot.pay + off < |m|
    ensures var m' := Put(m, slot.pay + off, [b]);
            && FrameStarts(m', g, slot.hdr)
            && var f, f' := FrameAt(m, g, slot.hdr), FrameAt(m', g, slot.hdr);
            && f'.kind == f.kind && f'.data == if off < |f.data| then f.data[off := b] else f.data
  {
    hide Decode, Align8, Put;
    PutElsewhere(m, slot.pay + off, [b], slot.hdr, slot.hdr + HEADER_SIZE);
    SliceStored(m, slot.pay + off, b, slot.pay, slot.pay + ReadHeader(m, slot.hdr).cb);
  }

  lemma SliceStored(m: seq<byte>, at: int, b: byte, lo: int, hi: int)
    requires 0 <= lo <= hi <= |m| && lo <= at < |m|
    ensures Put(m, at, [b])[lo..hi] == if at < hi then m[lo..hi][at - lo := b] else m[lo..hi]
  {
  }

  /** Every other place handed out keeps its frame. */
  lemma FillByteElsewhere(s: State, k: nat, off: nat, b: byte, j: nat)
    requires Good(s) && Enabled(s, FillByte(k, off, b)) && j < |s.pending| && j != k
    ensures var s', h := Next(s, FillByte(k, off, b)), s.pending[j].hdr;
            StartsAt(s, j) && StartsAt(s', j) && FrameAt(s'.m, s.g, h) == FrameAt(s.m, s.g, h)
  {
    PendingStarts(s, j);
    var slot, at := s.pending[j], s.pending[k].pay + off;
    var s' := Next(s, FillByte(k, off, b));
    assert s' == s.(m := s'.m) && MemoryOk(s'.m, s.g) && !Occupies(slot, at) by {
      hide Good, Align8, FrameStarts, SlotAt;
      PendingApart(s, j, k, at);
    }
    hide Good, Enabled, Align8, FrameAt, FrameStarts, SlotAt, Occupies;
    OtherFrameKept(s.m, s'.m, s.g, slot, at);
  }

  lemma OtherFrameKept(m: seq<byte>, m': seq<byte>, g: Geometry, slot: Slot, at: int)
    requires MemoryOk(m, g) && MemoryOk(m', g) && InRing(g, slot.hdr) && FrameStarts(m, g, slot.hdr)
    requires SlotAt(m, slot.hdr) == slot && !Occupies(slot, at)
    requires forall i | 0 <= i < |m| && i != at :: i < |m'| && m'[i] == m[i]
    ensures FrameStarts(m', g, slot.hdr) && FrameAt(m', g, slot.hdr) == FrameAt(m, g, slot.hdr)
  {
    hide Decode, Align8;
    assert m[slot.hdr..slot.hdr + HEADER_SIZE] == m'[slot.hdr..slot.hdr + HEADER_SIZE];
    var h := ReadHeader(m, slot.hdr);
    assert m[slot.pay..slot.pay + h.cb] == m'[slot.pay..slot.pay + h.cb];
  }

  /** Two places handed out share no byte. */
  lemma PendingApart(s: State, j: nat, k: nat, x: int)
    requires Good(s) && j < |s.pending| && k < |s.pending| && j != k && Occupies(s.pending[k], x)
    ensures !Occupies(s.pending[j], x)
  {
    var a, b := if j < k then j else k, if j < k then k else j;
    PlacesInOrder(s, a, b);
    FilledPlace(s, b);
    FilledPlace(s, a);
    InvHasShape(RingOf(s));
    LaterPlaceDisjoint(s.g, s.offRead, s.pending[a], s.pending[b], x);
  }

  lemma PlacesInOrder(s: State, a: nat, b: nat)
    requires Good(s) && a < b < |s.pending|
    ensures Dist(s.g, s.offRead, s.pending[a].hdr) + Foot(s.g, s.pending[a]) <= Dist(s.g, s.offRead, s.pending[b].hdr)
  {
    var r := RingOf(s);
    hide Decode, Linked, Slots, Queue, Align8, ReaderOk, WriterOk;
    FilledPlace(s, b);
    if b < |Pending(r)| {
      WalkCut(s.m, s.g, r.offWriteCom, r.offWriteInt, b);
      var h := s.pending[b].hdr;
      WalkReaches(s.m, s.g, r.offWriteCom, h, a);
      DistAdd(s.g, s.offRead, s.offWriteCom, s.pending[a].hdr);
      DistAdd(s.g, s.offRead, s.offWriteCom, h);
    } else {
      PendingPlace(r, a);
    }
  }

  // ----- sending

  /** Allocating a place for `data`, filling it and committing it. */
  function SendSteps(kind: u16, data: seq<byte>, k: nat): seq<Step> {
    [LoadWriteInt(kind, U16(|data|)), LoadReadOffset, CompareExchange] + HeaderSteps(HEADER_SIZE)
      + FillSteps(k, 0, data) + [StoreCommit]
  }

  /**
   A writer that is not interrupted sends as the sequential ring does, and what it records as sent is exactly the frame
   whose bytes it was given.
   */
  lemma SendRuns(s: State, kind: u16, data: seq<byte>)
    requires Shape(Seen(s)) && s.writer.Idle? && s.pending == [] && s.offWriteCom == s.offWriteInt
    requires kind in {TYPE_FRAME, TYPE_GSO} && 12 <= |data| < 0x1_0000 && Send(Seen(s), kind, data).1
    ensures var t := Send(Seen(s), kind, data).0;
            After(s, SendSteps(kind, data, 0))
            == Some(s.(m := t.m, offWriteInt := t.offWriteInt, offWriteCom := t.offWriteCom,
                       sent := s.sent + [Frame(kind, data)]))
  {
    var slot := Place(s.g, s.offWriteInt, s.offRead, Align8(|data|)).value;
    var t := Allocate(Seen(s), kind, |data|).0;
    var s1 := s.(m := t.m, offWriteInt := t.offWriteInt, pending := [slot]);
    SentBytes(Seen(s), kind, data, slot);
    assert s.pending + [slot] == [slot];
    AllocateRuns(s, kind, |data|);
    U16Identity(|data|);
    hide *;
    FillsAndCommits(s, kind, data, slot, s1);
  }

  lemma FillsAndCommits(s: State, kind: u16, data: seq<byte>, slot: Slot, s1: State)
    requires 12 <= |data| < 0x1_0000 && |data| <= slot.cap && 0 <= slot.pay && slot.pay + slot.cap <= |s1.m|
    requires s1 == s.(m := s1.m, offWriteInt := s1.offWriteInt, pending := [slot]) && s1.writer.Idle?
    requires MemoryOk(s1.m, s1.g) && InRing(s1.g, slot.hdr)
    requires After(s, [LoadWriteInt(kind, |data|), LoadReadOffset, CompareExchange] + HeaderSteps(HEADER_SIZE))
        == Some(s1)
    requires var m := Put(s1.m, slot.pay, data);
             FrameStarts(m, s1.g, slot.hdr) && FrameAt(m, s1.g, slot.hdr) == Frame(kind, data)
    ensures var m := Put(s1.m, slot.pay, data);
            After(s, SendSteps(kind, data, 0))
            == Some(s1.(m := m, offWriteCom := NextAt(m, s1.g, slot.hdr), pending := [],
                        sent := s1.sent + [Frame(kind, data)]))
  {
    var allocation := [LoadWriteInt(kind, |data|), LoadReadOffset, CompareExchange] + HeaderSteps(HEADER_SIZE);
    var s2 := s1.(m := Put(s1.m, slot.pay, data));
    CommitsOnly(s2, slot);
    U16Identity(|data|);
    assert SendSteps(kind, data, 0) == allocation + FillSteps(0, 0, data) + [StoreCommit];
    hide *;
    FillRuns(s1, 0, 0, data);
    AfterJoins(s, allocation, s1, FillSteps(0, 0, data));
    AfterJoins(s, allocation + FillSteps(0, 0, data), s2, [StoreCommit]);
  }

  /** The commit of the only place handed out. */
  lemma CommitsOnly(s: State, slot: Slot)
    requires s.writer.Idle? && s.pending == [slot]
    requires MemoryOk(s.m, s.g) && InRing(s.g, slot.hdr) && FrameStarts(s.m, s.g, slot.hdr)
    ensures After(s, [StoreCommit])
            == Some(s.(offWriteCom := NextAt(s.m, s.g, slot.hdr), pending := [],
                       sent := s.sent + [FrameAt(s.m, s.g, slot.hdr)]))
  {
    hide FrameAt, FrameStarts, NextAt;
    LastStep(s, StoreCommit);
  }

  /** The filled place reads as the frame sent, and the sequential send commits it. */
  lemma SentBytes(s: RingState, kind: u16, data: seq<byte>, slot: Slot)
    requires Shape(s) && IsValidFrameType(kind) && |data| < 0x1_0000
    requires Place(s.g, s.offWriteInt, s.offRead, Align8(|data|)) == Some(slot)
    ensures SlotOk(s.g, slot) && slot.hdr == s.offWriteInt && slot.cap == Align8(|data|)
    ensures var t := Allocate(s, kind, |data|).0;
            && |t.m| == |s.m|
            && var m := Put(t.m, slot.pay, data);
            && FrameStarts(m, s.g, slot.hdr) && FrameAt(m, s.g, slot.hdr) == Frame(kind, data)
            && Send(s, kind, data).0.m == m
            && Send(s, kind, data).0.offWriteInt == t.offWriteInt
            && Send(s, kind, data).0.offWriteCom == NextAt(m, s.g, slot.hdr)
  {
    SendOffsets(s, kind, data, slot);
    var t := Allocate(s, kind, |data|).0;
    HeaderLeadsToSlot(s.m, t.m, s.g, kind, |data|, slot);
    HeaderSurvivesFill(t.m, s.g, data, slot);
    hide Align8, Decode, Encode, Place;
    assert Put(t.m, slot.pay, data)[slot.pay..slot.pay + |data|] == data;
  }

  // ----- shortening and committing

  /** Storing the padding header behind the used bytes of the oldest place, storing the size, committing. */
  function ShortenSteps(used: u16, padding: Header): seq<Step> {
    FillSteps(0, Align8(used), Encode(padding)) + [StoreSize(used)] + [StoreCommit]
  }

  /**
   A writer that is not interrupted commits a shortened frame as the sequential ring does, and what it records as sent
   is the used part of the frame and the padding.
   */
  lemma CommitExRuns(s: State, cbUsed: nat, hd: Header, used: u16, f: Frame, padding: Header) returns (p: Frame)
    requires Good(s) && s.writer.Idle? && StartsAt(s, 0) && s.pending[0].hdr == s.offWriteCom
    requires hd == ReadHeader(s.m, s.offWriteCom) && f == FrameAt(s.m, s.g, s.offWriteCom)
    requires used == UsedSize(hd, cbUsed) <= hd.cb && Align8(used) != Align8(hd.cb)
    requires padding == Header(TYPE_PADDING, U16(Align8(hd.cb) - Align8(used) - HEADER_SIZE), HEADER_SIZE)
    ensures Shape(Seen(s)) && used <= |f.data| && p.kind == TYPE_PADDING && |p.data| == padding.cb
    ensures var t := CommitEx(Seen(s), s.offWriteCom, cbUsed);
            After(s, ShortenSteps(used, padding))
            == Some(s.(m := t.m, offWriteCom := t.offWriteCom, pending := s.pending[1..],
                       sent := s.sent + [f.(data := f.data[..used]), p]))
  {
    var slot, part := s.pending[0], PaddingPart(s.pending[0], used);
    PlaceToShorten(s, hd, used, slot, part);
    var m1 := Put(s.m, part.hdr, Encode(padding));
    var r := Put(m1, slot.hdr + 2, ToBytes(used, 2));
    hide *;
    SeenCommitEx(s, cbUsed, slot);
    PaddingLands(s.m, s.g, s.offWriteCom, cbUsed, hd, slot, used, part, padding, m1, r, f);
    ShortensAndCommits(s, hd, slot, used, part, padding, m1, r);
    p := FrameAt(r, s.g, part.hdr);
  }

  lemma SeenCommitEx(s: State, cbUsed: nat, slot: Slot)
    requires Shape(Seen(s)) && FrameStarts(s.m, s.g, s.offWriteCom) && SlotAt(s.m, s.offWriteCom) == slot
    requires UsedSize(ReadHeader(s.m, s.offWriteCom), cbUsed) <= ReadHeader(s.m, s.offWriteCom).cb
    ensures var t := CommitEx(Seen(s), s.offWriteCom, cbUsed);
            t.m == Padded(s.m, s.g, s.offWriteCom, cbUsed) && t.offWriteCom == NextHeader(s.g, slot)
    ensures MemoryOk(s.m, s.g) && AlignedRing(s.g) && Cursor(s.g, s.offWriteCom)
  {
  }

  lemma PlaceToShorten(s: State, hd: Header, used: u16, slot: Slot, p: Slot)
    requires Good(s) && StartsAt(s, 0) && s.pending[0] == slot && slot.hdr == s.offWriteCom
    requires hd == ReadHeader(s.m, s.offWriteCom)
    requires used <= hd.cb && Align8(used) != Align8(hd.cb) && p == PaddingPart(slot, used)
    ensures Shape(Seen(s)) && SlotAt(s.m, slot.hdr) == slot && SlotOk(s.g, slot) && slot.cap == Align8(hd.cb)
    ensures SlotOk(s.g, p) && Cursor(s.g, p.hdr) && 0 <= p.cap < 0x1_0000
    ensures U16(Align8(hd.cb) - Align8(used) - HEADER_SIZE) == p.cap
    ensures p.hdr == slot.pay + Align8(used) && Align8(used) + HEADER_SIZE <= slot.cap
  {
    hide Decode, Inv, Committed, Pending, ReaderOk, WriterOk, NewestOk;
    InvHasShape(RingOf(s));
    PendingStarts(s, 0);
    Align8Gap(used, hd.cb);
    PartsFillSlot(s.g, slot, hd.cb, used);
    hide Align8, U16;
    assert p.cap < 0x1_0000;
    U16Identity(p.cap);
  }

  /** The padding header and then the shortened size leave the memory of the shortened commit. */
  lemma PaddingLands(m: seq<byte>, g: Geometry, h: int, cbUsed: nat, hd: Header, slot: Slot, used: u16, p: Slot,
                     padding: Header, m1: seq<byte>, r: seq<byte>, f: Frame)
    requires MemoryOk(m, g) && AlignedRing(g) && Cursor(g, h) && FrameStarts(m, g, h) && f == FrameAt(m, g, h)
    requires hd == ReadHeader(m, h) && slot == SlotAt(m, h)
    requires used == UsedSize(hd, cbUsed) <= hd.cb && Align8(used) != Align8(hd.cb) && p == PaddingPart(slot, used)
    requires SlotOk(g, p) && Cursor(g, p.hdr) && 0 <= p.cap < 0x1_0000 && padding == Header(TYPE_PADDING, p.cap, 8)
    requires m1 == Put(m, p.hdr, Encode(padding)) && r == Put(m1, h + 2, ToBytes(used, 2))
    ensures ReadHeader(m1, h) == hd && ReadHeader(m1, p.hdr) == padding && FrameStarts(m1, g, h)
    ensures r == Padded(m, g, h, cbUsed) && FrameStarts(r, g, h) && FrameStarts(r, g, p.hdr)
    ensures used <= |f.data| && FrameAt(r, g, h) == f.(data := f.data[..used])
    ensures FrameAt(r, g, p.hdr).kind == TYPE_PADDING && |FrameAt(r, g, p.hdr).data| == p.cap
  {
    HeaderBesidePadding(m, h, p.hdr, padding, hd, m1, g, slot, used, p);
    SizeField(m1, h, used);
    PaddedIsTwoHeaders(m, g, h, cbUsed, hd.(cb := used), p.hdr, padding);
    assert r == Padded(m, g, h, cbUsed) by {
      hide Padded, Decode, Encode, ToBytes;
    }
    FrameFields(m, g, h);
    hide *;
    PaddedHeaders(m, g, h, cbUsed, hd, slot, used, p);
    PaddedStarts(m, r, g, h, slot, used, p);
    SameUsedBytes(m, r, g, h, cbUsed, slot, used);
    UsedPartOf(f, cbUsed, used, m, g, h, slot, p);
    FrameFields(r, g, p.hdr);
  }

  lemma HeaderBesidePadding(m: seq<byte>, h: int, p: int, padding: Header, hd: Header, m1: seq<byte>, g: Geometry,
                            slot: Slot, used: u16, part: Slot)
    requires MemoryOk(m, g) && InRing(g, h) && FrameStarts(m, g, h) && hd == ReadHeader(m, h) && slot == SlotAt(m, h)
    requires part == PaddingPart(slot, used) && SlotOk(g, part) && 0 <= part.cap && p == part.hdr
    requires m1 == Put(m, p, Encode(padding))
    ensures ReadHeader(m1, h) == hd && ReadHeader(m1, p) == padding && FrameStarts(m1, g, h)
  {
    DecodeEncode(padding);
    hide Decode, Encode, Align8;
    PutElsewhere(m, p, Encode(padding), h, h + HEADER_SIZE);
    assert m1[p..p + HEADER_SIZE] == Encode(padding);
  }

  lemma ShortensAndCommits(s: State, hd: Header, slot: Slot, used: u16, p: Slot, padding: Header, m1: seq<byte>,
                           r: seq<byte>)
    requires s.writer.Idle? && s.pending != [] && s.pending[0] == slot && MemoryOk(s.m, s.g)
    requires SlotOk(s.g, slot) && SlotOk(s.g, p) && p == PaddingPart(slot, used)
    requires padding.kind == TYPE_PADDING && padding.cb == p.cap && padding.off == HEADER_SIZE
    requires Align8(used) + HEADER_SIZE <= slot.cap && used <= hd.cb && Align8(used) != Align8(hd.cb)
    requires m1 == Put(s.m, p.hdr, Encode(padding)) && r == Put(m1, slot.hdr + 2, ToBytes(used, 2))
    requires ReadHeader(m1, slot.hdr) == hd && ReadHeader(m1, p.hdr) == padding && FrameStarts(m1, s.g, slot.hdr)
    requires FrameStarts(r, s.g, slot.hdr) && FrameStarts(r, s.g, p.hdr)
    ensures After(s, ShortenSteps(used, padding))
            == Some(s.(m := r, offWriteCom := NextHeader(s.g, slot), pending := s.pending[1..],
                       sent := s.sent + [FrameAt(r, s.g, slot.hdr), FrameAt(r, s.g, p.hdr)]))
  {
    hide Encode, Decode, Align8, ToBytes, FillSteps, Put, FrameStarts, FrameAt, After, Enabled, Next;
    var fills := FillSteps(0, Align8(used), Encode(padding));
    var s1 := s.(m := m1);
    var s2 := s1.(m := r, writer := Shrunk(NextHeader(s.g, slot)),
                  pending := [UsedPart(slot, used), p] + s.pending[1..]);
    StoresSize(s1, hd, slot, used, p);
    InThreeParts(fills, StoreSize(used), StoreCommit);
    assert ShortenSteps(used, padding) == fills + [StoreSize(used)] + [StoreCommit];
    assert s.pending[0].pay + Align8(used) == p.hdr && UsedPart(slot, used).hdr == slot.hdr;
    hide *;
    FillRuns(s, 0, Align8(used), Encode(padding));
    AfterJoins(s, fills, s1, [StoreSize(used)] + [StoreCommit]);
    OneStep(s1, StoreSize(used), [StoreCommit]);
    CommitsPair(s2, UsedPart(slot, used), p, s.pending[1..]);
  }

  lemma InThreeParts(a: seq<Step>, b: Step, c: Step)
    ensures a + [b] + [c] == a + ([b] + [c])
  {
  }

  lemma StoresSize(s: State, hd: Header, slot: Slot, used: u16, p: Slot)
    requires s.writer.Idle? && s.pending != [] && s.pending[0] == slot && MemoryOk(s.m, s.g)
    requires SlotOk(s.g, slot) && SlotOk(s.g, p) && p == PaddingPart(slot, used)
    requires used <= hd.cb && Align8(used) != Align8(hd.cb) && FrameStarts(s.m, s.g, slot.hdr)
    requires hd == ReadHeader(s.m, slot.hdr)
    requires var h := ReadHeader(s.m, p.hdr); h.kind == TYPE_PADDING && h.cb == p.cap && h.off == HEADER_SIZE
    ensures Enabled(s, StoreSize(used))
    ensures Next(s, StoreSize(used))
         == s.(m := Put(s.m, slot.hdr + 2, ToBytes(used, 2)), writer := Shrunk(NextHeader(s.g, slot)),
               pending := [UsedPart(slot, used), p] + s.pending[1..])
  {
    hide FrameStarts, Decode, Align8, ToBytes, Put, NextHeader;
  }

  /** The commit of a shortened place and its padding. */
  lemma CommitsPair(s: State, u: Slot, p: Slot, rest: seq<Slot>)
    requires s.writer.Shrunk? && s.pending == [u, p] + rest
    requires MemoryOk(s.m, s.g) && InRing(s.g, u.hdr) && FrameStarts(s.m, s.g, u.hdr)
    requires InRing(s.g, p.hdr) && FrameStarts(s.m, s.g, p.hdr)
    ensures After(s, [StoreCommit])
            == Some(s.(offWriteCom := s.writer.offNew, writer := Idle, pending := rest,
                       sent := s.sent + [FrameAt(s.m, s.g, u.hdr), FrameAt(s.m, s.g, p.hdr)]))
  {
    hide FrameAt, FrameStarts;
    LastStep(s, StoreCommit);
    assert s.pending[2..] == rest;
  }

  // ----- receiving

  function LoadSteps(n: nat): seq<Step> {
    if n == 0 then [] else [ReaderLoadByte] + LoadSteps(n - 1)
  }

  /** The reader's loads of the two offsets take up a frame if and only if one is committed. */
  lemma TakesUp(s: State)
    requires Good(s) && s.reader.Resting?
    ensures After(s, [ReaderLoadRead, ReaderLoadCommit])
            == Some(s.(reader := if Committed(RingOf(s)) == [] then Resting else Copying(s.offRead, [])))
  {
    LoadsOffsets(s);
    EmptyWalk(RingOf(s));
    hide Inv, Committed, After;
  }

  lemma LoadsOffsets(s: State)
    requires s.reader.Resting?
    ensures After(s, [ReaderLoadRead, ReaderLoadCommit])
            == Some(s.(reader := if s.offWriteCom == s.offRead then Resting else Copying(s.offRead, [])))
  {
  }

  lemma {:induction false} LoadsRun(s: State, image: seq<byte>, i: nat)
    requires MemoryOk(s.m, s.g) && InRing(s.g, s.offRead) && FrameStarts(s.m, s.g, s.offRead)
    requires image == Image(s.m, s.g, s.offRead) && i <= |image| && s.reader == Copying(s.offRead, image[..i])
    ensures After(s, LoadSteps(|image| - i)) == Some(s.(reader := Copying(s.offRead, image)))
    decreases |image| - i
  {
    hide Image, Decode, Encode, Align8, FrameStarts;
    if i == |image| {
      assert image[..i] == image;
    } else {
      NotComplete(s.m, s.g, s.offRead, image, i);
      OneMoreByte(s.m, s.g, s.offRead, image[..i]);
      var s' := Next(s, ReaderLoadByte);
      assert s' == s.(reader := Copying(s.offRead, image[..i + 1]));
      LoadsRun(s', image, i + 1);
      hide Enabled, Next;
      OneStep(s, ReaderLoadByte, LoadSteps(|image| - i - 1));
    }
  }

  lemma NotComplete(m: seq<byte>, g: Geometry, at: int, image: seq<byte>, i: nat)
    requires MemoryOk(m, g) && InRing(g, at) && FrameStarts(m, g, at) && image == Image(m, g, at) && i < |image|
    ensures !CopyComplete(image[..i])
  {
    hide Decode, Encode, Align8;
    if HEADER_SIZE <= i {
      HeaderKnown(m, g, at, image[..i]);
    }
  }

  /** Loading the offsets, the bytes of a frame of `cb`, and storing the read offset. */
  function ReceiveSteps(cb: nat): seq<Step> {
    [ReaderLoadRead, ReaderLoadCommit] + LoadSteps(HEADER_SIZE + cb) + [ReaderStoreRead]
  }

  /**
   A reader that is not interrupted receives the oldest frame, whichever that is and wherever it lies, and moves the
   read offset where the sequential skip does.
   */
  lemma ReceiveRuns(s: State)
    requires Good(s) && s.reader.Resting? && Committed(RingOf(s)) != []
    ensures var f := Committed(RingOf(s))[0];
            After(s, ReceiveSteps(|f.data|))
            == Some(s.(offRead := Skip(RingOf(s)).offRead, received := s.received + [f]))
  {
    var r, f := RingOf(s), Committed(RingOf(s))[0];
    OldestIsCopied(s, f);
    TakesUp(s);
    var image := Image(s.m, s.g, s.offRead);
    var s1 := s.(reader := Copying(s.offRead, []));
    var s2 := s.(reader := Copying(s.offRead, image));
    assert image[..0] == [];
    LoadsRun(s1, image, 0);
    hide *;
    AfterJoins(s, [ReaderLoadRead, ReaderLoadCommit], s1, LoadSteps(HEADER_SIZE + |f.data|));
    AfterJoins(s, [ReaderLoadRead, ReaderLoadCommit] + LoadSteps(HEADER_SIZE + |f.data|), s2, [ReaderStoreRead]);
    LastStep(s2, ReaderStoreRead);
  }

  lemma OldestIsCopied(s: State, f: Frame)
    requires Good(s) && Committed(RingOf(s)) != [] && f == Committed(RingOf(s))[0]
    ensures MemoryOk(s.m, s.g) && InRing(s.g, s.offRead) && FrameStarts(s.m, s.g, s.offRead)
        && |Image(s.m, s.g, s.offRead)| == HEADER_SIZE + |f.data|
    ensures var s2 := s.(reader := Copying(s.offRead, Image(s.m, s.g, s.offRead)));
            && Enabled(s2, ReaderStoreRead)
            && Next(s2, ReaderStoreRead)
              == s.(reader := Resting, offRead := Skip(RingOf(s)).offRead, received := s.received + [f])
  {
    var r := RingOf(s);
    hide Decode, Encode, Align8, Linked, Slots, Queue, ReaderOk, WriterOk, NewestOk;
    EmptyWalk(r);
    WalkUncons(s.m, s.g, s.offRead, s.offWriteCom);
    FrameFields(s.m, s.g, s.offRead);
    var image := Image(s.m, s.g, s.offRead);
    assert image[..|image|] == image;
    HeaderKnown(s.m, s.g, s.offRead, image);
  }
}
