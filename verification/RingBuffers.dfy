/** INTNETRINGBUF as an object whose methods move its offsets and store into shared memory in place. */
module RingBuffers {
  import opened MachineWords
  import opened Memory
  import opened Wrappers
  import opened FrameHeader
  import opened RingGeometry
  import opened FrameWalk
  import opened RingModel
  import opened RingLaws
  import opened PaddingLaws
  import opened SendLaws
  import opened SpaceLaws
  import opened BatchLaws
  import opened OffsetFormulas

  datatype Status = VInfSuccess | VErrBufferOverflow

  lemma SliceOfSlice(m: seq<byte>, lo: int, hi: int, a: int, b: int)
    requires 0 <= lo <= hi <= |m| && 0 <= a <= b && lo + b <= hi
    ensures m[lo..hi][a..b] == m[lo + a..lo + b]
  {
    assert forall i | 0 <= i < b - a :: m[lo..hi][a..b][i] == m[lo + a..lo + b][i];
  }

  /** A header at `at` says: this type, this size as far as sixteen bits hold it, and the frame is at `pay`. */
  ghost predicate HeaderSays(m: seq<byte>, at: int, kind: u16, cb: nat, pay: int) {
    && 0 <= at && at + HEADER_SIZE <= |m|
    && var hd := ReadHeader(m, at); hd.kind == kind && hd.cb == U16(cb) && hd.off == pay - at
  }

  /** Nothing but the header at `at` has been written, and this is what it says. */
  ghost predicate HeaderStored(m: seq<byte>, m': seq<byte>, at: int, kind: u16, cb: nat, pay: int) {
    && |m| == |m'| && HeaderSays(m', at, kind, cb, pay)
    && forall i | 0 <= i < |m| && !(at <= i < at + HEADER_SIZE) :: m'[i] == m[i]
  }

  /** Nothing but the header at `at` and data at `pay`, where the header leads, has been written. */
  ghost predicate FrameStored(m: seq<byte>, m': seq<byte>, at: int, kind: u16, cb: nat, pay: int, data: seq<byte>) {
    && |m| == |m'| && HeaderSays(m', at, kind, cb, pay)
    && 0 <= pay && pay + |data| <= |m| && m'[pay..pay + |data|] == data
    && forall i | 0 <= i < |m| && !(at <= i < at + HEADER_SIZE) && !(pay <= i < pay + |data|) :: m'[i] == m[i]
  }

  class RingBuffer {
    /** The interface buffer's memory, and where in it this structure lies; offsets count from there. */
    const mem: array<byte>
    const base: nat

    var offStart: u32
    var offEnd: u32
    var offReadX: u32
    var offWriteCom: u32
    var offWriteInt: u32
    var cbStatWritten: nat
    var cStatFrames: nat
    var cOverflows: nat

    ghost predicate InMemory()
      reads this`offEnd
    {
      base + offEnd <= mem.Length
    }

    /** The memory up to the end of the ring, indexed by offset. */
    ghost function View(): (v: seq<byte>)
      requires InMemory()
      reads this`offEnd, mem
      ensures |v| == offEnd
    {
      mem[base..base + offEnd]
    }

    ghost function State(): RingState
      requires InMemory()
      reads this, mem
    {
      RingState(Geometry(offStart, offEnd), View(),
                offReadX, offWriteCom, offWriteInt, cbStatWritten, cStatFrames, cOverflows)
    }

    ghost predicate Valid()
      reads this, mem
    {
      InMemory() && Inv(State())
    }

    /** An object over zeroed fields; IntNetBuf sets the offsets. */
    constructor (mem: array<byte>, base: nat)
      ensures this.mem == mem && this.base == base
      ensures offEnd == 0 && cbStatWritten == cStatFrames == cOverflows == 0
    {
      this.mem, this.base := mem, base;
      offStart, offEnd, offReadX, offWriteCom, offWriteInt := 0, 0, 0, 0, 0;
      cbStatWritten, cStatFrames, cOverflows := 0, 0, 0;
    }

    /** Bytes outside this ring's data area are not touched. */
    twostate predicate OthersUntouched()
      reads this, mem
    {
      forall i | 0 <= i < mem.Length && !(base + offStart <= i < base + offEnd) :: mem[i] == old(mem[i])
    }

    /** Stores bytes at an offset of the ring. */
    method Store(off: nat, bs: seq<byte>)
      requires InMemory() && offStart <= off && off + |bs| <= offEnd
      modifies mem
      ensures View() == Put(old(View()), off, bs)
      ensures OthersUntouched()
    {
      ghost var m := mem[..];
      assert View() == m[base..base + offEnd];
      PutWithin(m, base, base + offEnd, base + off, bs);
      CopyInto(mem, base + off, bs);
      ghost var m' := mem[..];
      assert View() == m'[base..base + offEnd];
      assert forall i | 0 <= i < mem.Length :: mem[i] == m'[i] && old(mem[i]) == m[i];
    }

    /** The header at an offset. */
    function LoadHeader(off: nat): (h: Header)
      requires InMemory() && off + HEADER_SIZE <= offEnd
      reads this`offEnd, mem
      ensures h == ReadHeader(View(), off)
    {
      ReadHeader(mem[base..base + offEnd], off)
    }

    /** IntNetRingGetWritable. */
    method GetWritable() returns (cb: int)
      requires Valid()
      ensures cb == Writable(State().g, State().offWriteInt, State().offRead)
      ensures cb + 1 == State().g.Size() - Readable(State()) - TotalFoot(State().g, Pending(State()))
    {
      SpaceConserved(State());
      SpaceComputed(State());
      hide U32, Linked, Slots, Decode;
      cb := if offReadX <= offWriteInt then U32(offEnd - offWriteInt + offReadX - offStart - 1)
            else U32(offReadX - offWriteInt - 1);
    }

    /** IntNetRingHasMoreToRead. */
    method HasMoreToRead() returns (more: bool)
      requires Valid()
      ensures more <==> Committed(State()) != []
    {
      PendingEmpty(State());
      more := offReadX != offWriteCom;
    }

    /** IntNetRingGetNextFrameToRead. */
    method GetNextFrameToRead() returns (hdr: Option<u32>)
      requires Valid()
      ensures hdr.None? <==> Committed(State()) == []
      ensures hdr.Some? ==> InRing(State().g, hdr.value) && FrameStarts(State().m, State().g, hdr.value)
                            && FrameAt(State().m, State().g, hdr.value) == Committed(State())[0]
    {
      PendingEmpty(State());
      hdr := if offReadX == offWriteCom then None else Some(offReadX);
    }

    /** IntNetRingGetReadable. */
    method GetReadable() returns (cb: int)
      requires Valid()
      ensures cb == TotalFoot(State().g, CommittedSlots(State()))
    {
      SpaceConserved(State());
      SpaceComputed(State());
      hide U32, Linked, Slots, Decode;
      cb := if offReadX <= offWriteCom then U32(offWriteCom - offReadX)
            else U32(offEnd - offReadX + offWriteCom - offStart);
    }

    /** IntNetRingSkipFrame. */
    method SkipFrame()
      requires Valid() && offReadX != offWriteCom
      modifies this`offReadX
      ensures InMemory() && State() == Skip(old(State()))
      ensures Valid() && old(Committed(State())) == [old(Committed(State()))[0]] + Committed(State())
      ensures Pending(State()) == old(Pending(State()))
    {
      hide Inv, Decode, Align8, FrameStarts, FrameAt, Committed, Pending, PendingFrames;
      ghost var s := State();
      InvHasShape(s);
      SkipDequeues(s);
      hide *;
      SkipAt(offReadX);
    }

    /** The three header fields of a new frame. */
    method StoreHeader(off: nat, kind: u16, cb: u16, offFrame: s32)
      requires InMemory() && offStart <= off && off + HEADER_SIZE <= offEnd
      modifies mem
      ensures View() == Put(old(View()), off, Encode(Header(kind, cb, offFrame)))
      ensures OthersUntouched()
    {
      hide View;
      Store(off, ToBytes(kind, 2));
      Store(off + 2, ToBytes(cb, 2));
      Store(off + 4, ToBytes(U32(offFrame), 4));
      ThreeFields(old(View()), off, Header(kind, cb, offFrame));
    }

    /** Where a frame of rounded size `cb` goes: the writer's next offset and the payload's distance from the header. */
    method ChoosePlace(cb: u32) returns (fits: bool, offNew: u32, offFrame: s32)
      requires InMemory() && Shape(State()) && Align8(cb) == cb
      ensures var s := State();
              var place := Place(s.g, s.offWriteInt, s.offRead, cb);
              && (fits <==> place.Some?)
              && (fits ==> offNew == NextHeader(s.g, place.value) && offFrame == place.value.pay - place.value.hdr)
    {
      ghost var s := State();
      PlacementComputed(s, cb);
      hide U32, S32, Align8;
      var w, r := offWriteInt, offReadX;
      fits, offNew, offFrame := false, 0, 0;
      if r <= w {
        if U32(offEnd - w) >= cb + HEADER_SIZE {
          offNew := U32(w + cb + HEADER_SIZE);
          if offNew >= offEnd {
            offNew := offStart;
          }
          fits, offFrame := true, HEADER_SIZE;
        } else if U32(r - offStart) > cb {
          fits, offNew, offFrame := true, U32(offStart + cb), S32(U32(offStart - w));
        }
      } else if U32(r - w) > cb + HEADER_SIZE {
        fits, offNew, offFrame := true, U32(w + cb + HEADER_SIZE), HEADER_SIZE;
      }
    }

    /** intnetRingAllocateFrameInternal. */
    method AllocateFrameInternal(cbFrame: u32, u16Type: u16)
      returns (rc: Status, hdr: Option<u32>, frame: Option<u32>)
      requires Valid() && 12 <= cbFrame <= 0xFFFF_FFF8
      modifies this`offWriteInt, this`cOverflows, mem
      ensures InMemory()
      ensures var (t, place) := old(Allocate(State(), u16Type, cbFrame));
              && State() == t
              && (rc == VInfSuccess <==> place.Some?)
              && (place.Some? ==> hdr.Some? && hdr.value == place.value.hdr
                                  && frame.Some? && frame.value == place.value.pay)
              && (place.None? ==> hdr == None && frame == None)
      ensures var g, w, r, cap := Geometry(offStart, offEnd), old(offWriteInt), offReadX, Align8(cbFrame);
              && (rc == VInfSuccess <==> FitsBehind(g, w, r, cap) || FitsAtStart(g, w, r, cap))
              && (rc == VInfSuccess ==>
                    var pay := PayloadAt(g, w, r, cap);
                    && hdr.Some? && hdr.value == w && frame.Some? && frame.value == pay
                    && HeaderStored(old(View()), View(), w, u16Type, cbFrame, pay)
                    && offWriteInt == Wrap(g, pay + cap) && cOverflows == old(cOverflows))
      ensures rc != VInfSuccess ==> rc == VErrBufferOverflow && hdr == None && frame == None && View() == old(View())
                                    && offWriteInt == old(offWriteInt) && cOverflows == old(cOverflows) + 1
      ensures OthersUntouched()
    {
      hide Inv, Encode, Put, Place, Align8, AlignU32, Allocate, FitsBehind, FitsAtStart, PayloadAt, Wrap, HeaderStored;
      ghost var s := State();
      InvHasShape(s);
      var cb := AlignU32(cbFrame);
      AllocateFields(s, u16Type, cbFrame, cb);
      AllocateSays(s, u16Type, cbFrame);
      var fits, offNew, offFrame := ChoosePlace(cb);
      if !fits {
        cOverflows := cOverflows + 1;
        return VErrBufferOverflow, None, None;
      }
      var w := offWriteInt;
      TakePlace(w, offNew, u16Type, cbFrame, offFrame);
      return VInfSuccess, Some(w), Some(w + offFrame);
    }

    /** IntNetRingAllocateFrame. */
    method AllocateFrame(cbFrame: u32) returns (rc: Status, hdr: Option<u32>, frame: Option<u32>)
      requires Valid() && 12 <= cbFrame <= 0xFFFF_FFF8
      modifies this`offWriteInt, this`cOverflows, mem
      ensures InMemory()
      ensures var (t, place) := old(Allocate(State(), TYPE_FRAME, cbFrame));
              && State() == t
              && (rc == VInfSuccess <==> place.Some?)
              && (place.Some? ==> hdr.Some? && hdr.value == place.value.hdr
                                  && frame.Some? && frame.value == place.value.pay)
              && (place.None? ==> hdr == None && frame == None)
      ensures var g, w, r, cap := Geometry(offStart, offEnd), old(offWriteInt), offReadX, Align8(cbFrame);
              && (rc == VInfSuccess <==> FitsBehind(g, w, r, cap) || FitsAtStart(g, w, r, cap))
              && (rc == VInfSuccess ==>
                    var pay := PayloadAt(g, w, r, cap);
                    && hdr.Some? && hdr.value == w && frame.Some? && frame.value == pay
                    && HeaderStored(old(View()), View(), w, TYPE_FRAME, cbFrame, pay)
                    && offWriteInt == Wrap(g, pay + cap) && cOverflows == old(cOverflows))
      ensures rc != VInfSuccess ==> rc == VErrBufferOverflow && hdr == None && frame == None && View() == old(View())
                                    && offWriteInt == old(offWriteInt) && cOverflows == old(cOverflows) + 1
      ensures OthersUntouched()
    {
      hide *;
      rc, hdr, frame := AllocateFrameInternal(cbFrame, TYPE_FRAME);
    }

    /** IntNetRingAllocateGsoFrame: the frame pointer handed out lies behind the context. */
    method AllocateGsoFrame(cbFrame: u32, gso: seq<byte>) returns (rc: Status, hdr: Option<u32>, frame: Option<u32>)
      requires Valid() && |gso| == GSO_SIZE && 12 <= cbFrame + GSO_SIZE <= 0xFFFF_FFF8
      modifies this`offWriteInt, this`cOverflows, mem
      ensures InMemory()
      ensures var (t, place) := old(Allocate(State(), TYPE_GSO, cbFrame + GSO_SIZE));
              && (rc == VInfSuccess <==> place.Some?)
              && (place.Some? ==> 0 <= place.value.pay && place.value.pay + GSO_SIZE <= |t.m|
                                  && State() == Fill(t, place.value.pay, gso)
                                  && hdr.Some? && hdr.value == place.value.hdr
                                  && frame.Some? && frame.value == place.value.pay + GSO_SIZE)
              && (place.None? ==> State() == t && hdr == None && frame == None)
      ensures var g, w, r, cap := Geometry(offStart, offEnd), old(offWriteInt), offReadX, Align8(cbFrame + GSO_SIZE);
              && (rc == VInfSuccess <==> FitsBehind(g, w, r, cap) || FitsAtStart(g, w, r, cap))
              && (rc == VInfSuccess ==>
                    var pay := PayloadAt(g, w, r, cap);
                    && hdr.Some? && hdr.value == w && frame.Some? && frame.value == pay + GSO_SIZE
                    && FrameStored(old(View()), View(), w, TYPE_GSO, cbFrame + GSO_SIZE, pay, gso)
                    && offWriteInt == Wrap(g, pay + cap) && cOverflows == old(cOverflows))
      ensures rc != VInfSuccess ==> rc == VErrBufferOverflow && hdr == None && frame == None && View() == old(View())
                                    && offWriteInt == old(offWriteInt) && cOverflows == old(cOverflows) + 1
      ensures OthersUntouched()
    {
      hide Inv, Align8, Allocate, FitsBehind, FitsAtStart, PayloadAt, Wrap, FrameStored, View;
      ghost var s, cap := State(), Align8(cbFrame + GSO_SIZE);
      InvHasShape(s);
      ghost var (t, place) := Allocate(s, TYPE_GSO, cbFrame + GSO_SIZE);
      ghost var pay := PayloadAt(s.g, offWriteInt, offReadX, cap);
      ContextSays(s, cbFrame + GSO_SIZE, gso, t, place, offWriteInt, offReadX, cap, pay);
      rc, hdr, frame := AllocateWithContext(cbFrame, gso);
    }

    /** The allocation with room for the context, and the store of the context. */
    method AllocateWithContext(cbFrame: u32, gso: seq<byte>)
      returns (rc: Status, hdr: Option<u32>, frame: Option<u32>)
      requires Valid() && |gso| == GSO_SIZE && 12 <= cbFrame + GSO_SIZE <= 0xFFFF_FFF8
      modifies this`offWriteInt, this`cOverflows, mem
      ensures InMemory()
      ensures var (t, place) := old(Allocate(State(), TYPE_GSO, cbFrame + GSO_SIZE));
              && (rc == VInfSuccess <==> place.Some?)
              && (place.Some? ==> 0 <= place.value.pay && place.value.pay + GSO_SIZE <= |t.m|
                                  && State() == Fill(t, place.value.pay, gso)
                                  && View() == Put(t.m, place.value.pay, gso)
                                  && hdr.Some? && hdr.value == place.value.hdr
                                  && frame.Some? && frame.value == place.value.pay + GSO_SIZE)
              && (place.None? ==> rc == VErrBufferOverflow && State() == t && hdr == None && frame == None)
      ensures OthersUntouched()
    {
      GsoContextFits(State(), cbFrame);
      hide *;
      rc, hdr, frame := AllocateFrameInternal(cbFrame + GSO_SIZE, TYPE_GSO);
      if rc == VInfSuccess {
        StoreContext(frame.value, gso);
        frame := Some(frame.value + GSO_SIZE);
      }
    }

    /** Stores a GSO context. */
    method StoreContext(off: u32, gso: seq<byte>)
      requires InMemory() && offStart <= off && off + |gso| <= offEnd
      modifies mem
      ensures State() == Fill(old(State()), off, gso) && View() == Put(old(View()), off, gso)
      ensures OthersUntouched()
    {
      Store(off, gso);
    }

    /** IntNetRingCommitFrame. In a valid ring it queues the oldest pending frame. */
    method CommitFrame(hdr: u32)
      requires InMemory() && Shape(State()) && hdr == offWriteCom && FrameStarts(State().m, State().g, hdr)
      modifies this`offWriteCom, this`cbStatWritten, this`cStatFrames
      ensures InMemory() && State() == Commit(old(State()), hdr)
      ensures old(Valid() && offWriteCom != offWriteInt)
              ==> Valid() && old(PendingFrames(State())) != []
                  && Committed(State()) == old(Committed(State())) + [old(PendingFrames(State()))[0]]
                  && Pending(State()) == old(Pending(State()))[1..]
      ensures cbStatWritten == old(cbStatWritten) + |FrameAt(State().m, State().g, hdr).data|
      ensures cStatFrames == old(cStatFrames) + 1
    {
      hide Inv, Decode, Align8, AlignU32, Committed, Pending, PendingFrames, FrameStarts, FrameAt, SlotAt, View;
      ghost var s := State();
      FrameFields(s.m, s.g, hdr);
      if Inv(s) && s.offWriteCom != s.offWriteInt {
        CommitOldest(s);
      }
      var hd := LoadHeader(hdr);
      var offNew := CommittedOffset(hdr);
      AdvanceCommit(offNew, hd.cb);
      assert State() == Commit(s, hdr);
    }

    /** IntNetRingCommitFrameEx. */
    method CommitFrameEx(hdr: u32, cbUsed: nat)
      requires Valid() && hdr == offWriteCom != offWriteInt && FrameStarts(State().m, State().g, hdr)
      requires UsedSize(ReadHeader(State().m, hdr), cbUsed) <= ReadHeader(State().m, hdr).cb
      modifies this`offWriteCom, this`cbStatWritten, this`cStatFrames, mem
      ensures InMemory() && State() == old(CommitEx(State(), hdr, cbUsed)) && Valid()
      ensures old(PendingFrames(State())) != [] && Pending(State()) == old(Pending(State()))[1..]
      ensures var q, q', f := old(Committed(State())), Committed(State()), old(PendingFrames(State()))[0];
              var used := if f.kind == TYPE_GSO then cbUsed + GSO_SIZE else cbUsed;
              && cbStatWritten == old(cbStatWritten) + used <= old(cbStatWritten) + |f.data|
              && cStatFrames == old(cStatFrames) + 1
              && if Align8(used) == Align8(|f.data|) then q' == q + [f]
                 else exists padding: Frame :: padding.kind == TYPE_PADDING
                                               && |padding.data| == Align8(|f.data|) - Align8(used) - HEADER_SIZE
                                               && q' == q + [f.(data := f.data[..used]), padding]
      ensures OthersUntouched()
    {
      hide Inv, Decode, Encode, CommitEx, Padded, Align8, FrameStarts;
      ghost var s := State();
      InvHasShape(s);
      var hd := LoadHeader(hdr);
      var used := if hd.kind == TYPE_GSO then cbUsed + GSO_SIZE else cbUsed;
      CommitExResult(s, cbUsed, used);
      CommitExSays(s, cbUsed);
      ghost var s' := CommitEx(s, hdr, cbUsed);
      hide *;
      var offNew := CommittedOffset(hdr);
      assert s'.m == Padded(View(), State().g, hdr, cbUsed);
      PadUnused(hdr, hd, used, cbUsed);
      AdvanceCommit(offNew, used);
    }

    /** Stores the committed offset and counts the frame. */
    method AdvanceCommit(offNew: u32, cb: nat)
      requires InMemory()
      modifies this`offWriteCom, this`cbStatWritten, this`cStatFrames
      ensures View() == old(View()) && offWriteCom == offNew
      ensures cbStatWritten == old(cbStatWritten) + cb && cStatFrames == old(cStatFrames) + 1
    {
      offWriteCom, cbStatWritten, cStatFrames := offNew, cbStatWritten + cb, cStatFrames + 1;
    }

    /** The committed offset behind the frame at `hdr`. */
    method CommittedOffset(hdr: u32) returns (offNew: u32)
      requires InMemory() && Shape(State()) && Cursor(State().g, hdr) && FrameStarts(State().m, State().g, hdr)
      ensures offNew == NextAt(State().m, State().g, hdr)
    {
      SkipComputed(State(), hdr);
      hide Decode, Align8, AlignU32, U32;
      var hd := LoadHeader(hdr);
      offNew := U32(U32(hdr + hd.off) + AlignU32(hd.cb));
      if offNew >= offEnd {
        offNew := offStart;
      }
    }

    /** Plants a padding frame unless rounding makes used and allocated size equal. */
    method PadUnused(hdr: u32, hd: Header, used: u16, ghost cbUsed: nat)
      requires InMemory() && Shape(State()) && Cursor(State().g, hdr) && FrameStarts(State().m, State().g, hdr)
      requires hd == ReadHeader(State().m, hdr) && used == UsedSize(hd, cbUsed) <= hd.cb
      modifies mem
      ensures View() == old(Padded(View(), State().g, hdr, cbUsed))
      ensures OthersUntouched()
    {
      hide Decode, Encode, Align8, AlignU32, Padded, PutTwoHeaders, FrameStarts, UsedSize, View, U16;
      ghost var m := View();
      ghost var r := Padded(m, State().g, hdr, cbUsed);
      PaddingComputed(m, State().g, hdr, cbUsed, hd, used);
      var cbAlignedFrame, cbAlignedUsed := AlignU32(hd.cb), AlignU32(used);
      AlignU32IsAlign8(hd.cb);
      AlignU32IsAlign8(used);
      assert InRing(State().g, hdr);
      hide *;
      if cbAlignedFrame != cbAlignedUsed {
        var p, cbPadding := hdr + hd.off + cbAlignedUsed, U16(cbAlignedFrame - cbAlignedUsed - HEADER_SIZE);
        assert r == PutTwoHeaders(m, hdr, hd.(cb := used), p, Header(TYPE_PADDING, cbPadding, 8));
        PlantPadding(hdr, hd, used, p, cbPadding);
        assert View() == r;
      }
    }

    /** Writes the padding frame's header at `p` and shortens the frame in front of it. */
    method PlantPadding(hdr: u32, ghost hd: Header, used: u16, p: u32, cbPadding: u16)
      requires InMemory() && InRing(State().g, hdr) && hd == ReadHeader(State().m, hdr) && InRing(State().g, p)
      requires hdr + 8 <= p || p + 8 <= hdr
      modifies mem
      ensures View() == old(PutTwoHeaders(View(), hdr, hd.(cb := used), p, Header(TYPE_PADDING, cbPadding, 8)))
      ensures OthersUntouched()
    {
      ghost var m := View();
      PutElsewhere(m, p, Encode(Header(TYPE_PADDING, cbPadding, 8)), hdr, hdr + 8);
      hide View, Put, Encode, Decode;
      StoreHeader(p, TYPE_PADDING, cbPadding, HEADER_SIZE);
      SizeField(View(), hdr, used);
      Store(hdr + 2, ToBytes(used, 2));
    }

    /** IntNetRingWriteFrame; the caller has no uncommitted frames. */
    method WriteFrame(data: seq<byte>) returns (rc: Status)
      requires Valid() && offWriteCom == offWriteInt && 12 <= |data| <= 0xFFFF_FFF8
      modifies this`offWriteInt, this`offWriteCom, this`cbStatWritten, this`cStatFrames, this`cOverflows, mem
      ensures InMemory() && State() == old(RingModel.WriteFrame(State(), data)).0
      ensures rc == VInfSuccess <==> old(RingModel.WriteFrame(State(), data)).1
      ensures var g, w, r, cap := Geometry(offStart, offEnd), old(offWriteInt), offReadX, Align8(|data|);
              && (rc == VInfSuccess <==> FitsBehind(g, w, r, cap) || FitsAtStart(g, w, r, cap))
              && (rc == VInfSuccess ==>
                    var pay := PayloadAt(g, w, r, cap);
                    && FrameStored(old(View()), View(), w, TYPE_FRAME, |data|, pay, data)
                    && offWriteCom == offWriteInt == Wrap(g, pay + cap))
      ensures rc == VInfSuccess ==> cbStatWritten == old(cbStatWritten) + |data|
                                    && cStatFrames == old(cStatFrames) + 1 && cOverflows == old(cOverflows)
      ensures rc != VInfSuccess ==> rc == VErrBufferOverflow && View() == old(View())
                                    && offWriteCom == offWriteInt == old(offWriteInt)
                                    && cbStatWritten == old(cbStatWritten) && cStatFrames == old(cStatFrames)
                                    && cOverflows == old(cOverflows) + 1
      ensures OthersUntouched()
    {
      hide Inv, Align8, RingModel.WriteFrame, FitsBehind, FitsAtStart, PayloadAt, Wrap, FrameStored, View;
      ghost var s, cap := State(), Align8(|data|);
      InvHasShape(s);
      ghost var (t, ok) := RingModel.WriteFrame(s, data);
      WriteSays(s, data, t, ok, offWriteInt, offReadX, cap, PayloadAt(s.g, offWriteInt, offReadX, cap));
      rc := WriteRounded(data, AlignU32(|data|));
    }

    /** The write with the size rounded up to `cb`. */
    method WriteRounded(data: seq<byte>, cb: u32) returns (rc: Status)
      requires Valid() && offWriteCom == offWriteInt && |data| <= 0xFFFF_FFF8 && cb == AlignU32(|data|)
      modifies this`offWriteInt, this`offWriteCom, this`cbStatWritten, this`cStatFrames, this`cOverflows, mem
      ensures InMemory() && State() == old(RingModel.WriteFrame(State(), data)).0
      ensures rc == VInfSuccess <==> old(RingModel.WriteFrame(State(), data)).1
      ensures OthersUntouched()
    {
      hide Inv, Decode, Encode, Put, Place, Align8, AlignU32, RingModel.WriteFrame;
      ghost var s := State();
      InvHasShape(s);
      assert InRing(s.g, s.offWriteInt);
      WriteFields(s, data, cb);
      ghost var s' := RingModel.WriteFrame(s, data).0;
      hide *;
      var fits, offNew, offFrame := ChoosePlace(cb);
      if !fits {
        cOverflows := cOverflows + 1;
        return VErrBufferOverflow;
      }
      PlaceFrame(offWriteInt, offNew, offFrame, data);
      assert State() == s';
      return VInfSuccess;
    }

    /** Takes the place, stores the frame there and commits it. */
    method PlaceFrame(w: u32, offNew: u32, offFrame: s32, data: seq<byte>)
      requires InMemory() && w == offWriteInt && offStart <= w && w + HEADER_SIZE <= offEnd
      requires offStart <= w + offFrame && w + offFrame + |data| <= offEnd && |data| < 0x1_0000_0000
      modifies this`offWriteInt, this`offWriteCom, this`cbStatWritten, this`cStatFrames, mem
      ensures View() == Put(Put(old(View()), w, Encode(Header(TYPE_FRAME, U16(|data|), offFrame))), w + offFrame, data)
      ensures offWriteInt == offWriteCom == offNew
      ensures cbStatWritten == old(cbStatWritten) + |data| && cStatFrames == old(cStatFrames) + 1
      ensures OthersUntouched()
    {
      hide View, Put, Encode;
      TakePlace(w, offNew, TYPE_FRAME, |data|, offFrame);
      Store(w + offFrame, data);
      AdvanceCommit(offNew, |data|);
    }

    /**
     IntNetRingReadAndSkipFrame: 0 when there is nothing to read, otherwise the size of the oldest frame, whose bytes
     are now at the front of the destination.
     */
    method ReadAndSkipFrame(dst: array<byte>) returns (cb: u32)
      requires Valid() && dst != mem
      requires Committed(State()) != [] ==> |Committed(State())[0].data| <= dst.Length
      modifies this`offReadX, dst
      ensures InMemory()
      ensures var q := old(Committed(State()));
              if q == [] then cb == 0 && State() == old(State()) && dst[..] == old(dst[..])
              else && cb == |q[0].data| && State() == Skip(old(State())) && Valid()
                   && Committed(State()) == q[1..] && Pending(State()) == old(Pending(State()))
                   && dst[..] == Put(old(dst[..]), 0, q[0].data)
    {
      hide Inv, Decode, Align8, FrameStarts, FrameAt, Committed, Pending, PendingFrames;
      ghost var s := State();
      InvHasShape(s);
      PendingEmpty(s);
      if offReadX == offWriteCom {
        return 0;
      }
      SkipDequeues(s);
      hide *;
      cb := CopyFrame(offReadX, dst);
      SkipAt(offReadX);
    }

    /** Copies the frame at `hdr` to the front of `dst` and returns its size. */
    method CopyFrame(hdr: u32, dst: array<byte>) returns (cb: u32)
      requires InMemory() && dst != mem && Shape(State()) && Cursor(State().g, hdr)
          && FrameStarts(View(), State().g, hdr)
      requires |FrameAt(View(), State().g, hdr).data| <= dst.Length
      modifies dst
      ensures View() == old(View()) && cb == |FrameAt(View(), State().g, hdr).data|
      ensures dst[..] == Put(old(dst[..]), 0, FrameAt(View(), State().g, hdr).data)
    {
      hide Decode, Align8, Put, FrameAt, FrameStarts, SlotAt, SlotOk, Aligned;
      FrameBytes(View(), State().g, hdr);
      var hd := LoadHeader(hdr);
      var offFrame := hdr + hd.off;
      cb := hd.cb;
      SliceOfSlice(mem[..], base, base + offEnd, offFrame, offFrame + cb);
      assert View() == mem[..][base..base + offEnd];
      assert mem[base + offFrame..base + offFrame + cb] == mem[..][base + offFrame..base + offFrame + cb];
      CopyInto(dst, 0, mem[base + offFrame..base + offFrame + cb]);
    }

    /** Moves the read offset behind the frame at `hdr`. */
    method SkipAt(hdr: u32)
      requires InMemory() && Shape(State()) && hdr == offReadX && FrameStarts(View(), State().g, hdr)
      modifies this`offReadX
      ensures State() == Skip(old(State()))
    {
      SkipComputed(State(), hdr);
      hide Decode, Align8, AlignU32, U32;
      var hd := LoadHeader(hdr);
      var offNew := AlignU32(U32(hdr + hd.off + hd.cb));
      if offNew >= offEnd {
        offNew := offStart;
      }
      offReadX := offNew;
    }

    /** Moves the writer's offset and writes the new frame's header; the compare-and-exchange of the only writer. */
    method TakePlace(w: u32, offNew: u32, kind: u16, cbFrame: u32, offFrame: s32)
      requires InMemory() && w == offWriteInt && offStart <= w && w + HEADER_SIZE <= offEnd
      modifies this`offWriteInt, mem
      ensures View() == Put(old(View()), w, Encode(Header(kind, U16(cbFrame), offFrame))) && offWriteInt == offNew
      ensures OthersUntouched()
    {
      hide View;
      offWriteInt := offNew;
      StoreHeader(w, kind, U16(cbFrame), offFrame);
    }
  }

  /** What IntNetRingCommitFrameEx changes, field by field. */
  lemma CommitExResult(s: RingState, cbUsed: nat, used: nat)
    requires Inv(s) && s.offWriteCom != s.offWriteInt && FrameStarts(s.m, s.g, s.offWriteCom)
    requires used == UsedSize(ReadHeader(s.m, s.offWriteCom), cbUsed) <= ReadHeader(s.m, s.offWriteCom).cb
    ensures var s' := CommitEx(s, s.offWriteCom, cbUsed);
            && s'.g == s.g && s'.m == Padded(s.m, s.g, s.offWriteCom, cbUsed)
            && s'.offRead == s.offRead && s'.offWriteInt == s.offWriteInt
            && s'.offWriteCom == NextAt(s.m, s.g, s.offWriteCom)
            && s'.cbWritten == s.cbWritten + used && s'.cFrames == s.cFrames + 1 && s'.cOverflows == s.cOverflows
            && Inv(s') && Pending(s) != [] && Pending(s') == Pending(s)[1..]
  {
    var s' := CommitEx(s, s.offWriteCom, cbUsed);
    hide Decode, Linked, Slots, Queue, Padded, Align8;
    CommitExKeeps(s, cbUsed, FrameAt(s.m, s.g, s.offWriteCom), used, s');
  }

  /** What IntNetRingCommitFrameEx queues and counts. */
  lemma CommitExSays(s: RingState, cbUsed: nat)
    requires Inv(s) && s.offWriteCom != s.offWriteInt && FrameStarts(s.m, s.g, s.offWriteCom)
    requires UsedSize(ReadHeader(s.m, s.offWriteCom), cbUsed) <= ReadHeader(s.m, s.offWriteCom).cb
    ensures var t := CommitEx(s, s.offWriteCom, cbUsed);
            && PendingFrames(s) != [] && Pending(s) != [] && Inv(t) && Pending(t) == Pending(s)[1..]
            && var f := PendingFrames(s)[0];
            var used := if f.kind == TYPE_GSO then cbUsed + GSO_SIZE else cbUsed;
            && t.cbWritten == s.cbWritten + used && used <= |f.data| && t.cFrames == s.cFrames + 1
            && if Align8(used) == Align8(|f.data|) then Committed(t) == Committed(s) + [f]
               else exists padding: Frame :: padding.kind == TYPE_PADDING
                                             && |padding.data| == Align8(|f.data|) - Align8(used) - HEADER_SIZE
                                             && Committed(t) == Committed(s) + [f.(data := f.data[..used]), padding]
  {
    var hd, f := ReadHeader(s.m, s.offWriteCom), FrameAt(s.m, s.g, s.offWriteCom);
    FrameFields(s.m, s.g, s.offWriteCom);
    var t := CommitEx(s, s.offWriteCom, cbUsed);
    var used := UsedSize(hd, cbUsed);
    assert t.cbWritten == s.cbWritten + used && t.cFrames == s.cFrames + 1
           && used == if f.kind == TYPE_GSO then cbUsed + GSO_SIZE else cbUsed;
    hide *;
    CommitExKeeps(s, cbUsed, f, used, t);
    FrontOfQueue(PendingFrames(s), f, PendingFrames(t));
    FrontOfQueue(Pending(s), SlotAt(s.m, s.offWriteCom), Pending(t));
  }

  lemma FrameBytes(m: seq<byte>, g: Geometry, h: int)
    requires MemoryOk(m, g) && InRing(g, h) && FrameStarts(m, g, h)
    ensures var hd := ReadHeader(m, h);
            && g.start <= h + hd.off && h + hd.off + hd.cb <= g.end
            && FrameAt(m, g, h).data == m[h + hd.off..h + hd.off + hd.cb]
  {
  }

  lemma FrontOfQueue<T>(q: seq<T>, x: T, rest: seq<T>)
    requires q == [x] + rest
    ensures q != [] && q[0] == x && q[1..] == rest
  {
  }

  /** Where the padding header goes, and that planting it there gives the memory CommitEx specifies. */
  lemma PaddingComputed(m: seq<byte>, g: Geometry, h: int, cbUsed: nat, hd: Header, used: u16)
    requires MemoryOk(m, g) && AlignedRing(g) && Cursor(g, h) && FrameStarts(m, g, h) && hd == ReadHeader(m, h)
    requires used == UsedSize(hd, cbUsed) <= hd.cb
    ensures Align8(used) == Align8(hd.cb) ==> Padded(m, g, h, cbUsed) == m
    ensures Align8(used) != Align8(hd.cb) ==>
              var p := h + hd.off + Align8(used);
              && InRing(g, p) && (h + 8 <= p || p + 8 <= h)
              && Padded(m, g, h, cbUsed)
                 == PutTwoHeaders(m, h, hd.(cb := used), p,
                   Header(TYPE_PADDING, U16(Align8(hd.cb) - Align8(used) - 8), 8))
  {
    hide Decode, Encode, PutTwoHeaders;
    U16Identity(used);
    if Align8(used) != Align8(hd.cb) {
      PartsFillSlot(g, SlotAt(m, h), hd.cb, used);
    }
  }

  /** What writing a frame changes, field by field. */
  lemma WriteFields(s: RingState, data: seq<byte>, cb: u32)
    requires Shape(s) && |data| + 7 < 0x1_0000_0000 && cb == AlignU32(|data|)
    ensures cb == Align8(|data|) == Align8(cb)
    ensures var place := Place(s.g, s.offWriteInt, s.offRead, cb);
            var (t, ok) := RingModel.WriteFrame(s, data);
            && (ok <==> place.Some?)
            && (!ok ==> t == s.(cOverflows := s.cOverflows + 1))
            && (ok ==>
                  var slot := place.value;
                  && InRing(s.g, slot.hdr) && slot.hdr == s.offWriteInt
                  && s.g.start <= slot.pay && slot.pay + |data| <= s.g.end
                  && t == s.(m := t.m, offWriteInt := NextHeader(s.g, slot), offWriteCom := NextHeader(s.g, slot),
                             cbWritten := s.cbWritten + |data|, cFrames := s.cFrames + 1)
                  && t.m == Put(Put(s.m, slot.hdr, Encode(Header(TYPE_FRAME, U16(|data|), slot.pay - slot.hdr))),
                                slot.pay, data))
  {
    AlignU32IsAlign8(|data|);
    Align8IsAligned(|data|);
    Align8Unique(cb, cb);
    hide AlignU32, Align8, Encode, U16, Aligned;
    if Place(s.g, s.offWriteInt, s.offRead, cb).Some? {
      PlaceSound(s.g, s.offWriteInt, s.offRead, cb);
    }
  }

  /** The 32-bit space computations never wrap. */
  lemma SpaceComputed(s: RingState)
    requires Shape(s)
    ensures var r, c, w, g := s.offRead, s.offWriteCom, s.offWriteInt, s.g;
            && Writable(g, w, r) == (if r <= w then U32(g.end - w + r - g.start - 1) else U32(r - w - 1))
            && Readable(s) == (if r <= c then U32(c - r) else U32(g.end - r + c - g.start))
  {
  }

  /** What an allocation changes, field by field. */
  lemma AllocateFields(s: RingState, kind: u16, cbFrame: u32, cb: u32)
    requires Shape(s) && cbFrame + 7 < 0x1_0000_0000 && cb == AlignU32(cbFrame)
    ensures cb == Align8(cbFrame) == Align8(cb)
    ensures var place := Place(s.g, s.offWriteInt, s.offRead, cb);
            var (t, p) := Allocate(s, kind, cbFrame);
            && p == place
            && (place.None? ==> t == s.(cOverflows := s.cOverflows + 1))
            && (place.Some? ==>
                  var slot := place.value;
                  && InRing(s.g, slot.hdr) && slot.hdr == s.offWriteInt && 0 <= slot.pay <= 0x8000_0000
                  && t == s.(m := t.m, offWriteInt := NextHeader(s.g, slot))
                  && t.m == Put(s.m, slot.hdr, Encode(Header(kind, U16(cbFrame), slot.pay - slot.hdr))))
  {
    AlignU32IsAlign8(cbFrame);
    Align8IsAligned(cbFrame);
    Align8Unique(cb, cb);
    hide AlignU32, Align8, Encode, U16, Aligned;
    if Place(s.g, s.offWriteInt, s.offRead, cb).Some? {
      PlaceSound(s.g, s.offWriteInt, s.offRead, cb);
    }
  }

  /** Where an allocation puts the frame and what it leaves, without the placement decision. */
  lemma AllocateSays(s: RingState, kind: u16, cb: nat)
    requires Shape(s)
    ensures var g, w, r, cap := s.g, s.offWriteInt, s.offRead, Align8(cb);
            var (t, place) := Allocate(s, kind, cb);
            && (place.Some? <==> FitsBehind(g, w, r, cap) || FitsAtStart(g, w, r, cap))
            && (place.Some? ==>
                  var pay := PayloadAt(g, w, r, cap);
                  && place.value == Slot(w, pay, cap)
                  && t.offWriteInt == Wrap(g, pay + cap)
                  && t.cOverflows == s.cOverflows && HeaderStored(s.m, t.m, w, kind, cb, pay))
            && (place.None? ==> t == s.(cOverflows := s.cOverflows + 1))
  {
    hide Align8, Decode, Encode, U16, Place, FitsBehind, FitsAtStart, PayloadAt, Wrap;
    PlaceInFull(s.g, s.offWriteInt, s.offRead, Align8(cb));
    var place := Place(s.g, s.offWriteInt, s.offRead, Align8(cb));
    if place.Some? {
      var hd := FrameHeaderFor(kind, cb, place.value);
      DecodeEncode(hd);
      assert Allocate(s, kind, cb).0.m[place.value.hdr..place.value.hdr + HEADER_SIZE] == Encode(hd);
    }
  }

  lemma GsoContextFits(s: RingState, cbFrame: nat)
    requires Inv(s)
    ensures var (t, place) := Allocate(s, TYPE_GSO, cbFrame + GSO_SIZE);
            place.Some? ==> s.g.start <= place.value.pay && place.value.pay + GSO_SIZE <= s.g.end <= |t.m|
  {
  }

  /** Where a GSO frame goes and what its allocation leaves: the context in front of the payload. */
  lemma ContextSays(s: RingState, cb: nat, gso: seq<byte>, t: RingState, place: Option<Slot>,
                    w: int, r: int, cap: int, pay: int)
    requires Shape(s) && Allocate(s, TYPE_GSO, cb) == (t, place) && |gso| == GSO_SIZE <= cb
    requires w == s.offWriteInt && r == s.offRead && cap == Align8(cb)
    requires pay == PayloadAt(s.g, w, r, cap)
    ensures place.Some? <==> FitsBehind(s.g, w, r, cap) || FitsAtStart(s.g, w, r, cap)
    ensures place.Some? ==>
              && place.value == Slot(w, pay, cap) && s.g.start <= pay && pay + GSO_SIZE <= s.g.end <= |t.m|
              && t.offWriteInt == Wrap(s.g, pay + cap)
              && t.cOverflows == s.cOverflows && FrameStored(s.m, Put(t.m, pay, gso), w, TYPE_GSO, cb, pay, gso)
    ensures place.None? ==> t == s.(cOverflows := s.cOverflows + 1)
  {
    hide Align8, Place, Allocate, FitsBehind, FitsAtStart, PayloadAt, Wrap, FrameStored, HeaderStored;
    AllocateSays(s, TYPE_GSO, cb);
    PlaceInFull(s.g, w, r, cap);
    if place.Some? {
      ContextStored(s.m, t.m, s.g, Slot(w, pay, cap), cb, gso);
    }
  }

  lemma ContextStored(m: seq<byte>, m': seq<byte>, g: Geometry, slot: Slot, cb: nat, gso: seq<byte>)
    requires MemoryOk(m, g) && SlotOk(g, slot) && |gso| <= slot.cap
    requires HeaderStored(m, m', slot.hdr, TYPE_GSO, cb, slot.pay)
    ensures slot.pay + |gso| <= |m| == |m'|
    ensures FrameStored(m, Put(m', slot.pay, gso), slot.hdr, TYPE_GSO, cb, slot.pay, gso)
  {
    hide Decode;
    PutElsewhere(m', slot.pay, gso, slot.hdr, slot.hdr + HEADER_SIZE);
  }

  /** A header and its payload, stored in this order. */
  lemma HeaderThenPayload(m: seq<byte>, g: Geometry, slot: Slot, hd: Header, cb: nat, data: seq<byte>)
    requires MemoryOk(m, g) && SlotOk(g, slot) && |data| <= slot.cap
    requires hd.cb == U16(cb) && hd.off == slot.pay - slot.hdr
    ensures var r := Put(Put(m, slot.hdr, Encode(hd)), slot.pay, data);
            FrameStored(m, r, slot.hdr, hd.kind, cb, slot.pay, data)
  {
    DecodeEncode(hd);
    hide Decode, Encode;
    var m1 := Put(m, slot.hdr, Encode(hd));
    assert m1[slot.hdr..slot.hdr + HEADER_SIZE] == Encode(hd);
    PutElsewhere(m1, slot.pay, data, slot.hdr, slot.hdr + HEADER_SIZE);
  }

  /** Where a write puts the frame and what it leaves, without the placement decision. */
  lemma WriteSays(s: RingState, data: seq<byte>, t: RingState, ok: bool, w: int, r: int, cap: nat, pay: int)
    requires Shape(s) && RingModel.WriteFrame(s, data) == (t, ok)
    requires w == s.offWriteInt && r == s.offRead && cap == Align8(|data|)
    requires pay == PayloadAt(s.g, w, r, cap)
    ensures ok <==> FitsBehind(s.g, w, r, cap) || FitsAtStart(s.g, w, r, cap)
    ensures ok ==>
              && FrameStored(s.m, t.m, w, TYPE_FRAME, |data|, pay, data)
              && t.offWriteCom == t.offWriteInt == Wrap(s.g, pay + cap)
              && t.cbWritten == s.cbWritten + |data| && t.cFrames == s.cFrames + 1 && t.cOverflows == s.cOverflows
    ensures !ok ==> t == s.(cOverflows := s.cOverflows + 1)
  {
    hide *;
    ShapePlaces(s, cap);
    var place := Place(s.g, w, r, cap);
    if place.Some? {
      WriteLands(s, data, t, ok, place.value);
      assert place.value == Slot(w, pay, cap);
    } else {
      WriteOverflows(s, data, t, ok);
    }
  }

  lemma ShapePlaces(s: RingState, cap: nat)
    requires Shape(s)
    ensures var g, w, r := s.g, s.offWriteInt, s.offRead;
            && (Place(g, w, r, cap).Some? <==> FitsBehind(g, w, r, cap) || FitsAtStart(g, w, r, cap))
            && (Place(g, w, r, cap).Some? ==> Place(g, w, r, cap).value == Slot(w, PayloadAt(g, w, r, cap), cap))
  {
  }

  lemma WriteOverflows(s: RingState, data: seq<byte>, t: RingState, ok: bool)
    requires Shape(s) && RingModel.WriteFrame(s, data) == (t, ok)
    requires Place(s.g, s.offWriteInt, s.offRead, Align8(|data|)).None?
    ensures !ok && t == s.(cOverflows := s.cOverflows + 1)
  {
    hide Place, Align8, Put, Encode, Decode, NextHeader;
  }

  lemma WriteLands(s: RingState, data: seq<byte>, t: RingState, ok: bool, slot: Slot)
    requires Shape(s) && RingModel.WriteFrame(s, data) == (t, ok)
    requires Place(s.g, s.offWriteInt, s.offRead, Align8(|data|)) == Some(slot)
    ensures ok && slot.hdr == s.offWriteInt && FrameStored(s.m, t.m, slot.hdr, TYPE_FRAME, |data|, slot.pay, data)
    ensures t.offWriteCom == t.offWriteInt == Wrap(s.g, slot.pay + slot.cap) && slot.cap == Align8(|data|)
    ensures t.cbWritten == s.cbWritten + |data| && t.cFrames == s.cFrames + 1 && t.cOverflows == s.cOverflows
  {
    hide Align8, Encode, U16, Put, Place, Wrap, FrameStored, Foot, ExactFit;
    PlaceSound(s.g, s.offWriteInt, s.offRead, Align8(|data|));
    HeaderThenPayload(s.m, s.g, slot, FrameHeaderFor(TYPE_FRAME, |data|, slot), |data|, data);
  }

  /** The allocator's 32-bit comparisons and offsets are those of the placement decision. */
  lemma PlacementComputed(s: RingState, cb: u32)
    requires Shape(s)
    ensures var w, r, g := s.offWriteInt, s.offRead, s.g;
            && (r <= w ==> U32(g.end - w) == g.end - w && U32(r - g.start) == r - g.start)
            && (r > w ==> U32(r - w) == r - w)
            && S32(U32(g.start - w)) == g.start - w
    ensures var place := Place(s.g, s.offWriteInt, s.offRead, cb);
            place.Some? ==>
              var slot := place.value;
              && SlotOk(s.g, slot) && slot.hdr == s.offWriteInt
              && U32(slot.pay + cb) == slot.pay + cb && NextHeader(s.g, slot) == Wrap(s.g, U32(slot.pay + cb))
              && (slot.pay != s.offWriteInt + 8 ==> U32(slot.pay + cb) < s.g.end)
              && (s.offRead > s.offWriteInt ==> U32(slot.pay + cb) < s.g.end)
  {
    var w, r, g := s.offWriteInt, s.offRead, s.g;
    assert U32(g.start - w) == if g.start == w then 0 else g.start - w + 0x1_0000_0000;
    if r <= w {
      U32Identity(g.end - w);
      U32Identity(r - g.start);
    } else {
      U32Identity(r - w);
    }
    hide U32, Aligned;
    if Place(g, w, r, cb).Some? {
      PlaceSound(g, w, r, cb);
      U32Identity(Place(g, w, r, cb).value.pay + cb);
    }
  }

  /** Storing the three fields one after the other stores the header's image. */
  lemma ThreeFields(m: seq<byte>, off: nat, h: Header)
    requires off + HEADER_SIZE <= |m|
    ensures Put(Put(Put(m, off, ToBytes(h.kind, 2)), off + 2, ToBytes(h.cb, 2)), off + 4, ToBytes(U32(h.off), 4))
            == Put(m, off, Encode(h))
  {
  }

  /** The reader's and the committer's offset, wrapped at the end of the ring, is where the next header lies. */
  lemma SkipComputed(s: RingState, h: int)
    requires Shape(s) && Cursor(s.g, h) && FrameStarts(s.m, s.g, h)
    ensures var hd := ReadHeader(s.m, h);
            && Wrap(s.g, SkipOffset(h, hd)) == Wrap(s.g, CommitOffset(h, hd)) == NextAt(s.m, s.g, h)
            && CommitOffset(h, hd) <= s.g.end
  {
    FormulasAgree(s.g, SlotAt(s.m, h), ReadHeader(s.m, h));
  }
}
