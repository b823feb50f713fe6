/** INTNETBUF: one memory block holding a receive and a send ring. */
module InterfaceBuffer {
  import opened MachineWords
  import opened Wrappers
  import opened FrameHeader
  import opened RingGeometry
  import opened FrameWalk
  import opened RingModel
  import opened RingLaws
  import opened RingRuns
  import opened RingBuffers
  import opened BatchLaws

  const INTNETBUF_MAGIC: u32 := 0x1911_0919
  const INTNETBUF_SIZE := 320
  const RECV_OFFSET := 16
  const SEND_OFFSET := 64

  /** A ring whose three offsets coincide is empty and valid. */
  lemma EmptyRing(s: RingState)
    requires Shape(s) && s.offRead == s.offWriteCom == s.offWriteInt
    ensures Inv(s) && Committed(s) == [] && Pending(s) == []
  {
  }

  /** Only the bytes of its own data area matter to a ring. */
  lemma AreaDecides(s: RingState, s': RingState)
    requires Inv(s) && s' == s.(m := s'.m) && |s'.m| == |s.m|
    requires forall x | s.g.start <= x < s.g.end :: s'.m[x] == s.m[x]
    ensures Inv(s') && Committed(s') == Committed(s) && Pending(s') == Pending(s)
  {
    hide Decode, Linked, Slots, Queue, Align8;
    ScratchKeeps(s, s');
  }

  /** No operation touches a byte outside the ring's data area. */
  lemma ApplyWithin(s: RingState, op: Op, x: int)
    requires Inv(s) && Permitted(s, op) && 0 <= x < |s.m| && !(s.g.start <= x < s.g.end)
    ensures Apply(s, op).g == s.g && |Apply(s, op).m| == |s.m| && Apply(s, op).m[x] == s.m[x]
  {
    hide Decode, Encode, Linked, Slots, Queue, Align8;
    match op
    case AllocateOp(kind, cb) => PlaceInRing(s, cb);
    case FillOp(k, off, data) => FillInBounds(s, k);
    case CommitOp =>
    case CommitExOp(cbUsed) => CommitExWithin(s, cbUsed, x);
    case WriteOp(data) => PlaceInRing(s, |data|);
    case SkipOp =>
  }

  lemma PlaceInRing(s: RingState, cb: nat)
    requires Shape(s)
    ensures var place := Place(s.g, s.offWriteInt, s.offRead, Align8(cb));
            place.Some? ==> SlotOk(s.g, place.value) && place.value.cap == Align8(cb)
  {
  }

  lemma CommitExWithin(s: RingState, cbUsed: nat, x: int)
    requires Inv(s) && Permitted(s, CommitExOp(cbUsed)) && 0 <= x < |s.m| && !(s.g.start <= x < s.g.end)
    ensures CommitEx(s, s.offWriteCom, cbUsed).m[x] == s.m[x]
  {
    hide Decode, Encode, Inv, Padded, Align8;
    InvHasShape(s);
    PaddingComputed(s.m, s.g, s.offWriteCom, cbUsed, ReadHeader(s.m, s.offWriteCom),
                    UsedSize(ReadHeader(s.m, s.offWriteCom), cbUsed));
  }

  lemma {:induction false} RunWithin(s: RingState, ops: seq<Op>, x: int)
    requires Inv(s) && Lawful(s, ops) && 0 <= x < |s.m| && !(s.g.start <= x < s.g.end)
    ensures Run(s, ops).g == s.g && |Run(s, ops).m| == |s.m| && Run(s, ops).m[x] == s.m[x]
    decreases |ops|
  {
    hide Inv, Permitted, AvoidsExactFit, Apply;
    if ops != [] {
      ApplyWithin(s, ops[0], x);
      ApplyIsFifo(s, ops[0]);
      RunWithin(Apply(s, ops[0]), ops[1..], x);
    }
  }

  /** The ring structure at `base` of a memory block, as a value; its own `m` is ignored. */
  function RingIn(mem: seq<byte>, base: nat, regs: RingState): RingState
    requires 0 <= regs.g.end && base + regs.g.end <= |mem|
  {
    regs.(m := mem[base..base + regs.g.end])
  }

  /** The block after one of its rings has changed. */
  function WithRing(mem: seq<byte>, base: nat, ring: RingState): seq<byte>
    requires 0 <= ring.g.end && base + ring.g.end <= |mem| && |ring.m| == ring.g.end
  {
    Put(mem, base, ring.m)
  }

  /** What is stored back into the block is found there again. */
  lemma RingStoredBack(mem: seq<byte>, base: nat, r: RingState)
    requires 0 <= r.g.end && base + r.g.end <= |mem| && |r.m| == r.g.end
    ensures |WithRing(mem, base, r)| == |mem| && RingIn(WithRing(mem, base, r), base, r) == r
    ensures forall i | 0 <= i < |mem| && !(base <= i < base + r.g.end) :: WithRing(mem, base, r)[i] == mem[i]
  {
  }

  /**
   Whatever sequence of operations one ring goes through, a ring whose data area is disjoint keeps its invariant, its
   queue, its pending allocations and every byte.
   */
  lemma OtherRingUnaffected(mem: seq<byte>, base: nat, regs: RingState, ops: seq<Op>, base': nat, regs': RingState)
    requires 0 <= regs.g.end && base + regs.g.end <= |mem| && 0 <= regs'.g.end && base' + regs'.g.end <= |mem|
    requires base + regs.g.end <= base' + regs'.g.start || base' + regs'.g.end <= base + regs.g.start
    requires Inv(RingIn(mem, base, regs)) && Lawful(RingIn(mem, base, regs), ops) && Inv(RingIn(mem, base', regs'))
    ensures var r := Run(RingIn(mem, base, regs), ops);
            && r.g == regs.g && |r.m| == r.g.end
            && var mem' := WithRing(mem, base, r);
            && RingIn(mem', base, r) == r
            && Inv(RingIn(mem', base', regs'))
            && Committed(RingIn(mem', base', regs')) == Committed(RingIn(mem, base', regs'))
            && Pending(RingIn(mem', base', regs')) == Pending(RingIn(mem, base', regs'))
            && forall x | base' + regs'.g.start <= x < base' + regs'.g.end :: mem'[x] == mem[x]
  {
    var s := RingIn(mem, base, regs);
    var r := Run(s, ops);
    hide Inv, Lawful, Run, Committed, Pending;
    InvHasShape(s);
    InvHasShape(RingIn(mem, base', regs'));
    RunShape(s, ops);
    var mem' := WithRing(mem, base, r);
    RingStoredBack(mem, base, r);
    forall x | base' + regs'.g.start <= x < base' + regs'.g.end
      ensures mem'[x] == mem[x]
    {
      OtherByteKept(mem, base, s, ops, x);
    }
    hide WithRing;
    AreaDecides(RingIn(mem, base', regs'), RingIn(mem', base', regs'));
  }

  /** A byte outside the ring's data area survives any run of the ring. */
  lemma OtherByteKept(mem: seq<byte>, base: nat, s: RingState, ops: seq<Op>, x: nat)
    requires 0 <= s.g.end && base + s.g.end <= |mem| && s.m == mem[base..base + s.g.end]
    requires Inv(s) && Lawful(s, ops) && Run(s, ops).g == s.g && |Run(s, ops).m| == |s.m|
    requires x < |mem| && !(base + s.g.start <= x < base + s.g.end)
    ensures WithRing(mem, base, Run(s, ops))[x] == mem[x]
  {
    hide Inv, Lawful, Run;
    if base <= x < base + s.g.end {
      RunWithin(s, ops, x - base);
    }
  }

  lemma {:induction false} RunShape(s: RingState, ops: seq<Op>)
    requires Inv(s) && Lawful(s, ops)
    ensures Run(s, ops).g == s.g && |Run(s, ops).m| == |s.m|
    decreases |ops|
  {
    if ops != [] {
      ApplyIsFifo(s, ops[0]);
      ApplyShape(s, ops[0]);
      hide Inv, Permitted, AvoidsExactFit, Apply;
      RunShape(Apply(s, ops[0]), ops[1..]);
    }
  }

  lemma ApplyShape(s: RingState, op: Op)
    requires Inv(s) && Permitted(s, op)
    ensures Apply(s, op).g == s.g && |Apply(s, op).m| == |s.m|
  {
  }

  /** Where the two data areas begin, as the rings count. */
  lemma AreaOffsets(cbRecv: u32)
    requires Aligned(cbRecv) && cbRecv <= 0x8000_0000
    ensures U32(AlignU32(INTNETBUF_SIZE) - RECV_OFFSET) == INTNETBUF_SIZE - RECV_OFFSET
    ensures U32(INTNETBUF_SIZE - RECV_OFFSET + cbRecv + RECV_OFFSET - SEND_OFFSET)
        == INTNETBUF_SIZE + cbRecv - SEND_OFFSET
    ensures Aligned(INTNETBUF_SIZE - RECV_OFFSET) && Aligned(INTNETBUF_SIZE + cbRecv - SEND_OFFSET)
  {
  }

  class IntNetBuf {
    const mem: array<byte>
    const recv: RingBuffer
    const send: RingBuffer

    var u32Magic: u32
    var cbBuf: u32
    var cbSend: u32
    var cbRecv: u32

    /** The two ring structures lie at their offsets of the one memory block. */
    ghost predicate Wired() {
      recv != send && recv.mem == mem && send.mem == mem && recv.base == RECV_OFFSET && send.base == SEND_OFFSET
    }

    /** The data areas of the two rings follow each other behind the structure, within the block. */
    ghost predicate Laid()
      reads this, recv, send
    {
      && Wired()
      && recv.base + recv.offStart == INTNETBUF_SIZE
      && recv.base + recv.offEnd == send.base + send.offStart == INTNETBUF_SIZE + cbRecv
      && send.base + send.offEnd == INTNETBUF_SIZE + cbRecv + cbSend <= mem.Length == cbBuf
    }

    /** A cleared block of `cb` bytes. */
    constructor (cb: nat)
      ensures Wired() && fresh(mem) && fresh(recv) && fresh(send) && mem.Length == cb
      ensures forall i | 0 <= i < mem.Length :: mem[i] == 0
    {
      var block := new byte[cb](_ => 0);
      var r := new RingBuffer(block, RECV_OFFSET);
      var s := new RingBuffer(block, SEND_OFFSET);
      mem, recv, send := block, r, s;
      u32Magic, cbBuf, cbSend, cbRecv := 0, 0, 0, 0;
    }

    /**
     IntNetBufInit. Each ring comes out valid and empty exactly when it was given room; the areas never overlap and stay
     within the block.
     */
    method Init(cbBuf: u32, cbRecv: u32, cbSend: u32)
      requires Wired() && mem.Length == cbBuf <= 0x8000_0000 && INTNETBUF_SIZE + cbRecv + cbSend <= cbBuf
      requires Aligned(cbRecv) && Aligned(cbSend)
      modifies this, recv, send
      ensures u32Magic == INTNETBUF_MAGIC && this.cbBuf == cbBuf && this.cbRecv == cbRecv && this.cbSend == cbSend
      ensures Laid()
      ensures recv.offReadX == recv.offWriteCom == recv.offWriteInt == recv.offStart
      ensures send.offReadX == send.offWriteCom == send.offWriteInt == send.offStart
      ensures recv.cbStatWritten == old(recv.cbStatWritten) && recv.cStatFrames == old(recv.cStatFrames)
          && recv.cOverflows == old(recv.cOverflows)
      ensures send.cbStatWritten == old(send.cbStatWritten) && send.cStatFrames == old(send.cStatFrames)
          && send.cOverflows == old(send.cOverflows)
      ensures recv.Valid() <==> cbRecv > 0
      ensures send.Valid() <==> cbSend > 0
      ensures recv.Valid() ==> Committed(recv.State()) == [] && Pending(recv.State()) == []
      ensures send.Valid() ==> Committed(send.State()) == [] && Pending(send.State()) == []
    {
      hide Inv, Committed, Pending, U32, AlignU32;
      AreaOffsets(cbRecv);
      u32Magic, this.cbBuf, this.cbRecv, this.cbSend := INTNETBUF_MAGIC, cbBuf, cbRecv, cbSend;
      var offBuf := U32(AlignU32(INTNETBUF_SIZE) - RECV_OFFSET);
      SetUp(recv, offBuf, cbRecv);
      offBuf := U32(offBuf + cbRecv + RECV_OFFSET - SEND_OFFSET);
      SetUp(send, offBuf, cbSend);
    }

    /** Lays one ring out as empty from `offBuf` on. */
    static method SetUp(ring: RingBuffer, offBuf: u32, cb: u32)
      requires Aligned(offBuf) && Aligned(cb) && offBuf + cb <= 0x8000_0000
          && ring.base + offBuf + cb <= ring.mem.Length
      modifies ring
      ensures ring.offStart == ring.offReadX == ring.offWriteCom == ring.offWriteInt == offBuf
      ensures ring.offEnd == offBuf + cb
      ensures ring.cbStatWritten == old(ring.cbStatWritten) && ring.cStatFrames == old(ring.cStatFrames)
          && ring.cOverflows == old(ring.cOverflows)
      ensures ring.Valid() <==> cb > 0
      ensures ring.Valid() ==> Committed(ring.State()) == [] && Pending(ring.State()) == []
    {
      ring.offStart := offBuf;
      ring.offReadX := offBuf;
      ring.offWriteInt := offBuf;
      ring.offWriteCom := offBuf;
      ring.offEnd := U32(offBuf + cb);
      if cb > 0 {
        AlignedGap(0, cb);
        EmptyRing(ring.State());
      }
    }

    /** Writing to the send ring leaves the receive ring exactly as it was. */
    method WriteToSend(data: seq<byte>) returns (rc: Status)
      requires Laid() && recv.Valid() && send.Valid()
      requires send.offWriteCom == send.offWriteInt && 12 <= |data| <= 0xFFFF_FFF8
      modifies send, mem
      ensures send.InMemory() && send.State() == old(RingModel.WriteFrame(send.State(), data)).0
      ensures recv.Valid() && Committed(recv.State()) == old(Committed(recv.State()))
      ensures Pending(recv.State()) == old(Pending(recv.State()))
      ensures rc == VInfSuccess <==> old(RingModel.WriteFrame(send.State(), data)).1
    {
      ghost var r := recv.State();
      rc := send.WriteFrame(data);
      RecvUntouched(r);
    }

    twostate lemma RecvUntouched(r: RingState)
      requires old(Laid() && recv.Valid()) && recv.InMemory() && r == old(recv.State())
      requires unchanged(recv) && old(send.offStart) == send.offStart && old(send.offEnd) == send.offEnd
      requires send.OthersUntouched()
      ensures recv.Valid() && Committed(recv.State()) == Committed(r) && Pending(recv.State()) == Pending(r)
    {
      hide Inv, Committed, Pending;
      InvHasShape(r);
      forall x | recv.offStart <= x < recv.offEnd
        ensures recv.View()[x] == r.m[x]
      {
        assert recv.View()[x] == mem[recv.base + x] == old(mem[recv.base + x]);
      }
      AreaDecides(r, recv.State());
    }
  }
}
