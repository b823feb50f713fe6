/** Committing everything that is pending, draining the reader's queue, and GSO frames end to end. */
module BatchLaws {
  import opened MachineWords
  import opened Wrappers
  import opened FrameHeader
  import opened RingGeometry
  import opened FrameWalk
  import opened RingModel
  import opened RingLaws
  import opened SendLaws
  import opened RingRuns

  const GSO_SIZE := 8

  function Repeat(op: Op, n: nat): seq<Op> {
    if n == 0 then [] else [op] + Repeat(op, n - 1)
  }

  lemma PendingEmpty(s: RingState)
    requires Inv(s)
    ensures Pending(s) == [] <==> s.offWriteCom == s.offWriteInt
    ensures PendingFrames(s) == [] <==> s.offWriteCom == s.offWriteInt
    ensures Committed(s) == [] <==> s.offRead == s.offWriteCom
  {
  }

  /** When each operation is permitted, in terms of the frames and places it is about. */
  lemma PermittedExactly(s: RingState, op: Op)
    requires Inv(s)
    ensures |PendingFrames(s)| == |Pending(s)|
    ensures Permitted(s, op) <==>
            match op
            case AllocateOp(kind, cb) => (kind == TYPE_FRAME || kind == TYPE_GSO) && 12 <= cb < 0x1_0000
            case FillOp(k, off, data) => k < |Pending(s)| && off + |data| <= Pending(s)[k].cap
            case CommitOp => Pending(s) != []
            case CommitExOp(cbUsed) => Pending(s) != []
              && var f := PendingFrames(s)[0]; cbUsed + (if f.kind == TYPE_GSO then GSO_SIZE else 0) <= |f.data|
            case WriteOp(data) => Pending(s) == [] && 12 <= |data| < 0x1_0000
            case SkipOp => Committed(s) != []
  {
  }

  lemma RunCons(s: RingState, op: Op, rest: seq<Op>)
    requires Inv(s) && Permitted(s, op) && AvoidsExactFit(s, op) && Inv(Apply(s, op)) && Lawful(Apply(s, op), rest)
    ensures Lawful(s, [op] + rest) && Run(s, [op] + rest) == Run(Apply(s, op), rest)
  {
  }

  lemma AllocatedAlone(s: RingState, kind: u16, data: seq<byte>, t: RingState, slot: Slot)
    requires Inv(s) && s.offWriteCom == s.offWriteInt && kind in {TYPE_FRAME, TYPE_GSO} && 12 <= |data| < 0x1_0000
    requires t == Allocate(s, kind, |data|).0
    requires Place(s.g, s.offWriteInt, s.offRead, Align8(|data|)) == Some(slot)
    requires !ExactFit(s.g, s.offWriteInt, s.offRead, Align8(|data|))
    ensures var op := AllocateOp(kind, |data|); Permitted(s, op) && AvoidsExactFit(s, op) && Apply(s, op) == t
    ensures Inv(t) && Pending(t) == [slot] && slot.hdr == t.offWriteCom && SlotOk(t.g, slot)
    ensures slot.cap == Align8(|data|) && ReadHeader(t.m, slot.hdr) == Header(kind, |data|, slot.pay - slot.hdr)
    ensures slot.pay + |data| <= |t.m| && InRing(t.g, slot.hdr)
    ensures Send(s, kind, data) == (Commit(Fill(t, slot.pay, data), slot.hdr), true)
  {
    hide Decode, Linked, Slots, Queue, Align8, Put;
    NoSlots(s.m, s.g, s.offWriteCom);
    AllocateKeeps(s, kind, |data|);
    PlaceSound(s.g, s.offWriteInt, s.offRead, Align8(|data|));
  }

  lemma FilledAlone(t: RingState, u: RingState, kind: u16, data: seq<byte>, slot: Slot)
    requires Inv(t) && Pending(t) == [slot] && slot.hdr == t.offWriteCom && SlotOk(t.g, slot)
    requires |data| < 0x1_0000 && slot.cap == Align8(|data|)
    requires ReadHeader(t.m, slot.hdr) == Header(kind, |data|, slot.pay - slot.hdr)
    requires u == Fill(t, slot.pay, data)
    ensures var op := FillOp(0, 0, data); Permitted(t, op) && AvoidsExactFit(t, op) && Apply(t, op) == u
    ensures Inv(u) && Permitted(u, CommitOp) && AvoidsExactFit(u, CommitOp) && InRing(u.g, slot.hdr)
    ensures Apply(u, CommitOp) == Commit(u, slot.hdr) && Inv(Commit(u, slot.hdr))
    ensures Lawful(Commit(u, slot.hdr), []) && Run(Commit(u, slot.hdr), []) == Commit(u, slot.hdr)
  {
    hide Decode, Linked, Slots, Queue, Align8, Put, Commit;
    SentFrame(t, u, kind, data, slot);
  }

  /** With nothing pending, an allocation, a fill of all of it and a commit, one after the other, are the whole send. */
  lemma SendIsRun(s: RingState, kind: u16, data: seq<byte>)
    requires Inv(s) && s.offWriteCom == s.offWriteInt && kind in {TYPE_FRAME, TYPE_GSO} && 12 <= |data| < 0x1_0000
    requires Send(s, kind, data).1 && !ExactFit(s.g, s.offWriteInt, s.offRead, Align8(|data|))
    ensures var ops := [AllocateOp(kind, |data|), FillOp(0, 0, data), CommitOp];
            Lawful(s, ops) && Run(s, ops) == Send(s, kind, data).0
  {
    var t, slot := SendPlaces(s, kind, data);
    hide *;
    AllocatedAlone(s, kind, data, t, slot);
    var u := Fill(t, slot.pay, data);
    FilledAlone(t, u, kind, data, slot);
    RunCons(u, CommitOp, []);
    RunCons(t, FillOp(0, 0, data), [CommitOp] + []);
    RunCons(s, AllocateOp(kind, |data|), [FillOp(0, 0, data)] + ([CommitOp] + []));
    InARow(AllocateOp(kind, |data|), FillOp(0, 0, data), CommitOp);
  }

  lemma InARow<T>(a: T, b: T, c: T)
    ensures [a] + ([b] + ([c] + [])) == [a, b, c]
  {
  }

  lemma SendPlaces(s: RingState, kind: u16, data: seq<byte>) returns (t: RingState, slot: Slot)
    requires Inv(s) && Send(s, kind, data).1
    ensures t == Allocate(s, kind, |data|).0
    ensures Place(s.g, s.offWriteInt, s.offRead, Align8(|data|)) == Some(slot)
  {
    hide Linked, Slots, Queue, Decode, Encode, Align8, Put, Commit, Place;
    t, slot := Allocate(s, kind, |data|).0, Place(s.g, s.offWriteInt, s.offRead, Align8(|data|)).value;
  }

  lemma MovesAcross<T>(a: seq<T>, b: seq<T>, x: T, a': seq<T>, b': seq<T>)
    requires a' == a + [x] && b == [x] + b'
    ensures a' + b' == a + b
  {
  }

  lemma CommitStep(s: RingState)
    requires Inv(s) && Pending(s) != []
    ensures Permitted(s, CommitOp) && AvoidsExactFit(s, CommitOp) && Inv(Apply(s, CommitOp))
    ensures var s' := Apply(s, CommitOp);
            && |Pending(s')| == |Pending(s)| - 1 && s'.offWriteInt == s.offWriteInt
            && Committed(s') + PendingFrames(s') == Committed(s) + PendingFrames(s)
  {
    assert Permitted(s, CommitOp) by {
      PendingEmpty(s);
    }
    hide Inv, Committed, Pending, PendingFrames, FrameStarts, FrameAt, Decode, Align8;
    CommitKeeps(s);
    var s' := Commit(s, s.offWriteCom);
    assert s' == Apply(s, CommitOp) && s'.offWriteInt == s.offWriteInt;
    var f := FrameAt(s.m, s.g, s.offWriteCom);
    hide *;
    MovesAcross(Committed(s), PendingFrames(s), f, Committed(s'), PendingFrames(s'));
  }

  /** As many commits as there are outstanding allocations queue all of them and close the gap between the offsets. */
  lemma {:induction false} CommitAll(s: RingState, n: nat)
    requires Inv(s) && n == |Pending(s)|
    ensures var ops := Repeat(CommitOp, n);
            && Lawful(s, ops) && Inv(Run(s, ops))
            && Run(s, ops).offWriteCom == Run(s, ops).offWriteInt == s.offWriteInt
            && Committed(Run(s, ops)) == Committed(s) + PendingFrames(s)
    decreases n
  {
    hide *;
    if n == 0 {
      NothingToCommit(s);
    } else {
      CommitStep(s);
      var s', rest := Apply(s, CommitOp), Repeat(CommitOp, n - 1);
      CommitAll(s', n - 1);
      RunCons(s, CommitOp, rest);
      RepeatCons(CommitOp, n);
    }
  }

  lemma RepeatCons(op: Op, n: nat)
    requires n > 0
    ensures Repeat(op, n) == [op] + Repeat(op, n - 1)
  {
  }

  lemma NothingToCommit(s: RingState)
    requires Inv(s) && Pending(s) == []
    ensures s.offWriteCom == s.offWriteInt && Lawful(s, Repeat(CommitOp, 0)) && Run(s, Repeat(CommitOp, 0)) == s
    ensures Committed(s) == Committed(s) + PendingFrames(s)
  {
  }

  lemma SkipStep(s: RingState)
    requires Inv(s) && Committed(s) != []
    ensures Permitted(s, SkipOp) && AvoidsExactFit(s, SkipOp) && Inv(Apply(s, SkipOp))
    ensures var s' := Apply(s, SkipOp);
            s'.m == s.m && s'.g == s.g && Committed(s') == Committed(s)[1..]
  {
    assert Permitted(s, SkipOp) by {
      PendingEmpty(s);
    }
    hide Inv, Committed, Pending, PendingFrames, FrameStarts, FrameAt, Decode, Align8;
    SkipDequeues(s);
  }

  /** Skipping `n` frames takes the `n` oldest off the queue. */
  lemma {:induction false} SkipMany(s: RingState, n: nat)
    requires Inv(s) && n <= |Committed(s)|
    ensures var ops := Repeat(SkipOp, n);
            && Lawful(s, ops) && Inv(Run(s, ops)) && Run(s, ops).m == s.m && Run(s, ops).g == s.g
            && Committed(Run(s, ops)) == Committed(s)[n..]
    decreases n
  {
    hide Inv, Committed, Pending, PendingFrames, Apply, Permitted, AvoidsExactFit;
    if n > 0 {
      SkipStep(s);
      SkipMany(Apply(s, SkipOp), n - 1);
      RunCons(s, SkipOp, Repeat(SkipOp, n - 1));
    }
  }

  /** IntNetRingAllocateGsoFrame, filling and committing: the context goes in front of the payload. */
  function SendGso(s: RingState, gso: seq<byte>, data: seq<byte>): (RingState, bool)
    requires Shape(s) && |gso| == GSO_SIZE
  {
    var (t, place) := Allocate(s, TYPE_GSO, |data| + GSO_SIZE);
    if place.None? then (t, false)
    else
      var cap := Align8(|data| + GSO_SIZE);
      PlaceSound(s.g, s.offWriteInt, s.offRead, cap);
      Align8IsAligned(|data| + GSO_SIZE);
      NextAligned(s.g, place.value);
      var pay := place.value.pay;
      (Commit(Fill(Fill(t, pay, gso), pay + GSO_SIZE, data), place.value.hdr), true)
  }

  /** IntNetRingGetNextFrameToRead: the header offset, or None when there is nothing to read. */
  function NextFrameToRead(s: RingState): Option<int> {
    if s.offRead == s.offWriteCom then None else Some(s.offRead)
  }

  /** What IntNetHdrGetGsoContext points at, and the payload behind it. */
  function GsoContext(m: seq<byte>, h: int): seq<byte>
    requires 0 <= h && h + HEADER_SIZE <= |m|
    requires 0 <= SlotAt(m, h).pay && SlotAt(m, h).pay + GSO_SIZE <= |m|
  {
    m[SlotAt(m, h).pay..SlotAt(m, h).pay + GSO_SIZE]
  }

  function GsoPayload(m: seq<byte>, h: int): seq<byte>
    requires 0 <= h && h + HEADER_SIZE <= |m| && ReadHeader(m, h).cb >= GSO_SIZE
    requires 0 <= SlotAt(m, h).pay && SlotAt(m, h).pay + ReadHeader(m, h).cb <= |m|
  {
    m[SlotAt(m, h).pay + GSO_SIZE..SlotAt(m, h).pay + ReadHeader(m, h).cb]
  }

  lemma SendGsoIsSend(s: RingState, gso: seq<byte>, data: seq<byte>)
    requires Shape(s) && |gso| == GSO_SIZE
    ensures SendGso(s, gso, data) == Send(s, TYPE_GSO, gso + data)
  {
    assert |gso + data| == |data| + GSO_SIZE;
    var place := Place(s.g, s.offWriteInt, s.offRead, Align8(|gso + data|));
    if place.Some? {
      PlaceSound(s.g, s.offWriteInt, s.offRead, Align8(|gso + data|));
      hide Put, Decode, Encode, Align8, Place, Commit, Foot, Dist;
      FillTwice(Allocate(s, TYPE_GSO, |gso + data|).0, place.value.pay, gso, data);
    }
  }

  lemma FillTwice(t: RingState, pay: int, a: seq<byte>, b: seq<byte>)
    requires 0 <= pay && pay + |a| + |b| <= |t.m|
    ensures Fill(Fill(t, pay, a), pay + |a|, b) == Fill(t, pay, a + b)
  {
  }

  /**
   A GSO frame comes back as it was sent: when the reader reaches it, its header leads to the context and, right behind,
   to the payload, whose length is the stored size less the context.
   */
  lemma GsoRoundTrip(s: RingState, gso: seq<byte>, data: seq<byte>)
    requires Inv(s) && s.offWriteCom == s.offWriteInt
    requires |gso| == GSO_SIZE && |data| + GSO_SIZE < 0x1_0000 && SendGso(s, gso, data).1
    requires !ExactFit(s.g, s.offWriteInt, s.offRead, Align8(|data| + GSO_SIZE))
    ensures var s' := SendGso(s, gso, data).0;
            && Inv(s') && |Committed(s)| <= |Committed(s')|
            && Lawful(s', Repeat(SkipOp, |Committed(s)|))
            && var t := Run(s', Repeat(SkipOp, |Committed(s)|));
            && NextFrameToRead(t) == Some(t.offRead) && Inv(t) && FrameStarts(t.m, t.g, t.offRead)
            && ReadHeader(t.m, t.offRead).kind == TYPE_GSO && ReadHeader(t.m, t.offRead).cb == |data| + GSO_SIZE
            && GsoContext(t.m, t.offRead) == gso && GsoPayload(t.m, t.offRead) == data
  {
    SendGsoIsSend(s, gso, data);
    var s' := SendGso(s, gso, data).0;
    hide SendGso, Linked, Slots, Queue, Decode, Align8;
    SendAppends(s, TYPE_GSO, gso + data);
    SkipMany(s', |Committed(s)|);
    var t := Run(s', Repeat(SkipOp, |Committed(s)|));
    HeadIsGso(t, gso, data);
  }

  lemma HeadIsGso(t: RingState, gso: seq<byte>, data: seq<byte>)
    requires Inv(t) && |gso| == GSO_SIZE && Committed(t) == [Frame(TYPE_GSO, gso + data)]
    ensures NextFrameToRead(t) == Some(t.offRead) && FrameStarts(t.m, t.g, t.offRead)
    ensures ReadHeader(t.m, t.offRead).kind == TYPE_GSO && ReadHeader(t.m, t.offRead).cb == |data| + GSO_SIZE
    ensures GsoContext(t.m, t.offRead) == gso && GsoPayload(t.m, t.offRead) == data
  {
    hide Linked, Slots, Queue, Decode, Align8;
    assert t.offRead != t.offWriteCom by {
      PendingEmpty(t);
    }
    WalkUncons(t.m, t.g, t.offRead, t.offWriteCom);
    var f := FrameAt(t.m, t.g, t.offRead);
    assert Committed(t)[0] == f;
    assert GsoContext(t.m, t.offRead) == f.data[..GSO_SIZE] && GsoPayload(t.m, t.offRead) == f.data[GSO_SIZE..];
  }
}
