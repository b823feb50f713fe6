/** Arbitrary sequences of ring operations, and the queue they implement. */
module RingRuns {
  import opened MachineWords
  import opened Wrappers
  import opened FrameHeader
  import opened RingGeometry
  import opened FrameWalk
  import opened RingModel
  import opened RingLaws
  import opened PaddingLaws
  import opened SendLaws

  datatype Op =
    | AllocateOp(kind: u16, cb: nat)
    | FillOp(k: nat, off: nat, data: seq<byte>)
    | CommitOp
    | CommitExOp(cbUsed: nat)
    | WriteOp(data: seq<byte>)
    | SkipOp

  /** What the source asserts or asks of its callers. */
  predicate Permitted(s: RingState, op: Op)
    requires Inv(s)
  {
    match op
    case AllocateOp(kind, cb) => kind in {TYPE_FRAME, TYPE_GSO} && 12 <= cb < 0x1_0000
    case FillOp(k, off, data) => k < |Pending(s)| && off + |data| <= Pending(s)[k].cap
    case CommitOp => s.offWriteCom != s.offWriteInt
    case CommitExOp(cbUsed) => s.offWriteCom != s.offWriteInt && FrameStarts(s.m, s.g, s.offWriteCom)
      && UsedSize(ReadHeader(s.m, s.offWriteCom), cbUsed) <= ReadHeader(s.m, s.offWriteCom).cb
    case WriteOp(data) => s.offWriteCom == s.offWriteInt && 12 <= |data| < 0x1_0000
    case SkipOp => s.offRead != s.offWriteCom
  }

  /** The guard against the one placement that makes a full ring read as empty. */
  predicate AvoidsExactFit(s: RingState, op: Op) {
    match op
    case AllocateOp(_, cb) => !ExactFit(s.g, s.offWriteInt, s.offRead, Align8(cb))
    case WriteOp(data) => !ExactFit(s.g, s.offWriteInt, s.offRead, Align8(|data|))
    case _ => true
  }

  lemma FillInBounds(s: RingState, k: nat)
    requires Inv(s) && k < |Pending(s)|
    ensures SlotOk(s.g, Pending(s)[k])
  {
    WalkCut(s.m, s.g, s.offWriteCom, s.offWriteInt, k);
  }

  function Apply(s: RingState, op: Op): RingState
    requires Inv(s) && Permitted(s, op)
  {
    match op
    case AllocateOp(kind, cb) => Allocate(s, kind, cb).0
    case FillOp(k, off, data) => FillInBounds(s, k); Fill(s, Pending(s)[k].pay + off, data)
    case CommitOp => Commit(s, s.offWriteCom)
    case CommitExOp(cbUsed) => CommitEx(s, s.offWriteCom, cbUsed)
    case WriteOp(data) => WriteFrame(s, data).0
    case SkipOp => Skip(s)
  }

  /** The place an operation allocates. */
  function Placed(s: RingState, op: Op): seq<Slot>
    requires Inv(s) && Permitted(s, op)
  {
    var place := match op
      case AllocateOp(_, cb) => Place(s.g, s.offWriteInt, s.offRead, Align8(cb))
      case WriteOp(data) => Place(s.g, s.offWriteInt, s.offRead, Align8(|data|))
      case _ => None;
    if place.Some? then [place.value] else []
  }

  /** The place a commit recovers from the header it finds at the committed offset. */
  function Visited(s: RingState, op: Op): seq<Slot>
    requires Inv(s) && Permitted(s, op)
  {
    match op
    case CommitOp => [SlotAt(s.m, s.offWriteCom)]
    case CommitExOp(_) => [SlotAt(s.m, s.offWriteCom)]
    case WriteOp(_) => Placed(s, op)
    case _ => []
  }

  lemma OldestStarts(s: RingState)
    requires Inv(s)
    ensures s.offWriteCom != s.offWriteInt ==> FrameStarts(s.m, s.g, s.offWriteCom)
    ensures s.offRead != s.offWriteCom ==> FrameStarts(s.m, s.g, s.offRead)
  {
  }

  /** The frame an operation queues, other than padding. */
  function Sent(s: RingState, op: Op): seq<Frame>
    requires Inv(s) && Permitted(s, op)
  {
    OldestStarts(s);
    match op
    case CommitOp => Delivered([FrameAt(s.m, s.g, s.offWriteCom)])
    case CommitExOp(cbUsed) =>
      var f := FrameAt(s.m, s.g, s.offWriteCom);
      var used := UsedSize(ReadHeader(s.m, s.offWriteCom), cbUsed);
      Delivered([if Align8(used) == Align8(|f.data|) then f else UsedFrame(f, cbUsed)])
    case WriteOp(data) => if WriteFrame(s, data).1 then [Frame(TYPE_FRAME, data)] else []
    case _ => []
  }

  /** The frame an operation takes off the queue, other than padding. */
  function Received(s: RingState, op: Op): seq<Frame>
    requires Inv(s) && Permitted(s, op)
  {
    OldestStarts(s);
    if op == SkipOp then Delivered([FrameAt(s.m, s.g, s.offRead)]) else []
  }

  /** The operation keeps the invariant and is a queue operation on frames and on allocated places. */
  predicate IsFifo(s: RingState, op: Op)
    requires Inv(s) && Permitted(s, op)
  {
    && Inv(Apply(s, op))
    && Delivered(Committed(s)) + Sent(s, op) == Received(s, op) + Delivered(Committed(Apply(s, op)))
    && Pending(s) + Placed(s, op) == Visited(s, op) + Pending(Apply(s, op))
  }

  /** One operation keeps the invariant and is a queue operation on frames and on allocated places. */
  lemma ApplyIsFifo(s: RingState, op: Op)
    requires Inv(s) && Permitted(s, op) && AvoidsExactFit(s, op)
    ensures Inv(Apply(s, op))
    ensures Delivered(Committed(s)) + Sent(s, op) == Received(s, op) + Delivered(Committed(Apply(s, op)))
    ensures Pending(s) + Placed(s, op) == Visited(s, op) + Pending(Apply(s, op))
  {
    hide Inv, Permitted, AvoidsExactFit, Apply, Sent, Received, Placed, Visited, Delivered, Committed, Pending;
    assert IsFifo(s, op) by {
      match op
      case AllocateOp(kind, cb) => AllocateIsFifo(s, kind, cb);
      case FillOp(k, off, data) => FillIsFifo(s, k, off, data);
      case CommitOp => CommitIsFifo(s);
      case CommitExOp(cbUsed) => CommitExIsFifo(s, cbUsed);
      case WriteOp(data) => WriteIsFifo(s, data);
      case SkipOp => SkipIsFifo(s);
    }
  }

  lemma AllocateIsFifo(s: RingState, kind: u16, cb: nat)
    requires var op := AllocateOp(kind, cb); Inv(s) && Permitted(s, op) && AvoidsExactFit(s, op)
    ensures var op := AllocateOp(kind, cb);
            IsFifo(s, op) && Committed(Apply(s, op)) == Committed(s)
  {
    hide Decode, Linked, Slots, Queue, Align8;
    if Place(s.g, s.offWriteInt, s.offRead, Align8(cb)).Some? {
      AllocateKeeps(s, kind, cb);
    }
  }

  lemma FillIsFifo(s: RingState, k: nat, off: nat, data: seq<byte>)
    requires var op := FillOp(k, off, data); Inv(s) && Permitted(s, op)
    ensures var op := FillOp(k, off, data);
            IsFifo(s, op) && Committed(Apply(s, op)) == Committed(s)
  {
    hide Decode, Linked, Slots, Queue, Align8;
    FillKeeps(s, k, Pending(s)[k].pay + off, data);
  }

  lemma CommitIsFifo(s: RingState)
    requires Inv(s) && Permitted(s, CommitOp)
    ensures IsFifo(s, CommitOp)
  {
    hide Decode, Linked, Slots, Queue, Align8, Delivered;
    CommitKeeps(s);
    DeliveredAppends(Committed(s), [FrameAt(s.m, s.g, s.offWriteCom)]);
  }

  lemma CommitExIsFifo(s: RingState, cbUsed: nat)
    requires var op := CommitExOp(cbUsed); Inv(s) && Permitted(s, op)
    ensures IsFifo(s, CommitExOp(cbUsed))
  {
    hide Inv, Permitted, Apply, Sent, Visited, Delivered, Committed, Pending;
    CommitExQueues(s, cbUsed);
    assert Received(s, CommitExOp(cbUsed)) == [] && Placed(s, CommitExOp(cbUsed)) == [];
  }

  lemma CommitExQueues(s: RingState, cbUsed: nat)
    requires var op := CommitExOp(cbUsed); Inv(s) && Permitted(s, op)
    ensures var op := CommitExOp(cbUsed);
            && Inv(Apply(s, op))
            && Delivered(Committed(s)) + Sent(s, op) == Delivered(Committed(Apply(s, op)))
            && Pending(s) == Visited(s, op) + Pending(Apply(s, op))
  {
    var f := FrameAt(s.m, s.g, s.offWriteCom);
    var used := UsedSize(ReadHeader(s.m, s.offWriteCom), cbUsed);
    var s' := CommitEx(s, s.offWriteCom, cbUsed);
    hide Decode, Linked, Slots, Queue, Align8, Delivered, CommitEx;
    assert |f.data| == ReadHeader(s.m, s.offWriteCom).cb;
    CommitExKeeps(s, cbUsed, f, used, s');
    DeliveredAppends(Committed(s), [f]);
    if Align8(used) != Align8(|f.data|) {
      DeliveredWithPadding(Committed(s), Committed(s'), UsedFrame(f, cbUsed));
    }
  }

  lemma DeliveredWithPadding(q: seq<Frame>, q': seq<Frame>, u: Frame)
    requires exists padding: Frame :: padding.kind == TYPE_PADDING && q' == q + [u, padding]
    ensures Delivered(q') == Delivered(q) + Delivered([u])
  {
    var padding: Frame :| padding.kind == TYPE_PADDING && q' == q + [u, padding];
    assert [u, padding] == [u] + [padding] && [padding][1..] == [];
    DeliveredAppends(q, [u, padding]);
    DeliveredAppends([u], [padding]);
  }

  lemma WriteIsFifo(s: RingState, data: seq<byte>)
    requires var op := WriteOp(data); Inv(s) && Permitted(s, op) && AvoidsExactFit(s, op)
    ensures IsFifo(s, WriteOp(data))
  {
    hide Decode, Linked, Slots, Queue, Align8, Delivered;
    NoSlots(s.m, s.g, s.offWriteCom);
    WriteFrameRefinesSend(s, data);
    if WriteFrame(s, data).1 {
      SendAppends(s, TYPE_FRAME, data);
      DeliveredAppends(Committed(s), [Frame(TYPE_FRAME, data)]);
      OneDelivered(Frame(TYPE_FRAME, data));
      var s' := Apply(s, WriteOp(data));
      NoSlots(s'.m, s'.g, s'.offWriteCom);
    }
  }

  lemma OneDelivered(f: Frame)
    requires f.kind != TYPE_PADDING
    ensures Delivered([f]) == [f]
  {
  }

  lemma SkipIsFifo(s: RingState)
    requires Inv(s) && Permitted(s, SkipOp)
    ensures IsFifo(s, SkipOp)
  {
    hide Decode, Linked, Slots, Queue, Align8, Delivered;
    SkipDequeues(s);
    DeliveredAppends([FrameAt(s.m, s.g, s.offRead)], Committed(Skip(s)));
  }

  // ----- runs

  /** Every operation of the sequence is permitted where it comes and none is the exact fit. */
  predicate Lawful(s: RingState, ops: seq<Op>)
    requires Inv(s)
    decreases |ops|
  {
    ops == []
    || (Permitted(s, ops[0]) && AvoidsExactFit(s, ops[0])
        && (ApplyIsFifo(s, ops[0]); Lawful(Apply(s, ops[0]), ops[1..])))
  }

  function Run(s: RingState, ops: seq<Op>): RingState
    requires Inv(s) && Lawful(s, ops)
    decreases |ops|
  {
    if ops == [] then s else ApplyIsFifo(s, ops[0]); Run(Apply(s, ops[0]), ops[1..])
  }

  function AllSent(s: RingState, ops: seq<Op>): seq<Frame>
    requires Inv(s) && Lawful(s, ops)
    decreases |ops|
  {
    if ops == [] then []
    else ApplyIsFifo(s, ops[0]); Sent(s, ops[0]) + AllSent(Apply(s, ops[0]), ops[1..])
  }

  function AllReceived(s: RingState, ops: seq<Op>): seq<Frame>
    requires Inv(s) && Lawful(s, ops)
    decreases |ops|
  {
    if ops == [] then []
    else ApplyIsFifo(s, ops[0]); Received(s, ops[0]) + AllReceived(Apply(s, ops[0]), ops[1..])
  }

  function AllPlaced(s: RingState, ops: seq<Op>): seq<Slot>
    requires Inv(s) && Lawful(s, ops)
    decreases |ops|
  {
    if ops == [] then []
    else ApplyIsFifo(s, ops[0]); Placed(s, ops[0]) + AllPlaced(Apply(s, ops[0]), ops[1..])
  }

  function AllVisited(s: RingState, ops: seq<Op>): seq<Slot>
    requires Inv(s) && Lawful(s, ops)
    decreases |ops|
  {
    if ops == [] then []
    else ApplyIsFifo(s, ops[0]); Visited(s, ops[0]) + AllVisited(Apply(s, ops[0]), ops[1..])
  }

  /**
   Over any run the ring is a first-in first-out queue: what was queued before and sent since is what has been received
   followed by what is still queued, byte for byte. Commits visit exactly the places that were allocated, in allocation
   order, however many allocations are outstanding.
   */
  lemma {:induction false} RunIsFifo(s: RingState, ops: seq<Op>)
    requires Inv(s) && Lawful(s, ops)
    ensures Inv(Run(s, ops))
    ensures Delivered(Committed(s)) + AllSent(s, ops) == AllReceived(s, ops) + Delivered(Committed(Run(s, ops)))
    ensures Pending(s) + AllPlaced(s, ops) == AllVisited(s, ops) + Pending(Run(s, ops))
    decreases |ops|
  {
    hide Inv, Permitted, AvoidsExactFit, Apply, Sent, Received, Placed, Visited, Delivered, Committed, Pending;
    if ops != [] {
      ApplyIsFifo(s, ops[0]);
      var s', rest := Apply(s, ops[0]), ops[1..];
      RunIsFifo(s', rest);
      LogsChain(Delivered(Committed(s)), Sent(s, ops[0]), Received(s, ops[0]), Delivered(Committed(s')),
                AllSent(s', rest), AllReceived(s', rest), Delivered(Committed(Run(s', rest))));
      LogsChain(Pending(s), Placed(s, ops[0]), Visited(s, ops[0]), Pending(s'),
                AllPlaced(s', rest), AllVisited(s', rest), Pending(Run(s', rest)));
    }
  }

  lemma LogsChain<T>(q: seq<T>, ins: seq<T>, outs: seq<T>, q': seq<T>, ins': seq<T>, outs': seq<T>, q'': seq<T>)
    requires q + ins == outs + q' && q' + ins' == outs' + q''
    ensures q + (ins + ins') == (outs + outs') + q''
  {
    assert q + (ins + ins') == (q + ins) + ins' == outs + (q' + ins') == (outs + outs') + q'';
  }
}
