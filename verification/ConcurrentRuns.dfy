/** Every step of the shared ring as a step of a queue, exactly which steps lose or overwrite frames, and whole runs. */
module ConcurrentRuns {
  import opened MachineWords
  import opened Wrappers
  import opened FrameHeader
  import opened RingGeometry
  import opened FrameWalk
  import opened RingModel
  import opened RingLaws
  import opened ConcurrentRing

  /**
   Whatever step comes next, unless it is one of the two that lose, the invariant stays and the step is one of the
   queue: commits enqueue, the reader's store dequeues, everything else is invisible.
   */
  lemma StepRefinesFifo(s: State, step: Step)
    requires Good(s) && Enabled(s, step) && !Loses(s, step)
    ensures Good(Next(s, step)) && FifoStep(Abstract(s), Abstract(Next(s, step)))
    ensures step.StoreCommit? ==> Next(s, step).sent == s.sent + Committing(s)
    ensures step.ReaderStoreRead? ==> |Next(s, step).received| == |s.received| + 1
  {
    hide Enabled, Next, Committed, Overruns, OffsetToCommit, FrameAt, FrameStarts, Committing;
    hide Inv, WriterOk, ReaderOk, NewestOk, Pending;
    match step
    case LoadWriteInt(_, _) => LoadsKeep(s, step);
    case LoadReadOffset => LoadsKeep(s, step);
    case CompareExchange => ExchangeKeeps(s);
    case StoreHeaderByte => HeaderByteKeeps(s);
    case FillByte(k, off, b) => FillByteKeeps(s, k, off, b);
    case StoreSize(used) => StoreSizeKeeps(s, used);
    case StoreCommit =>
      var fs := CommitEnqueues(s);
      assert Abstract(Next(s, step)) == Fifo(Abstract(s).queue + fs, Abstract(s).sent + fs, Abstract(s).received);
    case ReaderLoadRead => LoadsKeep(s, step);
    case ReaderLoadCommit => LoadsKeep(s, step);
    case ReaderLoadByte => ReadByteKeeps(s);
    case ReaderStoreRead => StoreReadDequeues(s);
  }

  // ----- what it means to lose nothing

  predicate Walkable(s: State) {
    && MemoryOk(s.m, s.g) && InRing(s.g, s.offRead) && InRing(s.g, s.offWriteCom)
    && Linked(s.m, s.g, s.offRead, s.offWriteCom)
  }

  /** Byte `x` belongs to a frame that is committed and not released, or to a place handed out and not committed. */
  ghost predicate Taken(s: State, x: int)
    requires Walkable(s)
  {
    var committed := Slots(s.m, s.g, s.offRead, s.offWriteCom);
    || (exists k :: 0 <= k < |committed| && Occupies(committed[k], x))
    || (exists k :: 0 <= k < |s.pending| && Occupies(s.pending[k], x))
  }

  /**
   A reader that walks the headers from the read offset finds exactly the frames committed and not yet received, and the
   place being reserved shares no byte with any other frame.
   */
  ghost predicate NothingLost(s: State) {
    && Walkable(s)
    && s.sent == s.received + Queue(s.m, s.g, s.offRead, s.offWriteCom)
    && (s.writer.StoringHeader? ==> forall x | Occupies(s.writer.slot, x) :: !Taken(s, x))
  }

  lemma GoodLosesNothing(s: State)
    requires Good(s)
    ensures NothingLost(s)
  {
    hide Decode, Encode, Align8, Linked, Slots, Queue, ReaderOk, NewestOk, Occupies, Taken;
    if s.writer.StoringHeader? {
      forall x | Occupies(s.writer.slot, x)
        ensures !Taken(s, x)
      {
        ReservedIsFree(s, x);
      }
    }
  }

  lemma ReservedIsFree(s: State, x: int)
    requires Good(s) && s.writer.StoringHeader? && Occupies(s.writer.slot, x)
    ensures Walkable(s) && !Taken(s, x)
  {
    hide Decode, Encode, Align8, Linked, Slots, Queue, ReaderOk, NewestOk, Occupies;
    var committed := CommittedSlots(RingOf(s));
    forall k | 0 <= k < |committed|
      ensures !Occupies(committed[k], x)
    {
      FreePlaceDisjoint(RingOf(s), s.writer.slot, k, x);
    }
    forall k | 0 <= k < |s.pending|
      ensures !Occupies(s.pending[k], x)
    {
      FreePlaceDisjoint(RingOf(s), s.writer.slot, k, x);
    }
  }

  /** A commit that stores the read offset leaves the reader nothing to find. */
  lemma CommitLoses(s: State)
    requires Good(s) && Enabled(s, StoreCommit) && OffsetToCommit(s) == s.offRead
    ensures !NothingLost(Next(s, StoreCommit))
  {
  }

  /** The first byte the reader has not released belongs to the oldest frame outstanding. */
  lemma OldestTaken(s: State)
    requires Good(s) && Outstanding(s)
    ensures Walkable(s) && Taken(s, s.offRead)
  {
    var committed := CommittedSlots(RingOf(s));
    hide Decode, Encode, Align8, Queue, ReaderOk, WriterOk, NewestOk;
    if s.offRead != s.offWriteCom {
      assert committed[0].hdr == s.offRead && Occupies(committed[0], s.offRead);
    } else {
      PendingStarts(s, 0);
      assert Occupies(s.pending[0], s.offRead);
    }
  }

  /** If what is outstanding goes round the end of the ring, it takes the ring's first byte. */
  lemma StartTaken(s: State)
    requires Good(s) && !Full(s) && !s.writer.StoringHeader? && s.g.start < s.offWriteInt < s.offRead
    ensures Walkable(s) && Taken(s, s.g.start)
  {
    var r := RingOf(s);
    hide Decode, Encode, Align8, Linked, Slots, Queue, ReaderOk, WriterOk, NewestOk, Occupies;
    WalkJoins(s.m, s.g, s.offRead, s.offWriteCom, r.offWriteInt);
    var k := WalkCoversStart(s.m, s.g, s.offRead, r.offWriteInt);
    var committed := CommittedSlots(r);
    if k < |committed| {
      assert Occupies(committed[k], s.g.start);
    } else {
      assert Occupies(s.pending[k - |committed|], s.g.start);
    }
  }

  /** A byte that an overrun hands out although it is taken. */
  lemma OverrunOverlaps(s: State, slot: Slot) returns (x: int)
    requires Good(s) && s.writer.LoadedBoth? && Overruns(s)
    requires Place(s.g, s.writer.w, s.writer.r, Align8(s.writer.cb)) == Some(slot)
    ensures SlotOk(s.g, slot) && Occupies(slot, x) && Walkable(s) && Taken(s, x)
  {
    var r, w := RingOf(s), s.writer.w;
    hide Decode, Encode, Inv, Committed, Pending, ReaderOk, NewestOk, Taken, Walkable;
    InvHasShape(r);
    EmptyWalk(r);
    PlaceSound(s.g, w, w, Align8(s.writer.cb));
    if slot.pay != w + 8 && w < s.offRead {
      StartTaken(s);
      x := s.g.start;
    } else {
      OldestTaken(s);
      x := s.offRead;
    }
  }

  lemma OverrunLoses(s: State)
    requires Good(s) && Enabled(s, CompareExchange) && Overruns(s)
    ensures !NothingLost(Next(s, CompareExchange))
  {
    var slot := Place(s.g, s.writer.w, s.writer.r, Align8(s.writer.cb)).value;
    var x := OverrunOverlaps(s, slot);
    hide Overruns, Occupies, Place, Decode, Encode, Align8, Linked, Slots, Queue, ReaderOk, NewestOk;
    ExchangeFields(s, slot);
    assert Taken(Next(s, CompareExchange), x);
  }

  /** A step of a good state loses or overwrites frames if and only if it is an overrun or commits the read offset. */
  lemma LossExactly(s: State, step: Step)
    requires Good(s) && Enabled(s, step)
    ensures NothingLost(Next(s, step)) <==> !Loses(s, step)
  {
    hide Enabled, Next, Overruns, Good, NothingLost, OffsetToCommit;
    if !Loses(s, step) {
      StepRefinesFifo(s, step);
      GoodLosesNothing(Next(s, step));
    } else if step.StoreCommit? {
      CommitLoses(s);
    } else {
      OverrunLoses(s);
    }
  }

  // ----- runs

  /** An empty ring, as IntNetBufInit leaves it. */
  predicate Initial(s: State) {
    && MemoryOk(s.m, s.g) && AlignedRing(s.g) && InRing(s.g, s.g.start)
    && s.offRead == s.offWriteCom == s.offWriteInt == s.g.start
    && s.writer.Idle? && s.reader.Resting? && s.pending == [] && s.races == 0 && s.sent == [] && s.received == []
  }

  predicate IsRun(run: seq<State>, steps: seq<Step>) {
    && |run| == |steps| + 1 && Initial(run[0])
    && forall i | 0 <= i < |steps| :: Enabled(run[i], steps[i]) && run[i + 1] == Next(run[i], steps[i])
  }

  /** None of the first `n` steps overruns or commits the read offset. */
  predicate Harmless(run: seq<State>, steps: seq<Step>, n: nat)
    requires IsRun(run, steps) && n <= |steps|
  {
    forall i | 0 <= i < n :: !Loses(run[i], steps[i])
  }

  /**
   In every run without the two losing steps, however writer and reader interleave, every state is good, no exchange
   loses a race, and the reader has received exactly the first of the frames committed, in commit order and each one
   whole.
   */
  lemma {:induction false} RunsAreFifo(run: seq<State>, steps: seq<Step>, n: nat)
    requires IsRun(run, steps) && n <= |steps| && Harmless(run, steps, n)
    ensures Good(run[n]) && run[n].races == 0
    ensures run[n].received <= run[n].sent
    ensures run[n].sent == run[n].received + Committed(RingOf(run[n]))
    ensures n > 0 ==> Good(run[n - 1]) && FifoStep(Abstract(run[n - 1]), Abstract(run[n]))
    decreases n
  {
    if n > 0 {
      RunsAreFifo(run, steps, n - 1);
      hide Enabled, Next, Loses, Inv, Committed, Pending, WriterOk, ReaderOk, NewestOk;
      assert Enabled(run[n - 1], steps[n - 1]) && !Loses(run[n - 1], steps[n - 1]);
      StepRefinesFifo(run[n - 1], steps[n - 1]);
    }
  }

  lemma {:induction false} LossShows(run: seq<State>, steps: seq<Step>, n: nat)
    requires IsRun(run, steps) && n <= |steps|
    requires forall i | 0 <= i < |run| :: NothingLost(run[i])
    ensures Harmless(run, steps, n)
    decreases n
  {
    if n > 0 {
      LossShows(run, steps, n - 1);
      RunsAreFifo(run, steps, n - 1);
      hide Enabled, Next, Loses, Good, NothingLost;
      LossExactly(run[n - 1], steps[n - 1]);
      assert NothingLost(run[n]);
    }
  }

  /** A run never loses or overwrites a frame if and only if it has neither of the two losing steps. */
  lemma RunLosesNothingExactly(run: seq<State>, steps: seq<Step>)
    requires IsRun(run, steps)
    ensures (forall i | 0 <= i < |run| :: NothingLost(run[i])) <==> Harmless(run, steps, |steps|)
  {
    hide Enabled, Next, Loses, Good, NothingLost;
    if Harmless(run, steps, |steps|) {
      forall i | 0 <= i < |run|
        ensures NothingLost(run[i])
      {
        RunsAreFifo(run, steps, i);
        GoodLosesNothing(run[i]);
      }
    }
    if forall i | 0 <= i < |run| :: NothingLost(run[i]) {
      LossShows(run, steps, |steps|);
    }
  }

  // ----- the allocator's steps without interruption

  /** The state after the steps, if each is enabled. */
  function After(s: State, steps: seq<Step>): Option<State>
    decreases |steps|
  {
    if steps == [] then Some(s)
    else if Enabled(s, steps[0]) then After(Next(s, steps[0]), steps[1..])
    else None
  }

  function HeaderSteps(n: nat): seq<Step> {
    if n == 0 then [] else [StoreHeaderByte] + HeaderSteps(n - 1)
  }

  lemma OneByteMore(m: seq<byte>, at: nat, b: seq<byte>, i: nat)
    requires i < |b| && at + |b| <= |m|
    ensures Put(m[at + i := b[i]], at + i + 1, b[i + 1..]) == Put(m, at + i, b[i..])
  {
  }

  lemma {:induction false} HeaderRuns(s: State, i: nat)
    requires s.writer.StoringHeader? && s.writer.i == i <= HEADER_SIZE
    requires 0 <= s.writer.slot.hdr && s.writer.slot.hdr + HEADER_SIZE <= |s.m| && i < HEADER_SIZE
    ensures After(s, HeaderSteps(HEADER_SIZE - i))
         == Some(s.(m := Put(s.m, s.writer.slot.hdr + i, Encode(s.writer.hd)[i..]), writer := Idle,
                    pending := s.pending + [s.writer.slot]))
    decreases HEADER_SIZE - i
  {
    var b, h := Encode(s.writer.hd), s.writer.slot.hdr;
    var s' := Next(s, StoreHeaderByte);
    hide Encode, Put;
    OneByteMore(s.m, h, b, i);
    assert HeaderSteps(HEADER_SIZE - i) == [StoreHeaderByte] + HeaderSteps(HEADER_SIZE - i - 1);
    if i + 1 < HEADER_SIZE {
      HeaderRuns(s', i + 1);
    } else {
      assert Put(s'.m, h + i + 1, b[i + 1..]) == s'.m by {
        PutEmpty(s'.m, h + i + 1, b[i + 1..]);
      }
    }
  }

  lemma PutEmpty(m: seq<byte>, at: nat, b: seq<byte>)
    requires at <= |m| && b == []
    ensures Put(m, at, b) == m
  {
  }

  /** The ring as the allocator sees it. */
  function Seen(s: State): RingState {
    RingState(s.g, s.m, s.offRead, s.offWriteCom, s.offWriteInt, 0, 0, 0)
  }

  /**
   A writer that is not interrupted allocates exactly as the sequential allocator does: the same decision, place, memory
   and write offset.
   */
  lemma AllocateRuns(s: State, kind: u16, cb: u16)
    requires Shape(Seen(s)) && s.writer.Idle? && kind in {TYPE_FRAME, TYPE_GSO} && 12 <= cb
    ensures var (t, place) := Allocate(Seen(s), kind, cb);
      After(s, [LoadWriteInt(kind, cb), LoadReadOffset, CompareExchange]
        + HeaderSteps(if place.Some? then HEADER_SIZE else 0))
      == Some(if place.Some? then s.(m := t.m, offWriteInt := t.offWriteInt, pending := s.pending + [place.value])
        else s)
  {
    var s2 := s.(writer := LoadedBoth(kind, cb, s.offWriteInt, s.offRead));
    var place := Place(s.g, s.offWriteInt, s.offRead, Align8(cb));
    hide Encode, Put, Align8, After;
    Decides(s, kind, cb, s2, HeaderSteps(if place.Some? then HEADER_SIZE else 0));
    if place.Some? {
      PlaceSound(s.g, s.offWriteInt, s.offRead, Align8(cb));
      hide Place;
      Takes(s, s2, place.value);
    } else {
      NoSteps(s);
    }
  }

  /** The two loads and the exchange. */
  lemma Decides(s: State, kind: u16, cb: u16, s2: State, rest: seq<Step>)
    requires s.writer.Idle? && kind in {TYPE_FRAME, TYPE_GSO} && 12 <= cb
    requires s2 == s.(writer := LoadedBoth(kind, cb, s.offWriteInt, s.offRead))
    ensures After(s, [LoadWriteInt(kind, cb), LoadReadOffset, CompareExchange] + rest) == After(Exchanged(s2), rest)
  {
    hide After, Exchanged;
    ThreeSteps(s, LoadWriteInt(kind, cb), LoadReadOffset, CompareExchange, rest);
  }

  /** The header bytes after an exchange that found a place. */
  lemma Takes(s: State, s2: State, slot: Slot)
    requires GeometryOk(s.g) && s2.writer.LoadedBoth? && s2 == s.(writer := s2.writer) && s2.writer.w == s.offWriteInt
    requires SlotOk(s.g, slot) && slot.hdr + HEADER_SIZE <= |s.m|
    requires Place(s.g, s2.writer.w, s2.writer.r, Align8(s2.writer.cb)) == Some(slot)
    ensures -0x8000_0000 <= slot.pay - slot.hdr < 0x8000_0000
    ensures var hd := FrameHeaderFor(s2.writer.kind, s2.writer.cb, slot);
      After(Exchanged(s2), HeaderSteps(HEADER_SIZE))
      == Some(s.(m := Put(s.m, slot.hdr, Encode(hd)), offWriteInt := NextHeader(s.g, slot), writer := Idle,
                 pending := s.pending + [slot]))
  {
    hide Encode, Put, Align8, After, Place, NextHeader;
    var hd := FrameHeaderFor(s2.writer.kind, s2.writer.cb, slot);
    HeaderRuns(s.(offWriteInt := NextHeader(s.g, slot), writer := StoringHeader(slot, hd, 0)), 0);
    assert Encode(hd)[0..] == Encode(hd);
  }

  lemma NoSteps(s: State)
    ensures After(s, HeaderSteps(0)) == Some(s)
  {
  }

  lemma OneStep(s: State, a: Step, rest: seq<Step>)
    requires Enabled(s, a)
    ensures After(s, [a] + rest) == After(Next(s, a), rest)
  {
  }

  lemma ThreeSteps(s: State, a: Step, b: Step, c: Step, rest: seq<Step>)
    requires Enabled(s, a) && Enabled(Next(s, a), b) && Enabled(Next(Next(s, a), b), c)
    ensures After(s, [a, b, c] + rest) == After(Next(Next(Next(s, a), b), c), rest)
  {
    hide Enabled, Next, After;
    assert [a, b, c] + rest == [a] + ([b] + ([c] + rest));
    OneStep(s, a, [b] + ([c] + rest));
    OneStep(Next(s, a), b, [c] + rest);
    OneStep(Next(Next(s, a), b), c, rest);
  }

  /** A frame that fills an empty ring of 24 bytes exactly: nothing is lost until it is committed, and then it is. */
  lemma OnlyFrameLost(s: State)
    requires Initial(s) && s.g == Geometry(0, 24)
    ensures var allocation := [LoadWriteInt(TYPE_FRAME, 16), LoadReadOffset, CompareExchange]
        + HeaderSteps(HEADER_SIZE);
      && After(s, allocation).Some?
      && var t := After(s, allocation).value;
      && Good(t) && Full(t) && NothingLost(t)
      && Enabled(t, StoreCommit) && Loses(t, StoreCommit) && !NothingLost(Next(t, StoreCommit))
  {
    var slot, hd := Slot(0, 8, 16), Header(TYPE_FRAME, 16, 8);
    var t := s.(m := Put(s.m, 0, Encode(hd)), pending := [slot]);
    assert Align8(hd.cb) == 16;
    hide After, Put, Encode, Align8, HeaderSteps, Enabled, Loses, Good;
    FilledByOne(s, slot, hd, t);
    PlacedAlone(s, slot, hd, t);
    hide Loses, NothingLost, Enabled, Next, OffsetToCommit;
    GoodLosesNothing(t);
    CommitLoses(t);
  }

  lemma PlacedAlone(s: State, slot: Slot, hd: Header, t: State)
    requires GeometryOk(s.g) && s.writer.Idle? && s.offRead == s.offWriteInt && hd.kind == TYPE_FRAME && 12 <= hd.cb
    requires SlotOk(s.g, slot) && slot.hdr + HEADER_SIZE <= |s.m|
    requires Place(s.g, s.offWriteInt, s.offRead, Align8(hd.cb)) == Some(slot)
    requires NextHeader(s.g, slot) == s.offWriteInt && hd.off == slot.pay - slot.hdr
    requires t == s.(m := Put(s.m, slot.hdr, Encode(hd)), pending := s.pending + [slot])
    ensures After(s, [LoadWriteInt(TYPE_FRAME, hd.cb), LoadReadOffset, CompareExchange] + HeaderSteps(HEADER_SIZE))
        == Some(t)
  {
    hide After, Encode, Put, Align8, Place, NextHeader, HeaderSteps, Exchanged, U16;
    var s2 := s.(writer := LoadedBoth(TYPE_FRAME, hd.cb, s.offWriteInt, s.offRead));
    U16Identity(hd.cb);
    assert FrameHeaderFor(TYPE_FRAME, hd.cb, slot) == hd;
    Decides(s, TYPE_FRAME, hd.cb, s2, HeaderSteps(HEADER_SIZE));
    Takes(s, s2, slot);
  }

  lemma FilledByOne(s: State, slot: Slot, hd: Header, t: State)
    requires Initial(s) && s.g == Geometry(0, 24) && slot == Slot(0, 8, 16) && hd == Header(TYPE_FRAME, 16, 8)
    requires t == s.(m := Put(s.m, 0, Encode(hd)), pending := [slot])
    ensures Good(t) && Full(t) && Enabled(t, StoreCommit) && Loses(t, StoreCommit)
  {
    hide Decode, Encode, Put, Align8, SlotAt, SlotOk;
    SixteenIsAligned(hd.cb, slot);
    HeaderStands(s.m, t.m, s.g, slot, hd);
    EmptyWalk(RingOf(t));
  }

  lemma SixteenIsAligned(x: nat, slot: Slot)
    requires x == 16 && slot == Slot(0, 8, 16)
    ensures Align8(x) == 16 && SlotOk(Geometry(0, 24), slot)
  {
  }

  lemma HeaderStands(m: seq<byte>, m': seq<byte>, g: Geometry, slot: Slot, hd: Header)
    requires MemoryOk(m, g) && SlotOk(g, slot) && IsValidFrameType(hd.kind)
    requires slot.pay == slot.hdr + hd.off && slot.cap == Align8(hd.cb) && m' == Put(m, slot.hdr, Encode(hd))
    ensures MemoryOk(m', g) && FrameStarts(m', g, slot.hdr) && SlotAt(m', slot.hdr) == slot
  {
    DecodeEncode(hd);
    hide Decode, Encode, Align8;
    assert m'[slot.hdr..slot.hdr + HEADER_SIZE] == Encode(hd);
  }
}
