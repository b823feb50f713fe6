/** What becomes of the frames after a losing step, and an allocation guard that rules losing steps out. */
module ConcurrentLosses {
  import opened MachineWords
  import opened Wrappers
  import opened FrameHeader
  import opened RingGeometry
  import opened FrameWalk
  import opened RingModel
  import opened RingLaws
  import opened ConcurrentRing
  import opened ConcurrentRuns

  /** The steps can be taken one after the other and none of them loses. */
  predicate HarmlessFrom(s: State, steps: seq<Step>)
    decreases |steps|
  {
    steps == []
    || (Enabled(s, steps[0]) && !Loses(s, steps[0]) && HarmlessFrom(Next(s, steps[0]), steps[1..]))
  }

  function End(s: State, steps: seq<Step>): State
    requires HarmlessFrom(s, steps)
    decreases |steps|
  {
    if steps == [] then s else End(Next(s, steps[0]), steps[1..])
  }

  lemma FirstStep(s: State, step: Step, rest: seq<Step>)
    requires Enabled(s, step) && !Loses(s, step) && HarmlessFrom(Next(s, step), rest)
    ensures HarmlessFrom(s, [step] + rest) && End(s, [step] + rest) == End(Next(s, step), rest)
  {
  }

  // ----- a losing commit: recovered by a reader in the middle of a frame, final otherwise

  /** A commit that leaves something pending, or frames that do not fill the ring, stays away from the read offset. */
  lemma CommitKeepsAway(s: State)
    requires Good(s) && Enabled(s, StoreCommit) && |Pending(RingOf(s))| >= |Committing(s)|
    ensures OffsetToCommit(s) != s.offRead
  {
    var r := RingOf(s);
    hide Decode, Encode, Align8, Inv, Committed, Pending, ReaderOk, NewestOk, FrameAt;
    var t := r;
    if s.writer.Shrunk? {
      t := TwoCommits(r);
    } else {
      t := OneCommit(r);
    }
    EmptyWalk(t);
  }

  /** Only a commit of everything in a full ring meets the read offset. */
  lemma LosingCommit(s: State)
    requires Good(s) && Enabled(s, StoreCommit) && OffsetToCommit(s) == s.offRead
    ensures Full(s) && |s.pending| == |Committing(s)|
  {
    hide Inv, Pending, Committed, OffsetToCommit, ReaderOk, WriterOk, NewestOk, FrameStarts, FrameAt;
    if |Pending(RingOf(s))| >= |Committing(s)| {
      CommitKeepsAway(s);
    }
  }

  /** The ring after a losing commit is an ordinary empty ring that knows nothing of the frames. */
  lemma LeftEmpty(s: State, t: State)
    requires Good(s) && Enabled(s, StoreCommit) && OffsetToCommit(s) == s.offRead && !s.reader.Copying?
    requires t == Next(s, StoreCommit)
    ensures Good(t.(sent := t.received)) && |t.sent| > |t.received|
  {
    hide Decode, Encode, Align8, Slots, Queue, FrameStarts, FrameAt;
    LosingCommit(s);
    var t' := t.(sent := t.received);
    assert t'.pending == [] && t'.offRead == t'.offWriteCom == t'.offWriteInt;
    assert Inv(RingOf(t'));
    EmptyWalk(RingOf(t'));
  }

  /** The record of what was sent influences nothing else. */
  lemma SentIsOnlyRecorded(s: State, s': State, step: Step, d: nat)
    requires s == s'.(sent := s.sent) && |s.sent| == |s'.sent| + d && Enabled(s, step)
    ensures Enabled(s', step) && (Loses(s, step) <==> Loses(s', step))
    ensures Next(s, step) == Next(s', step).(sent := Next(s, step).sent)
    ensures |Next(s, step).sent| == |Next(s', step).sent| + d
  {
    hide Place, Decode, Encode, Align8, Put, NextHeader, FrameAt, FrameStarts, SlotAt;
  }

  /** Frames missing from the ring stay missing. */
  lemma {:induction false} StayMissing(t: State, t': State, steps: seq<Step>, d: nat)
    requires t == t'.(sent := t.sent) && |t.sent| == |t'.sent| + d && d > 0 && Good(t') && HarmlessFrom(t, steps)
    ensures !NothingLost(End(t, steps))
    decreases |steps|
  {
    if steps == [] {
      MissingShows(t, t', d);
    } else {
      hide Good, Enabled, Next, Loses, NothingLost;
      SentIsOnlyRecorded(t, t', steps[0], d);
      StepRefinesFifo(t', steps[0]);
      StayMissing(Next(t, steps[0]), Next(t', steps[0]), steps[1..], d);
    }
  }

  lemma MissingShows(t: State, t': State, d: nat)
    requires t == t'.(sent := t.sent) && |t.sent| == |t'.sent| + d && d > 0 && Good(t')
    ensures !NothingLost(t)
  {
  }

  /** The reader's next byte does not care about the commit. */
  lemma ByteCommutes(s: State)
    requires Good(s) && Enabled(s, StoreCommit) && Enabled(s, ReaderLoadByte)
    ensures var u, t := Next(s, ReaderLoadByte), Next(s, StoreCommit);
      && Enabled(u, StoreCommit) && OffsetToCommit(u) == OffsetToCommit(s)
      && Enabled(t, ReaderLoadByte) && Next(t, ReaderLoadByte) == Next(u, StoreCommit)
  {
    hide Good, Decode, Encode, Align8, NextHeader, FrameAt, FrameStarts, SlotAt;
  }

  /** Nor does the store of the read offset. */
  lemma StoreCommutes(s: State)
    requires Good(s) && Enabled(s, StoreCommit) && Enabled(s, ReaderStoreRead)
    ensures var u, t := Next(s, ReaderStoreRead), Next(s, StoreCommit);
      && Enabled(u, StoreCommit) && OffsetToCommit(u) == OffsetToCommit(s)
      && Enabled(t, ReaderStoreRead) && Next(t, ReaderStoreRead) == Next(u, StoreCommit)
  {
    hide Good, Decode, Encode, Align8, NextHeader, FrameAt, FrameStarts, SlotAt;
  }

  /** The reader's store right after a losing commit makes up for it. */
  lemma StoreRecovers(s: State)
    requires Good(s) && Enabled(s, StoreCommit) && OffsetToCommit(s) == s.offRead && Enabled(s, ReaderStoreRead)
    ensures Enabled(Next(s, StoreCommit), ReaderStoreRead)
    ensures Good(Next(Next(s, StoreCommit), ReaderStoreRead))
  {
    hide Good, Enabled, Next, OffsetToCommit, Abstract;
    StoreReadDequeues(s);
    StoreCommutes(s);
    var fs := CommitEnqueues(Next(s, ReaderStoreRead));
  }

  /** A reader in the middle of a frame finishes it and finds every frame again. */
  lemma {:induction false} CopyingRecovers(s: State, room: nat) returns (steps: seq<Step>)
    requires Good(s) && Enabled(s, StoreCommit) && OffsetToCommit(s) == s.offRead && s.reader.Copying?
    requires |s.reader.got| + room == HEADER_SIZE + 0x1_0000
    ensures HarmlessFrom(Next(s, StoreCommit), steps) && Good(End(Next(s, StoreCommit), steps))
    decreases room
  {
    hide Good, Next, OffsetToCommit, StartsAt, CopyComplete, NextAddress, Abstract, FrameAt;
    ReaderNotStuck(s);
    var t := Next(s, StoreCommit);
    if Enabled(s, ReaderStoreRead) {
      StoreRecovers(s);
      EndsHere(Next(t, ReaderStoreRead));
      FirstStep(t, ReaderStoreRead, []);
      steps := [ReaderStoreRead] + [];
    } else {
      RoomLeft(s, room);
      ReadByteKeeps(s);
      ByteCommutes(s);
      var rest := CopyingRecovers(Next(s, ReaderLoadByte), room - 1);
      FirstStep(t, ReaderLoadByte, rest);
      steps := [ReaderLoadByte] + rest;
    }
  }

  lemma EndsHere(s: State)
    ensures HarmlessFrom(s, []) && End(s, []) == s
  {
  }

  lemma RoomLeft(s: State, room: nat)
    requires Good(s) && Enabled(s, ReaderLoadByte) && |s.reader.got| + room == HEADER_SIZE + 0x1_0000
    ensures room > 0 && Next(s, ReaderLoadByte).reader.Copying?
    ensures |Next(s, ReaderLoadByte).reader.got| == |s.reader.got| + 1 && Next(s, ReaderLoadByte).offRead == s.offRead
  {
  }

  /**
   After a losing commit harmless steps can bring every frame back if and only if the reader was in the middle of a
   frame at the commit; otherwise the frames are gone for good.
   */
  lemma CommitLossIsFinalExactly(s: State)
    requires Good(s) && Enabled(s, StoreCommit) && OffsetToCommit(s) == s.offRead
    ensures (exists steps :: HarmlessFrom(Next(s, StoreCommit), steps) && NothingLost(End(Next(s, StoreCommit), steps)))
            <==> s.reader.Copying?
  {
    var t := Next(s, StoreCommit);
    hide Next, Enabled, OffsetToCommit, HarmlessFrom, End, NothingLost;
    if s.reader.Copying? {
      var steps := CopyingRecovers(s, Remaining(s));
      GoodLosesNothing(End(t, steps));
    } else {
      LeftEmpty(s, t);
      hide Good;
      forall steps | HarmlessFrom(t, steps)
        ensures !NothingLost(End(t, steps))
      {
        StayMissing(t, t.(sent := t.received), steps, |t.sent| - |t.received|);
      }
    }
  }

  /** How many bytes the largest frame could still have for the reader. */
  function Remaining(s: State): nat
    requires Good(s) && s.reader.Copying?
  {
    HEADER_SIZE + 0x1_0000 - |s.reader.got|
  }

  // ----- an overrun that the reader outruns

  /**
   If the reader's next store releases what an overrun reaches, and comes before anything is written, nothing is lost.
   */
  lemma OverrunRecovers(s: State)
    requires Good(s) && s.writer.LoadedBoth? && Overruns(s) && Enabled(s, ReaderStoreRead)
    requires !Overruns(Next(s, ReaderStoreRead))
    ensures Enabled(Next(s, CompareExchange), ReaderStoreRead)
    ensures Good(Next(Next(s, CompareExchange), ReaderStoreRead))
  {
    ExchangeCommutes(s);
    hide Good, Next, Overruns, Abstract;
    StoreReadDequeues(s);
    ExchangeKeeps(Next(s, ReaderStoreRead));
  }

  lemma ExchangeCommutes(s: State)
    requires s.writer.LoadedBoth? && Enabled(s, ReaderStoreRead)
    ensures var u, t := Next(s, ReaderStoreRead), Next(s, CompareExchange);
      && u.writer == s.writer && Enabled(t, ReaderStoreRead)
      && Next(t, ReaderStoreRead) == Next(u, CompareExchange)
  {
    hide Place, Decode, Encode, Align8, NextHeader;
  }

  // ----- a guard on what the allocator has loaded

  /** The exchange takes an exact fit of the offsets it has loaded. */
  predicate TakesExactFit(s: State, step: Step) {
    step.CompareExchange? && s.writer.LoadedBoth?
    && ExactFit(s.g, s.writer.w, s.writer.r, Align8(s.writer.cb))
  }

  /** The ring is never full: a byte stays free, as the ring's description promises. */
  predicate ByteFree(s: State) {
    && !Full(s)
    && (s.writer.LoadedBoth? && s.writer.r == s.writer.w ==> !Outstanding(s))
    && (s.writer.StoringHeader? ==> Dist(s.g, s.offRead, s.writer.slot.hdr) + Foot(s.g, s.writer.slot) < s.g.Size())
  }

  lemma ByteStaysFree(s: State, step: Step)
    requires Good(s) && ByteFree(s) && Enabled(s, step) && !TakesExactFit(s, step)
    ensures !Loses(s, step) && ByteFree(Next(s, step))
  {
    hide Decode, Encode, Align8, Inv, Committed, Pending, ReaderOk, NewestOk, Place, FrameStarts, FrameAt;
    match step
    case LoadWriteInt(_, _) =>
    case LoadReadOffset => EmptyWalk(RingOf(s));
    case CompareExchange => ExchangeLeavesByte(s);
    case StoreHeaderByte => HeaderLeavesByte(s);
    case FillByte(_, _, _) =>
    case StoreSize(_) =>
    case StoreCommit => CommitLeavesByte(s);
    case ReaderLoadRead =>
    case ReaderLoadCommit =>
    case ReaderLoadByte =>
    case ReaderStoreRead => ReadLeavesByte(s);
  }

  lemma ExchangeLeavesByte(s: State)
    requires Good(s) && ByteFree(s) && Enabled(s, CompareExchange) && !TakesExactFit(s, CompareExchange)
    ensures !Overruns(s) && ByteFree(Next(s, CompareExchange))
  {
    var s', place := Next(s, CompareExchange), Place(s.g, s.writer.w, s.writer.r, Align8(s.writer.cb));
    hide Good, Place, Align8, ExactFit;
    if place.Some? {
      PlacementFits(s, place.value);
      PlacementLeavesByte(s, place.value);
      ExchangeFields(s, place.value);
      hide Dist, Foot, Exchanged;
      assert s'.writer.slot == place.value && s'.offRead == s.offRead && s'.g == s.g;
    }
  }

  /** A placement that is no exact fit of the loaded offsets leaves a byte free now. */
  lemma PlacementLeavesByte(s: State, slot: Slot)
    requires Good(s) && ByteFree(s) && s.writer.LoadedBoth? && !TakesExactFit(s, CompareExchange)
    requires Place(s.g, s.writer.w, s.writer.r, Align8(s.writer.cb)) == Some(slot)
    ensures Dist(s.g, s.offRead, slot.hdr) + Foot(s.g, slot) < s.g.Size()
  {
    var w := s.writer;
    hide Decode, Encode, Align8, Inv, Committed, Pending, ReaderOk, NewestOk;
    InvHasShape(RingOf(s));
    EmptyWalk(RingOf(s));
    PlaceSound(s.g, w.w, w.r, Align8(w.cb));
    hide Place;
    DistAdd(s.g, w.r, s.offRead, w.w);
  }

  lemma HeaderLeavesByte(s: State)
    requires Good(s) && ByteFree(s) && Enabled(s, StoreHeaderByte)
    ensures ByteFree(Next(s, StoreHeaderByte))
  {
    hide Decode, Encode, Align8, Inv, Committed, Pending, ReaderOk, NewestOk;
    InvHasShape(RingOf(s));
    NextMeetsReader(s.g, s.offRead, s.writer.slot);
  }

  lemma ReadLeavesByte(s: State)
    requires Good(s) && ByteFree(s) && Enabled(s, ReaderStoreRead)
    ensures ByteFree(Next(s, ReaderStoreRead))
  {
    hide Decode, Encode, Align8, Inv, Committed, Pending, NewestOk, Abstract, FrameStarts, FrameAt;
    StoreReadDequeues(s);
  }

  lemma CommitLeavesByte(s: State)
    requires Good(s) && ByteFree(s) && Enabled(s, StoreCommit)
    ensures OffsetToCommit(s) != s.offRead && ByteFree(Next(s, StoreCommit))
  {
    hide Decode, Encode, Align8, Inv, Committed, Pending, ReaderOk, WriterOk, NewestOk, OffsetToCommit;
    if OffsetToCommit(s) == s.offRead {
      LosingCommit(s);
    }
  }

  /** A run whose exchanges never take an exact fit of the offsets they have loaded has no losing step. */
  lemma {:induction false} AvoidingExactFitIsHarmless(run: seq<State>, steps: seq<Step>, n: nat)
    requires IsRun(run, steps) && n <= |steps| && forall i | 0 <= i < n :: !TakesExactFit(run[i], steps[i])
    ensures Harmless(run, steps, n) && Good(run[n]) && ByteFree(run[n])
    decreases n
  {
    RunsStartFree(run[0]);
    hide Good, Enabled, Next, Loses, ByteFree, TakesExactFit, Initial;
    if n > 0 {
      AvoidingExactFitIsHarmless(run, steps, n - 1);
      assert Enabled(run[n - 1], steps[n - 1]) && run[n] == Next(run[n - 1], steps[n - 1]);
      ByteStaysFree(run[n - 1], steps[n - 1]);
      StepRefinesFifo(run[n - 1], steps[n - 1]);
    } else {
      RunsAreFifo(run, steps, 0);
    }
  }

  lemma RunsStartFree(s: State)
    requires Initial(s)
    ensures ByteFree(s)
  {
  }
}
